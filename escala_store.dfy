/**
 * The roster tables as the database holds them, and the two transactions of the roster service
 * that write to them. Each transaction is proved against the function that says what one call
 * computes, and keeps the rest rule over the allocation table.
 */
module EscalaBanco {
  import opened Wrappers
  import opened Text
  import opened EscalaModel
  import opened EscalaService
  import opened EscalaGarantias

  class EscalaStore {
    var users: map<UserId, Candidato>
    var postos: seq<Posto>
    var indisponibilidades: seq<Indisponibilidade>
    var alocacoes: map<AlocacaoId, Alocacao>
    var escalas: map<Date, Escala>
    var trocas: map<TrocaId, Troca>

    function Tabelas(): Tables
      reads this
    {
      Tables(users, postos, indisponibilidades, alocacoes, escalas, trocas)
    }

    /** Every user row is stored under its own id, and nobody holds allocations on adjacent days. */
    ghost predicate Valid()
      reads this
    {
      TabelasValidas(Tabelas())
    }

    constructor (t: Tables)
      ensures Tabelas() == t
    {
      users, postos, indisponibilidades := t.users, t.postos, t.indisponibilidades;
      alocacoes, escalas, trocas := t.alocacoes, t.escalas, t.trocas;
    }

    /**
     * `gerar_escala_diaria`. The writes go to local copies (the open transaction) and reach the
     * fields only at the commit; an error returns before it, so nothing of the run persists.
     * `ordem` lists every user once, in the order the users table is scanned; the one scan order
     * serves every post of the run. `uuids` is the fresh id for each post.
     */
    method GerarEscalaDiaria(dataAlvo: Date, tipo: TipoRotina, ordem: seq<UserId>, uuids: seq<AlocacaoId>)
      returns (r: Result<(), ErroEscala>)
      requires |uuids| == |postos|
      requires forall u :: u in users <==> u in ordem
      requires forall i, j :: 0 <= i < j < |ordem| ==> ordem[i] != ordem[j]
      modifies this
      ensures match GeracaoDiaria(old(Tabelas()), dataAlvo, tipo, ordem, uuids, AceitaAno)
              case Ok(t) => r.Ok? && Tabelas() == t
              case Err(e) => r == Err(e) && Tabelas() == old(Tabelas())
      ensures old(Valid()) ==> Valid()
    {
      // INSERT OR IGNORE INTO escalas
      var escalasTx := escalas;
      if dataAlvo !in escalasTx {
        escalasTx := escalasTx[dataAlvo := Escala(dataAlvo, AsStr(tipo), StatusRascunho)];
      }
      var usersTx, alocacoesTx := users, alocacoes;
      var listaPostos, indisp := postos, indisponibilidades;
      ghost var spec := AlocarPostos(usersTx, alocacoesTx, listaPostos, uuids, indisp, ordem, dataAlvo, tipo, AceitaAno);

      var i := 0;
      assert listaPostos[0..] == listaPostos && uuids[0..] == uuids;
      while i < |listaPostos|
        invariant 0 <= i <= |listaPostos| == |uuids|
        invariant Tabelas() == old(Tabelas())
        invariant spec == AlocarPostos(usersTx, alocacoesTx, listaPostos[i..], uuids[i..], indisp, ordem, dataAlvo, tipo, AceitaAno)
      {
        var posto := listaPostos[i];
        assert listaPostos[i..][0] == posto && listaPostos[i..][1..] == listaPostos[i + 1..];
        assert uuids[i..][0] == uuids[i] && uuids[i..][1..] == uuids[i + 1..];
        var passo := AlocarUmPosto(usersTx, alocacoesTx, posto, uuids[i], indisp, ordem, dataAlvo, tipo, AceitaAno);
        match passo {
          case Err(e) =>
            r := Err(e);
            return;
          case Ok(t) =>
            usersTx, alocacoesTx := t.0, t.1;
        }
        i := i + 1;
      }
      // COMMIT
      assert listaPostos[i..] == [] && uuids[i..] == [];
      escalas, users, alocacoes := escalasTx, usersTx, alocacoesTx;
      r := Ok(());
      if old(Valid()) {
        assert GeracaoDiaria(old(Tabelas()), dataAlvo, tipo, ordem, uuids, AceitaAno) == Ok(Tabelas());
        GeracaoDiariaSemFadiga(old(Tabelas()), dataAlvo, tipo, ordem, uuids, AceitaAno, Tabelas());
      }
    }

    /** `aprovar_troca` at instant `agora`; every error returns before the first write. */
    method AprovarTroca(trocaId: TrocaId, agora: int) returns (r: Result<(), ErroTroca>)
      modifies this
      ensures match AprovacaoTroca(old(Tabelas()), trocaId, agora)
              case Ok(t) => r.Ok? && Tabelas() == t
              case Err(e) => r == Err(e) && Tabelas() == old(Tabelas())
      ensures old(Valid()) ==> Valid()
    {
      // SELECT ... FROM trocas JOIN alocacoes JOIN escalas WHERE t.id = ? AND t.status = 'Pendente'
      if !(trocaId in trocas && trocas[trocaId].status == StatusPendente
           && trocas[trocaId].alocacaoId in alocacoes && alocacoes[trocas[trocaId].alocacaoId].data in escalas) {
        return Err(TrocaNaoEncontrada);
      }
      var troca := trocas[trocaId];
      var aloc := alocacoes[troca.alocacaoId];
      var tipoRotina := escalas[aloc.data].tipoRotina;

      if TemConflito(alocacoes, troca.substitutoId, aloc.data) {
        return Err(FadigaSubstituto);
      }
      alocacoes := alocacoes[troca.alocacaoId := aloc.(userId := troca.substitutoId)];
      if !aloc.isPunicao {
        var tipo := TipoDoCabecalho(tipoRotina);
        users := AjustarContador(users, troca.solicitanteId, tipo, -1);
        users := AjustarContador(users, troca.substitutoId, tipo, 1);
      }
      trocas := trocas[trocaId := troca.(status := StatusAprovada, dataResposta := Some(agora))];
      r := Ok(());
      if old(Valid()) {
        AprovacaoTrocaSemFadiga(old(Tabelas()), trocaId, agora, Tabelas());
        AprovacaoTrocaOutros(old(Tabelas()), trocaId, agora, Tabelas());
        forall u | u in users ensures users[u].id == u {
          assert SoContadores(users[u], old(users)[u]);
        }
      }
    }
  }
}
