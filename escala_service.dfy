/**
 * The roster engine: one day's greedy allocation over all posts (`gerar_escala_diaria`) and the
 * scheduler's approval of a swap (`aprovar_troca`). The functions below say, on table values, what
 * one call computes; the store that runs them is `EscalaBanco.EscalaStore`.
 */
module EscalaService {
  import opened Wrappers
  import opened Text
  import opened Sorting
  import opened EscalaModel

  /** Normal routine (RN) or Sunday/holiday routine (RD); each has its own fairness counter. */
  datatype TipoRotina = RN | RD

  /** `TipoRotina::as_str`, the text stored in a day header. */
  function AsStr(t: TipoRotina): string {
    match t
    case RN => "RN"
    case RD => "RD"
  }

  /** How `aprovar_troca` reads a stored duty type back: "RN" is RN, anything else RD. */
  function TipoDoCabecalho(s: string): TipoRotina {
    if s == "RN" then RN else RD
  }

  /** Reading back the stored text gives the duty type that was written. */
  lemma TipoDoCabecalhoAsStr(t: TipoRotina)
    ensures TipoDoCabecalho(AsStr(t)) == t
    ensures AsStr(t) == "RN" <==> t == RN
  {
  }

  const StatusRascunho := "Rascunho"
  const StatusPendente := "Pendente"
  const StatusAprovada := "Aprovada"

  /** A day header: its duty type as text and its status. */
  datatype Escala = Escala(data: Date, tipoRotina: string, status: string)

  /** The tables the engine reads and writes. */
  datatype Tables = Tables(
    users: map<UserId, Candidato>,
    postos: seq<Posto>,
    indisponibilidades: seq<Indisponibilidade>,
    alocacoes: map<AlocacaoId, Alocacao>,
    escalas: map<Date, Escala>,
    trocas: map<TrocaId, Troca>)

  datatype ErroEscala =
    | SemCandidato(posto: string, turmasPermitidas: string)  // nobody can fill this post
    | IdRepetido(id: AlocacaoId)                              // the INSERT hit an existing primary key

  datatype ErroTroca =
    | TrocaNaoEncontrada   // no pending swap with that id (or its allocation/day is missing)
    | FadigaSubstituto     // the substitute would break the rest rule

  /** Every user row is stored under its own id (the primary key). */
  ghost predicate ChavesConsistentes(users: map<UserId, Candidato>) {
    forall u :: u in users ==> users[u].id == u
  }

  // ---------------------------------------------------------------------------
  // The candidate query.

  /** The fairness counter the day's duty type selects. */
  function Contador(c: Candidato, tipo: TipoRotina): int {
    match tipo
    case RN => c.servicosRn
    case RD => c.servicosRd
  }

  /** `ORDER BY saldo_punicoes DESC, <counter> ASC`: `a` may come before `b`. */
  predicate Precede(a: Candidato, b: Candidato, tipo: TipoRotina) {
    a.saldoPunicoes > b.saldoPunicoes
    || (a.saldoPunicoes == b.saldoPunicoes && Contador(a, tipo) <= Contador(b, tipo))
  }

  function Ordem(tipo: TipoRotina): (Candidato, Candidato) -> bool {
    (a: Candidato, b: Candidato) => Precede(a, b, tipo)
  }

  lemma OrdemTotal(tipo: TipoRotina)
    ensures TotalPreorder(Ordem(tipo))
  {
  }

  /** `u.genero = ? OR ? = 'Misto'`. */
  predicate ServeGenero(posto: Posto, c: Candidato) {
    c.genero == posto.generoRestricao || posto.generoRestricao == "Misto"
  }

  /** Some unavailability window of the user covers the date (`? BETWEEN data_inicio AND data_fim`). */
  predicate Indisponivel(indisp: seq<Indisponibilidade>, uid: UserId, d: Date) {
    exists i :: 0 <= i < |indisp| && indisp[i].userId == uid && indisp[i].dataInicio <= d <= indisp[i].dataFim
  }

  predicate NoPool(users: map<UserId, Candidato>, indisp: seq<Indisponibilidade>, posto: Posto, d: Date, c: Candidato) {
    c.id in users && users[c.id] == c && ServeGenero(posto, c) && !Indisponivel(indisp, c.id, d)
  }

  /** The WHERE clause over the users in the order the table is scanned. */
  function Filtrar(ordem: seq<UserId>, users: map<UserId, Candidato>, posto: Posto,
                   indisp: seq<Indisponibilidade>, d: Date): seq<Candidato>
  {
    if ordem == [] then []
    else
      var rest := Filtrar(ordem[1..], users, posto, indisp, d);
      if ordem[0] in users && ServeGenero(posto, users[ordem[0]]) && !Indisponivel(indisp, users[ordem[0]].id, d)
      then [users[ordem[0]]] + rest
      else rest
  }

  /** The filter keeps exactly the scanned users of the right gender who are available that day. */
  lemma {:induction false} FiltrarMembros(ordem: seq<UserId>, users: map<UserId, Candidato>, posto: Posto,
                                          indisp: seq<Indisponibilidade>, d: Date)
    requires ChavesConsistentes(users)
    ensures forall c :: c in Filtrar(ordem, users, posto, indisp, d) ==> NoPool(users, indisp, posto, d, c)
    ensures forall u :: u in users && u in ordem && ServeGenero(posto, users[u]) && !Indisponivel(indisp, u, d)
              ==> users[u] in Filtrar(ordem, users, posto, indisp, d)
  {
    if ordem != [] {
      FiltrarMembros(ordem[1..], users, posto, indisp, d);
      forall u | u in users && u in ordem && u != ordem[0] ensures u in ordem[1..] {
        var i :| 0 <= i < |ordem| && ordem[i] == u;
        assert ordem[1..][i - 1] == u;
      }
    }
  }

  /**
   * The candidate pool for a post: the filtered users ranked by punishment balance (descending),
   * then by the day type's counter (ascending). `ordem` is the order the store yields rows in,
   * which decides among equally ranked candidates, since the query sets no further key.
   */
  function Candidatos(users: map<UserId, Candidato>, indisp: seq<Indisponibilidade>, ordem: seq<UserId>,
                      posto: Posto, d: Date, tipo: TipoRotina): seq<Candidato> {
    SortBy(Filtrar(ordem, users, posto, indisp, d), Ordem(tipo))
  }

  /** The pool holds exactly the eligible users, in rank order. */
  lemma CandidatosPool(users: map<UserId, Candidato>, indisp: seq<Indisponibilidade>, ordem: seq<UserId>,
                       posto: Posto, d: Date, tipo: TipoRotina)
    requires ChavesConsistentes(users)
    ensures SortedBy(Candidatos(users, indisp, ordem, posto, d, tipo), Ordem(tipo))
    ensures forall c :: c in Candidatos(users, indisp, ordem, posto, d, tipo) ==> NoPool(users, indisp, posto, d, c)
    ensures forall u :: u in users && u in ordem && ServeGenero(posto, users[u]) && !Indisponivel(indisp, u, d)
              ==> users[u] in Candidatos(users, indisp, ordem, posto, d, tipo)
  {
    var f := Filtrar(ordem, users, posto, indisp, d);
    FiltrarMembros(ordem, users, posto, indisp, d);
    OrdemTotal(tipo);
    SortBySorted(f, Ordem(tipo));
    forall c | c in Candidatos(users, indisp, ordem, posto, d, tipo) ensures NoPool(users, indisp, posto, d, c) {
      SortByMembers(f, Ordem(tipo), c);
    }
    forall u | u in users && u in ordem && ServeGenero(posto, users[u]) && !Indisponivel(indisp, u, d)
      ensures users[u] in Candidatos(users, indisp, ordem, posto, d, tipo)
    {
      var i :| 0 <= i < |ordem| && ordem[i] == u;
      SortByMembers(f, Ordem(tipo), users[u]);
    }
  }

  // ---------------------------------------------------------------------------
  // Selection.

  /** The rest rule: the user holds an allocation dated between `d - 1` and `d + 1`. */
  predicate TemConflito(alocs: map<AlocacaoId, Alocacao>, uid: UserId, d: Date) {
    exists k :: k in alocs && alocs[k].userId == uid && d - 1 <= alocs[k].data <= d + 1
  }

  /**
   * The seniority rule a post applies to a year. The store always uses `AceitaAno`; the engine's
   * functions take it as a parameter, so what is proved about them holds whatever the rule says.
   */
  type Senioridade = (Posto, int) -> bool

  /** A pool member qualifies: their year is accepted and the rest rule holds. */
  predicate Apto(posto: Posto, c: Candidato, alocs: map<AlocacaoId, Alocacao>, d: Date, aceita: Senioridade) {
    aceita(posto, c.ano) && !TemConflito(alocs, c.id, d)
  }

  function Qualifica(posto: Posto, alocs: map<AlocacaoId, Alocacao>, d: Date, aceita: Senioridade): Candidato -> bool {
    c => Apto(posto, c, alocs, d, aceita)
  }

  /** The first member of the pool at or after `from` that passes `ok`. */
  function PrimeiroQue(pool: seq<Candidato>, ok: Candidato -> bool, from: nat): (r: Option<nat>)
    requires from <= |pool|
    decreases |pool| - from
    ensures r.Some? ==> from <= r.value < |pool| && ok(pool[r.value])
    ensures r.Some? ==> forall k :: from <= k < r.value ==> !ok(pool[k])
    ensures r.None? ==> forall k :: from <= k < |pool| ==> !ok(pool[k])
  {
    if from == |pool| then None
    else if ok(pool[from]) then Some(from)
    else PrimeiroQue(pool, ok, from + 1)
  }

  /** Greedy first fit picks a best-ranked qualifying member of a sorted pool. */
  lemma EscolhidoMaisPrioritario(pool: seq<Candidato>, ok: Candidato -> bool, tipo: TipoRotina, c: Candidato)
    requires SortedBy(pool, Ordem(tipo))
    requires PrimeiroQue(pool, ok, 0).Some?
    requires c in pool && ok(c)
    ensures Precede(pool[PrimeiroQue(pool, ok, 0).value], c, tipo)
  {
    var k := PrimeiroQue(pool, ok, 0).value;
    var m :| 0 <= m < |pool| && pool[m] == c;
    if m != k {
      assert k < m;
      assert Ordem(tipo)(pool[k], pool[m]);
    }
  }

  /** The person a post gets from its ranked pool, if anyone qualifies. */
  function Escolha(pool: seq<Candidato>, posto: Posto, alocs: map<AlocacaoId, Alocacao>, d: Date, aceita: Senioridade)
    : Option<Candidato>
  {
    match PrimeiroQue(pool, Qualifica(posto, alocs, d, aceita), 0)
    case None => None
    case Some(k) => Some(pool[k])
  }

  /** The inner loop of the generation: scan the ranked pool for the first qualifying person. */
  method EscolherCandidato(candidatos: seq<Candidato>, posto: Posto, alocs: map<AlocacaoId, Alocacao>, dataAlvo: Date,
                           aceita: Senioridade)
    returns (escolhido: Option<Candidato>)
    ensures escolhido == Escolha(candidatos, posto, alocs, dataAlvo, aceita)
  {
    ghost var ok := Qualifica(posto, alocs, dataAlvo, aceita);
    escolhido := None;
    var j := 0;
    while j < |candidatos|
      invariant 0 <= j <= |candidatos|
      invariant PrimeiroQue(candidatos, ok, 0) == PrimeiroQue(candidatos, ok, j)
    {
      var user := candidatos[j];
      // seniority: the post must accept the candidate's year
      if !aceita(posto, user.ano) {
        j := j + 1;
        continue;
      }
      // rest rule: nothing from the day before to the day after
      var temConflito := TemConflito(alocs, user.id, dataAlvo);
      if !temConflito {
        escolhido := Some(user);
        return;
      }
      j := j + 1;
    }
  }

  // ---------------------------------------------------------------------------
  // Bookkeeping.

  /** A punished person pays one from the balance; anyone else earns one on the day type's counter. */
  function Registrar(c: Candidato, tipo: TipoRotina): Candidato {
    if c.saldoPunicoes > 0 then c.(saldoPunicoes := c.saldoPunicoes - 1)
    else match tipo
      case RN => c.(servicosRn := c.servicosRn + 1)
      case RD => c.(servicosRd := c.servicosRd + 1)
  }

  /** What the counter update does to a person, field by field. */
  lemma RegistrarEfeito(c: Candidato, tipo: TipoRotina)
    ensures Registrar(c, tipo).id == c.id && Registrar(c, tipo).ano == c.ano && Registrar(c, tipo).genero == c.genero
    ensures c.saldoPunicoes > 0 ==> Registrar(c, tipo) == c.(saldoPunicoes := c.saldoPunicoes - 1)
    ensures c.saldoPunicoes <= 0 ==> Registrar(c, tipo).saldoPunicoes == c.saldoPunicoes
    ensures c.saldoPunicoes <= 0 ==> Contador(Registrar(c, tipo), tipo) == Contador(c, tipo) + 1
    ensures c.saldoPunicoes <= 0 ==> tipo == RN ==> Registrar(c, tipo).servicosRd == c.servicosRd
    ensures c.saldoPunicoes <= 0 ==> tipo == RD ==> Registrar(c, tipo).servicosRn == c.servicosRn
  {
  }

  /** One post: rank its pool, take the first qualifying person, allocate and count. */
  function AlocarPosto(users: map<UserId, Candidato>, alocs: map<AlocacaoId, Alocacao>, posto: Posto, id: AlocacaoId,
                       indisp: seq<Indisponibilidade>, ordem: seq<UserId>, d: Date, tipo: TipoRotina, aceita: Senioridade)
    : Result<(map<UserId, Candidato>, map<AlocacaoId, Alocacao>), ErroEscala>
  {
    match Escolha(Candidatos(users, indisp, ordem, posto, d, tipo), posto, alocs, d, aceita)
    case None => Err(SemCandidato(posto.nome, posto.turmasPermitidas))
    case Some(c) =>
      if id in alocs then Err(IdRepetido(id))
      else Ok((users[c.id := Registrar(c, tipo)], alocs[id := Alocacao(id, c.id, posto.id, d, c.saldoPunicoes > 0)]))
  }

  /** The posts in order, each one seeing the allocations and counters the earlier ones left. */
  function AlocarPostos(users: map<UserId, Candidato>, alocs: map<AlocacaoId, Alocacao>, postos: seq<Posto>,
                        ids: seq<AlocacaoId>, indisp: seq<Indisponibilidade>, ordem: seq<UserId>,
                        d: Date, tipo: TipoRotina, aceita: Senioridade)
    : Result<(map<UserId, Candidato>, map<AlocacaoId, Alocacao>), ErroEscala>
    requires |ids| == |postos|
    decreases |postos|
  {
    if postos == [] then Ok((users, alocs))
    else match AlocarPosto(users, alocs, postos[0], ids[0], indisp, ordem, d, tipo, aceita)
      case Err(e) => Err(e)
      case Ok(r) => AlocarPostos(r.0, r.1, postos[1..], ids[1..], indisp, ordem, d, tipo, aceita)
  }

  /** The header row `INSERT OR IGNORE` leaves behind. */
  function ComCabecalho(escalas: map<Date, Escala>, d: Date, tipo: TipoRotina): map<Date, Escala> {
    if d in escalas then escalas else escalas[d := Escala(d, AsStr(tipo), StatusRascunho)]
  }

  /** One call of `gerar_escala_diaria`: the new tables, or the error that rolled everything back. */
  function GeracaoDiaria(t: Tables, d: Date, tipo: TipoRotina, ordem: seq<UserId>, ids: seq<AlocacaoId>, aceita: Senioridade)
    : Result<Tables, ErroEscala>
    requires |ids| == |t.postos|
  {
    match AlocarPostos(t.users, t.alocacoes, t.postos, ids, t.indisponibilidades, ordem, d, tipo, aceita)
    case Err(e) => Err(e)
    case Ok(r) => Ok(t.(users := r.0, alocacoes := r.1, escalas := ComCabecalho(t.escalas, d, tipo)))
  }

  // ---------------------------------------------------------------------------
  // Swap approval.

  /** `UPDATE users SET <counter> = <counter> + delta WHERE id = ?`: no row, no change. */
  function AjustarContador(users: map<UserId, Candidato>, uid: UserId, tipo: TipoRotina, delta: int): map<UserId, Candidato> {
    if uid !in users then users
    else match tipo
      case RN => users[uid := users[uid].(servicosRn := users[uid].servicosRn + delta)]
      case RD => users[uid := users[uid].(servicosRd := users[uid].servicosRd + delta)]
  }

  /** The swap is pending and joins to its allocation and that allocation's day header. */
  predicate TrocaPendente(t: Tables, trocaId: TrocaId) {
    && trocaId in t.trocas
    && t.trocas[trocaId].status == StatusPendente
    && t.trocas[trocaId].alocacaoId in t.alocacoes
    && t.alocacoes[t.trocas[trocaId].alocacaoId].data in t.escalas
  }

  /** One call of `aprovar_troca` at instant `agora`. */
  function AprovacaoTroca(t: Tables, trocaId: TrocaId, agora: int): Result<Tables, ErroTroca> {
    if !TrocaPendente(t, trocaId) then Err(TrocaNaoEncontrada)
    else
      var tr := t.trocas[trocaId];
      var a := t.alocacoes[tr.alocacaoId];
      var tipo := TipoDoCabecalho(t.escalas[a.data].tipoRotina);
      if TemConflito(t.alocacoes, tr.substitutoId, a.data) then Err(FadigaSubstituto)
      else
        var users :=
          if a.isPunicao then t.users
          else AjustarContador(AjustarContador(t.users, tr.solicitanteId, tipo, -1), tr.substitutoId, tipo, 1);
        Ok(t.(alocacoes := t.alocacoes[tr.alocacaoId := a.(userId := tr.substitutoId)],
              users := users,
              trocas := t.trocas[trocaId := tr.(status := StatusAprovada, dataResposta := Some(agora))]))
  }

  /** One pass of the loop over the posts, on the transaction's tables. */
  method AlocarUmPosto(usersTx: map<UserId, Candidato>, alocacoesTx: map<AlocacaoId, Alocacao>, posto: Posto,
                       uuid: AlocacaoId, indisp: seq<Indisponibilidade>, ordem: seq<UserId>, dataAlvo: Date, tipo: TipoRotina,
                       aceita: Senioridade)
    returns (r: Result<(map<UserId, Candidato>, map<AlocacaoId, Alocacao>), ErroEscala>)
    ensures r == AlocarPosto(usersTx, alocacoesTx, posto, uuid, indisp, ordem, dataAlvo, tipo, aceita)
  {
    var candidatos := Candidatos(usersTx, indisp, ordem, posto, dataAlvo, tipo);
    var escolhido := EscolherCandidato(candidatos, posto, alocacoesTx, dataAlvo, aceita);
    match escolhido {
      case None =>
        return Err(SemCandidato(posto.nome, posto.turmasPermitidas));
      case Some(user) =>
        var isPunicao := user.saldoPunicoes > 0;
        if uuid in alocacoesTx {
          return Err(IdRepetido(uuid));
        }
        var alocs := alocacoesTx[uuid := Alocacao(uuid, user.id, posto.id, dataAlvo, isPunicao)];
        // punished: pay one from the balance; otherwise one more on the day type's counter
        var users := usersTx[user.id := Registrar(user, tipo)];
        return Ok((users, alocs));
    }
  }
}
