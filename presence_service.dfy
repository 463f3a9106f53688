/**
 * Who is out and who is on board: the presence table with its two upserts (`marcar_saida`,
 * `marcar_retorno`), the out/in rule, one class's presence list and its statistics.
 */
module PresenceService {
  import opened Wrappers
  import opened Text
  import opened Sorting
  import opened UserModel

  /** An instant (an RFC 3339 timestamp) as a number; a later instant is a larger number. */
  type Instante = int

  /** A row of the `presenca` table; the table is keyed by `userId`. */
  datatype PresenceEntry = PresenceEntry(
    userId: string, ultimaSaida: Option<Instante>, ultimoRetorno: Option<Instante>,
    usuarioSaida: Option<string>, usuarioRetorno: Option<string>)

  /** `PresenceEntry::default()`: no exit, no return, no operators. */
  function EntradaPadrao(): PresenceEntry {
    PresenceEntry("", None, None, None, None)
  }

  /** A person joined with their presence row, as shown in a class's list. */
  datatype PresencePerson = PresencePerson(
    id: string, nome: string, turma: string, ano: int,
    ultimaSaida: Option<Instante>, ultimoRetorno: Option<Instante>,
    usuarioSaida: Option<string>, usuarioRetorno: Option<string>,
    estaFora: bool)

  /** The counts shown above a list: out, on board, everyone. */
  datatype PresenceStats = PresenceStats(fora: nat, dentro: nat, total: nat)

  // ---------------------------------------------------------------------------
  // The out/in rule.

  /** Out when the last exit is later than the last return, or there is an exit and no return. */
  function EstaFora(saida: Option<Instante>, retorno: Option<Instante>): (r: bool)
    ensures saida.Some? && retorno.Some? ==> (r <==> saida.value > retorno.value)
    ensures saida.Some? && retorno.None? ==> r
    ensures saida.None? ==> !r
  {
    match (saida, retorno)
    case (Some(s), Some(t)) => s > t
    case (Some(_), None) => true
    case _ => false
  }

  // ---------------------------------------------------------------------------
  // The two upserts, on table values.

  ghost predicate ChavesConsistentes(tabela: map<string, PresenceEntry>) {
    forall u :: u in tabela ==> tabela[u].userId == u
  }

  /** The row `marcar_saida` leaves: exit time and operator replaced, the return columns kept. */
  function ComSaida(tabela: map<string, PresenceEntry>, userId: string, operador: string, agora: Instante)
    : (e: PresenceEntry)
    ensures e.userId == userId
    ensures e.ultimaSaida == Some(agora) && e.usuarioSaida == Some(operador)
    ensures userId in tabela ==>
      e.ultimoRetorno == tabela[userId].ultimoRetorno && e.usuarioRetorno == tabela[userId].usuarioRetorno
    ensures userId !in tabela ==> e.ultimoRetorno == None && e.usuarioRetorno == None
  {
    if userId in tabela then
      tabela[userId].(userId := userId, ultimaSaida := Some(agora), usuarioSaida := Some(operador))
    else
      PresenceEntry(userId, Some(agora), None, Some(operador), None)
  }

  /** The row `marcar_retorno` leaves: return time and operator replaced, the exit columns kept. */
  function ComRetorno(tabela: map<string, PresenceEntry>, userId: string, operador: string, agora: Instante)
    : (e: PresenceEntry)
    ensures e.userId == userId
    ensures e.ultimoRetorno == Some(agora) && e.usuarioRetorno == Some(operador)
    ensures userId in tabela ==>
      e.ultimaSaida == tabela[userId].ultimaSaida && e.usuarioSaida == tabela[userId].usuarioSaida
    ensures userId !in tabela ==> e.ultimaSaida == None && e.usuarioSaida == None
  {
    if userId in tabela then
      tabela[userId].(userId := userId, ultimoRetorno := Some(agora), usuarioRetorno := Some(operador))
    else
      PresenceEntry(userId, None, Some(agora), None, Some(operador))
  }

  /** After an exit the person is out, unless their last return is not earlier than the exit. */
  lemma SaidaMarcaFora(tabela: map<string, PresenceEntry>, userId: string, operador: string, agora: Instante)
    ensures var e := ComSaida(tabela, userId, operador, agora);
      EstaFora(e.ultimaSaida, e.ultimoRetorno) <==>
        (userId !in tabela || tabela[userId].ultimoRetorno.None? || tabela[userId].ultimoRetorno.value < agora)
  {
  }

  /** After a return the person is on board, unless their last exit is later than the return. */
  lemma RetornoMarcaDentro(tabela: map<string, PresenceEntry>, userId: string, operador: string, agora: Instante)
    ensures var e := ComRetorno(tabela, userId, operador, agora);
      !EstaFora(e.ultimaSaida, e.ultimoRetorno) <==>
        (userId !in tabela || tabela[userId].ultimaSaida.None? || tabela[userId].ultimaSaida.value <= agora)
  {
  }

  /** Marking the same exit twice leaves the row of marking it once. */
  lemma SaidaIdempotente(tabela: map<string, PresenceEntry>, userId: string, operador: string, agora: Instante)
    ensures var t1 := tabela[userId := ComSaida(tabela, userId, operador, agora)];
      ComSaida(t1, userId, operador, agora) == ComSaida(tabela, userId, operador, agora)
  {
  }

  /** An exit of one person and a return of another commute. */
  lemma SaidaRetornoComutam(
    tabela: map<string, PresenceEntry>, u: string, v: string, op1: string, op2: string, t1: Instante, t2: Instante)
    requires u != v
    ensures var a := tabela[u := ComSaida(tabela, u, op1, t1)];
            var b := tabela[v := ComRetorno(tabela, v, op2, t2)];
      a[v := ComRetorno(a, v, op2, t2)] == b[u := ComSaida(b, u, op1, t1)]
  {
  }

  // ---------------------------------------------------------------------------
  // One class's list.

  /** `all_users.into_iter().filter(|u| u.ano == turma_num)`. */
  function DaTurma(users: seq<User>, turma: int): (r: seq<User>)
    ensures forall u :: u in r <==> u in users && u.ano == turma
    ensures forall i :: 0 <= i < |r| ==> r[i].ano == turma
    ensures multiset(r) <= multiset(users)
  {
    if users == [] then []
    else
      assert users == [users[0]] + users[1..];
      if users[0].ano == turma then [users[0]] + DaTurma(users[1..], turma)
      else DaTurma(users[1..], turma)
  }

  /** One user joined with their row, or with the default row when they have none. */
  function Pessoa(u: User, presenca: map<string, PresenceEntry>): PresencePerson {
    var entry := if u.id in presenca then presenca[u.id] else EntradaPadrao();
    PresencePerson(
      u.id, u.name, u.turma, u.ano, entry.ultimaSaida, entry.ultimoRetorno,
      entry.usuarioSaida, entry.usuarioRetorno, EstaFora(entry.ultimaSaida, entry.ultimoRetorno))
  }

  function Pessoas(users: seq<User>, presenca: map<string, PresenceEntry>): seq<PresencePerson> {
    Mapped(users, (u: User) => Pessoa(u, presenca))
  }

  /** `a.id.cmp(&b.id)` as a "not after" relation. */
  function PorId(a: PresencePerson, b: PresencePerson): bool {
    StrLe(a.id, b.id)
  }

  function PersonIdOf(p: PresencePerson): string { p.id }

  function Ids(s: seq<PresencePerson>): seq<string> { Mapped(s, PersonIdOf) }

  function UserIds(s: seq<User>): seq<string> { Mapped(s, UserIdOf) }

  /** What `get_presence_list_for_turma` returns for the user table `allUsers`. */
  function ListaPresenca(allUsers: seq<User>, presenca: map<string, PresenceEntry>, turma: int)
    : seq<PresencePerson>
  {
    var daTurma := DaTurma(allUsers, turma);
    if daTurma == [] then [] else SortBy(Pessoas(daTurma, presenca), PorId)
  }

  lemma PorIdTotal()
    ensures TotalPreorder(PorId)
  {
    forall x: PresencePerson, y: PresencePerson ensures PorId(x, y) || PorId(y, x) {
      StrLeTotal(x.id, y.id);
    }
    forall x: PresencePerson, y: PresencePerson, z: PresencePerson | PorId(x, y) && PorId(y, z)
      ensures PorId(x, z)
    {
      StrLeTransitive(x.id, y.id, z.id);
    }
  }

  /** The list is in ascending id order. */
  lemma ListaPresencaOrdenada(allUsers: seq<User>, presenca: map<string, PresenceEntry>, turma: int)
    ensures SortedBy(ListaPresenca(allUsers, presenca, turma), PorId)
  {
    var daTurma := DaTurma(allUsers, turma);
    if daTurma != [] {
      PorIdTotal();
      SortBySorted(Pessoas(daTurma, presenca), PorId);
    }
  }

  /**
   * The list holds one entry per user of the class, counted with multiplicity, and nothing else:
   * each entry is a class member joined with their row, and every class member has an entry.
   */
  lemma ListaPresencaMembros(allUsers: seq<User>, presenca: map<string, PresenceEntry>, turma: int)
    ensures multiset(Ids(ListaPresenca(allUsers, presenca, turma))) == multiset(UserIds(DaTurma(allUsers, turma)))
    ensures forall u :: u in allUsers && u.ano == turma ==> Pessoa(u, presenca) in ListaPresenca(allUsers, presenca, turma)
    ensures forall p :: p in ListaPresenca(allUsers, presenca, turma) ==>
      exists u :: u in allUsers && u.ano == turma && p == Pessoa(u, presenca)
  {
    var daTurma := DaTurma(allUsers, turma);
    var pessoas := Pessoas(daTurma, presenca);
    var lista := ListaPresenca(allUsers, presenca, turma);
    assert multiset(lista) == multiset(pessoas);
    MappedPermutation(lista, pessoas, PersonIdOf);
    assert Ids(pessoas) == UserIds(daTurma);
    forall u | u in allUsers && u.ano == turma ensures Pessoa(u, presenca) in lista {
      var i :| 0 <= i < |daTurma| && daTurma[i] == u;
      assert pessoas[i] == Pessoa(u, presenca);
      assert Pessoa(u, presenca) in multiset(pessoas);
    }
    forall p | p in lista ensures exists u :: u in allUsers && u.ano == turma && p == Pessoa(u, presenca) {
      assert p in multiset(pessoas);
      var i :| 0 <= i < |pessoas| && pessoas[i] == p;
      assert daTurma[i] in daTurma;
    }
  }

  /** No repeated value. */
  ghost predicate SemRepeticao(s: seq<string>) {
    forall x :: multiset(s)[x] <= 1
  }

  /** With user ids unique (the table's primary key), no id appears twice in the list. */
  lemma ListaPresencaIdsUnicos(allUsers: seq<User>, presenca: map<string, PresenceEntry>, turma: int)
    requires SemRepeticao(UserIds(allUsers))
    ensures var lista := ListaPresenca(allUsers, presenca, turma);
      forall i, j :: 0 <= i < j < |lista| ==> lista[i].id != lista[j].id
  {
    var lista := ListaPresenca(allUsers, presenca, turma);
    var daTurma := DaTurma(allUsers, turma);
    ListaPresencaMembros(allUsers, presenca, turma);
    MappedSubmultiset(daTurma, allUsers, UserIdOf);
    var ids := Ids(lista);
    assert SemRepeticao(ids) by {
      forall x ensures multiset(ids)[x] <= 1 {
        assert multiset(UserIds(daTurma))[x] <= multiset(UserIds(allUsers))[x];
      }
    }
    forall i, j | 0 <= i < j < |lista| ensures lista[i].id != lista[j].id {
      RepeatedTwice(ids, i, j);
    }
  }

  /** Two equal values at two positions count twice. */
  lemma RepeatedTwice(s: seq<string>, i: int, j: int)
    requires 0 <= i < j < |s|
    ensures s[i] == s[j] ==> multiset(s)[s[i]] >= 2
  {
    assert s == s[..j] + s[j..];
    assert s[..j][i] == s[i];
    assert s[j..][0] == s[j];
    assert s[i] in multiset(s[..j]);
    assert s[j] in multiset(s[j..]);
  }

  /** A class member without a presence row is listed as on board, with no times and no operators. */
  lemma SemRegistroDentro(u: User, presenca: map<string, PresenceEntry>)
    requires u.id !in presenca
    ensures var p := Pessoa(u, presenca);
      !p.estaFora && p.ultimaSaida.None? && p.ultimoRetorno.None? && p.usuarioSaida.None? && p.usuarioRetorno.None?
  {
  }

  // ---------------------------------------------------------------------------
  // Statistics.

  /** How many of the people are out. */
  function CountFora(s: seq<PresencePerson>): nat {
    if s == [] then 0 else CountFora(s[..|s| - 1]) + (if s[|s| - 1].estaFora then 1 else 0)
  }

  function ForaFlag(p: PresencePerson): bool { p.estaFora }

  /** The count is the multiplicity of `true` among the people's flags. */
  lemma {:induction false} CountForaFlags(s: seq<PresencePerson>)
    ensures CountFora(s) == multiset(Mapped(s, ForaFlag))[true]
  {
    if s != [] {
      var n := |s| - 1;
      CountForaFlags(s[..n]);
      assert Mapped(s, ForaFlag) == Mapped(s[..n], ForaFlag) + [s[n].estaFora];
    }
  }

  /** The counts do not depend on the order of the list, so sorting it changes no statistic. */
  lemma CountForaPermutation(a: seq<PresencePerson>, b: seq<PresencePerson>)
    requires multiset(a) == multiset(b)
    ensures CountFora(a) == CountFora(b)
  {
    CountForaFlags(a);
    CountForaFlags(b);
    MappedPermutation(a, b, ForaFlag);
  }

  /** Nobody is out exactly when the count is zero; everybody is out exactly when it is the length. */
  lemma {:induction false} CountForaLimites(s: seq<PresencePerson>)
    ensures CountFora(s) <= |s|
    ensures CountFora(s) == 0 <==> forall i :: 0 <= i < |s| ==> !s[i].estaFora
    ensures CountFora(s) == |s| <==> forall i :: 0 <= i < |s| ==> s[i].estaFora
  {
    if s != [] {
      var n := |s| - 1;
      CountForaLimites(s[..n]);
      assert forall i :: 0 <= i < n ==> s[..n][i] == s[i];
    }
  }

  /** `calcular_stats`. */
  method CalcularStats(pessoas: seq<PresencePerson>) returns (st: PresenceStats)
    ensures st.total == |pessoas|
    ensures st.fora == CountFora(pessoas)
    ensures st.fora + st.dentro == st.total
  {
    var fora: nat := 0;
    for i := 0 to |pessoas|
      invariant fora == CountFora(pessoas[..i])
      invariant fora <= i
    {
      assert pessoas[..i + 1][..i] == pessoas[..i];
      if pessoas[i].estaFora {
        fora := fora + 1;
      }
    }
    assert pessoas[..|pessoas|] == pessoas;
    var total := |pessoas|;
    st := PresenceStats(fora, total - fora, total);
  }

  // ---------------------------------------------------------------------------
  // The table as state.

  class PresenceStore {
    var presenca: map<string, PresenceEntry>

    ghost predicate Valid()
      reads this
    {
      ChavesConsistentes(presenca)
    }

    constructor (tabela: map<string, PresenceEntry>)
      requires ChavesConsistentes(tabela)
      ensures Valid() && presenca == tabela
    {
      presenca := tabela;
    }

    /** `marcar_saida`, with the clock reading passed in as `agora`. */
    method MarcarSaida(userId: string, operatorId: string, agora: Instante)
      requires Valid()
      modifies this
      ensures Valid()
      ensures presenca == old(presenca)[userId := ComSaida(old(presenca), userId, operatorId, agora)]
      ensures presenca.Keys == old(presenca).Keys + {userId}
      ensures forall u :: u in old(presenca) && u != userId ==> presenca[u] == old(presenca)[u]
    {
      var row: PresenceEntry;
      if userId in presenca {
        row := presenca[userId].(ultimaSaida := Some(agora), usuarioSaida := Some(operatorId));
      } else {
        row := PresenceEntry(userId, Some(agora), None, Some(operatorId), None);
      }
      presenca := presenca[userId := row];
    }

    /** `marcar_retorno`, with the clock reading passed in as `agora`. */
    method MarcarRetorno(userId: string, operatorId: string, agora: Instante)
      requires Valid()
      modifies this
      ensures Valid()
      ensures presenca == old(presenca)[userId := ComRetorno(old(presenca), userId, operatorId, agora)]
      ensures presenca.Keys == old(presenca).Keys + {userId}
      ensures forall u :: u in old(presenca) && u != userId ==> presenca[u] == old(presenca)[u]
    {
      var row: PresenceEntry;
      if userId in presenca {
        row := presenca[userId].(ultimoRetorno := Some(agora), usuarioRetorno := Some(operatorId));
      } else {
        row := PresenceEntry(userId, None, Some(agora), None, Some(operatorId));
      }
      presenca := presenca[userId := row];
    }

    /** `get_presence_list_for_turma`, given the rows of `find_all_users`. */
    method GetPresenceListForTurma(allUsers: seq<User>, turmaNum: int) returns (lista: seq<PresencePerson>)
      ensures lista == ListaPresenca(allUsers, presenca, turmaNum)
    {
      var usersInTurma := DaTurma(allUsers, turmaNum);
      if usersInTurma == [] {
        return [];
      }
      var presenceMap := presenca;
      var presenceList: seq<PresencePerson> := [];
      for i := 0 to |usersInTurma|
        invariant |presenceList| == i
        invariant forall k :: 0 <= k < i ==> presenceList[k] == Pessoa(usersInTurma[k], presenceMap)
      {
        var user := usersInTurma[i];
        var entry := if user.id in presenceMap then presenceMap[user.id] else EntradaPadrao();
        var estaFora := match (entry.ultimaSaida, entry.ultimoRetorno)
          case (Some(s), Some(t)) => s > t
          case (Some(_), None) => true
          case _ => false;
        presenceList := presenceList + [PresencePerson(
          user.id, user.name, user.turma, user.ano, entry.ultimaSaida, entry.ultimoRetorno,
          entry.usuarioSaida, entry.usuarioRetorno, estaFora)];
      }
      assert presenceList == Pessoas(usersInTurma, presenceMap);
      lista := SortBy(presenceList, PorId);
    }
  }
}
