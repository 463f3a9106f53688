/**
 * What the roster engine guarantees: who a post gets, what one day's generation writes,
 * that neither generation nor a swap approval breaks the rest rule, and how an approval
 * moves an allocation and its counters.
 */
module EscalaGarantias {
  import opened Wrappers
  import opened Text
  import opened Sorting
  import opened EscalaModel
  import opened EscalaService

  /** The rest rule over a whole table: nobody holds two allocations on the same or adjacent days. */
  ghost predicate SemFadiga(alocs: map<AlocacaoId, Alocacao>) {
    forall k1, k2 :: k1 in alocs && k2 in alocs && k1 != k2 && alocs[k1].userId == alocs[k2].userId
      ==> alocs[k1].data - alocs[k2].data > 1 || alocs[k2].data - alocs[k1].data > 1
  }

  /** What the roster tables keep between calls: user rows under their own ids, and the rest rule. */
  ghost predicate TabelasValidas(t: Tables) {
    ChavesConsistentes(t.users) && SemFadiga(t.alocacoes)
  }

  /** The person may fill the post on that day, by gender, availability and year. */
  ghost predicate Elegivel(users: map<UserId, Candidato>, indisp: seq<Indisponibilidade>, posto: Posto, d: Date,
                           aceita: Senioridade, u: UserId) {
    u in users && ServeGenero(posto, users[u]) && !Indisponivel(indisp, u, d) && aceita(posto, users[u].ano)
  }

  // ---------------------------------------------------------------------------
  // One post.

  /**
   * The person a post gets is eligible, clear of the rest rule, and ranked no lower than any
   * other qualifying person in the pool; nobody is chosen exactly when nobody in the pool
   * qualifies, which (when the scan covers every user) means nobody eligible is clear.
   */
  lemma EscolhaCorreta(users: map<UserId, Candidato>, indisp: seq<Indisponibilidade>, ordem: seq<UserId>,
                       posto: Posto, alocs: map<AlocacaoId, Alocacao>, d: Date, tipo: TipoRotina,
                       aceita: Senioridade)
    requires ChavesConsistentes(users)
    ensures var pool := Candidatos(users, indisp, ordem, posto, d, tipo);
            var r := Escolha(pool, posto, alocs, d, aceita);
            && (r.Some? ==> NoPool(users, indisp, posto, d, r.value) && Apto(posto, r.value, alocs, d, aceita))
            && (r.Some? ==> forall c :: c in pool && Apto(posto, c, alocs, d, aceita) ==> Precede(r.value, c, tipo))
            && (r.None? <==> forall c :: c in pool ==> !Apto(posto, c, alocs, d, aceita))
            && ((forall u :: u in users ==> u in ordem) ==>
                  (r.None? <==> forall u :: Elegivel(users, indisp, posto, d, aceita, u) ==> TemConflito(alocs, u, d)))
  {
    var pool := Candidatos(users, indisp, ordem, posto, d, tipo);
    var ok := Qualifica(posto, alocs, d, aceita);
    CandidatosPool(users, indisp, ordem, posto, d, tipo);
    match PrimeiroQue(pool, ok, 0)
    case None =>
      forall c | c in pool ensures !Apto(posto, c, alocs, d, aceita) {
        var m :| 0 <= m < |pool| && pool[m] == c;
        assert !ok(pool[m]);
      }
      if forall u :: u in users ==> u in ordem {
        forall u | Elegivel(users, indisp, posto, d, aceita, u) ensures TemConflito(alocs, u, d) {
          assert users[u].id == u;
          assert users[u] in pool;
        }
      }
    case Some(k) =>
      assert ok(pool[k]);
      forall c | c in pool && Apto(posto, c, alocs, d, aceita) ensures Precede(pool[k], c, tipo) {
        EscolhidoMaisPrioritario(pool, ok, tipo, c);
      }
      var c := pool[k];
      assert c in pool;
      assert Elegivel(users, indisp, posto, d, aceita, c.id) && !TemConflito(alocs, c.id, d);
  }

  /** A successful post step adds one allocation for an eligible, rested person and counts it. */
  lemma AlocarPostoEfeito(users: map<UserId, Candidato>, alocs: map<AlocacaoId, Alocacao>, posto: Posto, id: AlocacaoId,
                          indisp: seq<Indisponibilidade>, ordem: seq<UserId>, d: Date, tipo: TipoRotina, aceita: Senioridade,
                          u1: map<UserId, Candidato>, a1: map<AlocacaoId, Alocacao>)
    requires ChavesConsistentes(users)
    requires AlocarPosto(users, alocs, posto, id, indisp, ordem, d, tipo, aceita) == Ok((u1, a1))
    ensures id !in alocs && id in a1
    ensures Elegivel(users, indisp, posto, d, aceita, a1[id].userId) && !TemConflito(alocs, a1[id].userId, d)
    ensures a1 == alocs[id := Alocacao(id, a1[id].userId, posto.id, d, users[a1[id].userId].saldoPunicoes > 0)]
    ensures u1 == users[a1[id].userId := Registrar(users[a1[id].userId], tipo)]
    ensures u1.Keys == users.Keys && ChavesConsistentes(u1)
  {
    EscolhaCorreta(users, indisp, ordem, posto, alocs, d, tipo, aceita);
    var c := Escolha(Candidatos(users, indisp, ordem, posto, d, tipo), posto, alocs, d, aceita).value;
    RegistrarEfeito(c, tipo);
    assert a1[id].userId == c.id;
  }

  // ---------------------------------------------------------------------------
  // The posts of a day.

  /** A successful run is a successful first post followed by a successful run over the rest. */
  lemma AlocarPostosPasso(
      users: map<UserId, Candidato>, alocs: map<AlocacaoId, Alocacao>,
      postos: seq<Posto>, ids: seq<AlocacaoId>, indisp: seq<Indisponibilidade>,
      ordem: seq<UserId>, d: Date, tipo: TipoRotina, aceita: Senioridade,
      u2: map<UserId, Candidato>, a2: map<AlocacaoId, Alocacao>)
    returns (u1: map<UserId, Candidato>, a1: map<AlocacaoId, Alocacao>)
    requires |ids| == |postos| && postos != [] && ChavesConsistentes(users)
    requires AlocarPostos(users, alocs, postos, ids, indisp, ordem, d, tipo, aceita) == Ok((u2, a2))
    ensures AlocarPosto(users, alocs, postos[0], ids[0], indisp, ordem, d, tipo, aceita) == Ok((u1, a1))
    ensures AlocarPostos(u1, a1, postos[1..], ids[1..], indisp, ordem, d, tipo, aceita) == Ok((u2, a2))
    ensures ChavesConsistentes(u1) && u1.Keys == users.Keys
    ensures forall i :: 1 <= i < |postos| ==> postos[i] == postos[1..][i - 1] && ids[i] == ids[1..][i - 1]
  {
    var r1 := AlocarPosto(users, alocs, postos[0], ids[0], indisp, ordem, d, tipo, aceita);
    assert r1.Ok?;
    u1, a1 := r1.value.0, r1.value.1;
    AlocarPostoEfeito(users, alocs, postos[0], ids[0], indisp, ordem, d, tipo, aceita, u1, a1);
  }

  /** A successful run keeps every old allocation and adds nothing but rows under the fresh ids. */
  lemma {:induction false} AlocarPostosPreserva(
      users: map<UserId, Candidato>, alocs: map<AlocacaoId, Alocacao>,
      postos: seq<Posto>, ids: seq<AlocacaoId>, indisp: seq<Indisponibilidade>,
      ordem: seq<UserId>, d: Date, tipo: TipoRotina, aceita: Senioridade,
      u2: map<UserId, Candidato>, a2: map<AlocacaoId, Alocacao>)
    requires |ids| == |postos| && ChavesConsistentes(users)
    requires AlocarPostos(users, alocs, postos, ids, indisp, ordem, d, tipo, aceita) == Ok((u2, a2))
    ensures forall k :: k in alocs ==> k in a2 && a2[k] == alocs[k]
    ensures forall k :: k in a2 ==> k in alocs || k in ids
    ensures u2.Keys == users.Keys && ChavesConsistentes(u2)
    decreases |postos|
  {
    if postos != [] {
      var u1, a1 := AlocarPostosPasso(users, alocs, postos, ids, indisp, ordem, d, tipo, aceita, u2, a2);
      AlocarPostoEfeito(users, alocs, postos[0], ids[0], indisp, ordem, d, tipo, aceita, u1, a1);
      AlocarPostosPreserva(u1, a1, postos[1..], ids[1..], indisp, ordem, d, tipo, aceita, u2, a2);
      forall k | k in a2 ensures k in alocs || k in ids {
        if k !in a1 {
          var j :| 0 <= j < |ids[1..]| && ids[1..][j] == k;
          assert ids[j + 1] == k;
        }
      }
    }
  }

  /** Each post gets one new row under its own fresh id, dated that day and naming that post. */
  lemma {:induction false} AlocarPostosAlocacoes(
      users: map<UserId, Candidato>, alocs: map<AlocacaoId, Alocacao>,
      postos: seq<Posto>, ids: seq<AlocacaoId>, indisp: seq<Indisponibilidade>,
      ordem: seq<UserId>, d: Date, tipo: TipoRotina, aceita: Senioridade,
      u2: map<UserId, Candidato>, a2: map<AlocacaoId, Alocacao>)
    requires |ids| == |postos| && ChavesConsistentes(users)
    requires AlocarPostos(users, alocs, postos, ids, indisp, ordem, d, tipo, aceita) == Ok((u2, a2))
    ensures forall i :: 0 <= i < |postos| ==>
              ids[i] !in alocs && ids[i] in a2 && a2[ids[i]].id == ids[i]
              && a2[ids[i]].postoId == postos[i].id && a2[ids[i]].data == d
    ensures forall i, j :: 0 <= i < j < |postos| ==> ids[i] != ids[j]
    decreases |postos|
  {
    if postos != [] {
      var u1, a1 := AlocarPostosPasso(users, alocs, postos, ids, indisp, ordem, d, tipo, aceita, u2, a2);
      AlocarPostoEfeito(users, alocs, postos[0], ids[0], indisp, ordem, d, tipo, aceita, u1, a1);
      AlocarPostosAlocacoes(u1, a1, postos[1..], ids[1..], indisp, ordem, d, tipo, aceita, u2, a2);
      AlocarPostosPreserva(u1, a1, postos[1..], ids[1..], indisp, ordem, d, tipo, aceita, u2, a2);
    }
  }

  /**
   * Each allocated person is eligible for their post and was clear of the rest rule before the
   * run, and no person gets two posts of the day.
   */
  lemma {:induction false} AlocarPostosPessoas(
      users: map<UserId, Candidato>, alocs: map<AlocacaoId, Alocacao>,
      postos: seq<Posto>, ids: seq<AlocacaoId>, indisp: seq<Indisponibilidade>,
      ordem: seq<UserId>, d: Date, tipo: TipoRotina, aceita: Senioridade,
      u2: map<UserId, Candidato>, a2: map<AlocacaoId, Alocacao>)
    requires |ids| == |postos| && ChavesConsistentes(users)
    requires AlocarPostos(users, alocs, postos, ids, indisp, ordem, d, tipo, aceita) == Ok((u2, a2))
    ensures forall i :: 0 <= i < |postos| ==> ids[i] in a2
    ensures forall i :: 0 <= i < |postos| ==>
              Elegivel(users, indisp, postos[i], d, aceita, a2[ids[i]].userId) && !TemConflito(alocs, a2[ids[i]].userId, d)
    ensures forall i, j :: 0 <= i < j < |postos| ==> a2[ids[i]].userId != a2[ids[j]].userId
    decreases |postos|
  {
    AlocarPostosAlocacoes(users, alocs, postos, ids, indisp, ordem, d, tipo, aceita, u2, a2);
    if postos != [] {
      var u1, a1 := AlocarPostosPasso(users, alocs, postos, ids, indisp, ordem, d, tipo, aceita, u2, a2);
      AlocarPostoEfeito(users, alocs, postos[0], ids[0], indisp, ordem, d, tipo, aceita, u1, a1);
      AlocarPostosPreserva(u1, a1, postos[1..], ids[1..], indisp, ordem, d, tipo, aceita, u2, a2);
      AlocarPostosPessoas(u1, a1, postos[1..], ids[1..], indisp, ordem, d, tipo, aceita, u2, a2);
      assert a2[ids[0]] == a1[ids[0]];
      forall i | 1 <= i < |postos|
        ensures Elegivel(users, indisp, postos[i], d, aceita, a2[ids[i]].userId)
        ensures !TemConflito(alocs, a2[ids[i]].userId, d)
        ensures a2[ids[i]].userId != a1[ids[0]].userId
      {
        assert Elegivel(u1, indisp, postos[i], d, aceita, a2[ids[i]].userId) && !TemConflito(a1, a2[ids[i]].userId, d);
        DepoisDoPrimeiro(users, alocs, postos[0], ids[0], indisp, ordem, d, tipo, aceita, u1, a1, postos[i], a2[ids[i]].userId);
      }
    }
  }

  /**
   * Whoever may still take a later post after the first was filled could already take it before,
   * and is not the person the first post got, who is now held by the rest rule.
   */
  lemma DepoisDoPrimeiro(users: map<UserId, Candidato>, alocs: map<AlocacaoId, Alocacao>, posto: Posto, id: AlocacaoId,
                         indisp: seq<Indisponibilidade>, ordem: seq<UserId>, d: Date, tipo: TipoRotina, aceita: Senioridade,
                         u1: map<UserId, Candidato>, a1: map<AlocacaoId, Alocacao>, outro: Posto, u: UserId)
    requires ChavesConsistentes(users)
    requires AlocarPosto(users, alocs, posto, id, indisp, ordem, d, tipo, aceita) == Ok((u1, a1))
    requires Elegivel(u1, indisp, outro, d, aceita, u) && !TemConflito(a1, u, d)
    ensures Elegivel(users, indisp, outro, d, aceita, u) && !TemConflito(alocs, u, d)
    ensures u != a1[id].userId
  {
    AlocarPostoEfeito(users, alocs, posto, id, indisp, ordem, d, tipo, aceita, u1, a1);
    var c := a1[id].userId;
    RegistrarEfeito(users[c], tipo);
    assert u1[u].genero == users[u].genero && u1[u].ano == users[u].ano;
    // the first post's new row would be a conflict for its own person
    assert a1[id].userId == c && a1[id].data == d;
    forall k | k in alocs && alocs[k].userId == u ensures !(d - 1 <= alocs[k].data <= d + 1) {
      assert k in a1 && a1[k] == alocs[k];
    }
  }

  /**
   * Each allocated person is counted once (the balance or the day type's counter, as `Registrar`
   * says), the row records whether it repaid a punishment, and nobody else's counters change.
   */
  lemma {:induction false} AlocarPostosContadores(
      users: map<UserId, Candidato>, alocs: map<AlocacaoId, Alocacao>,
      postos: seq<Posto>, ids: seq<AlocacaoId>, indisp: seq<Indisponibilidade>,
      ordem: seq<UserId>, d: Date, tipo: TipoRotina, aceita: Senioridade,
      u2: map<UserId, Candidato>, a2: map<AlocacaoId, Alocacao>)
    requires |ids| == |postos| && ChavesConsistentes(users)
    requires AlocarPostos(users, alocs, postos, ids, indisp, ordem, d, tipo, aceita) == Ok((u2, a2))
    ensures u2.Keys == users.Keys
    ensures forall i :: 0 <= i < |postos| ==> ids[i] in a2 && a2[ids[i]].userId in users
    ensures forall i :: 0 <= i < |postos| ==>
              a2[ids[i]].isPunicao == (users[a2[ids[i]].userId].saldoPunicoes > 0)
              && u2[a2[ids[i]].userId] == Registrar(users[a2[ids[i]].userId], tipo)
    ensures forall u :: u in users && (forall i :: 0 <= i < |postos| ==> a2[ids[i]].userId != u) ==> u2[u] == users[u]
    decreases |postos|
  {
    AlocarPostosPessoas(users, alocs, postos, ids, indisp, ordem, d, tipo, aceita, u2, a2);
    AlocarPostosPreserva(users, alocs, postos, ids, indisp, ordem, d, tipo, aceita, u2, a2);
    if postos != [] {
      var u1, a1 := AlocarPostosPasso(users, alocs, postos, ids, indisp, ordem, d, tipo, aceita, u2, a2);
      AlocarPostoEfeito(users, alocs, postos[0], ids[0], indisp, ordem, d, tipo, aceita, u1, a1);
      AlocarPostosPreserva(u1, a1, postos[1..], ids[1..], indisp, ordem, d, tipo, aceita, u2, a2);
      AlocarPostosContadores(u1, a1, postos[1..], ids[1..], indisp, ordem, d, tipo, aceita, u2, a2);
      var c := a1[ids[0]].userId;
      assert a2[ids[0]] == a1[ids[0]];
      forall u | u in users && (forall i :: 0 <= i < |postos| ==> a2[ids[i]].userId != u) ensures u2[u] == users[u] {
        assert a2[ids[0]].userId != u;
        forall i | 0 <= i < |postos[1..]| ensures a2[ids[1..][i]].userId != u {
          assert ids[1..][i] == ids[i + 1];
        }
      }
      assert u2[c] == u1[c] by {
        forall i | 0 <= i < |postos[1..]| ensures a2[ids[1..][i]].userId != c {
          assert ids[1..][i] == ids[i + 1];
        }
      }
    }
  }

  /** A step keeps the rest rule: its new row is for a person with nothing on the day before, of or after. */
  lemma AlocarPostoSemFadiga(users: map<UserId, Candidato>, alocs: map<AlocacaoId, Alocacao>, posto: Posto, id: AlocacaoId,
                             indisp: seq<Indisponibilidade>, ordem: seq<UserId>, d: Date, tipo: TipoRotina, aceita: Senioridade,
                             u1: map<UserId, Candidato>, a1: map<AlocacaoId, Alocacao>)
    requires ChavesConsistentes(users) && SemFadiga(alocs)
    requires AlocarPosto(users, alocs, posto, id, indisp, ordem, d, tipo, aceita) == Ok((u1, a1))
    ensures SemFadiga(a1)
  {
    AlocarPostoEfeito(users, alocs, posto, id, indisp, ordem, d, tipo, aceita, u1, a1);
    var uid := a1[id].userId;
    forall k1, k2 | k1 in a1 && k2 in a1 && k1 != k2 && a1[k1].userId == a1[k2].userId
      ensures a1[k1].data - a1[k2].data > 1 || a1[k2].data - a1[k1].data > 1
    {
      if k1 == id {
        assert k2 in alocs && alocs[k2].userId == uid;
      } else if k2 == id {
        assert k1 in alocs && alocs[k1].userId == uid;
      } else {
        assert a1[k1] == alocs[k1] && a1[k2] == alocs[k2];
      }
    }
  }

  lemma {:induction false} AlocarPostosSemFadiga(
      users: map<UserId, Candidato>, alocs: map<AlocacaoId, Alocacao>,
      postos: seq<Posto>, ids: seq<AlocacaoId>, indisp: seq<Indisponibilidade>,
      ordem: seq<UserId>, d: Date, tipo: TipoRotina, aceita: Senioridade,
      u2: map<UserId, Candidato>, a2: map<AlocacaoId, Alocacao>)
    requires |ids| == |postos| && ChavesConsistentes(users) && SemFadiga(alocs)
    requires AlocarPostos(users, alocs, postos, ids, indisp, ordem, d, tipo, aceita) == Ok((u2, a2))
    ensures SemFadiga(a2)
    decreases |postos|
  {
    if postos != [] {
      var u1, a1 := AlocarPostosPasso(users, alocs, postos, ids, indisp, ordem, d, tipo, aceita, u2, a2);
      AlocarPostoSemFadiga(users, alocs, postos[0], ids[0], indisp, ordem, d, tipo, aceita, u1, a1);
      AlocarPostosSemFadiga(u1, a1, postos[1..], ids[1..], indisp, ordem, d, tipo, aceita, u2, a2);
    }
  }

  /** A post nobody is eligible for makes the whole run fail, so nothing of it persists. */
  lemma {:induction false} AlocarPostosSemPessoal(
      users: map<UserId, Candidato>, alocs: map<AlocacaoId, Alocacao>,
      postos: seq<Posto>, ids: seq<AlocacaoId>, indisp: seq<Indisponibilidade>,
      ordem: seq<UserId>, d: Date, tipo: TipoRotina, aceita: Senioridade, i: nat)
    requires |ids| == |postos| && ChavesConsistentes(users)
    requires i < |postos|
    requires forall u :: !Elegivel(users, indisp, postos[i], d, aceita, u)
    ensures AlocarPostos(users, alocs, postos, ids, indisp, ordem, d, tipo, aceita).Err?
    decreases |postos|
  {
    var r1 := AlocarPosto(users, alocs, postos[0], ids[0], indisp, ordem, d, tipo, aceita);
    if i == 0 {
      var pool := Candidatos(users, indisp, ordem, postos[0], d, tipo);
      EscolhaCorreta(users, indisp, ordem, postos[0], alocs, d, tipo, aceita);
      CandidatosPool(users, indisp, ordem, postos[0], d, tipo);
      forall c | c in pool ensures !Apto(postos[0], c, alocs, d, aceita) {
        assert !Elegivel(users, indisp, postos[0], d, aceita, c.id);
      }
    } else if r1.Ok? {
      var u1, a1 := r1.value.0, r1.value.1;
      AlocarPostoEfeito(users, alocs, postos[0], ids[0], indisp, ordem, d, tipo, aceita, u1, a1);
      var c := a1[ids[0]].userId;
      RegistrarEfeito(users[c], tipo);
      assert postos[1..][i - 1] == postos[i];
      forall u ensures !Elegivel(u1, indisp, postos[i], d, aceita, u) {
        if u in u1 {
          assert u1[u].genero == users[u].genero && u1[u].ano == users[u].ano;
          assert !Elegivel(users, indisp, postos[i], d, aceita, u);
        }
      }
      AlocarPostosSemPessoal(u1, a1, postos[1..], ids[1..], indisp, ordem, d, tipo, aceita, i - 1);
    }
  }

  /** A "no candidate" error names a post of the list. */
  lemma {:induction false} AlocarPostosSemCandidato(
      users: map<UserId, Candidato>, alocs: map<AlocacaoId, Alocacao>,
      postos: seq<Posto>, ids: seq<AlocacaoId>, indisp: seq<Indisponibilidade>,
      ordem: seq<UserId>, d: Date, tipo: TipoRotina, aceita: Senioridade, nome: string, turmas: string)
    requires |ids| == |postos|
    requires AlocarPostos(users, alocs, postos, ids, indisp, ordem, d, tipo, aceita) == Err(SemCandidato(nome, turmas))
    ensures exists i :: 0 <= i < |postos| && postos[i].nome == nome && postos[i].turmasPermitidas == turmas
    decreases |postos|
  {
    var r1 := AlocarPosto(users, alocs, postos[0], ids[0], indisp, ordem, d, tipo, aceita);
    if r1.Ok? {
      var u1, a1 := r1.value.0, r1.value.1;
      AlocarPostosSemCandidato(u1, a1, postos[1..], ids[1..], indisp, ordem, d, tipo, aceita, nome, turmas);
      var i :| 0 <= i < |postos[1..]| && postos[1..][i].nome == nome && postos[1..][i].turmasPermitidas == turmas;
      assert postos[i + 1] == postos[1..][i];
    } else {
      assert postos[0].nome == nome;
    }
  }

  /** Nobody is chosen exactly when nobody in the pool qualifies. */
  lemma EscolhaVazia(pool: seq<Candidato>, posto: Posto, alocs: map<AlocacaoId, Alocacao>, d: Date, aceita: Senioridade)
    ensures Escolha(pool, posto, alocs, d, aceita).None? <==> forall c :: c in pool ==> !Apto(posto, c, alocs, d, aceita)
  {
    var ok := Qualifica(posto, alocs, d, aceita);
    var p := PrimeiroQue(pool, ok, 0);
    if p.Some? {
      assert ok(pool[p.value]);
    } else {
      forall c | c in pool ensures !Apto(posto, c, alocs, d, aceita) {
        var k :| 0 <= k < |pool| && pool[k] == c;
        assert !ok(pool[k]);
      }
    }
  }

  /**
   * Post `i` is where a run stops for want of a person: every post before it is filled, and
   * nobody in its pool qualifies against the allocations and counters those posts left.
   */
  ghost predicate ParaNoPosto(users: map<UserId, Candidato>, alocs: map<AlocacaoId, Alocacao>,
                              postos: seq<Posto>, ids: seq<AlocacaoId>, indisp: seq<Indisponibilidade>,
                              ordem: seq<UserId>, d: Date, tipo: TipoRotina, aceita: Senioridade, i: int)
    requires |ids| == |postos|
  {
    && 0 <= i < |postos|
    && var antes := AlocarPostos(users, alocs, postos[..i], ids[..i], indisp, ordem, d, tipo, aceita);
       && antes.Ok?
       && forall c :: c in Candidatos(antes.value.0, indisp, ordem, postos[i], d, tipo)
            ==> !Apto(postos[i], c, antes.value.1, d, aceita)
  }

  /** The run over the first `i + 1` posts is the first post followed by the run over the next `i`. */
  lemma AlocarPrefixo(users: map<UserId, Candidato>, alocs: map<AlocacaoId, Alocacao>,
                      postos: seq<Posto>, ids: seq<AlocacaoId>, indisp: seq<Indisponibilidade>,
                      ordem: seq<UserId>, d: Date, tipo: TipoRotina, aceita: Senioridade, i: nat)
    requires |ids| == |postos| && i < |postos|
    ensures AlocarPostos(users, alocs, postos[..i + 1], ids[..i + 1], indisp, ordem, d, tipo, aceita) ==
            match AlocarPosto(users, alocs, postos[0], ids[0], indisp, ordem, d, tipo, aceita)
            case Err(e) => Err(e)
            case Ok(r) => AlocarPostos(r.0, r.1, postos[1..][..i], ids[1..][..i], indisp, ordem, d, tipo, aceita)
  {
    assert postos[..i + 1][0] == postos[0] && postos[..i + 1][1..] == postos[1..][..i];
    assert ids[..i + 1][0] == ids[0] && ids[..i + 1][1..] == ids[1..][..i];
  }

  /** A run stops at its first post exactly when nobody is chosen for it. */
  lemma ParaNoPrimeiro(users: map<UserId, Candidato>, alocs: map<AlocacaoId, Alocacao>,
                       postos: seq<Posto>, ids: seq<AlocacaoId>, indisp: seq<Indisponibilidade>,
                       ordem: seq<UserId>, d: Date, tipo: TipoRotina, aceita: Senioridade)
    requires |ids| == |postos| && postos != []
    ensures ParaNoPosto(users, alocs, postos, ids, indisp, ordem, d, tipo, aceita, 0) <==>
            Escolha(Candidatos(users, indisp, ordem, postos[0], d, tipo), postos[0], alocs, d, aceita).None?
  {
    assert postos[..0] == [] && ids[..0] == [];
    EscolhaVazia(Candidatos(users, indisp, ordem, postos[0], d, tipo), postos[0], alocs, d, aceita);
  }

  /** A run stops at a later post exactly when its first post is filled and the rest of the run stops one place earlier. */
  lemma ParaNoSeguinte(users: map<UserId, Candidato>, alocs: map<AlocacaoId, Alocacao>,
                       postos: seq<Posto>, ids: seq<AlocacaoId>, indisp: seq<Indisponibilidade>,
                       ordem: seq<UserId>, d: Date, tipo: TipoRotina, aceita: Senioridade, i: int)
    requires |ids| == |postos| && postos != []
    ensures i > 0 ==>
      (ParaNoPosto(users, alocs, postos, ids, indisp, ordem, d, tipo, aceita, i) <==>
       var r1 := AlocarPosto(users, alocs, postos[0], ids[0], indisp, ordem, d, tipo, aceita);
       r1.Ok? && ParaNoPosto(r1.value.0, r1.value.1, postos[1..], ids[1..], indisp, ordem, d, tipo, aceita, i - 1))
  {
    if 0 < i < |postos| {
      AlocarPrefixo(users, alocs, postos, ids, indisp, ordem, d, tipo, aceita, i - 1);
      var r1 := AlocarPosto(users, alocs, postos[0], ids[0], indisp, ordem, d, tipo, aceita);
      assert postos[i] == postos[1..][i - 1];
      if r1.Ok? {
        assert AlocarPostos(users, alocs, postos[..i], ids[..i], indisp, ordem, d, tipo, aceita) ==
               AlocarPostos(r1.value.0, r1.value.1, postos[1..][..i - 1], ids[1..][..i - 1], indisp, ordem, d, tipo, aceita);
      }
    }
  }

  /**
   * When the scan covers every user, the run stops at a post it reaches exactly when everybody
   * eligible for that post is held by the rest rule through the allocations already made.
   */
  lemma ParaNoPostoCompleto(users: map<UserId, Candidato>, alocs: map<AlocacaoId, Alocacao>,
                            postos: seq<Posto>, ids: seq<AlocacaoId>, indisp: seq<Indisponibilidade>,
                            ordem: seq<UserId>, d: Date, tipo: TipoRotina, aceita: Senioridade, i: nat,
                            ui: map<UserId, Candidato>, ai: map<AlocacaoId, Alocacao>)
    requires |ids| == |postos| && i < |postos| && ChavesConsistentes(users)
    requires forall u :: u in users ==> u in ordem
    requires AlocarPostos(users, alocs, postos[..i], ids[..i], indisp, ordem, d, tipo, aceita) == Ok((ui, ai))
    ensures ParaNoPosto(users, alocs, postos, ids, indisp, ordem, d, tipo, aceita, i) <==>
            forall u :: Elegivel(ui, indisp, postos[i], d, aceita, u) ==> TemConflito(ai, u, d)
  {
    AlocarPostosPreserva(users, alocs, postos[..i], ids[..i], indisp, ordem, d, tipo, aceita, ui, ai);
    EscolhaCorreta(ui, indisp, ordem, postos[i], ai, d, tipo, aceita);
  }

  /** When the first post already fails, the run can only stop there. */
  lemma SemCandidatoNoPrimeiro(
      users: map<UserId, Candidato>, alocs: map<AlocacaoId, Alocacao>,
      postos: seq<Posto>, ids: seq<AlocacaoId>, indisp: seq<Indisponibilidade>,
      ordem: seq<UserId>, d: Date, tipo: TipoRotina, aceita: Senioridade, nome: string, turmas: string)
    requires |ids| == |postos| && postos != []
    requires AlocarPosto(users, alocs, postos[0], ids[0], indisp, ordem, d, tipo, aceita).Err?
    ensures AlocarPostos(users, alocs, postos, ids, indisp, ordem, d, tipo, aceita) == Err(SemCandidato(nome, turmas))
            <==> exists i :: && 0 <= i < |postos|
                             && ParaNoPosto(users, alocs, postos, ids, indisp, ordem, d, tipo, aceita, i)
                             && postos[i].nome == nome && postos[i].turmasPermitidas == turmas
  {
    ParaNoPrimeiro(users, alocs, postos, ids, indisp, ordem, d, tipo, aceita);
    if exists i :: && 0 <= i < |postos|
                   && ParaNoPosto(users, alocs, postos, ids, indisp, ordem, d, tipo, aceita, i)
                   && postos[i].nome == nome && postos[i].turmasPermitidas == turmas {
      var i :| && 0 <= i < |postos|
               && ParaNoPosto(users, alocs, postos, ids, indisp, ordem, d, tipo, aceita, i)
               && postos[i].nome == nome && postos[i].turmasPermitidas == turmas;
      ParaNoSeguinte(users, alocs, postos, ids, indisp, ordem, d, tipo, aceita, i);
      assert i == 0;
    }
  }

  /** When the first post is filled, a stop of the run over the other posts is a stop one place later. */
  lemma SemCandidatoDepoisIda(
      users: map<UserId, Candidato>, alocs: map<AlocacaoId, Alocacao>,
      postos: seq<Posto>, ids: seq<AlocacaoId>, indisp: seq<Indisponibilidade>,
      ordem: seq<UserId>, d: Date, tipo: TipoRotina, aceita: Senioridade, nome: string, turmas: string,
      u1: map<UserId, Candidato>, a1: map<AlocacaoId, Alocacao>)
    requires |ids| == |postos| && postos != []
    requires AlocarPosto(users, alocs, postos[0], ids[0], indisp, ordem, d, tipo, aceita) == Ok((u1, a1))
    requires exists j :: && 0 <= j < |postos[1..]|
                         && ParaNoPosto(u1, a1, postos[1..], ids[1..], indisp, ordem, d, tipo, aceita, j)
                         && postos[1..][j].nome == nome && postos[1..][j].turmasPermitidas == turmas
    ensures exists i :: && 0 <= i < |postos|
                        && ParaNoPosto(users, alocs, postos, ids, indisp, ordem, d, tipo, aceita, i)
                        && postos[i].nome == nome && postos[i].turmasPermitidas == turmas
  {
    var j :| && 0 <= j < |postos[1..]|
             && ParaNoPosto(u1, a1, postos[1..], ids[1..], indisp, ordem, d, tipo, aceita, j)
             && postos[1..][j].nome == nome && postos[1..][j].turmasPermitidas == turmas;
    ParaNoSeguinte(users, alocs, postos, ids, indisp, ordem, d, tipo, aceita, j + 1);
    assert postos[j + 1] == postos[1..][j];
  }

  /** When the first post is filled, every stop of the run is a stop of the run over the other posts. */
  lemma SemCandidatoDepoisVolta(
      users: map<UserId, Candidato>, alocs: map<AlocacaoId, Alocacao>,
      postos: seq<Posto>, ids: seq<AlocacaoId>, indisp: seq<Indisponibilidade>,
      ordem: seq<UserId>, d: Date, tipo: TipoRotina, aceita: Senioridade,
      u1: map<UserId, Candidato>, a1: map<AlocacaoId, Alocacao>, i: int)
    requires |ids| == |postos| && postos != []
    requires AlocarPosto(users, alocs, postos[0], ids[0], indisp, ordem, d, tipo, aceita) == Ok((u1, a1))
    requires 0 <= i < |postos| && ParaNoPosto(users, alocs, postos, ids, indisp, ordem, d, tipo, aceita, i)
    ensures 0 < i && ParaNoPosto(u1, a1, postos[1..], ids[1..], indisp, ordem, d, tipo, aceita, i - 1)
    ensures postos[i] == postos[1..][i - 1]
  {
    ParaNoPrimeiro(users, alocs, postos, ids, indisp, ordem, d, tipo, aceita);
    ParaNoSeguinte(users, alocs, postos, ids, indisp, ordem, d, tipo, aceita, i);
  }

  /** When the first post is filled, the run stops where the run over the other posts stops, one place later. */
  lemma SemCandidatoDepois(
      users: map<UserId, Candidato>, alocs: map<AlocacaoId, Alocacao>,
      postos: seq<Posto>, ids: seq<AlocacaoId>, indisp: seq<Indisponibilidade>,
      ordem: seq<UserId>, d: Date, tipo: TipoRotina, aceita: Senioridade, nome: string, turmas: string,
      u1: map<UserId, Candidato>, a1: map<AlocacaoId, Alocacao>)
    requires |ids| == |postos| && postos != []
    requires AlocarPosto(users, alocs, postos[0], ids[0], indisp, ordem, d, tipo, aceita) == Ok((u1, a1))
    requires AlocarPostos(u1, a1, postos[1..], ids[1..], indisp, ordem, d, tipo, aceita) == Err(SemCandidato(nome, turmas))
             <==> exists j :: && 0 <= j < |postos[1..]|
                              && ParaNoPosto(u1, a1, postos[1..], ids[1..], indisp, ordem, d, tipo, aceita, j)
                              && postos[1..][j].nome == nome && postos[1..][j].turmasPermitidas == turmas
    ensures AlocarPostos(users, alocs, postos, ids, indisp, ordem, d, tipo, aceita) == Err(SemCandidato(nome, turmas))
            <==> exists i :: && 0 <= i < |postos|
                             && ParaNoPosto(users, alocs, postos, ids, indisp, ordem, d, tipo, aceita, i)
                             && postos[i].nome == nome && postos[i].turmasPermitidas == turmas
  {
    if AlocarPostos(u1, a1, postos[1..], ids[1..], indisp, ordem, d, tipo, aceita) == Err(SemCandidato(nome, turmas)) {
      SemCandidatoDepoisIda(users, alocs, postos, ids, indisp, ordem, d, tipo, aceita, nome, turmas, u1, a1);
    }
    if exists i :: && 0 <= i < |postos|
                   && ParaNoPosto(users, alocs, postos, ids, indisp, ordem, d, tipo, aceita, i)
                   && postos[i].nome == nome && postos[i].turmasPermitidas == turmas {
      var i :| && 0 <= i < |postos|
               && ParaNoPosto(users, alocs, postos, ids, indisp, ordem, d, tipo, aceita, i)
               && postos[i].nome == nome && postos[i].turmasPermitidas == turmas;
      SemCandidatoDepoisVolta(users, alocs, postos, ids, indisp, ordem, d, tipo, aceita, u1, a1, i);
    }
  }

  /**
   * A run fails for want of a person exactly when it reaches a post whose pool has nobody who
   * qualifies, and the error then names that post and its accepted years.
   */
  lemma {:induction false} AlocarPostosSemCandidatoIff(
      users: map<UserId, Candidato>, alocs: map<AlocacaoId, Alocacao>,
      postos: seq<Posto>, ids: seq<AlocacaoId>, indisp: seq<Indisponibilidade>,
      ordem: seq<UserId>, d: Date, tipo: TipoRotina, aceita: Senioridade, nome: string, turmas: string)
    requires |ids| == |postos|
    ensures AlocarPostos(users, alocs, postos, ids, indisp, ordem, d, tipo, aceita) == Err(SemCandidato(nome, turmas))
            <==> exists i :: && 0 <= i < |postos|
                             && ParaNoPosto(users, alocs, postos, ids, indisp, ordem, d, tipo, aceita, i)
                             && postos[i].nome == nome && postos[i].turmasPermitidas == turmas
    decreases |postos|
  {
    if postos != [] {
      var r1 := AlocarPosto(users, alocs, postos[0], ids[0], indisp, ordem, d, tipo, aceita);
      if r1.Err? {
        SemCandidatoNoPrimeiro(users, alocs, postos, ids, indisp, ordem, d, tipo, aceita, nome, turmas);
      } else {
        var u1, a1 := r1.value.0, r1.value.1;
        AlocarPostosSemCandidatoIff(u1, a1, postos[1..], ids[1..], indisp, ordem, d, tipo, aceita, nome, turmas);
        SemCandidatoDepois(users, alocs, postos, ids, indisp, ordem, d, tipo, aceita, nome, turmas, u1, a1);
      }
    }
  }

  /** A duplicate-key error names one of the fresh ids. */
  lemma {:induction false} AlocarPostosIdRepetido(
      users: map<UserId, Candidato>, alocs: map<AlocacaoId, Alocacao>,
      postos: seq<Posto>, ids: seq<AlocacaoId>, indisp: seq<Indisponibilidade>,
      ordem: seq<UserId>, d: Date, tipo: TipoRotina, aceita: Senioridade, x: AlocacaoId)
    requires |ids| == |postos|
    requires AlocarPostos(users, alocs, postos, ids, indisp, ordem, d, tipo, aceita) == Err(IdRepetido(x))
    ensures x in ids
    decreases |postos|
  {
    var r1 := AlocarPosto(users, alocs, postos[0], ids[0], indisp, ordem, d, tipo, aceita);
    if r1.Ok? {
      var u1, a1 := r1.value.0, r1.value.1;
      AlocarPostosIdRepetido(u1, a1, postos[1..], ids[1..], indisp, ordem, d, tipo, aceita, x);
      assert x in ids[1..];
    } else {
      assert ids[0] == x;
    }
  }

  // ---------------------------------------------------------------------------
  // The whole call.

  /**
   * A successful generation leaves exactly one header for the day (an existing one untouched, a new
   * one as a draft of the day's type) and leaves posts, unavailability and swaps as they were.
   */
  lemma GeracaoDiariaCabecalho(t: Tables, d: Date, tipo: TipoRotina, ordem: seq<UserId>, ids: seq<AlocacaoId>, aceita: Senioridade, t2: Tables)
    requires |ids| == |t.postos|
    requires GeracaoDiaria(t, d, tipo, ordem, ids, aceita) == Ok(t2)
    ensures d in t2.escalas
    ensures d in t.escalas ==> t2.escalas == t.escalas
    ensures d !in t.escalas ==> t2.escalas[d].status == StatusRascunho && t2.escalas[d].tipoRotina == AsStr(tipo)
    ensures forall e :: e != d ==> (e in t2.escalas <==> e in t.escalas) && (e in t.escalas ==> t2.escalas[e] == t.escalas[e])
    ensures t2.postos == t.postos && t2.indisponibilidades == t.indisponibilidades && t2.trocas == t.trocas
  {
  }

  /** Generating a day keeps the rest rule over the whole allocation table, and every user row under its own id. */
  lemma GeracaoDiariaSemFadiga(t: Tables, d: Date, tipo: TipoRotina, ordem: seq<UserId>, ids: seq<AlocacaoId>, aceita: Senioridade, t2: Tables)
    requires |ids| == |t.postos| && ChavesConsistentes(t.users) && SemFadiga(t.alocacoes)
    requires GeracaoDiaria(t, d, tipo, ordem, ids, aceita) == Ok(t2)
    ensures SemFadiga(t2.alocacoes)
    ensures ChavesConsistentes(t2.users)
  {
    var r := AlocarPostos(t.users, t.alocacoes, t.postos, ids, t.indisponibilidades, ordem, d, tipo, aceita);
    AlocarPostosSemFadiga(t.users, t.alocacoes, t.postos, ids, t.indisponibilidades, ordem, d, tipo, aceita, r.value.0, r.value.1);
    AlocarPostosPreserva(t.users, t.alocacoes, t.postos, ids, t.indisponibilidades, ordem, d, tipo, aceita, r.value.0, r.value.1);
  }

  /** With a post that nobody can fill, generation is all or nothing: it fails. */
  lemma GeracaoDiariaSemPessoal(t: Tables, d: Date, tipo: TipoRotina, ordem: seq<UserId>, ids: seq<AlocacaoId>, aceita: Senioridade, i: nat)
    requires |ids| == |t.postos| && ChavesConsistentes(t.users)
    requires i < |t.postos| && forall u :: !Elegivel(t.users, t.indisponibilidades, t.postos[i], d, aceita, u)
    ensures GeracaoDiaria(t, d, tipo, ordem, ids, aceita).Err?
  {
    AlocarPostosSemPessoal(t.users, t.alocacoes, t.postos, ids, t.indisponibilidades, ordem, d, tipo, aceita, i);
  }

  // ---------------------------------------------------------------------------
  // Swap approval.

  /** Approval succeeds exactly for a pending swap whose substitute is clear of the rest rule on that day. */
  lemma AprovacaoTrocaCasos(t: Tables, trocaId: TrocaId, agora: int)
    ensures !TrocaPendente(t, trocaId) ==> AprovacaoTroca(t, trocaId, agora) == Err(TrocaNaoEncontrada)
    ensures TrocaPendente(t, trocaId) ==>
              var tr := t.trocas[trocaId];
              (AprovacaoTroca(t, trocaId, agora).Ok? <==> !TemConflito(t.alocacoes, tr.substitutoId, t.alocacoes[tr.alocacaoId].data))
              && (AprovacaoTroca(t, trocaId, agora).Err? ==> AprovacaoTroca(t, trocaId, agora) == Err(FadigaSubstituto))
  {
  }

  /** Only the counters of a person can change in an approval. */
  predicate SoContadores(a: Candidato, b: Candidato) {
    a.(servicosRn := 0, servicosRd := 0) == b.(servicosRn := 0, servicosRd := 0)
  }

  function Outro(tipo: TipoRotina): TipoRotina {
    match tipo
    case RN => RD
    case RD => RN
  }

  /**
   * An approval moves the allocation to the substitute (nothing else about it changes), marks the
   * swap approved at `agora`, and leaves posts, unavailability and day headers alone.
   */
  lemma AprovacaoTrocaRegistros(t: Tables, trocaId: TrocaId, agora: int, t2: Tables)
    requires AprovacaoTroca(t, trocaId, agora) == Ok(t2)
    ensures TrocaPendente(t, trocaId)
    ensures var tr := t.trocas[trocaId];
            var a := t.alocacoes[tr.alocacaoId];
            && t2.alocacoes.Keys == t.alocacoes.Keys
            && t2.alocacoes[tr.alocacaoId] == a.(userId := tr.substitutoId)
            && (forall k :: k in t.alocacoes && k != tr.alocacaoId ==> t2.alocacoes[k] == t.alocacoes[k])
            && t2.trocas.Keys == t.trocas.Keys
            && t2.trocas[trocaId].status == StatusAprovada && t2.trocas[trocaId].dataResposta == Some(agora)
            && t2.trocas[trocaId].(status := tr.status, dataResposta := tr.dataResposta) == tr
            && (forall k :: k in t.trocas && k != trocaId ==> t2.trocas[k] == t.trocas[k])
            && t2.postos == t.postos && t2.indisponibilidades == t.indisponibilidades && t2.escalas == t.escalas
  {
  }

  /**
   * For a regular duty an approval moves one unit of the day type's counter from the requester
   * to the substitute; a punishment duty changes no counter; nothing else about anyone changes.
   */
  lemma AprovacaoTrocaContadores(t: Tables, trocaId: TrocaId, agora: int, t2: Tables)
    requires AprovacaoTroca(t, trocaId, agora) == Ok(t2)
    ensures TrocaPendente(t, trocaId)
    ensures var tr := t.trocas[trocaId];
            var a := t.alocacoes[tr.alocacaoId];
            var tipo := TipoDoCabecalho(t.escalas[a.data].tipoRotina);
            && t2.users.Keys == t.users.Keys
            && (a.isPunicao ==> t2.users == t.users)
            && (!a.isPunicao && tr.solicitanteId != tr.substitutoId && tr.solicitanteId in t.users ==>
                  Contador(t2.users[tr.solicitanteId], tipo) == Contador(t.users[tr.solicitanteId], tipo) - 1)
            && (!a.isPunicao && tr.solicitanteId != tr.substitutoId && tr.substitutoId in t.users ==>
                  Contador(t2.users[tr.substitutoId], tipo) == Contador(t.users[tr.substitutoId], tipo) + 1)
            && (!a.isPunicao && tr.solicitanteId == tr.substitutoId ==> t2.users == t.users)
  {
    var tr := t.trocas[trocaId];
    var a := t.alocacoes[tr.alocacaoId];
    var tipo := TipoDoCabecalho(t.escalas[a.data].tipoRotina);
    if !a.isPunicao && tr.solicitanteId == tr.substitutoId && tr.solicitanteId in t.users {
      var u := tr.solicitanteId;
      match tipo {
        case RN => assert t2.users[u] == t.users[u];
        case RD => assert t2.users[u] == t.users[u];
      }
      assert t2.users == t.users;
    }
  }

  /** In an approval only the requester's and the substitute's day-type counters can change. */
  lemma AprovacaoTrocaOutros(t: Tables, trocaId: TrocaId, agora: int, t2: Tables)
    requires AprovacaoTroca(t, trocaId, agora) == Ok(t2)
    ensures TrocaPendente(t, trocaId)
    ensures var tr := t.trocas[trocaId];
            var tipo := TipoDoCabecalho(t.escalas[t.alocacoes[tr.alocacaoId].data].tipoRotina);
            && t2.users.Keys == t.users.Keys
            && (forall u :: u in t.users ==>
                  SoContadores(t2.users[u], t.users[u]) && Contador(t2.users[u], Outro(tipo)) == Contador(t.users[u], Outro(tipo)))
            && (forall u :: u in t.users && u != tr.solicitanteId && u != tr.substitutoId ==> t2.users[u] == t.users[u])
  {
    var tr := t.trocas[trocaId];
    var tipo := TipoDoCabecalho(t.escalas[t.alocacoes[tr.alocacaoId].data].tipoRotina);
    var meio := AjustarContador(t.users, tr.solicitanteId, tipo, -1);
    AjustarContadorSo(t.users, tr.solicitanteId, tipo, -1);
    AjustarContadorSo(meio, tr.substitutoId, tipo, 1);
  }

  /** Adjusting one counter touches that counter of that person only. */
  lemma AjustarContadorSo(users: map<UserId, Candidato>, uid: UserId, tipo: TipoRotina, delta: int)
    ensures AjustarContador(users, uid, tipo, delta).Keys == users.Keys
    ensures forall u :: u in users ==>
              && SoContadores(AjustarContador(users, uid, tipo, delta)[u], users[u])
              && Contador(AjustarContador(users, uid, tipo, delta)[u], Outro(tipo)) == Contador(users[u], Outro(tipo))
    ensures forall u :: u in users && u != uid ==> AjustarContador(users, uid, tipo, delta)[u] == users[u]
  {
  }

  /** Approving a swap keeps the rest rule over the whole allocation table. */
  lemma AprovacaoTrocaSemFadiga(t: Tables, trocaId: TrocaId, agora: int, t2: Tables)
    requires SemFadiga(t.alocacoes)
    requires AprovacaoTroca(t, trocaId, agora) == Ok(t2)
    ensures SemFadiga(t2.alocacoes)
  {
    var tr := t.trocas[trocaId];
    var id := tr.alocacaoId;
    var d := t.alocacoes[id].data;
    assert !TemConflito(t.alocacoes, tr.substitutoId, d);
    forall k1, k2 | k1 in t2.alocacoes && k2 in t2.alocacoes && k1 != k2 && t2.alocacoes[k1].userId == t2.alocacoes[k2].userId
      ensures t2.alocacoes[k1].data - t2.alocacoes[k2].data > 1 || t2.alocacoes[k2].data - t2.alocacoes[k1].data > 1
    {
      if k1 == id {
        assert t2.alocacoes[k2] == t.alocacoes[k2] && t.alocacoes[k2].userId == tr.substitutoId;
      } else if k2 == id {
        assert t2.alocacoes[k1] == t.alocacoes[k1] && t.alocacoes[k1].userId == tr.substitutoId;
      }
    }
  }
}
