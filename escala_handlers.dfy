/**
 * The roster page (`handle_pagina_escala`): the joined rows of day headers and allocations are
 * grouped into one view per date, in a map ordered by date, and the days are split between the
 * published tab and the draft tab.
 */
module EscalaHandlers {
  import opened Wrappers
  import opened Text
  import opened Sorting

  /** One row of the header/allocation join; the allocation side is absent for a day without allocations. */
  datatype Linha = Linha(
    data: Option<string>, tipoRotina: string, status: Option<string>,
    alocId: Option<string>, userId: Option<string>, militar: Option<string>, posto: Option<string>,
    turma: Option<string>, isPunicao: Option<bool>)

  /** An allocation as the page shows it; `isMeu` marks the viewer's own duty. */
  datatype AlocacaoExibicao = AlocacaoExibicao(
    alocacaoId: string, userId: string, posto: string, militar: string, turma: string,
    isPunicao: bool, isMeu: bool)

  /** A day of the page: its date key, duty type, status and allocations. */
  datatype EscalaDiaView = EscalaDiaView(data: string, tipo: string, status: string, alocacoes: seq<AlocacaoExibicao>)

  /** The `BTreeMap` of days: the views by date key, and the keys in the order they were first seen. */
  datatype Dias = Dias(mapa: map<string, EscalaDiaView>, chaves: seq<string>)

  const StatusPublicada := "Publicada"
  const StatusRascunho := "Rascunho"

  /** The date key of a row, today's date when the row has none. */
  function Chave(row: Linha, hoje: string): string {
    row.data.GetOr(hoje)
  }

  /** The view `or_insert_with` creates for the first row of a date. */
  function NovoDia(key: string, row: Linha): EscalaDiaView {
    EscalaDiaView(key, row.tipoRotina, row.status.GetOr(StatusRascunho), [])
  }

  /** The allocation a row with an allocation contributes, with the page's defaults for missing columns. */
  function Exibicao(row: Linha, userAtualId: string): AlocacaoExibicao
    requires row.alocId.Some?
  {
    var uId := row.userId.GetOr("");
    AlocacaoExibicao(
      row.alocId.value, uId, row.posto.GetOr("Indefinido"), row.militar.GetOr("Sem Nome"),
      row.turma.GetOr(""), row.isPunicao.GetOr(false), uId == userAtualId)
  }

  /** One pass of the grouping loop. */
  function Acrescentar(g: Dias, row: Linha, hoje: string, userAtualId: string): Dias {
    var key := Chave(row, hoje);
    var g1 := if key in g.mapa then g else Dias(g.mapa[key := NovoDia(key, row)], g.chaves + [key]);
    if row.alocId.Some? && key in g1.mapa then
      var dia := g1.mapa[key];
      Dias(g1.mapa[key := dia.(alocacoes := dia.alocacoes + [Exibicao(row, userAtualId)])], g1.chaves)
    else g1
  }

  /** The map after the grouping loop has seen `rows`. */
  function Agrupar(rows: seq<Linha>, hoje: string, userAtualId: string): Dias {
    if rows == [] then Dias(map[], [])
    else Acrescentar(Agrupar(rows[..|rows| - 1], hoje, userAtualId), rows[|rows| - 1], hoje, userAtualId)
  }

  // ---------------------------------------------------------------------------
  // A reference description of each day, independent of the loop.

  /** The allocations of rows with date key `k`, in row order. */
  function AlocacoesDoDia(rows: seq<Linha>, hoje: string, userAtualId: string, k: string): seq<AlocacaoExibicao> {
    if rows == [] then []
    else
      var n := |rows| - 1;
      AlocacoesDoDia(rows[..n], hoje, userAtualId, k)
        + (if Chave(rows[n], hoje) == k && rows[n].alocId.Some? then [Exibicao(rows[n], userAtualId)] else [])
  }

  /** Row `i` is the first row with its date key. */
  ghost predicate Primeira(rows: seq<Linha>, hoje: string, i: int)
    requires 0 <= i < |rows|
  {
    forall j :: 0 <= j < i ==> Chave(rows[j], hoje) != Chave(rows[i], hoje)
  }

  /** Some row has date key `k`. */
  ghost predicate Aparece(rows: seq<Linha>, hoje: string, k: string) {
    exists i :: 0 <= i < |rows| && Chave(rows[i], hoje) == k
  }

  /** Every date among the rows gets exactly one key, and no other key exists. */
  lemma {:induction false} AgruparChaves(rows: seq<Linha>, hoje: string, userAtualId: string)
    ensures var g := Agrupar(rows, hoje, userAtualId);
      && (forall k :: k in g.mapa <==> k in g.chaves)
      && (forall k :: k in g.chaves <==> Aparece(rows, hoje, k))
      && (forall i, j :: 0 <= i < j < |g.chaves| ==> g.chaves[i] != g.chaves[j])
  {
    if rows != [] {
      var n := |rows| - 1;
      var front := rows[..n];
      AgruparChaves(front, hoje, userAtualId);
      var key := Chave(rows[n], hoje);
      forall k ensures Aparece(rows, hoje, k) <==> Aparece(front, hoje, k) || k == key {
        if Aparece(rows, hoje, k) {
          var i :| 0 <= i < |rows| && Chave(rows[i], hoje) == k;
          if i < n { assert Chave(front[i], hoje) == k; }
        }
        if Aparece(front, hoje, k) {
          var i :| 0 <= i < |front| && Chave(front[i], hoje) == k;
          assert rows[i] == front[i];
        }
        assert Chave(rows[n], hoje) == key;
      }
    }
  }

  /**
   * Each view carries its own date and the allocations of that date's rows in row order; a date
   * whose rows have no allocation has an empty list.
   */
  lemma {:induction false} AgruparConteudo(rows: seq<Linha>, hoje: string, userAtualId: string)
    ensures var g := Agrupar(rows, hoje, userAtualId);
      forall k :: && (k in g.mapa ==> g.mapa[k].data == k)
                  && AlocacoesDoDia(rows, hoje, userAtualId, k) == (if k in g.mapa then g.mapa[k].alocacoes else [])
  {
    if rows != [] {
      var n := |rows| - 1;
      var front := rows[..n];
      AgruparConteudo(front, hoje, userAtualId);
      var g := Agrupar(rows, hoje, userAtualId);
      forall k ensures && (k in g.mapa ==> g.mapa[k].data == k)
                       && AlocacoesDoDia(rows, hoje, userAtualId, k) == (if k in g.mapa then g.mapa[k].alocacoes else [])
      {
        assert AlocacoesDoDia(rows, hoje, userAtualId, k) == AlocacoesDoDia(front, hoje, userAtualId, k)
          + (if Chave(rows[n], hoje) == k && rows[n].alocId.Some? then [Exibicao(rows[n], userAtualId)] else []);
      }
    }
  }

  /** Every recorded key has its view in the map. */
  lemma ChaveNoMapa(rows: seq<Linha>, hoje: string, userAtualId: string, k: string)
    requires k in Agrupar(rows, hoje, userAtualId).chaves
    ensures k in Agrupar(rows, hoje, userAtualId).mapa
  {
    AgruparChaves(rows, hoje, userAtualId);
  }

  /** The two facts together. */
  lemma AgruparDias(rows: seq<Linha>, hoje: string, userAtualId: string)
    ensures var g := Agrupar(rows, hoje, userAtualId);
      && (forall k :: k in g.mapa <==> k in g.chaves)
      && (forall k :: k in g.chaves <==> Aparece(rows, hoje, k))
      && (forall i, j :: 0 <= i < j < |g.chaves| ==> g.chaves[i] != g.chaves[j])
      && (forall k :: k in g.mapa ==>
           g.mapa[k].data == k && g.mapa[k].alocacoes == AlocacoesDoDia(rows, hoje, userAtualId, k))
  {
    AgruparChaves(rows, hoje, userAtualId);
    AgruparConteudo(rows, hoje, userAtualId);
  }

  /** A date's duty type and status come from its first row; a missing status reads as a draft. */
  lemma {:induction false} AgruparPrimeira(rows: seq<Linha>, hoje: string, userAtualId: string)
    ensures var g := Agrupar(rows, hoje, userAtualId);
      forall i :: 0 <= i < |rows| && Primeira(rows, hoje, i) ==>
        && Chave(rows[i], hoje) in g.mapa
        && g.mapa[Chave(rows[i], hoje)].tipo == rows[i].tipoRotina
        && g.mapa[Chave(rows[i], hoje)].status == rows[i].status.GetOr(StatusRascunho)
  {
    if rows != [] {
      var n := |rows| - 1;
      var front := rows[..n];
      AgruparPrimeira(front, hoje, userAtualId);
      AgruparDias(front, hoje, userAtualId);
      var g0 := Agrupar(front, hoje, userAtualId);
      var g := Agrupar(rows, hoje, userAtualId);
      forall i | 0 <= i < |rows| && Primeira(rows, hoje, i)
        ensures Chave(rows[i], hoje) in g.mapa
        ensures g.mapa[Chave(rows[i], hoje)].tipo == rows[i].tipoRotina
        ensures g.mapa[Chave(rows[i], hoje)].status == rows[i].status.GetOr(StatusRascunho)
      {
        if i < n {
          assert front[i] == rows[i];
          assert Primeira(front, hoje, i) by {
            forall j | 0 <= j < i ensures Chave(front[j], hoje) != Chave(front[i], hoje) {
              assert front[j] == rows[j];
            }
          }
        } else {
          var key := Chave(rows[n], hoje);
          assert key !in g0.mapa by {
            forall j | 0 <= j < n ensures Chave(front[j], hoje) != key {
              assert front[j] == rows[j];
            }
          }
        }
      }
    }
  }

  /** An allocation is marked as the viewer's exactly when it belongs to the viewer. */
  lemma {:induction false} AlocacoesIsMeu(rows: seq<Linha>, hoje: string, userAtualId: string, k: string)
    ensures forall a :: a in AlocacoesDoDia(rows, hoje, userAtualId, k) ==> (a.isMeu <==> a.userId == userAtualId)
  {
    if rows != [] {
      AlocacoesIsMeu(rows[..|rows| - 1], hoje, userAtualId, k);
    }
  }

  // ---------------------------------------------------------------------------
  // The two tabs.

  /** The tab loop over days in key order: published days to the first list, all others to the second. */
  function Abas(mapa: map<string, EscalaDiaView>, ordem: seq<string>): (seq<EscalaDiaView>, seq<EscalaDiaView>)
    requires forall i :: 0 <= i < |ordem| ==> ordem[i] in mapa
  {
    if ordem == [] then ([], [])
    else
      var n := |ordem| - 1;
      var (publicados, rascunho) := Abas(mapa, ordem[..n]);
      var dia := mapa[ordem[n]];
      if dia.status == StatusPublicada then (publicados + [dia], rascunho) else (publicados, rascunho + [dia])
  }

  /**
   * Every day lands in exactly one tab: the published tab holds exactly the days whose status is
   * "Publicada", the draft tab all the others, and together they hold one entry per key.
   */
  lemma {:induction false} AbasParticao(mapa: map<string, EscalaDiaView>, ordem: seq<string>)
    requires forall i :: 0 <= i < |ordem| ==> ordem[i] in mapa
    ensures var (p, r) := Abas(mapa, ordem);
      && |p| + |r| == |ordem|
      && (forall d :: d in p ==> d.status == StatusPublicada)
      && (forall d :: d in r ==> d.status != StatusPublicada)
      && (forall i :: 0 <= i < |ordem| ==> mapa[ordem[i]] in p || mapa[ordem[i]] in r)
      && (forall d :: d in p || d in r ==> exists i :: 0 <= i < |ordem| && mapa[ordem[i]] == d)
  {
    if ordem != [] {
      var n := |ordem| - 1;
      AbasParticao(mapa, ordem[..n]);
      var (p0, r0) := Abas(mapa, ordem[..n]);
      forall i | 0 <= i < n ensures mapa[ordem[i]] in p0 || mapa[ordem[i]] in r0 {
        assert ordem[..n][i] == ordem[i];
      }
      forall d | d in p0 || d in r0 ensures exists i :: 0 <= i < |ordem| && mapa[ordem[i]] == d {
        var i :| 0 <= i < n && mapa[ordem[..n][i]] == d;
        assert ordem[..n][i] == ordem[i];
      }
    }
  }

  predicate PorData(a: EscalaDiaView, b: EscalaDiaView) {
    StrLe(a.data, b.data)
  }

  /** With the keys in ascending order and each view carrying its key, both tabs are in ascending date order. */
  lemma {:induction false} AbasOrdem(mapa: map<string, EscalaDiaView>, ordem: seq<string>)
    requires forall i :: 0 <= i < |ordem| ==> ordem[i] in mapa
    requires forall k :: k in mapa ==> mapa[k].data == k
    requires SortedBy(ordem, StrLe)
    ensures SortedBy(Abas(mapa, ordem).0, PorData) && SortedBy(Abas(mapa, ordem).1, PorData)
  {
    if ordem != [] {
      var n := |ordem| - 1;
      var front := ordem[..n];
      assert SortedBy(front, StrLe);
      AbasOrdem(mapa, front);
      AbasParticao(mapa, front);
      var (p0, r0) := Abas(mapa, front);
      var dia := mapa[ordem[n]];
      forall d | d in p0 || d in r0 ensures PorData(d, dia) {
        var i :| 0 <= i < |front| && mapa[front[i]] == d;
        assert StrLe(ordem[i], ordem[n]);
      }
    }
  }

  /** What the page shows: the two tabs of the grouped days, in key order. */
  function Pagina(rows: seq<Linha>, hoje: string, userAtualId: string): (seq<EscalaDiaView>, seq<EscalaDiaView>) {
    var g := Agrupar(rows, hoje, userAtualId);
    var ordem := SortBy(g.chaves, StrLe);
    assert forall i :: 0 <= i < |ordem| ==> ordem[i] in g.mapa by {
      forall i | 0 <= i < |ordem| ensures ordem[i] in g.mapa {
        assert ordem[i] in ordem;
        SortByMembers(g.chaves, StrLe, ordem[i]);
        ChaveNoMapa(rows, hoje, userAtualId, ordem[i]);
      }
    }
    Abas(g.mapa, ordem)
  }

  lemma StrLeTotalPreorder()
    ensures TotalPreorder(StrLe)
  {
    forall a: string, b: string ensures StrLe(a, b) || StrLe(b, a) {
      StrLeTotal(a, b);
    }
    forall a: string, b: string, c: string | StrLe(a, b) && StrLe(b, c) ensures StrLe(a, c) {
      StrLeTransitive(a, b, c);
    }
  }

  /** Both tabs of the page are in ascending date order, and every grouped day is in exactly one of them. */
  lemma PaginaOrdenada(rows: seq<Linha>, hoje: string, userAtualId: string)
    ensures SortedBy(Pagina(rows, hoje, userAtualId).0, PorData)
    ensures SortedBy(Pagina(rows, hoje, userAtualId).1, PorData)
    ensures |Pagina(rows, hoje, userAtualId).0| + |Pagina(rows, hoje, userAtualId).1| ==
      |Agrupar(rows, hoje, userAtualId).chaves|
  {
    var g := Agrupar(rows, hoje, userAtualId);
    var ordem := SortBy(g.chaves, StrLe);
    forall i | 0 <= i < |ordem| ensures ordem[i] in g.mapa {
      assert ordem[i] in ordem;
      SortByMembers(g.chaves, StrLe, ordem[i]);
      ChaveNoMapa(rows, hoje, userAtualId, ordem[i]);
    }
    AgruparConteudo(rows, hoje, userAtualId);
    StrLeTotalPreorder();
    SortBySorted(g.chaves, StrLe);
    AbasOrdem(g.mapa, ordem);
    AbasParticao(g.mapa, ordem);
  }

  /** The grouping and tab steps of `handle_pagina_escala` over the fetched rows. */
  method PaginaEscala(rows: seq<Linha>, hoje: string, userAtualId: string)
    returns (diasPublicados: seq<EscalaDiaView>, diasRascunho: seq<EscalaDiaView>)
    ensures (diasPublicados, diasRascunho) == Pagina(rows, hoje, userAtualId)
  {
    var diasMap: map<string, EscalaDiaView> := map[];
    var chaves: seq<string> := [];
    for i := 0 to |rows|
      invariant Dias(diasMap, chaves) == Agrupar(rows[..i], hoje, userAtualId)
    {
      var row := rows[i];
      assert rows[..i + 1][..i] == rows[..i];
      var dataKey := row.data.GetOr(hoje);
      if dataKey !in diasMap {
        diasMap := diasMap[dataKey := EscalaDiaView(dataKey, row.tipoRotina, row.status.GetOr(StatusRascunho), [])];
        chaves := chaves + [dataKey];
      }
      if row.alocId.Some? {
        var uId := row.userId.GetOr("");
        var entry := diasMap[dataKey];
        var aloc := AlocacaoExibicao(
          row.alocId.value, uId, row.posto.GetOr("Indefinido"), row.militar.GetOr("Sem Nome"),
          row.turma.GetOr(""), row.isPunicao.GetOr(false), uId == userAtualId);
        diasMap := diasMap[dataKey := entry.(alocacoes := entry.alocacoes + [aloc])];
      }
    }
    assert rows[..|rows|] == rows;
    AgruparDias(rows, hoje, userAtualId);
    var ordem := SortBy(chaves, StrLe);
    forall i | 0 <= i < |ordem| ensures ordem[i] in diasMap {
      SortByMembers(chaves, StrLe, ordem[i]);
    }
    diasPublicados, diasRascunho := [], [];
    for i := 0 to |ordem|
      invariant (diasPublicados, diasRascunho) == Abas(diasMap, ordem[..i])
    {
      assert ordem[..i + 1][..i] == ordem[..i];
      var dia := diasMap[ordem[i]];
      if dia.status == StatusPublicada {
        diasPublicados := diasPublicados + [dia];
      } else {
        diasRascunho := diasRascunho + [dia];
      }
    }
    assert ordem[..|ordem|] == ordem;
  }
}
