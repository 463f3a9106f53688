/**
 * The roster records (posts, swaps, unavailability windows, candidates, allocations) and the
 * seniority rule a post applies to a candidate's year.
 */
module EscalaModel {
  import opened Wrappers
  import opened Text

  type UserId = string
  type AlocacaoId = string
  type TrocaId = string

  /** A calendar date as a day ordinal: `YYYY-MM-DD` compares like the ordinal, and `-1 day` is `d - 1`. */
  type Date = int

  /** A duty post; `turmasPermitidas` is a comma-separated list of accepted years, such as "1,2". */
  datatype Posto = Posto(id: int, nome: string, generoRestricao: string, turmasPermitidas: string, peso: int)

  /** A swap request; `status` is 'Pendente', 'Aprovada' or 'Recusada'. Timestamps are instants. */
  datatype Troca = Troca(
    id: TrocaId, solicitanteId: UserId, substitutoId: UserId, alocacaoId: AlocacaoId,
    status: string, criadoEm: Option<int>, dataResposta: Option<int>)

  /** A person is unavailable from `dataInicio` to `dataFim`, both days included. */
  datatype Indisponibilidade = Indisponibilidade(
    id: int, userId: UserId, dataInicio: Date, dataFim: Date, motivo: Option<string>)

  /** A person as the roster sees them: fairness counters per duty type and the punishment balance. */
  datatype Candidato = Candidato(
    id: UserId, name: string, genero: string, turma: string, ano: int,
    servicosRn: int, servicosRd: int, saldoPunicoes: int)

  /** `userId` fills post `postoId` on `data`; `isPunicao` marks repayment of a punishment. */
  datatype Alocacao = Alocacao(id: AlocacaoId, userId: UserId, postoId: int, data: Date, isPunicao: bool)

  /** `iter().any(|t| t.trim() == s)` over the pieces. */
  function AnyTrimmedEquals(pieces: seq<string>, s: string): bool {
    if pieces == [] then false
    else if Trim(pieces[0]) == s then true
    else AnyTrimmedEquals(pieces[1..], s)
  }

  /** The search succeeds exactly when some piece trims to `s`. */
  lemma {:induction false} AnyTrimmedEqualsIff(pieces: seq<string>, s: string)
    ensures AnyTrimmedEquals(pieces, s) <==> exists i :: 0 <= i < |pieces| && Trim(pieces[i]) == s
  {
    if pieces != [] {
      AnyTrimmedEqualsIff(pieces[1..], s);
      assert forall i :: 1 <= i < |pieces| ==> pieces[i] == pieces[1..][i - 1];
      if exists i :: 0 <= i < |pieces| && Trim(pieces[i]) == s {
        var i :| 0 <= i < |pieces| && Trim(pieces[i]) == s;
        if i > 0 { assert Trim(pieces[1..][i - 1]) == s; }
      }
    }
  }

  /** `Posto::aceita_ano`: some comma-separated piece of the list, trimmed, is the year's decimal text. */
  function AceitaAno(p: Posto, anoUser: int): bool {
    AnyTrimmedEquals(Split(p.turmasPermitidas, ','), DecimalText(anoUser))
  }

  /** The decimal texts of a list of years, the pieces of a list such as "1,2". */
  function YearTexts(years: seq<int>): (r: seq<string>)
    ensures |r| == |years|
    ensures forall i :: 0 <= i < |r| ==> r[i] == DecimalText(years[i])
  {
    seq(|years|, i requires 0 <= i < |years| => DecimalText(years[i]))
  }

  /** For a list made of pieces without commas, acceptance is "some piece trims to the year". */
  lemma AceitaAnoPieces(p: Posto, pieces: seq<string>, y: int)
    requires |pieces| >= 1
    requires forall i :: 0 <= i < |pieces| ==> ',' !in pieces[i]
    requires p.turmasPermitidas == Join(pieces, ',')
    ensures AceitaAno(p, y) <==> exists i :: 0 <= i < |pieces| && Trim(pieces[i]) == DecimalText(y)
  {
    SplitJoin(pieces, ',');
    AnyTrimmedEqualsIff(pieces, DecimalText(y));
  }

  /** Membership, not range: the list written from a set of years accepts exactly those years. */
  lemma AceitaAnoYears(p: Posto, years: seq<int>, y: int)
    requires |years| >= 1
    requires p.turmasPermitidas == Join(YearTexts(years), ',')
    ensures AceitaAno(p, y) <==> y in years
  {
    var pieces := YearTexts(years);
    var t := DecimalText(y);
    AceitaAnoPieces(p, pieces, y);
    if AceitaAno(p, y) {
      var i :| 0 <= i < |pieces| && Trim(pieces[i]) == t;
      TrimDecimal(years[i]);
      DecimalTextInjective(years[i], y);
      assert years[i] == y;
    }
    if y in years {
      var i :| 0 <= i < |years| && years[i] == y;
      TrimDecimal(y);
      assert Trim(pieces[i]) == t;
    }
  }

  lemma TrimDecimal(n: int)
    ensures Trim(DecimalText(n)) == DecimalText(n)
  {
    TrimAround([], DecimalText(n), []);
    assert [] + DecimalText(n) + [] == DecimalText(n);
  }

  /** No partial matches: a one-year list accepts that year and no other ("12" accepts neither 1 nor 2). */
  lemma AceitaAnoSingle(p: Posto, x: int, y: int)
    requires p.turmasPermitidas == DecimalText(x)
    ensures AceitaAno(p, y) <==> x == y
  {
    assert Join(YearTexts([x]), ',') == DecimalText(x);
    AceitaAnoYears(p, [x], y);
  }

  /** White space around a piece is ignored. */
  lemma AceitaAnoPadded(p: Posto, w1: string, w2: string, y: int)
    requires AllWhitespace(w1) && AllWhitespace(w2)
    requires p.turmasPermitidas == w1 + DecimalText(y) + w2
    ensures AceitaAno(p, y)
  {
    var t := DecimalText(y);
    assert ',' !in w1 && ',' !in w2 by {
      assert !IsWhitespace(',');
    }
    assert ',' !in w1 + t + w2;
    SplitNoSeparator(w1 + t + w2, ',');
    TrimAround(w1, t, w2);
    assert Trim(Split(p.turmasPermitidas, ',')[0]) == t;
    AnyTrimmedEqualsIff(Split(p.turmasPermitidas, ','), t);
  }

  /** An empty list accepts no year. */
  lemma AceitaAnoEmpty(p: Posto, y: int)
    requires p.turmasPermitidas == ""
    ensures !AceitaAno(p, y)
  {
    assert Split("", ',') == [""];
    assert Trim("") == "";
    AnyTrimmedEqualsIff([""], DecimalText(y));
  }

  /** The order of the pieces does not matter. */
  lemma AceitaAnoSwap(p: Posto, q: Posto, a: string, b: string, y: int)
    requires p.turmasPermitidas == a + "," + b
    requires q.turmasPermitidas == b + "," + a
    ensures AceitaAno(p, y) == AceitaAno(q, y)
  {
    SplitAppend(a, b, ',');
    SplitAppend(b, a, ',');
    var sa, sb := Split(a, ','), Split(b, ',');
    var s := DecimalText(y);
    assert Split(p.turmasPermitidas, ',') == sa + sb;
    assert Split(q.turmasPermitidas, ',') == sb + sa;
    assert AnyTrimmedEquals(sa + sb, s) == (AnyTrimmedEquals(sa, s) || AnyTrimmedEquals(sb, s)) by {
      PiecesAppend(sa, sb, s);
    }
    assert AnyTrimmedEquals(sb + sa, s) == (AnyTrimmedEquals(sb, s) || AnyTrimmedEquals(sa, s)) by {
      PiecesAppend(sb, sa, s);
    }
  }

  lemma PiecesAppend(u: seq<string>, v: seq<string>, s: string)
    ensures AnyTrimmedEquals(u + v, s) == (AnyTrimmedEquals(u, s) || AnyTrimmedEquals(v, s))
  {
    var w := u + v;
    AnyTrimmedEqualsIff(u, s);
    AnyTrimmedEqualsIff(v, s);
    AnyTrimmedEqualsIff(w, s);
    if AnyTrimmedEquals(v, s) {
      var i :| 0 <= i < |v| && Trim(v[i]) == s;
      assert w[|u| + i] == v[i];
    }
    if AnyTrimmedEquals(u, s) {
      var i :| 0 <= i < |u| && Trim(u[i]) == s;
      assert w[i] == u[i];
    }
    if AnyTrimmedEquals(w, s) {
      var i :| 0 <= i < |w| && Trim(w[i]) == s;
      if i >= |u| { assert w[i] == v[i - |u|]; } else { assert w[i] == u[i]; }
    }
  }

  /** Membership, not range: "1,3" rejects 2. */
  lemma AceitaAnoExampleGap(p: Posto)
    requires p.turmasPermitidas == "1,3"
    ensures !AceitaAno(p, 2)
  {
    var years := [1, 3];
    assert DecimalText(1) == "1" && DecimalText(3) == "3";
    assert YearTexts(years) == ["1", "3"];
    assert Join(["1", "3"], ',') == "1,3";
    AceitaAnoYears(p, years, 2);
  }

  /** White space is ignored: "1, 2" accepts 2. */
  lemma AceitaAnoExampleSpaced(p: Posto)
    requires p.turmasPermitidas == "1, 2"
    ensures AceitaAno(p, 2)
  {
    var pieces := ["1", " 2"];
    assert Join(pieces, ',') == "1, 2";
    assert Trim(pieces[1]) == DecimalText(2) by {
      assert DecimalText(2) == "2";
      assert AllWhitespace(" ") by { assert IsWhitespace(' '); }
      TrimAround(" ", "2", "");
      assert " " + "2" + "" == " 2";
    }
    AceitaAnoPieces(p, pieces, 2);
  }

  /** No partial match: "12" accepts neither 1 nor 2. */
  lemma AceitaAnoExampleNoPrefix(p: Posto)
    requires p.turmasPermitidas == "12"
    ensures !AceitaAno(p, 1) && !AceitaAno(p, 2)
  {
    assert DecimalText(12) == "12";
    AceitaAnoSingle(p, 12, 1);
    AceitaAnoSingle(p, 12, 2);
  }
}
