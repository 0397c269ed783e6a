/**
 * Academic periods. A period is written "YYYY-T": the year, a dash and the term,
 * where term 1 and 2 are the regular semesters and 15 is the winter term.
 * The backend splits the label on '-' and reads both halves with `parseInt`;
 * the model reads them with `ParseNat` and therefore works on well-formed
 * labels, whose halves are non-empty digit strings.
 */
module Periods {
  import opened Options
  import opened Strings

  datatype Periodo = Periodo(year: nat, term: nat)

  const WINTER_TERM: nat := 15

  /** Exactly one dash between two non-empty digit strings. */
  predicate WellFormed(s: string) {
    var parts := Split(s, '-');
    |parts| == 2 && IsDigits(parts[0]) && IsDigits(parts[1])
  }

  /** The `(year, term)` pair `periodo.split('-').map(n => parseInt(n, 10))` reads. */
  function Parse(s: string): Periodo
    requires WellFormed(s)
  {
    var parts := Split(s, '-');
    Periodo(ParseNat(parts[0]), ParseNat(parts[1]))
  }

  /** The template literal `${year}-${term}`; it reads back as the same pair. */
  function Label(p: Periodo): (s: string)
    ensures WellFormed(s) && Parse(s) == p
  {
    var y := NatToString(p.year);
    var t := NatToString(p.term);
    DigitsNoChar(y, '-');
    DigitsNoChar(t, '-');
    SplitTwo(y, t, '-');
    NatToStringRoundTrip(p.year);
    NatToStringRoundTrip(p.term);
    y + "-" + t
  }

  /** Strictly earlier: by year, then by term as a number (so term 2 < term 15). */
  predicate Before(p: Periodo, q: Periodo) {
    p.year < q.year || (p.year == q.year && p.term < q.term)
  }

  /** `comparePeriodo` (and `sortPeriodoAsc`, which computes the same difference). */
  function ComparePeriodo(a: string, b: string): (r: int)
    requires WellFormed(a) && WellFormed(b)
    ensures r < 0 <==> Before(Parse(a), Parse(b))
    ensures r > 0 <==> Before(Parse(b), Parse(a))
    ensures r == 0 <==> Parse(a) == Parse(b)
  {
    var pa := Parse(a);
    var pb := Parse(b);
    if pa.year != pb.year then pa.year - pb.year else pa.term - pb.term
  }

  /** The comparison is antisymmetric and transitive: a consistent comparator for `sort`. */
  lemma ComparePeriodoIsOrder(a: string, b: string, c: string)
    requires WellFormed(a) && WellFormed(b) && WellFormed(c)
    ensures ComparePeriodo(a, b) == -ComparePeriodo(b, a)
    ensures ComparePeriodo(a, b) <= 0 && ComparePeriodo(b, c) <= 0 ==> ComparePeriodo(a, c) <= 0
  {
  }

  /** The pair a label stands for, with malformed labels sent to a fixed pair. */
  function Key(s: string): Periodo {
    if WellFormed(s) then Parse(s) else Periodo(0, 0)
  }

  /** The ordering `sort((a, b) => comparePeriodo(a, b))` uses, as a total relation. */
  predicate PeriodLeq(a: string, b: string) {
    !Before(Key(b), Key(a))
  }

  lemma PeriodLeqAgrees(a: string, b: string)
    requires WellFormed(a) && WellFormed(b)
    ensures PeriodLeq(a, b) <==> ComparePeriodo(a, b) <= 0
  {
  }

  // ------------------------------------------------------------ advancing

  /** `nextPeriodo`: 1 -> 2 -> 15 -> next year's 1; any other term -> same year's 2. */
  function NextPeriodo(s: string): (r: string)
    requires WellFormed(s)
    ensures WellFormed(r)
  {
    var p := Parse(s);
    if p.term == 1 then Label(Periodo(p.year, 2))
    else if p.term == 2 then Label(Periodo(p.year, WINTER_TERM))
    else if p.term == WINTER_TERM then Label(Periodo(p.year + 1, 1))
    else Label(Periodo(p.year, 2))
  }

  /** Three steps of `nextPeriodo` walk a whole year, winter term included. */
  lemma NextPeriodoCyclesYear(y: nat)
    ensures NextPeriodo(Label(Periodo(y, 1))) == Label(Periodo(y, 2))
    ensures NextPeriodo(Label(Periodo(y, 2))) == Label(Periodo(y, WINTER_TERM))
    ensures NextPeriodo(Label(Periodo(y, WINTER_TERM))) == Label(Periodo(y + 1, 1))
  {
    NextPeriodoOfLabel(Periodo(y, 1), Periodo(y, 2));
    NextPeriodoOfLabel(Periodo(y, 2), Periodo(y, WINTER_TERM));
    NextPeriodoOfLabel(Periodo(y, WINTER_TERM), Periodo(y + 1, 1));
  }

  /** `nextPeriodo` of a label is the label of the successor pair. */
  lemma NextPeriodoOfLabel(p: Periodo, q: Periodo)
    requires q == if p.term == 1 then Periodo(p.year, 2)
                 else if p.term == 2 then Periodo(p.year, WINTER_TERM)
                 else if p.term == WINTER_TERM then Periodo(p.year + 1, 1)
                 else Periodo(p.year, 2)
    ensures NextPeriodo(Label(p)) == Label(q)
  {
    assert Parse(Label(p)) == p;
  }

  /** `nextPeriodo` moves forward exactly for terms up to 2 and for the winter term. */
  lemma NextPeriodoAdvances(s: string)
    requires WellFormed(s)
    ensures ComparePeriodo(NextPeriodo(s), s) > 0 <==> Parse(s).term <= 2 || Parse(s).term == WINTER_TERM
  {
  }

  /**
   * `isInvierno`: the second dash-separated piece, or "1" when it is missing or
   * empty, read with `parseInt`, equals 15.
   */
  function IsInvierno(s: string): (r: bool)
    ensures WellFormed(s) ==> (r <==> Parse(s).term == WINTER_TERM)
    ensures |Split(s, '-')| == 1 ==> !r
  {
    var parts := Split(s, '-');
    var piece := if |parts| >= 2 && parts[1] != "" then parts[1] else "1";
    assert WellFormed(s) ==> ParseIntJs(piece) == Some(Parse(s).term as int) by {
      if WellFormed(s) {
        ParseIntJsOfDigits(parts[1]);
      }
    }
    assert piece == "1" ==> ParseIntJs(piece) == Some(1) by {
      if piece == "1" {
        ParseIntJsOfDigits("1");
        assert ParseNat("1") == ParseNat("") * 10 + DigitVal('1');
      }
    }
    ParseIntJs(piece) == Some(WINTER_TERM as int)
  }

  /**
   * `nextPeriodoForProjection`: the planning successor, which never lands on a
   * winter term: 1 -> same year's 2, 2 -> next year's 1, anything else -> same year's 2.
   */
  function NextPeriodoForProjection(s: string): (r: string)
    requires WellFormed(s)
    ensures WellFormed(r)
    ensures Parse(r).term == 1 || Parse(r).term == 2
    ensures Parse(r) == if Parse(s).term == 2 then Periodo(Parse(s).year + 1, 1) else Periodo(Parse(s).year, 2)
  {
    var p := Parse(s);
    if p.term == 1 then Label(Periodo(p.year, 2))
    else if p.term == 2 then Label(Periodo(p.year + 1, 1))
    else if p.term == WINTER_TERM then Label(Periodo(p.year, 2))
    else Label(Periodo(p.year, 2))
  }

  /**
   * The planning successor is strictly later exactly when the term is at most 2;
   * from winter (15) it steps back to the same year's second semester.
   */
  lemma NextPeriodoForProjectionAdvances(s: string)
    requires WellFormed(s)
    ensures ComparePeriodo(NextPeriodoForProjection(s), s) > 0 <==> Parse(s).term <= 2
    ensures Parse(s).term == WINTER_TERM ==> ComparePeriodo(NextPeriodoForProjection(s), s) < 0
  {
  }

  // --------------------------------------------------- raw transcript codes

  /**
   * `parsePeriodoLabel`: a raw code such as "202310" becomes "2023-1": the first
   * four characters are the year, the rest is the term code, "10" -> "1",
   * "20" -> "2", anything else kept verbatim.
   */
  function ParsePeriodoLabel(raw: string): string {
    var cut := if |raw| < 4 then |raw| else 4;
    var year := raw[..cut];
    var code := raw[cut..];
    var term := if code == "10" then "1" else if code == "20" then "2" else code;
    year + "-" + term
  }

  /** The term number a raw term code stands for. */
  function TermOfCode(code: string): nat
    requires AllDigits(code)
  {
    if code == "10" then 1 else if code == "20" then 2 else ParseNat(code)
  }

  /**
   * A raw code of at least five digits gives a well-formed label whose pair is
   * (first four digits, term of the remaining code).
   */
  lemma ParsePeriodoLabelReadsBack(raw: string)
    requires IsDigits(raw) && |raw| >= 5
    ensures WellFormed(ParsePeriodoLabel(raw))
    ensures Parse(ParsePeriodoLabel(raw)) == Periodo(ParseNat(raw[..4]), TermOfCode(raw[4..]))
  {
    var year := raw[..4];
    var code := raw[4..];
    var term := if code == "10" then "1" else if code == "20" then "2" else code;
    assert IsDigits(year) && IsDigits(code);
    DigitsNoChar(year, '-');
    DigitsNoChar(term, '-');
    SplitTwo(year, term, '-');
    assert ParsePeriodoLabel(raw) == year + "-" + term;
    TermDigits();
    assert ParseNat(term) == TermOfCode(code);
  }

  /** The two rewritten term codes read as 1 and 2. */
  lemma TermDigits()
    ensures IsDigits("1") && ParseNat("1") == 1
    ensures IsDigits("2") && ParseNat("2") == 2
  {
    assert ParseNat("1") == ParseNat("") * 10 + DigitVal('1');
    assert ParseNat("2") == ParseNat("") * 10 + DigitVal('2');
  }

  lemma ParsePeriodoLabelExamples()
    ensures ParsePeriodoLabel("202310") == "2023-1"
    ensures ParsePeriodoLabel("202320") == "2023-2"
    ensures ParsePeriodoLabel("202315") == "2023-15"
  {
  }
}
