/**
 * The pure helpers of the transcript table (frontend/src/app/components/HistorialCurricular.tsx):
 * column labels for periods, the grouping of transcript records by semester,
 * the merge of the automatic projection into those columns, and the
 * chronological order of the columns.
 */
module Historial {
  import opened Options
  import opened Strings
  import opened Collections
  import opened Model
  import opened Grouping

  // ------------------------------------------------------------------ labels

  /** `periodo.split('-')[0]`. */
  function YearOf(periodo: string): string {
    Split(periodo, '-')[0]
  }

  /** `periodo.split('-')[1]`; a label without a dash has none, which a template literal prints as "undefined". */
  function TermOf(periodo: string): string {
    var parts := Split(periodo, '-');
    if |parts| >= 2 then parts[1] else "undefined"
  }

  /** `termMap[term] || term`: terms 1, 2, 15 and 25 as I, II, W and V, anything else as it is. */
  function TermLabel(term: string): string {
    if term == "1" then "I"
    else if term == "2" then "II"
    else if term == "15" then "W"
    else if term == "25" then "V"
    else term
  }

  /** `formatPeriodo`: the column of a "YYYY-T" label. */
  function FormatPeriodo(periodo: string): string {
    YearOf(periodo) + "-" + TermLabel(TermOf(periodo))
  }

  /** The switch of `groupCursosBySemester`: codes 10, 20, 15 and 25 as I, II, W and V, anything else as it is. */
  function CodeLabel(code: string): string {
    if code == "10" then "I"
    else if code == "20" then "II"
    else if code == "15" then "W"
    else if code == "25" then "V"
    else code
  }

  /** The column of a six-digit transcript code such as "202410": `year-label`. */
  function SemesterKey(period: string): string {
    Substring(period, 0, 4) + "-" + CodeLabel(Substring(period, 4, 6))
  }

  /** `termCode`: a projected term as the last digits of a transcript code. */
  function TermCode(term: string): string {
    if term == "1" then "10"
    else if term == "2" then "20"
    else term
  }

  /** The six-digit code written for a projected course: `${year}${termCode}`. */
  function PeriodCode(periodo: string): string {
    YearOf(periodo) + TermCode(TermOf(periodo))
  }

  lemma SplitLabel(y: string, t: string)
    requires '-' !in y && '-' !in t
    ensures YearOf(y + "-" + t) == y && TermOf(y + "-" + t) == t
  {
    SplitTwo(y, t, '-');
  }

  /**
   * A projected course and a transcript record of the same term land in the
   * same column: for a four-character year and a term of at most two
   * characters, the column `formatPeriodo` gives the projected label is the
   * one `groupCursosBySemester` gives the re-encoded code. Terms "10" and
   * "20" are the exception: their codes read back as I and II.
   */
  lemma ColumnsAgree(y: string, t: string)
    requires |y| == 4 && '-' !in y && '-' !in t
    requires |t| <= 2 && t != "10" && t != "20"
    ensures FormatPeriodo(y + "-" + t) == SemesterKey(PeriodCode(y + "-" + t))
  {
    SplitLabel(y, t);
    var code := y + TermCode(t);
    assert code[0..4] == y;
    if |TermCode(t)| <= 2 {
      assert Substring(code, 4, 6) == TermCode(t);
    }
  }

  // ---------------------------------------------------------------- grouping

  /** Each transcript record with its column. */
  function HistPairs(cursos: seq<Curso>): (ps: seq<(string, Curso)>)
    ensures |ps| == |cursos|
    ensures forall i | 0 <= i < |cursos| :: ps[i] == (SemesterKey(cursos[i].period), cursos[i])
  {
    seq(|cursos|, i requires 0 <= i < |cursos| => (SemesterKey(cursos[i].period), cursos[i]))
  }

  /** `groupCursosBySemester(cursos)`; a missing list gives no columns. */
  function GroupCursosBySemester(cursos: Option<seq<Curso>>): seq<Bucket<string, Curso>> {
    GroupBy(HistPairs(cursos.GetOr([])))
  }

  /** The records of `cursos` in column `k`, in their order. */
  function InColumn(cursos: seq<Curso>, k: string): (r: seq<Curso>)
    ensures forall c :: multiset(r)[c] == if SemesterKey(c.period) == k then multiset(cursos)[c] else 0
    decreases |cursos|
  {
    if cursos == [] then []
    else
      var init := cursos[..|cursos| - 1];
      var last := cursos[|cursos| - 1];
      assert cursos == init + [last];
      InColumn(init, k) + (if SemesterKey(last.period) == k then [last] else [])
  }

  lemma {:induction false} MatchingColumn(cursos: seq<Curso>, k: string)
    ensures Matching(HistPairs(cursos), k) == InColumn(cursos, k)
    decreases |cursos|
  {
    if cursos != [] {
      var init := cursos[..|cursos| - 1];
      assert HistPairs(cursos)[..|cursos| - 1] == HistPairs(init);
      MatchingColumn(init, k);
    }
  }

  /**
   * The columns of the transcript: one per distinct key, none empty, and
   * each holding exactly the records of its key in their original order, so
   * every record sits in exactly one column.
   */
  lemma GroupCursosBySemesterSpec(cursos: Option<seq<Curso>>)
    ensures cursos.None? ==> GroupCursosBySemester(cursos) == []
    ensures var cs := cursos.GetOr([]); var bs := GroupCursosBySemester(cursos);
      && Distinct(Keys(bs))
      && (forall c | c in cs :: SemesterKey(c.period) in Keys(bs))
      && (forall i | 0 <= i < |bs| :: bs[i].items == InColumn(cs, bs[i].key) && bs[i].items != [])
  {
    var cs := cursos.GetOr([]);
    var ps := HistPairs(cs);
    var bs := GroupBy(ps);
    GroupByGroups(ps);
    forall c | c in cs ensures SemesterKey(c.period) in Keys(bs) {
      var i :| 0 <= i < |cs| && cs[i] == c;
      assert ps[i] in ps;
    }
    forall i | 0 <= i < |bs| ensures bs[i].items == InColumn(cs, bs[i].key) && bs[i].items != [] {
      MatchingColumn(cs, bs[i].key);
      var p :| p in ps && p.0 == bs[i].key;
      MatchingHas(ps, p);
    }
  }

  // ------------------------------------------------------------------ merge

  /** A projected course as a table row: its period as a transcript code, no NRC. */
  function ComoCurso(periodo: string, r: Ramo): Curso {
    Curso(r.codigo, r.nombre, r.estado, PeriodCode(periodo), "")
  }

  /** The rows of one projected semester, each with the semester's column. */
  function SemPairs(s: Semestre): (ps: seq<(string, Curso)>)
    ensures |ps| == |s.ramos|
    ensures forall i | 0 <= i < |ps| :: ps[i] == (FormatPeriodo(s.periodo), ComoCurso(s.periodo, s.ramos[i]))
  {
    seq(|s.ramos|, i requires 0 <= i < |s.ramos| => (FormatPeriodo(s.periodo), ComoCurso(s.periodo, s.ramos[i])))
  }

  /** The column of a projected semester. */
  function Columna(s: Semestre): string {
    FormatPeriodo(s.periodo)
  }

  /** The rows of the projection, semester by semester. */
  function ProjPairs(ss: seq<Semestre>): seq<(string, Curso)> {
    AllPairs(ss, SemPairs)
  }

  /** The columns of the projected semesters. */
  function ProjKeys(ss: seq<Semestre>): set<string> {
    AllKeys(ss, Columna)
  }

  /** The `forEach` over the projected semesters: open the column, then push each row. */
  function CombineFrom(bs: seq<Bucket<string, Curso>>, ss: seq<Semestre>): (r: seq<Bucket<string, Curso>>)
    ensures |bs| <= |r| && forall i | 0 <= i < |bs| :: r[i].key == bs[i].key
  {
    TouchAddAll(bs, ss, Columna, SemPairs)
  }

  /** `combineHistorialAndProjection`: the transcript columns, then the projection merged in. */
  function CombineHistorialAndProjection(avance: Option<seq<Curso>>, proyeccion: Option<seq<Semestre>>): seq<Bucket<string, Curso>> {
    CombineFrom(GroupCursosBySemester(avance), proyeccion.GetOr([]))
  }

  /** A column comes from the projection exactly when some projected semester formats to it. */
  lemma {:induction false} ProjKeysMember(ss: seq<Semestre>, k: string)
    ensures k in ProjKeys(ss) <==> exists s | s in ss :: FormatPeriodo(s.periodo) == k
  {
    if ss != [] {
      ProjKeysMember(ss[1..], k);
      assert ss[0] in ss;
      assert forall s | s in ss :: s == ss[0] || s in ss[1..];
    }
  }

  /**
   * The merged table: one column per distinct key; the columns are the
   * transcript's, in place and first, then the new projected ones; a column
   * exists for every projected semester, even an empty one; every column
   * holds its transcript records and then its projected rows, each in order.
   */
  lemma CombineSpec(avance: Option<seq<Curso>>, proyeccion: Option<seq<Semestre>>)
    ensures var h := HistPairs(avance.GetOr([]));
      var p := ProjPairs(proyeccion.GetOr([]));
      var g := GroupCursosBySemester(avance);
      var c := CombineHistorialAndProjection(avance, proyeccion);
      && GroupsAlso(c, h + p, ProjKeys(proyeccion.GetOr([])))
      && Keys(g) <= Keys(c)
      && (forall i | 0 <= i < |g| :: c[i].items == g[i].items + Matching(p, g[i].key))
  {
    var h := HistPairs(avance.GetOr([]));
    var p := ProjPairs(proyeccion.GetOr([]));
    var g := GroupCursosBySemester(avance);
    var c := CombineHistorialAndProjection(avance, proyeccion);
    assert GroupsAlso(g, h, {}) by {
      GroupByGroups(h);
      assert KeysOf(h) + {} == KeysOf(h);
    }
    assert GroupsAlso(c, h + p, ProjKeys(proyeccion.GetOr([]))) by {
      TouchAddAllGroups(g, h, {}, proyeccion.GetOr([]), Columna, SemPairs);
      assert {} + ProjKeys(proyeccion.GetOr([])) == ProjKeys(proyeccion.GetOr([]));
    }
    assert Keys(g) <= Keys(c);
    forall i | 0 <= i < |g| ensures c[i].items == g[i].items + Matching(p, g[i].key) {
      assert c[i].key == g[i].key;
      assert c[i].items == Matching(h + p, c[i].key);
      assert g[i].items == Matching(h, g[i].key);
      MatchingAppend(h, p, g[i].key);
    }
  }

  // --------------------------------------------------------------- ordering

  /** `semesterOrder[s] || 5`: I, W, II, V, then everything else. */
  function Rank(term: string): (r: int)
    ensures 1 <= r <= 5
    ensures r == 5 <==> term != "I" && term != "W" && term != "II" && term != "V"
    ensures term == "I" ==> r == 1
    ensures term == "W" ==> r == 2
    ensures term == "II" ==> r == 3
    ensures term == "V" ==> r == 4
  {
    if term == "I" then 1
    else if term == "W" then 2
    else if term == "II" then 3
    else if term == "V" then 4
    else 5
  }

  /**
   * The comparator of `sortSemesters`: different year strings compare by
   * their `parseInt` values (NaN, read as 0 by the sort, when either is not a
   * number); the same year compares by rank.
   */
  function CompareColumns(a: string, b: string): int {
    var ya := YearOf(a);
    var yb := YearOf(b);
    if ya != yb then
      match (ParseIntJs(ya), ParseIntJs(yb))
      case (Some(x), Some(y)) => x - y
      case _ => 0
    else Rank(TermOf(a)) - Rank(TermOf(b))
  }

  predicate ColumnLeq(a: string, b: string) {
    CompareColumns(a, b) <= 0
  }

  /** `sortSemesters(Object.keys(cursosGrouped))`. */
  function SortSemesters(keys: seq<string>): seq<string> {
    SortBy(keys, ColumnLeq)
  }

  /** A column key with a four-digit year and a term without dashes. */
  predicate IsColumn(k: string) {
    var parts := Split(k, '-');
    |parts| == 2 && |parts[0]| == 4 && IsDigits(parts[0])
  }

  /** The year of a column key. */
  function ColumnYear(k: string): nat
    requires IsColumn(k)
  {
    ParseNat(Split(k, '-')[0])
  }

  /** Between column keys, the comparator orders by year, then by rank. */
  lemma ColumnLeqMeans(a: string, b: string)
    requires IsColumn(a) && IsColumn(b)
    ensures ColumnLeq(a, b) <==>
      ColumnYear(a) < ColumnYear(b) || (ColumnYear(a) == ColumnYear(b) && Rank(TermOf(a)) <= Rank(TermOf(b)))
  {
    var ya := YearOf(a);
    var yb := YearOf(b);
    assert ParseIntJs(ya) == Some(ParseNat(ya)) by {
      ParseIntJsDigitsThenRest(ya, []);
      assert ya + [] == ya;
    }
    assert ParseIntJs(yb) == Some(ParseNat(yb)) by {
      ParseIntJsDigitsThenRest(yb, []);
      assert yb + [] == yb;
    }
    if ParseNat(ya) == ParseNat(yb) {
      ParseNatInjective(ya, yb);
    }
  }

  /**
   * Sorting column keys puts them in chronological order, year first and
   * then I < W < II < V < anything else, and loses or adds no key.
   */
  lemma SortSemestersSpec(keys: seq<string>)
    requires forall k | k in keys :: IsColumn(k)
    ensures var r := SortSemesters(keys);
      && multiset(r) == multiset(keys)
      && (forall i | 0 <= i < |r| :: IsColumn(r[i]))
      && forall i, j | 0 <= i < j < |r| ::
        ColumnYear(r[i]) < ColumnYear(r[j]) ||
        (ColumnYear(r[i]) == ColumnYear(r[j]) && Rank(TermOf(r[i])) <= Rank(TermOf(r[j])))
  {
    assert TotalPreorderOn(keys, ColumnLeq) by {
      forall a, b | a in keys && b in keys ensures ColumnLeq(a, b) || ColumnLeq(b, a) {
        ColumnLeqMeans(a, b);
        ColumnLeqMeans(b, a);
      }
      forall a, b, c | a in keys && b in keys && c in keys && ColumnLeq(a, b) && ColumnLeq(b, c)
        ensures ColumnLeq(a, c)
      {
        ColumnLeqMeans(a, b);
        ColumnLeqMeans(b, c);
        ColumnLeqMeans(a, c);
      }
    }
    SortBySorted(keys, ColumnLeq);
    var r := SortSemesters(keys);
    forall i | 0 <= i < |r| ensures IsColumn(r[i]) {
      assert r[i] in multiset(r);
    }
    forall i, j | 0 <= i < j < |r|
      ensures ColumnYear(r[i]) < ColumnYear(r[j]) ||
        (ColumnYear(r[i]) == ColumnYear(r[j]) && Rank(TermOf(r[i])) <= Rank(TermOf(r[j])))
    {
      ColumnLeqMeans(r[i], r[j]);
    }
  }
}
