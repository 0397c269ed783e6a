/**
 * The helpers of the manual projection editor (frontend/src/app/components/utils/proyecciones.utils.ts):
 * the browser-storage keys of a programme, the short period label, the
 * semester after today and the Roman numeral of a level. The clock is a
 * parameter: `getNextSemester` receives the year and the 0-based month.
 */
module ProyeccionesUtils {
  import opened Options
  import opened Strings
  import opened Model
  import opened Periods
  import Historial

  // ------------------------------------------------------------ storage keys

  /** `${prefix}_${codigo}_${catalogo}`, or null without a programme. */
  function KeyWith(prefix: string, carrera: Option<Carrera>): (r: Option<string>)
    ensures r.None? <==> carrera.None?
  {
    match carrera
    case None => None
    case Some(c) => Some(prefix + "_" + c.codigo + "_" + c.catalogo)
  }

  /** `getStorageKey`. */
  function StorageKey(carrera: Option<Carrera>): Option<string> {
    KeyWith("proyecciones", carrera)
  }

  /** `getSessionStorageKey`. */
  function SessionStorageKey(carrera: Option<Carrera>): Option<string> {
    KeyWith("proyecciones_session", carrera)
  }

  /** `getLevelStorageKey`. */
  function LevelStorageKey(carrera: Option<Carrera>): Option<string> {
    KeyWith("selectedLevel", carrera)
  }

  /** Neither field of the programme contains the separator. */
  predicate PlainFields(c: Carrera) {
    '_' !in c.codigo && '_' !in c.catalogo
  }

  lemma JoinThree(a: string, b: string, c: string)
    requires '_' !in a && '_' !in b && '_' !in c
    ensures Split(a + "_" + b + "_" + c, '_') == [a, b, c]
  {
    JoinSplit([a, b, c], '_');
    assert Join([a, b, c], '_') == a + "_" + b + "_" + c by {
      assert Join([b, c], '_') == b + "_" + c by {
        assert [b, c][1..] == [c];
      }
      assert [a, b, c][1..] == [b, c];
    }
  }

  /**
   * With codes and catalogues free of `_`, each key splits back into its
   * prefix words, the code and the catalogue.
   */
  lemma StorageKeysSplit(c: Carrera)
    requires PlainFields(c)
    ensures Split(StorageKey(Some(c)).value, '_') == ["proyecciones", c.codigo, c.catalogo]
    ensures Split(SessionStorageKey(Some(c)).value, '_') == ["proyecciones", "session", c.codigo, c.catalogo]
    ensures Split(LevelStorageKey(Some(c)).value, '_') == ["selectedLevel", c.codigo, c.catalogo]
  {
    JoinThree("proyecciones", c.codigo, c.catalogo);
    JoinThree("selectedLevel", c.codigo, c.catalogo);
    SessionKeySplit(c);
  }

  lemma SessionKeySplit(c: Carrera)
    requires PlainFields(c)
    ensures Split(SessionStorageKey(Some(c)).value, '_') == ["proyecciones", "session", c.codigo, c.catalogo]
  {
    var rest := "session" + "_" + c.codigo + "_" + c.catalogo;
    assert SessionStorageKey(Some(c)).value == "proyecciones" + ['_'] + rest by {
      assert "proyecciones_session" == "proyecciones" + ['_'] + "session";
    }
    SplitCons("proyecciones", rest, '_');
    JoinThree("session", c.codigo, c.catalogo);
  }

  /**
   * So the three kinds of key never collide, and two programmes share a key
   * only when they share code and catalogue.
   */
  lemma StorageKeysDistinct(a: Carrera, b: Carrera)
    requires PlainFields(a) && PlainFields(b)
    ensures StorageKey(Some(a)) != SessionStorageKey(Some(b))
    ensures StorageKey(Some(a)) != LevelStorageKey(Some(b))
    ensures SessionStorageKey(Some(a)) != LevelStorageKey(Some(b))
    ensures StorageKey(Some(a)) == StorageKey(Some(b)) ==> a.codigo == b.codigo && a.catalogo == b.catalogo
    ensures SessionStorageKey(Some(a)) == SessionStorageKey(Some(b)) ==> a.codigo == b.codigo && a.catalogo == b.catalogo
    ensures LevelStorageKey(Some(a)) == LevelStorageKey(Some(b)) ==> a.codigo == b.codigo && a.catalogo == b.catalogo
  {
    StorageKeysSplit(a);
    StorageKeysSplit(b);
  }

  // ------------------------------------------------------------------ labels

  /** `formatPeriodo` of the editor: term "1" is I, every other term II. */
  function FormatPeriodo(periodo: string): string {
    Historial.YearOf(periodo) + "-" + (if Historial.TermOf(periodo) == "1" then "I" else "II")
  }

  /**
   * On the regular terms the editor's label is the transcript table's; on the
   * winter term they differ: the editor shows II where the table shows W.
   */
  lemma FormatPeriodoAgainstTable(y: string, t: string)
    requires '-' !in y && '-' !in t
    ensures t == "1" || t == "2" ==> FormatPeriodo(y + "-" + t) == Historial.FormatPeriodo(y + "-" + t)
    ensures t == "15" ==> FormatPeriodo(y + "-" + t) == y + "-II" && Historial.FormatPeriodo(y + "-" + t) == y + "-W"
  {
    Historial.SplitLabel(y, t);
  }

  // ----------------------------------------------------------- next semester

  /** `getNextSemester()` with `getFullYear()` and `getMonth()` (0-based) given. */
  function NextSemester(year: int, month: int): string {
    if month < 6 then IntToString(year) + "-2" else IntToString(year + 1) + "-1"
  }

  /** The semester a month falls in: January to June is the first. */
  function CurrentSemester(year: nat, month: int): Periodo {
    Periodo(year, if month < 6 then 1 else 2)
  }

  /**
   * The editor's next semester is the backend's planning successor of the
   * semester the month falls in, and comes strictly after it.
   */
  lemma NextSemesterFollows(year: nat, month: int)
    ensures var current := Label(CurrentSemester(year, month));
      && WellFormed(NextSemester(year, month))
      && NextSemester(year, month) == NextPeriodoForProjection(current)
      && Before(Parse(current), Parse(NextSemester(year, month)))
  {
    var current := Label(CurrentSemester(year, month));
    var next := NextPeriodoForProjection(current);
    var p := if month < 6 then Periodo(year, 2) else Periodo(year + 1, 1);
    assert next == Label(p);
    assert NatToString(p.term) == (if month < 6 then "2" else "1");
    assert IntToString(p.year) == NatToString(p.year);
    assert NextSemester(year, month) == IntToString(p.year) + "-" + NatToString(p.term);
    assert NextSemester(year, month) == Label(p);
  }

  // ----------------------------------------------------------- roman numbers

  /** `toRoman`: the numeral of 1 to 15, otherwise the decimal string. */
  function ToRoman(num: int): string {
    if num == 1 then "I"
    else if num == 2 then "II"
    else if num == 3 then "III"
    else if num == 4 then "IV"
    else if num == 5 then "V"
    else if num == 6 then "VI"
    else if num == 7 then "VII"
    else if num == 8 then "VIII"
    else if num == 9 then "IX"
    else if num == 10 then "X"
    else if num == 11 then "XI"
    else if num == 12 then "XII"
    else if num == 13 then "XIII"
    else if num == 14 then "XIV"
    else if num == 15 then "XV"
    else IntToString(num)
  }

  function RomanDigit(c: char): int {
    if c == 'I' then 1 else if c == 'V' then 5 else if c == 'X' then 10 else 0
  }

  /** The value of a Roman numeral: a letter before a larger one subtracts. */
  function RomanValue(s: string): int {
    if s == [] then 0
    else if |s| >= 2 && RomanDigit(s[0]) < RomanDigit(s[1]) then RomanValue(s[1..]) - RomanDigit(s[0])
    else RomanDigit(s[0]) + RomanValue(s[1..])
  }

  lemma RomanLow()
    ensures RomanValue("I") == 1 && RomanValue("II") == 2 && RomanValue("III") == 3 && RomanValue("IV") == 4
    ensures RomanValue("V") == 5 && RomanValue("VI") == 6 && RomanValue("VII") == 7 && RomanValue("VIII") == 8
  {
  }

  lemma RomanHigh()
    ensures RomanValue("IX") == 9 && RomanValue("X") == 10 && RomanValue("XI") == 11 && RomanValue("XII") == 12
    ensures RomanValue("XIII") == 13 && RomanValue("XIV") == 14 && RomanValue("XV") == 15
  {
  }

  /** The numerals of the table read back as their numbers. */
  lemma ToRomanReadsBack(n: int)
    requires 1 <= n <= 15
    ensures RomanValue(ToRoman(n)) == n
  {
    if n <= 8 {
      RomanLow();
    } else {
      RomanHigh();
    }
  }

  /** Outside the table the label is the decimal string, which `parseInt` reads back. */
  lemma ToRomanDecimal(n: int)
    requires !(1 <= n <= 15)
    ensures ParseIntJs(ToRoman(n)) == Some(n)
  {
    assert ToRoman(n) == IntToString(n);
    ParseIntJsRoundTrip(n);
  }

  /** A numeral of the table starts with a Roman letter; a decimal string does not. */
  lemma ToRomanFirst(n: int)
    ensures ToRoman(n) != []
    ensures 1 <= n <= 15 <==> ToRoman(n)[0] in "IVX"
  {
    if !(1 <= n <= 15) {
      var s := IntToString(n);
      assert s[0] == '-' || IsDigit(s[0]);
    }
  }

  /** Different levels get different labels. */
  lemma ToRomanInjective(a: int, b: int)
    requires ToRoman(a) == ToRoman(b)
    ensures a == b
  {
    ToRomanFirst(a);
    ToRomanFirst(b);
    if 1 <= a <= 15 {
      ToRomanReadsBack(a);
      ToRomanReadsBack(b);
    } else {
      ToRomanDecimal(a);
      ToRomanDecimal(b);
    }
  }
}
