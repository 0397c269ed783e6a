/**
 * The checks the manual projection editor runs before a course is dropped
 * into a semester (frontend/src/app/components/hooks/useValidaciones.ts): a
 * course whose name carries a numeral I to III is offered only in one half
 * of the year, its prerequisites must be approved, enrolled or projected
 * earlier, its level may not run more than two ahead of the student's base
 * level, and the semester may not exceed 30 credits.
 */
module Validaciones {
  import opened Options
  import opened Strings
  import opened Collections
  import opened Model
  import Progress

  /** A semester of the manual projection being edited (`ProyectadoSemestre`). */
  datatype ProyectadoSemestre = ProyectadoSemestre(id: string, periodo: string, cursos: seq<MallaItem>)

  /** The hook's inputs; curriculum or transcript data not loaded yet is `None`. */
  datatype Hook = Hook(malla: Option<seq<MallaItem>>, avance: Option<seq<Curso>>, proyectados: seq<ProyectadoSemestre>)

  /** Why a course cannot go into a semester; `Message` gives the text shown. */
  datatype Motivo =
    | SoloSemestre(semestreDelAnio: int)
    | FaltanPrerequisitos(nombres: seq<string>)
    | Dispersion(nivel: int)
    | ExcesoCreditos(total: int)

  /** `{ valid: true }` or `{ valid: false, reason }`. */
  datatype Validacion = Valida | Invalida(motivo: Motivo)

  /** The one course whose prerequisites are never checked. */
  const CODIGO_SIN_PRERREQUISITOS: string := "ECIN-00663"

  /** How many levels above the base level a course may be. */
  const DESPLAZAMIENTO: int := 2

  /** `cursosAprobadosOInscritos`: the codes with an APROBADO or INSCRITO record. */
  function AprobadosOInscritos(avance: Option<seq<Curso>>): set<string> {
    set c | c in avance.GetOr([]) && (c.status == Aprobado || c.status == Inscrito) :: c.course
  }

  // ------------------------------------------------------------ roman numerals

  /** The length of the run of `I` characters starting at `j`. */
  function IRun(s: string, j: nat): (n: nat)
    requires j <= |s|
    ensures j + n <= |s|
    ensures forall t | j <= t < j + n :: s[t] == 'I'
    ensures j + n == |s| || s[j + n] != 'I'
    decreases |s| - j
  {
    if j < |s| && s[j] == 'I' then 1 + IRun(s, j + 1) else 0
  }

  /** Whitespace at `i`, then one to three `I`, then whitespace or the end of the name. */
  predicate RomanAt(s: string, i: nat)
    requires i < |s|
  {
    var n := IRun(s, i + 1);
    IsJsWhitespace(s[i]) && 1 <= n <= 3 && (i + 1 + n == |s| || IsJsWhitespace(s[i + 1 + n]))
  }

  /** `tieneNumeroRomano`: the name carries I, II or III as a word of its own. */
  predicate TieneNumeroRomano(nombre: string) {
    exists i: nat | i < |nombre| :: RomanAt(nombre, i)
  }

  /** `k` letters `I` from position `j` on. */
  ghost predicate Ies(s: string, j: int, k: int) {
    0 <= j && j + k <= |s| && forall t | j <= t < j + k :: s[t] == 'I'
  }

  /** Whitespace at `i` followed by `k` letters `I`. */
  ghost predicate SpacedIes(s: string, i: int, k: int) {
    0 <= i < |s| && IsJsWhitespace(s[i]) && Ies(s, i + 1, k)
  }

  /**
   * `/\s+(I{1,3})\s/.test(s)`. A run `\s+` ends right before the numeral, so
   * the pattern matches exactly when one whitespace character does.
   */
  ghost predicate MatchesInfix(s: string) {
    exists i, k | 1 <= k <= 3 && SpacedIes(s, i, k) :: i + 1 + k < |s| && IsJsWhitespace(s[i + 1 + k])
  }

  /** `/\s+(I{1,3})$/.test(s)`. */
  ghost predicate MatchesSuffix(s: string) {
    exists i, k | 1 <= k <= 3 && SpacedIes(s, i, k) :: i + 1 + k == |s|
  }

  /** A run of exactly `k` letters `I` is what `IRun` counts. */
  lemma {:induction false} IRunExact(s: string, j: nat, k: nat)
    requires Ies(s, j, k) && (j + k == |s| || s[j + k] != 'I')
    ensures IRun(s, j) == k
    decreases k
  {
    if k > 0 {
      IRunExact(s, j + 1, k - 1);
    }
  }

  /** A numeral `tieneNumeroRomano` finds is matched by one of its two patterns. */
  lemma RomanAtMatches(s: string, i: nat)
    requires i < |s| && RomanAt(s, i)
    ensures MatchesInfix(s) || MatchesSuffix(s)
  {
    var n := IRun(s, i + 1);
    assert SpacedIes(s, i, n);
    if i + 1 + n == |s| {
      assert MatchesSuffix(s);
    } else {
      assert MatchesInfix(s);
    }
  }

  /** A numeral of one to three letters after whitespace is what `RomanAt` finds. */
  lemma SpacedIesRoman(s: string, i: int, k: int)
    requires 1 <= k <= 3 && SpacedIes(s, i, k)
    requires i + 1 + k == |s| || IsJsWhitespace(s[i + 1 + k])
    ensures TieneNumeroRomano(s)
  {
    IRunExact(s, i + 1, k);
    assert RomanAt(s, i);
  }

  /** `tieneNumeroRomano` returns true exactly when one of its two patterns matches. */
  lemma TieneNumeroRomanoMatches(s: string)
    ensures TieneNumeroRomano(s) <==> MatchesInfix(s) || MatchesSuffix(s)
  {
    if TieneNumeroRomano(s) {
      var i: nat :| i < |s| && RomanAt(s, i);
      RomanAtMatches(s, i);
    }
    if MatchesInfix(s) {
      var i, k :| 1 <= k <= 3 && SpacedIes(s, i, k) && i + 1 + k < |s| && IsJsWhitespace(s[i + 1 + k]);
      SpacedIesRoman(s, i, k);
    }
    if MatchesSuffix(s) {
      var i, k :| 1 <= k <= 3 && SpacedIes(s, i, k) && i + 1 + k == |s|;
      SpacedIesRoman(s, i, k);
    }
  }

  /** A numeral at the end of a name counts: "Cálculo II". */
  lemma RomanoAlFinal()
    ensures TieneNumeroRomano("Cálculo II")
  {
    var a := "Cálculo II";
    IRunExact(a, 8, 2);
    assert RomanAt(a, 7);
  }

  /** A numeral between words counts: "Física III Laboratorio". */
  lemma RomanoEnMedio()
    ensures TieneNumeroRomano("Física III Laboratorio")
  {
    var b := "Física III Laboratorio";
    IRunExact(b, 7, 3);
    assert RomanAt(b, 6);
  }

  /** A run of at least `k` letters `I` counts at least `k`. */
  lemma {:induction false} IRunAtLeast(s: string, j: nat, k: nat)
    requires Ies(s, j, k)
    ensures IRun(s, j) >= k
    decreases k
  {
    if k > 0 {
      IRunAtLeast(s, j + 1, k - 1);
    }
  }

  /** Whitespace followed by four letters I is not a numeral: "Química IIII" has none. */
  lemma CuatroIesNoEsRomano(s: string, i: nat)
    requires i < |s| && Ies(s, i + 1, 4)
    ensures !RomanAt(s, i)
  {
    IRunAtLeast(s, i + 1, 4);
  }

  /** Whitespace followed by `IV` is not a numeral: "Taller IV" has none. */
  lemma IVNoEsRomano(s: string, i: nat)
    requires i + 2 < |s| && s[i + 1] == 'I' && s[i + 2] == 'V'
    ensures !RomanAt(s, i)
  {
    IRunExact(s, i + 1, 1);
  }

  // ------------------------------------------------------------ half of the year

  /** JavaScript's `%`: the remainder takes the sign of the dividend. */
  function JsRem(a: int, b: int): (r: int)
    requires b > 0
    ensures a >= 0 ==> 0 <= r < b
    ensures a < 0 ==> -b < r <= 0
  {
    if a >= 0 then a % b else -((-a) % b)
  }

  /**
   * `getSemestreDelAnioPorNivel`: odd levels go to the first half of the year
   * and even ones to the second; a level of 0 or less always gets the second
   * half, negative odd ones included, since JavaScript's `-1 % 2` is -1.
   */
  function SemestreDelAnioPorNivel(nivel: int): (r: int)
    ensures r == 1 || r == 2
    ensures nivel >= 1 ==> (r == 1 <==> nivel % 2 == 1)
    ensures nivel <= 0 ==> r == 2
  {
    if JsRem(nivel, 2) == 1 then 1 else 2
  }

  // ------------------------------------------------------- projected semesters

  /** The numbers `periodo.split("-").map(Number)` gives for year and term; a missing term is `None`. */
  function YearTerm(periodo: string): (Option<int>, Option<int>) {
    var parts := Split(periodo, '-');
    (NumberJs(parts[0]), if |parts| > 1 then NumberJs(parts[1]) else None)
  }

  /**
   * The comparator both sorts of the hook use: years first, then terms. A
   * `NaN` difference counts as 0, as `Array.prototype.sort` reads it.
   */
  function ComparePeriodos(a: string, b: string): int {
    CompareYearTerms(YearTerm(a), YearTerm(b))
  }

  /** The comparator on the numbers read from two labels. */
  function CompareYearTerms(ka: (Option<int>, Option<int>), kb: (Option<int>, Option<int>)): int {
    if ka.0.None? || kb.0.None? then 0
    else if ka.0.value != kb.0.value then ka.0.value - kb.0.value
    else if ka.1.None? || kb.1.None? then 0
    else ka.1.value - kb.1.value
  }

  predicate SemestreLeq(a: ProyectadoSemestre, b: ProyectadoSemestre) {
    ComparePeriodos(a.periodo, b.periodo) <= 0
  }

  /** `[...semestresProyectados].sort(...)`. */
  function Ordenados(ps: seq<ProyectadoSemestre>): seq<ProyectadoSemestre> {
    SortBy(ps, SemestreLeq)
  }

  /** `findIndex(s => s.periodo === periodo)`: the first position holding `periodo`, or -1. */
  function IndiceDe(ss: seq<ProyectadoSemestre>, periodo: string): (i: int)
    ensures -1 <= i < |ss|
    ensures i == -1 <==> forall j | 0 <= j < |ss| :: ss[j].periodo != periodo
    ensures i >= 0 ==> ss[i].periodo == periodo && forall j | 0 <= j < i :: ss[j].periodo != periodo
  {
    if ss == [] then -1
    else if ss[0].periodo == periodo then 0
    else
      var k := IndiceDe(ss[1..], periodo);
      if k == -1 then -1 else k + 1
  }

  /** The codes projected in the semesters sorted before `periodo`; none when it is not projected. */
  function Anteriores(proyectados: seq<ProyectadoSemestre>, periodo: string): set<string> {
    AnterioresEn(Ordenados(proyectados), periodo)
  }

  /** The codes in the semesters before the first one labelled `periodo`. */
  function AnterioresEn(ss: seq<ProyectadoSemestre>, periodo: string): set<string> {
    set j, c | 0 <= j < IndiceDe(ss, periodo) && c in ss[j].cursos :: c.codigo
  }

  /** Both parts of the label read as numbers. */
  predicate Numerico(periodo: string) {
    YearTerm(periodo).0.Some? && YearTerm(periodo).1.Some?
  }

  /** The (year, term) pair of a numeric label. */
  function Clave(periodo: string): (int, int)
    requires Numerico(periodo)
  {
    (YearTerm(periodo).0.value, YearTerm(periodo).1.value)
  }

  /** On numeric labels the comparator orders by year, then by term. */
  lemma CompareNumerico(a: string, b: string)
    requires Numerico(a) && Numerico(b)
    ensures ComparePeriodos(a, b) <= 0 <==> Clave(a).0 < Clave(b).0 || (Clave(a).0 == Clave(b).0 && Clave(a).1 <= Clave(b).1)
    ensures ComparePeriodos(a, b) < 0 <==> Clave(a).0 < Clave(b).0 || (Clave(a).0 == Clave(b).0 && Clave(a).1 < Clave(b).1)
  {
    var ka, kb := YearTerm(a), YearTerm(b);
    assert ka == (Some(Clave(a).0), Some(Clave(a).1)) && kb == (Some(Clave(b).0), Some(Clave(b).1));
    CompareClaves(Clave(a), Clave(b));
  }

  /** The comparator on two pairs of numbers is the lexicographic order. */
  lemma CompareClaves(x: (int, int), y: (int, int))
    ensures var c := CompareYearTerms((Some(x.0), Some(x.1)), (Some(y.0), Some(y.1)));
      && (c <= 0 <==> x.0 < y.0 || (x.0 == y.0 && x.1 <= y.1))
      && (c < 0 <==> x.0 < y.0 || (x.0 == y.0 && x.1 < y.1))
  {
  }

  lemma CompareAntisymmetric(a: string, b: string)
    requires Numerico(a) && Numerico(b) && ComparePeriodos(a, b) < 0
    ensures ComparePeriodos(b, a) > 0 && a != b
  {
    CompareNumerico(a, b);
    CompareNumerico(b, a);
  }

  /** So on numeric labels the order of the sorts is a total preorder. */
  lemma SemestreLeqPreorder(ps: seq<ProyectadoSemestre>)
    requires forall s | s in ps :: Numerico(s.periodo)
    ensures TotalPreorderOn(ps, SemestreLeq)
  {
    forall a, b | a in ps && b in ps ensures SemestreLeq(a, b) || SemestreLeq(b, a) {
      CompareNumerico(a.periodo, b.periodo);
      CompareNumerico(b.periodo, a.periodo);
    }
    forall a, b, c | a in ps && b in ps && c in ps && SemestreLeq(a, b) && SemestreLeq(b, c)
      ensures SemestreLeq(a, c)
    {
      CompareNumerico(a.periodo, b.periodo);
      CompareNumerico(b.periodo, c.periodo);
      CompareNumerico(a.periodo, c.periodo);
    }
  }

  /** On numeric labels the sorted copy is in order. */
  lemma OrdenadosSorted(proyectados: seq<ProyectadoSemestre>)
    requires forall s | s in proyectados :: Numerico(s.periodo)
    ensures SortedBy(Ordenados(proyectados), SemestreLeq)
  {
    SemestreLeqPreorder(proyectados);
    SortBySorted(proyectados, SemestreLeq);
  }

  /**
   * In a list sorted by `leq`, a semester that no semester labelled `periodo`
   * is at most sits before the first of them.
   */
  lemma PosicionAntes(ss: seq<ProyectadoSemestre>, leq: (ProyectadoSemestre, ProyectadoSemestre) -> bool,
                      periodo: string, s: ProyectadoSemestre) returns (j: int)
    requires SortedBy(ss, leq)
    requires s in ss && s.periodo != periodo
    requires exists t | t in ss :: t.periodo == periodo
    requires forall t | t in ss && t.periodo == periodo :: !leq(t, s)
    ensures 0 <= j < IndiceDe(ss, periodo) && ss[j] == s
  {
    var i := IndiceDe(ss, periodo);
    j :| 0 <= j < |ss| && ss[j] == s;
    assert !leq(ss[i], ss[j]);
    SortedIndexOrder(ss, leq, i, j);
  }

  /** A course of a semester strictly before `periodo` is counted as earlier. */
  lemma AnterioresIncluye(proyectados: seq<ProyectadoSemestre>, periodo: string, s: ProyectadoSemestre, c: MallaItem)
    requires forall s | s in proyectados :: Numerico(s.periodo)
    requires exists s | s in proyectados :: s.periodo == periodo
    requires s in proyectados && c in s.cursos && ComparePeriodos(s.periodo, periodo) < 0
    ensures c.codigo in Anteriores(proyectados, periodo)
  {
    var s0 :| s0 in proyectados && s0.periodo == periodo;
    assert Numerico(periodo) by {
      assert Numerico(s0.periodo);
    }
    CompareAntisymmetric(s.periodo, periodo);
    OrdenadosSorted(proyectados);
    var ss := Ordenados(proyectados);
    assert s in ss && s0 in ss by {
      assert s in multiset(proyectados) && s0 in multiset(proyectados);
    }
    var j := PosicionAntes(ss, SemestreLeq, periodo, s);
    assert c in ss[j].cursos;
  }

  /** A code counted as earlier comes from a semester sorted no later than `periodo`. */
  lemma AnterioresProviene(proyectados: seq<ProyectadoSemestre>, periodo: string, c: string)
    requires forall s | s in proyectados :: Numerico(s.periodo)
    requires c in Anteriores(proyectados, periodo)
    ensures exists s | s in proyectados :: c in Codigos(s) && ComparePeriodos(s.periodo, periodo) <= 0
  {
    OrdenadosSorted(proyectados);
    var ss := Ordenados(proyectados);
    var j := AntesDe(ss, SemestreLeq, periodo, c);
    assert ss[j] in proyectados by {
      assert ss[j] in multiset(ss);
    }
  }

  /** A code before the first semester labelled `periodo` comes from a semester sorted no later. */
  lemma AntesDe(ss: seq<ProyectadoSemestre>, leq: (ProyectadoSemestre, ProyectadoSemestre) -> bool,
                periodo: string, c: string) returns (j: int)
    requires SortedBy(ss, leq)
    requires c in AnterioresEn(ss, periodo)
    ensures 0 <= j < |ss| && c in Codigos(ss[j]) && leq(ss[j], ss[IndiceDe(ss, periodo)])
    ensures ss[IndiceDe(ss, periodo)].periodo == periodo
  {
    var i := IndiceDe(ss, periodo);
    var m;
    j, m :| 0 <= j < i && m in ss[j].cursos && m.codigo == c;
    assert c in Codigos(ss[j]);
  }

  /**
   * With numeric labels, the semesters counted as earlier than a projected
   * `periodo` are those sorted no later than it, and every semester strictly
   * earlier is among them.
   */
  lemma AnterioresMeans(proyectados: seq<ProyectadoSemestre>, periodo: string)
    requires forall s | s in proyectados :: Numerico(s.periodo)
    requires exists s | s in proyectados :: s.periodo == periodo
    ensures forall s, c | s in proyectados && c in s.cursos && ComparePeriodos(s.periodo, periodo) < 0 ::
      c.codigo in Anteriores(proyectados, periodo)
    ensures forall c | c in Anteriores(proyectados, periodo) :: exists s | s in proyectados ::
      c in Codigos(s) && ComparePeriodos(s.periodo, periodo) <= 0
  {
    forall s, c | s in proyectados && c in s.cursos && ComparePeriodos(s.periodo, periodo) < 0
      ensures c.codigo in Anteriores(proyectados, periodo)
    {
      AnterioresIncluye(proyectados, periodo, s, c);
    }
    forall c | c in Anteriores(proyectados, periodo)
      ensures exists s | s in proyectados :: c in Codigos(s) && ComparePeriodos(s.periodo, periodo) <= 0
    {
      AnterioresProviene(proyectados, periodo, c);
    }
  }

  /** The codes of a projected semester. */
  function Codigos(s: ProyectadoSemestre): set<string> {
    set c | c in s.cursos :: c.codigo
  }

  // ---------------------------------------------------------------- base level

  /** `cursosCompletados` at `periodo`: approved or enrolled, or projected in an earlier semester. */
  function Completados(h: Hook, periodo: string): set<string> {
    AprobadosOInscritos(h.avance) + Anteriores(h.proyectados, periodo)
  }

  predicate Ascending(ns: seq<int>) {
    forall i, j | 0 <= i < j < |ns| :: ns[i] < ns[j]
  }

  /** A level below every level of an ascending list can be put in front of it. */
  lemma ConsAscending(x: int, ns: seq<int>)
    requires Ascending(ns)
    requires forall n | n in ns :: x < n
    ensures Ascending([x] + ns)
  {
    forall i, j | 0 <= i < j < |[x] + ns| ensures ([x] + ns)[i] < ([x] + ns)[j] {
      assert ([x] + ns)[j] == ns[j - 1] && ns[j - 1] in ns;
      if i > 0 {
        assert ([x] + ns)[i] == ns[i - 1];
      }
    }
  }

  /** Puts a level into a strictly ascending list, unless it is there already. */
  function InsertNivel(x: int, ns: seq<int>): (r: seq<int>)
    requires Ascending(ns)
    ensures Ascending(r)
    ensures forall n :: n in r <==> n == x || n in ns
  {
    if ns == [] then [x]
    else if x < ns[0] then
      assert forall n | n in ns :: x < n by {
        forall n | n in ns ensures x < n {
          var k :| 0 <= k < |ns| && ns[k] == n;
          assert k > 0 ==> ns[0] < ns[k];
        }
      }
      ConsAscending(x, ns);
      [x] + ns
    else if x == ns[0] then ns
    else
      assert ns == [ns[0]] + ns[1..];
      assert Ascending(ns[1..]) by {
        forall i, j | 0 <= i < j < |ns[1..]| ensures ns[1..][i] < ns[1..][j] {
          assert ns[1..][i] == ns[i + 1] && ns[1..][j] == ns[j + 1];
        }
      }
      var rest := InsertNivel(x, ns[1..]);
      assert forall n | n in rest :: ns[0] < n by {
        forall n | n in rest ensures ns[0] < n {
          if n != x {
            var k :| 0 <= k < |ns[1..]| && ns[1..][k] == n;
            assert ns[k + 1] == n;
          }
        }
      }
      ConsAscending(ns[0], rest);
      [ns[0]] + rest
  }

  /** The levels the curriculum's courses have. */
  ghost function NivelesDe(malla: seq<MallaItem>): set<int> {
    set c | c in malla :: c.nivel
  }

  /**
   * `Object.keys(cursosPorNivel).map(Number).sort((a, b) => a - b)`: the
   * levels of the curriculum, ascending, each once.
   */
  function Niveles(malla: seq<MallaItem>): (ns: seq<int>)
    ensures Ascending(ns)
    ensures forall n :: n in ns <==> n in NivelesDe(malla)
  {
    if malla == [] then []
    else
      var init := malla[..|malla| - 1];
      assert forall c | c in init :: c in malla;
      assert forall c | c in malla :: c in init || c == malla[|malla| - 1];
      InsertNivel(malla[|malla| - 1].nivel, Niveles(init))
  }

  /** `cursosDelNivel.every(curso => cursosCompletados.has(curso.codigo))`. */
  predicate NivelCompleto(malla: seq<MallaItem>, completados: set<string>, nivel: int) {
    forall c | c in malla && c.nivel == nivel :: c.codigo in completados
  }

  /** The loop over the ascending levels: each complete level raises the base past it; the first incomplete one stops it. */
  function NivelBaseDesde(malla: seq<MallaItem>, completados: set<string>, ns: seq<int>, base: int): int {
    if ns == [] then base
    else if NivelCompleto(malla, completados, ns[0]) then NivelBaseDesde(malla, completados, ns[1..], ns[0] + 1)
    else base
  }

  /** The base level of a curriculum given the completed codes. */
  function NivelBase(malla: seq<MallaItem>, completados: set<string>): int {
    NivelBaseDesde(malla, completados, Niveles(malla), 1)
  }

  /** `getNivelBase(periodoActual)`: 1 while the curriculum is not loaded. */
  function GetNivelBase(h: Hook, periodo: string): int {
    if h.malla.None? then 1 else NivelBase(h.malla.value, Completados(h, periodo))
  }

  /** Every course up to level `nivel` is completed. */
  ghost predicate CompletoHasta(malla: seq<MallaItem>, completados: set<string>, nivel: int) {
    forall c | c in malla && c.nivel <= nivel :: c.codigo in completados
  }

  /**
   * `r` is a correct base level: every course below it is completed, it is 1
   * or one past a level of the curriculum, and at no level from it up are all
   * the courses so far completed.
   */
  ghost predicate BaseCorrecta(malla: seq<MallaItem>, completados: set<string>, r: int) {
    && CompletoHasta(malla, completados, r - 1)
    && (r == 1 || r - 1 in NivelesDe(malla))
    && (forall n | n in NivelesDe(malla) && n >= r :: !CompletoHasta(malla, completados, n))
  }

  /** What the base level is, stated once the loop has consumed some levels. */
  lemma {:induction false} NivelBaseDesdeMeans(malla: seq<MallaItem>, completados: set<string>, ns: seq<int>, base: int)
    requires Ascending(ns)
    requires forall n | n in ns :: n >= base && n in NivelesDe(malla)
    requires forall c | c in malla :: c.nivel in ns || c.nivel < base
    requires CompletoHasta(malla, completados, base - 1)
    requires base == 1 || base - 1 in NivelesDe(malla)
    ensures BaseCorrecta(malla, completados, NivelBaseDesde(malla, completados, ns, base))
    decreases |ns|
  {
    var r := NivelBaseDesde(malla, completados, ns, base);
    if ns == [] {
      assert BaseCorrecta(malla, completados, r) by {
        assert r == base;
        SinNivelesRestantes(malla, base);
      }
    } else if NivelCompleto(malla, completados, ns[0]) {
      assert BaseCorrecta(malla, completados, r) by {
        var next := ns[0] + 1;
        assert ns[0] in ns;
        NivelCompletoAvanza(malla, completados, ns, base);
        assert r == NivelBaseDesde(malla, completados, ns[1..], next);
        NivelBaseDesdeMeans(malla, completados, ns[1..], next);
      }
    } else {
      assert BaseCorrecta(malla, completados, r) by {
        assert r == base;
        NivelIncompleto(malla, completados, ns, base);
      }
    }
  }

  /** A complete first level moves the loop to the next level with its requirements intact. */
  lemma NivelCompletoAvanza(malla: seq<MallaItem>, completados: set<string>, ns: seq<int>, base: int)
    requires Ascending(ns) && ns != []
    requires forall n | n in ns :: n >= base && n in NivelesDe(malla)
    requires forall c | c in malla :: c.nivel in ns || c.nivel < base
    requires CompletoHasta(malla, completados, base - 1)
    requires NivelCompleto(malla, completados, ns[0])
    ensures Ascending(ns[1..])
    ensures forall n | n in ns[1..] :: n >= ns[0] + 1 && n in NivelesDe(malla)
    ensures forall c | c in malla :: c.nivel in ns[1..] || c.nivel < ns[0] + 1
    ensures CompletoHasta(malla, completados, ns[0])
    ensures ns[0] in NivelesDe(malla)
  {
    assert ns[0] in ns;
    forall n | n in ns[1..] ensures n in ns && n > ns[0] {
      var k :| 0 <= k < |ns[1..]| && ns[1..][k] == n;
      assert ns[k + 1] == n;
    }
    assert ns[0] >= base;
    NivelesTail(malla, ns, base);
  }

  lemma SinNivelesRestantes(malla: seq<MallaItem>, base: int)
    requires forall c | c in malla :: c.nivel < base
    ensures forall n | n in NivelesDe(malla) :: n < base
  {
    forall n | n in NivelesDe(malla) ensures n < base {
      var c :| c in malla && c.nivel == n;
    }
  }

  lemma NivelesTail(malla: seq<MallaItem>, ns: seq<int>, base: int)
    requires Ascending(ns) && ns != [] && ns[0] >= base
    requires forall c | c in malla :: c.nivel in ns || c.nivel < base
    ensures forall c | c in malla :: c.nivel in ns[1..] || c.nivel <= ns[0]
  {
    forall c | c in malla ensures c.nivel in ns[1..] || c.nivel <= ns[0] {
      if c.nivel in ns && c.nivel != ns[0] {
        var k :| 0 <= k < |ns| && ns[k] == c.nivel;
        assert ns[1..][k - 1] == c.nivel;
      }
    }
  }

  lemma NivelIncompleto(malla: seq<MallaItem>, completados: set<string>, ns: seq<int>, base: int)
    requires Ascending(ns) && ns != [] && ns[0] >= base
    requires forall c | c in malla :: c.nivel in ns || c.nivel < base
    requires !NivelCompleto(malla, completados, ns[0])
    ensures forall n | n in NivelesDe(malla) && n >= base :: !CompletoHasta(malla, completados, n)
  {
    var d :| d in malla && d.nivel == ns[0] && d.codigo !in completados;
    forall n | n in NivelesDe(malla) && n >= base ensures !CompletoHasta(malla, completados, n) {
      var c :| c in malla && c.nivel == n;
      var k :| 0 <= k < |ns| && ns[k] == c.nivel;
      assert ns[0] <= n;
    }
  }

  /**
   * With levels from 1 up, the base level is one past the last level up to
   * which every course is completed: every course below it is completed, it
   * is 1 or one past a level of the curriculum, and at no level from it up
   * are all the courses so far completed.
   */
  lemma NivelBaseMeans(malla: seq<MallaItem>, completados: set<string>)
    requires forall c | c in malla :: c.nivel >= 1
    ensures BaseCorrecta(malla, completados, NivelBase(malla, completados))
  {
    var ns := Niveles(malla);
    assert forall n | n in ns :: n >= 1 && n in NivelesDe(malla) by {
      forall n | n in ns ensures n >= 1 && n in NivelesDe(malla) {
        var c :| c in malla && c.nivel == n;
      }
    }
    assert forall c | c in malla :: c.nivel in ns by {
      forall c | c in malla ensures c.nivel in ns {
        assert c.nivel in NivelesDe(malla);
      }
    }
    assert CompletoHasta(malla, completados, 0);
    NivelBaseDesdeMeans(malla, completados, ns, 1);
    assert NivelBase(malla, completados) == NivelBaseDesde(malla, completados, ns, 1);
  }

  /** Completing more courses never lowers the base level. */
  lemma NivelBaseGrows(malla: seq<MallaItem>, antes: set<string>, despues: set<string>)
    requires forall c | c in malla :: c.nivel >= 1
    requires antes <= despues
    ensures NivelBase(malla, antes) <= NivelBase(malla, despues)
  {
    var r := NivelBase(malla, antes);
    NivelBaseMeans(malla, antes);
    NivelBaseMeans(malla, despues);
    assert CompletoHasta(malla, despues, r - 1);
  }

  /** With every course completed, the base level is one past the highest level. */
  lemma NivelBaseAllCompleted(malla: seq<MallaItem>, completados: set<string>)
    requires forall c | c in malla :: c.nivel >= 1 && c.codigo in completados
    requires malla != []
    ensures var r := NivelBase(malla, completados);
      (forall c | c in malla :: c.nivel < r) && r - 1 in NivelesDe(malla)
  {
    var r := NivelBase(malla, completados);
    NivelBaseMeans(malla, completados);
    forall c | c in malla ensures c.nivel < r {
      assert CompletoHasta(malla, completados, c.nivel);
      assert c.nivel in NivelesDe(malla);
    }
    assert malla[0] in malla;
  }

  // ------------------------------------------------------------ enrolment check

  /** `curso.prereq.split(",").map(trim).filter(p => p)`: the non-empty trimmed codes. */
  function PrerequisitosNoVacios(prereq: Option<string>): (ps: seq<string>)
    ensures forall p | p in ps :: p != "" && ',' !in p
    ensures forall p | p in Progress.Prerequisitos(prereq) && p != "" :: p in ps
    ensures Subseq(ps, Progress.Prerequisitos(prereq))
    ensures forall p | p in Progress.Prerequisitos(prereq) ::
      multiset(ps)[p] == if p != "" then multiset(Progress.Prerequisitos(prereq))[p] else 0
  {
    var ps := Filter(Progress.Prerequisitos(prereq), (p: string) => p != "");
    assert forall p | p in ps :: p in Progress.Prerequisitos(prereq);
    ps
  }

  /** Prerequisites go unchecked for an absent or empty list and for `ECIN-00663`. */
  predicate Exento(curso: MallaItem) {
    curso.prereq.None? || curso.prereq.value == "" || curso.codigo == CODIGO_SIN_PRERREQUISITOS
  }

  /** A prerequisite is met by an approved or enrolled record or by a projection in an earlier semester. */
  predicate Cumplido(h: Hook, periodo: string, p: string) {
    CumplidoEn(AprobadosOInscritos(h.avance), Ordenados(h.proyectados), periodo, p)
  }

  /** `Cumplido` given the approved or enrolled codes and the sorted projected semesters. */
  predicate CumplidoEn(aprobados: set<string>, ss: seq<ProyectadoSemestre>, periodo: string, p: string) {
    p in aprobados || p in AnterioresEn(ss, periodo)
  }

  /** `ms[i]` is the first entry with `codigo`. */
  predicate PrimeroEn(ms: seq<MallaItem>, i: int, codigo: string) {
    0 <= i < |ms| && ms[i].codigo == codigo && forall j | 0 <= j < i :: ms[j].codigo != codigo
  }

  /** `mallaData?.find(m => m.codigo === codigo)`. */
  function Buscar(ms: seq<MallaItem>, codigo: string): (r: Option<MallaItem>)
    ensures r.None? <==> forall m | m in ms :: m.codigo != codigo
    ensures r.Some? ==> exists i | PrimeroEn(ms, i, codigo) :: ms[i] == r.value
  {
    if ms == [] then None
    else if ms[0].codigo == codigo then
      assert PrimeroEn(ms, 0, codigo);
      Some(ms[0])
    else
      var r := Buscar(ms[1..], codigo);
      if r.Some? then
        assert exists i | PrimeroEn(ms, i, codigo) :: ms[i] == r.value by {
          var i :| PrimeroEn(ms[1..], i, codigo) && ms[1..][i] == r.value;
          assert forall j | 1 <= j < i + 1 :: ms[j] == ms[1..][j - 1];
          assert PrimeroEn(ms, i + 1, codigo);
        }
        r
      else
        assert forall m | m in ms[1..] :: m.codigo != codigo;
        r
  }

  /** `cursoPrereq?.asignatura || prereq`: the course name when the curriculum has one, else the code. */
  function NombreDe(malla: Option<seq<MallaItem>>, p: string): (nombre: string)
    ensures nombre == p || exists m | m in malla.GetOr([]) :: m.codigo == p && m.asignatura == nombre != ""
    ensures (forall m | m in malla.GetOr([]) :: m.codigo != p) ==> nombre == p
    ensures forall i | PrimeroEn(malla.GetOr([]), i, p) ::
      var m := malla.GetOr([])[i];
      nombre == if m.asignatura != "" then m.asignatura else p
  {
    match Buscar(malla.GetOr([]), p)
    case Some(m) => if m.asignatura != "" then m.asignatura else p
    case None => p
  }

  /** The names of the prerequisites not yet met, in list order (`prerequisitosFaltantes`). */
  function Faltantes(h: Hook, periodo: string, ps: seq<string>): (r: seq<string>)
    ensures |r| <= |ps|
  {
    FaltantesEn(h.malla, AprobadosOInscritos(h.avance), Ordenados(h.proyectados), periodo, ps)
  }

  /** `Faltantes` given the approved or enrolled codes and the sorted projected semesters. */
  function FaltantesEn(malla: Option<seq<MallaItem>>, aprobados: set<string>, ss: seq<ProyectadoSemestre>,
                       periodo: string, ps: seq<string>): (r: seq<string>)
    ensures |r| <= |ps|
  {
    if ps == [] then []
    else
      var init := FaltantesEn(malla, aprobados, ss, periodo, ps[..|ps| - 1]);
      var p := ps[|ps| - 1];
      if CumplidoEn(aprobados, ss, periodo, p) then init else init + [NombreDe(malla, p)]
  }

  /** Every unmet prerequisite's name is listed, and nothing else is. */
  lemma {:induction false} FaltantesNombres(h: Hook, periodo: string, ps: seq<string>)
    ensures forall p | p in ps && !Cumplido(h, periodo, p) :: NombreDe(h.malla, p) in Faltantes(h, periodo, ps)
    ensures forall x | x in Faltantes(h, periodo, ps) :: x in Nombres(h, periodo, ps)
  {
    if ps != [] {
      var init := ps[..|ps| - 1];
      FaltantesNombres(h, periodo, init);
      assert forall q | q in ps :: q in init || q == ps[|ps| - 1];
      assert Nombres(h, periodo, init) <= Nombres(h, periodo, ps);
    }
  }

  /** Checking one more prerequisite appends its name exactly when it is unmet. */
  lemma FaltantesEnSnoc(malla: Option<seq<MallaItem>>, aprobados: set<string>, ss: seq<ProyectadoSemestre>,
                        periodo: string, ps: seq<string>, p: string)
    ensures FaltantesEn(malla, aprobados, ss, periodo, ps + [p]) ==
      FaltantesEn(malla, aprobados, ss, periodo, ps) + (if CumplidoEn(aprobados, ss, periodo, p) then [] else [NombreDe(malla, p)])
  {
    assert (ps + [p])[..|ps|] == ps;
  }

  /** The names of the unmet prerequisites among `ps`. */
  ghost function Nombres(h: Hook, periodo: string, ps: seq<string>): set<string> {
    set p | p in ps && !Cumplido(h, periodo, p) :: NombreDe(h.malla, p)
  }

  /** Nothing is missing exactly when every prerequisite is met. */
  lemma FaltantesVacio(h: Hook, periodo: string, ps: seq<string>)
    ensures Faltantes(h, periodo, ps) == [] <==> forall p | p in ps :: Cumplido(h, periodo, p)
  {
    FaltantesEnVacio(h.malla, AprobadosOInscritos(h.avance), Ordenados(h.proyectados), periodo, ps);
  }

  lemma {:induction false} FaltantesEnVacio(malla: Option<seq<MallaItem>>, aprobados: set<string>,
                                            ss: seq<ProyectadoSemestre>, periodo: string, ps: seq<string>)
    ensures FaltantesEn(malla, aprobados, ss, periodo, ps) == [] <==> forall p | p in ps :: CumplidoEn(aprobados, ss, periodo, p)
  {
    if ps != [] {
      var init := ps[..|ps| - 1];
      FaltantesEnVacio(malla, aprobados, ss, periodo, init);
      assert forall q | q in ps :: q in init || q == ps[|ps| - 1];
    }
  }

  /** `periodo.split("-")[1]` read by `parseInt(term, 10)`; no second part reads as NaN. */
  function TermoDe(periodo: string): Option<int> {
    var parts := Split(periodo, '-');
    if |parts| >= 2 then ParseIntJs(parts[1]) else None
  }

  /** A course named with I, II or III is offered only in the term of the year matching its level's parity. */
  predicate Ofertado(curso: MallaItem, periodo: string) {
    !TieneNumeroRomano(curso.asignatura) || TermoDe(periodo) == Some(SemestreDelAnioPorNivel(curso.nivel))
  }

  /** The prerequisites of `curso` that the check looks at. */
  function PorRevisar(curso: MallaItem): seq<string> {
    if Exento(curso) then [] else PrerequisitosNoVacios(curso.prereq)
  }

  /** The four checks in source order, the first failing one giving the reason. */
  function Validar(h: Hook, curso: MallaItem, periodo: string, cursosDelSemestre: seq<MallaItem>): Validacion {
    Decidir(Ofertado(curso, periodo), SemestreDelAnioPorNivel(curso.nivel), Faltantes(h, periodo, PorRevisar(curso)),
            curso.nivel, GetNivelBase(h, periodo), SumCreditos(cursosDelSemestre) + curso.creditos)
  }

  /** The four checks on their computed inputs. */
  function Decidir(ofertado: bool, semestreDelAnio: int, faltantes: seq<string>, nivel: int, nivelBase: int, total: int)
    : Validacion
  {
    if !ofertado then Invalida(SoloSemestre(semestreDelAnio))
    else if faltantes != [] then Invalida(FaltanPrerequisitos(faltantes))
    else if nivel > nivelBase + DESPLAZAMIENTO then Invalida(Dispersion(nivel))
    else if total > MAX_CREDITOS_POR_SEMESTRE then Invalida(ExcesoCreditos(total))
    else Valida
  }

  /**
   * A course may be dropped into a semester exactly when it is offered in
   * that term, each of its checked prerequisites is met, its level is at most
   * two above the base level, and the semester then stays within 30 credits.
   */
  lemma ValidarValida(h: Hook, curso: MallaItem, periodo: string, cursosDelSemestre: seq<MallaItem>)
    ensures Validar(h, curso, periodo, cursosDelSemestre) == Valida <==>
      && Ofertado(curso, periodo)
      && (forall p | p in PorRevisar(curso) :: Cumplido(h, periodo, p))
      && curso.nivel <= GetNivelBase(h, periodo) + DESPLAZAMIENTO
      && SumCreditos(cursosDelSemestre + [curso]) <= MAX_CREDITOS_POR_SEMESTRE
  {
    FaltantesVacio(h, periodo, PorRevisar(curso));
    SumCreditosAppend(cursosDelSemestre, [curso]);
  }

  /**
   * Approving or enrolling in more courses never makes a valid drop invalid:
   * prerequisites stay met and the base level does not go down.
   */
  lemma ValidarMonotone(h: Hook, h2: Hook, curso: MallaItem, periodo: string, cursosDelSemestre: seq<MallaItem>)
    requires h2.malla == h.malla && h2.proyectados == h.proyectados
    requires AprobadosOInscritos(h.avance) <= AprobadosOInscritos(h2.avance)
    requires forall c | c in h.malla.GetOr([]) :: c.nivel >= 1
    requires Validar(h, curso, periodo, cursosDelSemestre) == Valida
    ensures Validar(h2, curso, periodo, cursosDelSemestre) == Valida
  {
    ValidarValida(h, curso, periodo, cursosDelSemestre);
    ValidarValida(h2, curso, periodo, cursosDelSemestre);
    if h.malla.Some? {
      NivelBaseGrows(h.malla.value, Completados(h, periodo), Completados(h2, periodo));
    }
  }

  /** Membership in `AnterioresEn` is the search over the semesters before the index. */
  lemma AnterioresPorIndice(ss: seq<ProyectadoSemestre>, periodo: string, p: string)
    ensures p in AnterioresEn(ss, periodo) <==> exists j | 0 <= j < IndiceDe(ss, periodo) :: p in Codigos(ss[j])
  {
    if p in AnterioresEn(ss, periodo) {
      var j, c :| 0 <= j < IndiceDe(ss, periodo) && c in ss[j].cursos && c.codigo == p;
      assert p in Codigos(ss[j]);
    }
  }

  /**
   * The inner loop of the prerequisite check: whether `p` is projected in
   * one of the first `indice` sorted semesters, stopping at the first hit.
   */
  method EncontradoEnProyecciones(ss: seq<ProyectadoSemestre>, indice: int, p: string) returns (encontrado: bool)
    requires indice <= |ss|
    ensures encontrado <==> exists j | 0 <= j < indice :: p in Codigos(ss[j])
  {
    encontrado := false;
    var i := 0;
    while i < indice && !encontrado
      invariant 0 <= i && (i <= indice || i == 0)
      invariant encontrado <==> exists j | 0 <= j < i :: p in Codigos(ss[j])
    {
      if p in Codigos(ss[i]) {
        encontrado := true;
      }
      i := i + 1;
    }
  }

  /** One prerequisite: approved or enrolled, else projected in an earlier semester. */
  method PrerequisitoCumplido(aprobados: set<string>, ss: seq<ProyectadoSemestre>, periodo: string, indice: int, p: string)
    returns (cumplido: bool)
    requires indice == IndiceDe(ss, periodo)
    ensures cumplido == CumplidoEn(aprobados, ss, periodo, p)
  {
    if p in aprobados {
      return true;
    }
    cumplido := EncontradoEnProyecciones(ss, indice, p);
    AnterioresPorIndice(ss, periodo, p);
  }

  /** The loop over the prerequisites, given the approved codes, the sorted semesters and the index of `periodo`. */
  method BuscarFaltantesEn(malla: Option<seq<MallaItem>>, aprobados: set<string>, ss: seq<ProyectadoSemestre>,
                           periodo: string, indice: int, prerequisitos: seq<string>) returns (faltantes: seq<string>)
    requires indice == IndiceDe(ss, periodo)
    ensures faltantes == FaltantesEn(malla, aprobados, ss, periodo, prerequisitos)
  {
    faltantes := [];
    var k := 0;
    while k < |prerequisitos|
      invariant 0 <= k <= |prerequisitos|
      invariant faltantes == FaltantesEn(malla, aprobados, ss, periodo, prerequisitos[..k])
    {
      var p := prerequisitos[k];
      assert prerequisitos[..k + 1] == prerequisitos[..k] + [p];
      FaltantesEnSnoc(malla, aprobados, ss, periodo, prerequisitos[..k], p);
      var cumplido := PrerequisitoCumplido(aprobados, ss, periodo, indice, p);
      if !cumplido {
        faltantes := faltantes + [NombreDe(malla, p)];
      }
      k := k + 1;
    }
    assert prerequisitos[..k] == prerequisitos;
  }

  /**
   * The prerequisite check of `canEnrollInSemester`: the names of the
   * prerequisites met neither by the transcript nor by an earlier projected
   * semester, in list order.
   */
  method BuscarFaltantes(h: Hook, periodo: string, prerequisitos: seq<string>) returns (faltantes: seq<string>)
    ensures faltantes == Faltantes(h, periodo, prerequisitos)
  {
    var aprobados := AprobadosOInscritos(h.avance);
    var ss := Ordenados(h.proyectados);
    var indice := IndiceDe(ss, periodo);
    faltantes := BuscarFaltantesEn(h.malla, aprobados, ss, periodo, indice, prerequisitos);
  }

  /**
   * `canEnrollInSemester(curso, periodo, cursosDelSemestre)`: the roman-numeral
   * term check, the prerequisite search over the transcript and the earlier
   * projected semesters, the dispersion limit and the credit cap.
   */
  method CanEnrollInSemester(h: Hook, curso: MallaItem, periodo: string, cursosDelSemestre: seq<MallaItem>)
    returns (r: Validacion)
    ensures r == Validar(h, curso, periodo, cursosDelSemestre)
  {
    var semestreDelAnio := SemestreDelAnioPorNivel(curso.nivel);
    if TieneNumeroRomano(curso.asignatura) {
      var semestreProyectado := TermoDe(periodo);
      if semestreProyectado != Some(semestreDelAnio) {
        return Invalida(SoloSemestre(semestreDelAnio));
      }
    }
    assert Ofertado(curso, periodo);
    if !Exento(curso) {
      var faltantes := BuscarFaltantes(h, periodo, PrerequisitosNoVacios(curso.prereq));
      if faltantes != [] {
        return Invalida(FaltanPrerequisitos(faltantes));
      }
    }
    assert Faltantes(h, periodo, PorRevisar(curso)) == [];
    r := ValidarNivelYCreditos(h, curso, periodo, cursosDelSemestre);
  }

  /** The last two checks of `canEnrollInSemester`, reached once the course is offered and its prerequisites are met. */
  method ValidarNivelYCreditos(h: Hook, curso: MallaItem, periodo: string, cursosDelSemestre: seq<MallaItem>)
    returns (r: Validacion)
    requires Ofertado(curso, periodo) && Faltantes(h, periodo, PorRevisar(curso)) == []
    ensures r == Validar(h, curso, periodo, cursosDelSemestre)
  {
    var nivelBase := GetNivelBase(h, periodo);
    if curso.nivel > nivelBase + DESPLAZAMIENTO {
      return Invalida(Dispersion(curso.nivel));
    }
    var creditosTotales := SumCreditos(cursosDelSemestre) + curso.creditos;
    if creditosTotales > MAX_CREDITOS_POR_SEMESTRE {
      return Invalida(ExcesoCreditos(creditosTotales));
    }
    return Valida;
  }

  /**
   * The checks run in order and the first failing one decides: a course not
   * offered in the term fails on that alone, whatever the history and the rest
   * of the semester; one with missing prerequisites fails on those whatever
   * else the semester holds; one too far above the base level fails on
   * dispersion whatever else the semester holds.
   */
  lemma ValidarEnOrden(h: Hook, h': Hook, curso: MallaItem, periodo: string,
                       cursosDelSemestre: seq<MallaItem>, otros: seq<MallaItem>)
    ensures !Ofertado(curso, periodo) ==>
      && Validar(h, curso, periodo, cursosDelSemestre) == Validar(h', curso, periodo, otros)
      && Validar(h, curso, periodo, cursosDelSemestre).Invalida?
      && Validar(h, curso, periodo, cursosDelSemestre).motivo.SoloSemestre?
    ensures Ofertado(curso, periodo) && Faltantes(h, periodo, PorRevisar(curso)) != [] ==>
      && Validar(h, curso, periodo, cursosDelSemestre) == Validar(h, curso, periodo, otros)
      && Validar(h, curso, periodo, cursosDelSemestre).Invalida?
      && Validar(h, curso, periodo, cursosDelSemestre).motivo.nombres == Faltantes(h, periodo, PorRevisar(curso))
    ensures Ofertado(curso, periodo) && Faltantes(h, periodo, PorRevisar(curso)) == [] &&
            curso.nivel > GetNivelBase(h, periodo) + DESPLAZAMIENTO ==>
      && Validar(h, curso, periodo, cursosDelSemestre) == Validar(h, curso, periodo, otros)
      && Validar(h, curso, periodo, cursosDelSemestre) == Invalida(Dispersion(curso.nivel))
  {
  }
}
