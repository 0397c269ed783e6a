/**
 * History normalisation (`normalizeHistorial` and `detectPeriodoActual` in
 * backend/src/projection/utils/scheduler.ts): each historical semester keeps one
 * record per course code, the one of highest status rank, and the statuses
 * are gathered into the approved / enrolled / failed code sets.
 */
module Normalize {
  import opened Options
  import opened Collections
  import opened Periods
  import opened Model

  /** INSCRITO 3 > APROBADO 2 > REPROBADO 1 > anything else 0. */
  function Rank(e: Estado): int {
    match e
    case Inscrito => 3
    case Aprobado => 2
    case Reprobado => 1
    case _ => 0
  }

  /** A transcript status is kept; anything else becomes REPROBADO. */
  function Coerce(e: Estado): (c: Estado)
    ensures c == Aprobado || c == Reprobado || c == Inscrito
    ensures (e == Aprobado || e == Reprobado || e == Inscrito) ==> c == e
    ensures !(e == Aprobado || e == Reprobado || e == Inscrito) ==> c == Reprobado
  {
    if e == Aprobado || e == Reprobado || e == Inscrito then e else Reprobado
  }

  /**
   * `rs[i]` is the record that survives for its code: no record with that code
   * has a higher rank, and every earlier one has a strictly lower rank.
   */
  ghost predicate IsWinner(rs: seq<Ramo>, i: int) {
    && 0 <= i < |rs|
    && (forall j | 0 <= j < |rs| && rs[j].codigo == rs[i].codigo :: Rank(rs[j].estado) <= Rank(rs[i].estado))
    && (forall j | 0 <= j < i && rs[j].codigo == rs[i].codigo :: Rank(rs[j].estado) < Rank(rs[i].estado))
  }

  /** The `seen` map of one semester after all its records are folded in. */
  function DedupMap(rs: seq<Ramo>): (seen: OrderedMap<Ramo>)
    ensures seen.Valid()
    decreases |rs|
  {
    if rs == [] then EmptyMap()
    else
      var prev := DedupMap(rs[..|rs| - 1]);
      var r := rs[|rs| - 1];
      if r.codigo !in prev.m || Rank(r.estado) > Rank(prev.m[r.codigo].estado) then prev.Put(r.codigo, r)
      else prev
  }

  lemma WinnerExtends(init: seq<Ramo>, r: Ramo, i: int)
    requires IsWinner(init, i)
    requires r.codigo != init[i].codigo || Rank(r.estado) <= Rank(init[i].estado)
    ensures IsWinner(init + [r], i)
  {
  }

  lemma WinnerLast(init: seq<Ramo>, r: Ramo)
    requires forall j | 0 <= j < |init| && init[j].codigo == r.codigo :: Rank(init[j].estado) < Rank(r.estado)
    ensures IsWinner(init + [r], |init|)
  {
    var rs := init + [r];
    assert forall j | 0 <= j < |init| :: rs[j] == init[j];
  }

  /** Every code of the semester, and nothing else, is a key of the fold. */
  lemma {:induction false} DedupMapKeys(rs: seq<Ramo>)
    ensures forall k :: k in DedupMap(rs).m <==> k in Codes(rs)
    ensures forall k | k in DedupMap(rs).m :: DedupMap(rs).m[k].codigo == k
    decreases |rs|
  {
    if rs != [] {
      var init := rs[..|rs| - 1];
      DedupMapKeys(init);
      assert Codes(rs) == Codes(init) + [rs[|rs| - 1].codigo];
    }
  }

  /** A record that beats the current winner of its code beats every earlier record of it. */
  lemma OutranksWinner(init: seq<Ramo>, i: int, r: Ramo)
    requires IsWinner(init, i) && init[i].codigo == r.codigo && Rank(r.estado) > Rank(init[i].estado)
    ensures forall j | 0 <= j < |init| && init[j].codigo == r.codigo :: Rank(init[j].estado) < Rank(r.estado)
  {
  }

  lemma NoneWithCode(init: seq<Ramo>, c: string)
    requires c !in Codes(init)
    ensures forall j | 0 <= j < |init| :: init[j].codigo != c
  {
    forall j | 0 <= j < |init| ensures init[j].codigo != c {
      assert Codes(init)[j] == init[j].codigo;
    }
  }

  /** A replacing step: the appended record is the new winner of its code. */
  lemma StepReplaces(init: seq<Ramo>, r: Ramo, prev: OrderedMap<Ramo>)
    requires forall c :: c in prev.m <==> c in Codes(init)
    requires r.codigo in prev.m ==> prev.m[r.codigo].codigo == r.codigo
    requires r.codigo in prev.m ==> exists i :: IsWinner(init, i) && init[i] == prev.m[r.codigo]
    requires r.codigo !in prev.m || Rank(r.estado) > Rank(prev.m[r.codigo].estado)
    ensures IsWinner(init + [r], |init|)
  {
    if r.codigo in prev.m {
      var i :| IsWinner(init, i) && init[i] == prev.m[r.codigo];
      OutranksWinner(init, i, r);
    } else {
      NoneWithCode(init, r.codigo);
    }
    WinnerLast(init, r);
  }

  /** A keeping step: the winner of `init` still wins. */
  lemma StepKeeps(init: seq<Ramo>, r: Ramo, w: Ramo)
    requires exists i :: IsWinner(init, i) && init[i] == w
    requires r.codigo != w.codigo || Rank(r.estado) <= Rank(w.estado)
    ensures exists i :: IsWinner(init + [r], i) && (init + [r])[i] == w
  {
    var i :| IsWinner(init, i) && init[i] == w;
    WinnerExtends(init, r, i);
    assert (init + [r])[i] == init[i];
  }

  /**
   * The fold keeps, for every code, exactly its winning record: the highest
   * rank, and among equal ranks the first occurrence.
   */
  lemma {:induction false} DedupMapSpec(rs: seq<Ramo>)
    ensures forall k :: k in DedupMap(rs).m <==> k in Codes(rs)
    ensures forall k | k in DedupMap(rs).m :: exists i :: IsWinner(rs, i) && rs[i] == DedupMap(rs).m[k]
    decreases |rs|
  {
    DedupMapKeys(rs);
    if rs != [] {
      var init := rs[..|rs| - 1];
      var r := rs[|rs| - 1];
      assert rs == init + [r];
      var prev := DedupMap(init);
      var seen := DedupMap(rs);
      DedupMapSpec(init);
      DedupMapKeys(init);
      var replaced := r.codigo !in prev.m || Rank(r.estado) > Rank(prev.m[r.codigo].estado);
      assert seen.m == if replaced then prev.m[r.codigo := r] else prev.m;
      forall k | k in seen.m ensures exists i :: IsWinner(rs, i) && rs[i] == seen.m[k] {
        StepWinner(init, r, prev.m, seen.m, k);
      }
    }
  }

  /** One step of the fold, for one key: its value is a winner of the extended list. */
  lemma StepWinner(init: seq<Ramo>, r: Ramo, prev: map<string, Ramo>, seen: map<string, Ramo>, k: string)
    requires forall c :: c in prev <==> c in Codes(init)
    requires forall c | c in prev :: prev[c].codigo == c
    requires forall c | c in prev :: exists i :: IsWinner(init, i) && init[i] == prev[c]
    requires seen == if r.codigo !in prev || Rank(r.estado) > Rank(prev[r.codigo].estado) then prev[r.codigo := r] else prev
    requires k in seen
    ensures exists i :: IsWinner(init + [r], i) && (init + [r])[i] == seen[k]
  {
    var replaced := r.codigo !in prev || Rank(r.estado) > Rank(prev[r.codigo].estado);
    if k == r.codigo && replaced {
      StepReplaces(init, r, OrderedMap([], prev));
      assert (init + [r])[|init|] == seen[k];
    } else {
      assert seen[k] == prev[k];
      StepKeeps(init, r, prev[k]);
    }
  }

  /** The record with its status coerced to a transcript status. */
  function Coerced(r: Ramo): Ramo {
    r.(estado := Coerce(r.estado))
  }

  /** A semester's records after dedup and status coercion, in first-seen order. */
  function NormalizeRamos(rs: seq<Ramo>): (out: seq<Ramo>)
    ensures forall k | 0 <= k < |out| ::
      out[k].estado == Aprobado || out[k].estado == Reprobado || out[k].estado == Inscrito
  {
    var vs := DedupMap(rs).Values();
    seq(|vs|, k requires 0 <= k < |vs| => Coerced(vs[k]))
  }

  /** The kept records line up with the keys of the fold. */
  lemma NormalizeRamosKeys(rs: seq<Ramo>)
    ensures |NormalizeRamos(rs)| == |DedupMap(rs).keys|
    ensures forall k | 0 <= k < |NormalizeRamos(rs)| ::
      NormalizeRamos(rs)[k] == Coerced(DedupMap(rs).m[DedupMap(rs).keys[k]])
    ensures forall k | 0 <= k < |NormalizeRamos(rs)| :: NormalizeRamos(rs)[k].codigo == DedupMap(rs).keys[k]
  {
    DedupMapKeys(rs);
  }

  /**
   * One record per code, and every code of the input still present: a
   * semester's course list after normalisation has the same codes, once each.
   */
  lemma NormalizeRamosCodes(rs: seq<Ramo>)
    ensures DistinctCodes(NormalizeRamos(rs))
    ensures forall c | c in Codes(rs) :: c in Codes(NormalizeRamos(rs))
    ensures forall c | c in Codes(NormalizeRamos(rs)) :: c in Codes(rs)
  {
    var seen := DedupMap(rs);
    var out := NormalizeRamos(rs);
    NormalizeRamosKeys(rs);
    DedupMapKeys(rs);
    forall c | c in Codes(rs) ensures c in Codes(out) {
      var k :| 0 <= k < |seen.keys| && seen.keys[k] == c;
      assert Codes(out)[k] == c;
    }
  }

  /** Each kept record is the winner of its code, with its status coerced. */
  lemma NormalizeRamosWinnerAt(rs: seq<Ramo>, k: int)
    requires 0 <= k < |NormalizeRamos(rs)|
    ensures exists i :: IsWinner(rs, i) && NormalizeRamos(rs)[k] == Coerced(rs[i])
  {
    var seen := DedupMap(rs);
    NormalizeRamosKeys(rs);
    DedupMapSpec(rs);
    var key := seen.keys[k];
    assert key in seen.m;
    var i :| IsWinner(rs, i) && rs[i] == seen.m[key];
    assert NormalizeRamos(rs)[k] == Coerced(rs[i]);
  }

  /** Two winners of the same code are the same record position. */
  lemma WinnerUnique(rs: seq<Ramo>, i: int, j: int)
    requires IsWinner(rs, i) && IsWinner(rs, j) && rs[i].codigo == rs[j].codigo
    ensures i == j
  {
  }

  /** Every winner is kept, with its status coerced. */
  lemma WinnerKept(rs: seq<Ramo>, i: int)
    requires IsWinner(rs, i)
    ensures Coerced(rs[i]) in NormalizeRamos(rs)
  {
    var out := NormalizeRamos(rs);
    NormalizeRamosCodes(rs);
    assert Codes(rs)[i] == rs[i].codigo;
    assert rs[i].codigo in Codes(out);
    var k :| 0 <= k < |out| && Codes(out)[k] == rs[i].codigo;
    NormalizeRamosWinnerAt(rs, k);
    var j :| IsWinner(rs, j) && out[k] == Coerced(rs[j]);
    WinnerUnique(rs, i, j);
  }

  /** `r` is the winning record of some code of `rs`, with its status coerced. */
  ghost predicate KeptFrom(rs: seq<Ramo>, r: Ramo) {
    exists i :: IsWinner(rs, i) && r == Coerced(rs[i])
  }

  /** `out` has the codes of `rs` and holds exactly its coerced winners. */
  ghost predicate NormalizedFrom(out: seq<Ramo>, rs: seq<Ramo>) {
    && (forall c :: c in Codes(out) <==> c in Codes(rs))
    && (forall r :: r in out <==> KeptFrom(rs, r))
  }

  /**
   * A semester's normalised records are exactly the winners of its codes,
   * each with its status coerced: every kept record is one, and every winner
   * is kept.
   */
  lemma NormalizeRamosWinners(rs: seq<Ramo>)
    ensures NormalizedFrom(NormalizeRamos(rs), rs)
  {
    var out := NormalizeRamos(rs);
    NormalizeRamosCodes(rs);
    forall r ensures r in out <==> KeptFrom(rs, r) {
      if r in out {
        var k :| 0 <= k < |out| && out[k] == r;
        NormalizeRamosWinnerAt(rs, k);
      }
      if KeptFrom(rs, r) {
        var i :| IsWinner(rs, i) && r == Coerced(rs[i]);
        WinnerKept(rs, i);
      }
    }
  }

  function NormalizeSemestre(s: Semestre): (n: Semestre)
    ensures n.periodo == s.periodo
  {
    Semestre(s.periodo, NormalizeRamos(s.ramos))
  }

  /** The codes whose record has status `e` in some semester. */
  function CodesWith(ss: seq<Semestre>, e: Estado): set<string> {
    set i, k | 0 <= i < |ss| && 0 <= k < |ss[i].ramos| && ss[i].ramos[k].estado == e :: ss[i].ramos[k].codigo
  }

  /** Approved and enrolled records count towards the base level. */
  predicate CountsForLevel(r: Ramo) {
    r.estado == Aprobado || r.estado == Inscrito
  }

  function LevelsOf(ss: seq<Semestre>): set<int> {
    set i, k | 0 <= i < |ss| && 0 <= k < |ss[i].ramos| && CountsForLevel(ss[i].ramos[k]) :: ss[i].ramos[k].nivel
  }

  function MaxNivelRamos(rs: seq<Ramo>, acc: int): (m: int)
    ensures m >= acc
    ensures forall k | 0 <= k < |rs| && CountsForLevel(rs[k]) :: rs[k].nivel <= m
    ensures m == acc || m in set k | 0 <= k < |rs| && CountsForLevel(rs[k]) :: rs[k].nivel
  {
    if rs == [] then acc
    else
      var acc' := if CountsForLevel(rs[0]) && rs[0].nivel > acc then rs[0].nivel else acc;
      var m := MaxNivelRamos(rs[1..], acc');
      assert forall k | 1 <= k < |rs| :: rs[k] == rs[1..][k - 1];
      m
  }

  function MaxNivel(ss: seq<Semestre>, acc: int): (m: int)
    ensures m >= acc
    ensures forall i, k | 0 <= i < |ss| && 0 <= k < |ss[i].ramos| && CountsForLevel(ss[i].ramos[k]) ::
      ss[i].ramos[k].nivel <= m
    ensures m == acc || m in LevelsOf(ss)
  {
    if ss == [] then acc
    else
      var acc' := MaxNivelRamos(ss[0].ramos, acc);
      var m := MaxNivel(ss[1..], acc');
      assert forall i | 1 <= i < |ss| :: ss[i] == ss[1..][i - 1];
      assert acc' != acc ==> acc' in LevelsOf(ss);
      assert m != acc' ==> m in LevelsOf(ss) by {
        if m != acc' {
          var i, k :| 0 <= i < |ss[1..]| && 0 <= k < |ss[1..][i].ramos| && CountsForLevel(ss[1..][i].ramos[k])
                      && ss[1..][i].ramos[k].nivel == m;
          assert ss[i + 1].ramos[k].nivel == m;
        }
      }
      m
  }

  /** `NormalizedBase & RawProjectionResponse`. */
  datatype NormalizedBase = NormalizedBase(
    semestres: seq<Semestre>,
    aprobados: set<string>,
    inscritos: set<string>,
    reprobados: set<string>,
    nivelBase: int,
    resumen: Resumen,
    pendientes: seq<PendienteGrupo>)

  /** Every semester normalised, in order. */
  function NormalizeSemestres(semestres: seq<Semestre>): (ss: seq<Semestre>)
    ensures |ss| == |semestres|
    ensures forall i | 0 <= i < |ss| :: ss[i].periodo == semestres[i].periodo && DistinctCodes(ss[i].ramos)
    ensures forall i, k | 0 <= i < |ss| && 0 <= k < |ss[i].ramos| ::
      ss[i].ramos[k].estado == Aprobado || ss[i].ramos[k].estado == Reprobado || ss[i].ramos[k].estado == Inscrito
  {
    var ss := seq(|semestres|, i requires 0 <= i < |semestres| => NormalizeSemestre(semestres[i]));
    assert forall i | 0 <= i < |ss| :: DistinctCodes(ss[i].ramos) by {
      forall i | 0 <= i < |ss| ensures DistinctCodes(ss[i].ramos) {
        NormalizeRamosCodes(semestres[i].ramos);
      }
    }
    ss
  }

  /**
   * Each normalised semester keeps its period and its set of codes, and its
   * records are exactly the coerced winners of the original semester.
   */
  lemma NormalizeSemestresSpec(semestres: seq<Semestre>)
    ensures var ss := NormalizeSemestres(semestres);
      forall i | 0 <= i < |ss| :: ss[i].periodo == semestres[i].periodo && NormalizedFrom(ss[i].ramos, semestres[i].ramos)
  {
    var ss := NormalizeSemestres(semestres);
    forall i | 0 <= i < |ss| ensures NormalizedFrom(ss[i].ramos, semestres[i].ramos) {
      NormalizeRamosWinners(semestres[i].ramos);
    }
  }

  /** Some semester's winning record for code `c` has, once coerced, status `e`. */
  ghost predicate WinsWith(ss: seq<Semestre>, c: string, e: Estado) {
    exists i, j | 0 <= i < |ss| && IsWinner(ss[i].ramos, j) ::
      ss[i].ramos[j].codigo == c && Coerce(ss[i].ramos[j].estado) == e
  }

  lemma CodesWithWinners(semestres: seq<Semestre>, e: Estado)
    ensures forall c :: c in CodesWith(NormalizeSemestres(semestres), e) <==> WinsWith(semestres, c, e)
  {
    NormalizeSemestresSpec(semestres);
    forall c | c in CodesWith(NormalizeSemestres(semestres), e) ensures WinsWith(semestres, c, e) {
      CodesWithWinner(semestres, e, c);
    }
    forall c | WinsWith(semestres, c, e) ensures c in CodesWith(NormalizeSemestres(semestres), e) {
      WinnerCodesWith(semestres, e, c);
    }
  }

  lemma CodesWithWinner(semestres: seq<Semestre>, e: Estado, c: string)
    requires c in CodesWith(NormalizeSemestres(semestres), e)
    ensures WinsWith(semestres, c, e)
  {
    var ss := NormalizeSemestres(semestres);
    NormalizeSemestresSpec(semestres);
    var i, k :| 0 <= i < |ss| && 0 <= k < |ss[i].ramos| && ss[i].ramos[k].estado == e && ss[i].ramos[k].codigo == c;
    assert ss[i].ramos[k] in ss[i].ramos;
    assert KeptFrom(semestres[i].ramos, ss[i].ramos[k]);
    var j :| IsWinner(semestres[i].ramos, j) && ss[i].ramos[k] == Coerced(semestres[i].ramos[j]);
  }

  lemma WinnerCodesWith(semestres: seq<Semestre>, e: Estado, c: string)
    requires WinsWith(semestres, c, e)
    ensures c in CodesWith(NormalizeSemestres(semestres), e)
  {
    var ss := NormalizeSemestres(semestres);
    NormalizeSemestresSpec(semestres);
    var i, j :| 0 <= i < |semestres| && IsWinner(semestres[i].ramos, j)
                && semestres[i].ramos[j].codigo == c && Coerce(semestres[i].ramos[j].estado) == e;
    assert KeptFrom(semestres[i].ramos, Coerced(semestres[i].ramos[j]));
    var k :| 0 <= k < |ss[i].ramos| && ss[i].ramos[k] == Coerced(semestres[i].ramos[j]);
    assert ss[i].ramos[k].codigo in CodesWith(ss, e);
  }

  /** When every record is approved, failed or enrolled, its code lands in one of the three sets. */
  lemma CodesWithCover(ss: seq<Semestre>)
    requires forall i, k | 0 <= i < |ss| && 0 <= k < |ss[i].ramos| ::
      ss[i].ramos[k].estado == Aprobado || ss[i].ramos[k].estado == Reprobado || ss[i].ramos[k].estado == Inscrito
    ensures forall i, k | 0 <= i < |ss| && 0 <= k < |ss[i].ramos| ::
      ss[i].ramos[k].codigo in CodesWith(ss, Aprobado) + CodesWith(ss, Inscrito) + CodesWith(ss, Reprobado)
  {
    forall i, k | 0 <= i < |ss| && 0 <= k < |ss[i].ramos|
      ensures ss[i].ramos[k].codigo in CodesWith(ss, Aprobado) + CodesWith(ss, Inscrito) + CodesWith(ss, Reprobado)
    {
      var e := ss[i].ramos[k].estado;
      assert ss[i].ramos[k].codigo in CodesWith(ss, e);
    }
  }

  /** `normalizeHistorial`. */
  function NormalizeHistorial(data: ProjectionResponse): (b: NormalizedBase)
    ensures |b.semestres| == |data.semestres|
    ensures forall i | 0 <= i < |b.semestres| ::
      b.semestres[i].periodo == data.semestres[i].periodo && DistinctCodes(b.semestres[i].ramos)
    ensures b.resumen == data.resumen && b.pendientes == data.pendientes
    ensures b.nivelBase >= 1
    ensures b.nivelBase == 1 || b.nivelBase in LevelsOf(b.semestres)
    ensures forall i, k | 0 <= i < |b.semestres| && 0 <= k < |b.semestres[i].ramos| ::
      && (CountsForLevel(b.semestres[i].ramos[k]) ==> b.semestres[i].ramos[k].nivel <= b.nivelBase)
      && b.semestres[i].ramos[k].codigo in (b.aprobados + b.inscritos + b.reprobados)
  {
    var ss := NormalizeSemestres(data.semestres);
    CodesWithCover(ss);
    NormalizedBase(
      ss,
      CodesWith(ss, Aprobado),
      CodesWith(ss, Inscrito),
      CodesWith(ss, Reprobado),
      MaxNivel(ss, 1),
      data.resumen,
      data.pendientes)
  }

  /**
   * A code is in the approved, enrolled or failed set exactly when, in some
   * semester, its surviving record has that status once coerced.
   */
  lemma NormalizeHistorialSets(data: ProjectionResponse)
    ensures forall c :: c in NormalizeHistorial(data).aprobados <==> WinsWith(data.semestres, c, Aprobado)
    ensures forall c :: c in NormalizeHistorial(data).inscritos <==> WinsWith(data.semestres, c, Inscrito)
    ensures forall c :: c in NormalizeHistorial(data).reprobados <==> WinsWith(data.semestres, c, Reprobado)
  {
    CodesWithWinners(data.semestres, Aprobado);
    CodesWithWinners(data.semestres, Inscrito);
    CodesWithWinners(data.semestres, Reprobado);
  }

  // ------------------------------------------------------------ current period

  predicate HasInscrito(s: Semestre) {
    exists k | 0 <= k < |s.ramos| :: s.ramos[k].estado == Inscrito
  }

  predicate AllWellFormed(ss: seq<Semestre>) {
    forall i | 0 <= i < |ss| :: WellFormed(ss[i].periodo)
  }

  function InscritoPeriods(ss: seq<Semestre>): set<string> {
    set i | 0 <= i < |ss| && HasInscrito(ss[i]) :: ss[i].periodo
  }

  function PeriodsOf(ss: seq<Semestre>): set<string> {
    set i | 0 <= i < |ss| :: ss[i].periodo
  }

  /** The enrolled periods of a list are those of its head, when enrolled, and those of its tail. */
  lemma InscritoPeriodsCons(ss: seq<Semestre>)
    requires ss != []
    ensures InscritoPeriods(ss) == (if HasInscrito(ss[0]) then {ss[0].periodo} else {}) + InscritoPeriods(ss[1..])
  {
    forall p | p in InscritoPeriods(ss)
      ensures p in (if HasInscrito(ss[0]) then {ss[0].periodo} else {}) + InscritoPeriods(ss[1..])
    {
      var i :| 0 <= i < |ss| && HasInscrito(ss[i]) && ss[i].periodo == p;
      if i > 0 { assert ss[1..][i - 1] == ss[i]; }
    }
  }

  /** The periods of a list are its head's and those of its tail. */
  lemma PeriodsOfCons(ss: seq<Semestre>)
    requires ss != []
    ensures PeriodsOf(ss) == {ss[0].periodo} + PeriodsOf(ss[1..])
  {
    forall p | p in PeriodsOf(ss) ensures p in {ss[0].periodo} + PeriodsOf(ss[1..]) {
      var i :| 0 <= i < |ss| && ss[i].periodo == p;
      if i > 0 { assert ss[1..][i - 1] == ss[i]; }
    }
  }

  /** First loop of `detectPeriodoActual`: the latest period holding an INSCRITO record, starting from `acc`. */
  function LatestInscrito(ss: seq<Semestre>, acc: Option<string>): (r: Option<string>)
    requires AllWellFormed(ss) && (acc.Some? ==> WellFormed(acc.value))
    ensures r.Some? ==> WellFormed(r.value)
    ensures r == acc || (r.Some? && r.value in InscritoPeriods(ss))
  {
    if ss == [] then acc
    else
      var s := ss[0];
      var acc' := if HasInscrito(s) && (acc.None? || ComparePeriodo(s.periodo, acc.value) > 0) then Some(s.periodo) else acc;
      InscritoPeriodsCons(ss);
      LatestInscrito(ss[1..], acc')
  }

  /**
   * The first loop finds a period exactly when it starts from one or some
   * semester is enrolled, and no enrolled period, nor the starting one, is
   * later than what it finds.
   */
  lemma {:induction false} LatestInscritoMax(ss: seq<Semestre>, acc: Option<string>)
    requires AllWellFormed(ss) && (acc.Some? ==> WellFormed(acc.value))
    ensures LatestInscrito(ss, acc).Some? <==> acc.Some? || InscritoPeriods(ss) != {}
    ensures LatestInscrito(ss, acc).Some? ==> forall i | 0 <= i < |ss| && HasInscrito(ss[i]) ::
      !Before(Parse(LatestInscrito(ss, acc).value), Parse(ss[i].periodo))
    ensures acc.Some? ==> !Before(Parse(LatestInscrito(ss, acc).value), Parse(acc.value))
  {
    if ss != [] {
      var s := ss[0];
      var acc' := if HasInscrito(s) && (acc.None? || ComparePeriodo(s.periodo, acc.value) > 0) then Some(s.periodo) else acc;
      LatestInscritoMax(ss[1..], acc');
      InscritoPeriodsCons(ss);
      var r := LatestInscrito(ss, acc);
      assert r == LatestInscrito(ss[1..], acc');
      if r.Some? {
        forall i | 1 <= i < |ss| && HasInscrito(ss[i]) ensures !Before(Parse(r.value), Parse(ss[i].periodo)) {
          assert ss[1..][i - 1] == ss[i];
        }
      }
    }
  }

  /** Second loop: the latest period of all, starting from `acc`. */
  function LatestPeriod(ss: seq<Semestre>, acc: string): (r: string)
    requires AllWellFormed(ss) && WellFormed(acc)
    ensures WellFormed(r)
    ensures r == acc || r in PeriodsOf(ss)
  {
    if ss == [] then acc
    else
      var acc' := if ComparePeriodo(ss[0].periodo, acc) > 0 then ss[0].periodo else acc;
      PeriodsOfCons(ss);
      LatestPeriod(ss[1..], acc')
  }

  /** No period of the list, nor the starting one, is later than what the second loop finds. */
  lemma {:induction false} LatestPeriodMax(ss: seq<Semestre>, acc: string)
    requires AllWellFormed(ss) && WellFormed(acc)
    ensures forall i | 0 <= i < |ss| :: !Before(Parse(LatestPeriod(ss, acc)), Parse(ss[i].periodo))
    ensures !Before(Parse(LatestPeriod(ss, acc)), Parse(acc))
  {
    if ss != [] {
      var acc' := if ComparePeriodo(ss[0].periodo, acc) > 0 then ss[0].periodo else acc;
      LatestPeriodMax(ss[1..], acc');
      var r := LatestPeriod(ss, acc);
      assert r == LatestPeriod(ss[1..], acc');
      forall i | 1 <= i < |ss| ensures !Before(Parse(r), Parse(ss[i].periodo)) {
        assert ss[1..][i - 1] == ss[i];
      }
    }
  }

  const FALLBACK_PERIODO: string := "1900-1"

  lemma FallbackWellFormed()
    ensures WellFormed(FALLBACK_PERIODO)
  {
    assert FALLBACK_PERIODO == Label(Periodo(1900, 1));
  }

  /**
   * `detectPeriodoActual`: the latest period holding an enrolled course; when
   * there is none, the latest period overall; "1900-1" for an empty history.
   */
  function DetectPeriodoActual(ss: seq<Semestre>): (r: string)
    requires AllWellFormed(ss)
    ensures WellFormed(r)
    ensures InscritoPeriods(ss) != {} ==>
      && r in InscritoPeriods(ss)
      && forall i | 0 <= i < |ss| && HasInscrito(ss[i]) :: !Before(Parse(r), Parse(ss[i].periodo))
    ensures InscritoPeriods(ss) == {} && ss != [] ==>
      && r in PeriodsOf(ss)
      && forall i | 0 <= i < |ss| :: !Before(Parse(r), Parse(ss[i].periodo))
    ensures ss == [] ==> r == FALLBACK_PERIODO
  {
    LatestInscritoMax(ss, None);
    match LatestInscrito(ss, None)
    case Some(p) => p
    case None =>
      if ss == [] then FallbackWellFormed(); FALLBACK_PERIODO
      else
        assert ss[0].periodo in PeriodsOf(ss);
        LatestPeriodMax(ss, ss[0].periodo);
        LatestPeriod(ss, ss[0].periodo)
  }
}
