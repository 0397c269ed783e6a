/**
 * The planning loop of `buildAutomaticProjection`
 * (backend/src/projection/automatic-projection.service.ts): the state it
 * threads from one semester to the next, the invariant that state keeps, and
 * what one iteration of each kind does to it.
 */
module Planning {
  import opened Options
  import opened Collections
  import opened Periods
  import opened Model
  import opened Normalize
  import opened Graphs
  import opened Unlock
  import opened Selection

  /** The capstone course, planned alone as soon as all its prerequisites are approved. */
  const CAPSTONE_CODE: string := "ECIN-01000"

  /** Number of consecutive semesters without progress after which planning stops. */
  const MAX_SIN_PROGRESO: int := 100

  /** The set of codes of a list of courses. */
  function CodeSet(rs: seq<Ramo>): set<string> {
    set r | r in rs :: r.codigo
  }

  /** Every code planned so far. */
  function Planned(plan: seq<Semestre>): set<string> {
    CodeSet(SemRamos(plan))
  }

  /** `Math.max(nivelBase, ...niveles)`. */
  function NivelMax(rs: seq<Ramo>, acc: int): (m: int)
    ensures m >= acc
    ensures forall r | r in rs :: r.nivel <= m
    ensures m == acc || exists r | r in rs :: r.nivel == m
  {
    if rs == [] then acc
    else
      var m := NivelMax(rs[1..], if rs[0].nivel > acc then rs[0].nivel else acc);
      assert forall r | r in rs :: r == rs[0] || r in rs[1..];
      assert forall r | r in rs[1..] :: r in rs;
      m
  }

  /** The capstone check: the capstone is pending and every one of its prerequisites is approved. */
  predicate CapstoneReady(g: Graphs, aprobados: set<string>) {
    CAPSTONE_CODE in g.index.m && forall req | req in Reqs(g.prereqMap, CAPSTONE_CODE) :: req in aprobados
  }

  /** Some prerequisite of the capstone is neither approved nor pending, so it can never be approved. */
  predicate CapstoneBlocked(g: Graphs) {
    !forall req | req in Reqs(g.prereqMap, CAPSTONE_CODE) :: req in g.index.m || req in g.aprobados
  }

  // ------------------------------------------------------ plan properties

  /** Each planned semester is non-empty and holds the planned copies of pending courses. */
  ghost predicate FromIndex(g: Graphs, plan: seq<Semestre>) {
    && (forall i | 0 <= i < |plan| :: plan[i].ramos != [])
    && forall r | r in SemRamos(plan) :: r.codigo in g.index.m && r == Proyectar(g.index.m[r.codigo])
  }

  /** A prerequisite that is still pending is planned in an earlier semester. */
  ghost predicate PrereqsEarlier(g: Graphs, plan: seq<Semestre>) {
    forall i, r, req | 0 <= i < |plan| && r in plan[i].ramos && req in Reqs(g.prereqMap, r.codigo) && req in g.index.m ::
      req in Planned(plan[..i])
  }

  /** Regular semesters only, in strictly increasing order. */
  ghost predicate PeriodsIncrease(plan: seq<Semestre>) {
    && (forall i | 0 <= i < |plan| :: WellFormed(plan[i].periodo) && Parse(plan[i].periodo).term in {1, 2})
    && forall i, j | 0 <= i < j < |plan| :: Before(Parse(plan[i].periodo), Parse(plan[j].periodo))
  }

  /** Every semester respects the credit cap. */
  ghost predicate UnderCap(plan: seq<Semestre>) {
    forall i | 0 <= i < |plan| :: Creditos(plan[i].ramos) <= MAX_CREDITOS_POR_SEMESTRE
  }

  /** The planning-loop invariant over the state the loop body reads and writes. */
  ghost predicate Inv(g: Graphs, plan: seq<Semestre>, pend: seq<string>, aprobados: set<string>, periodo: string) {
    && KeyedByCode(g.index)
    && (forall k | k in g.index.m :: k !in g.aprobados)
    && pend == Without(g.index.keys, Planned(plan))
    && aprobados == g.aprobados + Planned(plan)
    && FromIndex(g, plan)
    && DistinctCodes(SemRamos(plan))
    && PrereqsEarlier(g, plan)
    && PeriodsIncrease(plan)
    && UnderCap(plan)
    && WellFormed(periodo) && Parse(periodo).term in {1, 2}
    && (forall i | 0 <= i < |plan| :: Before(Parse(plan[i].periodo), Parse(periodo)))
    && (CAPSTONE_CODE in Planned(plan) ==> CapstoneBlocked(g))
  }

  lemma CodeSetAppend(a: seq<Ramo>, b: seq<Ramo>)
    ensures CodeSet(a + b) == CodeSet(a) + CodeSet(b)
  {
    assert forall r :: r in a + b <==> r in a || r in b;
  }

  lemma CodeSetProyectar(rs: seq<Ramo>)
    ensures CodeSet(ProyectarAll(rs)) == CodeSet(rs)
  {
    ProyectarAllKeeps(rs);
    forall c | c in CodeSet(rs) ensures c in CodeSet(ProyectarAll(rs)) {
      var r :| r in rs && r.codigo == c;
      var i :| 0 <= i < |rs| && rs[i] == r;
      assert ProyectarAll(rs)[i] in ProyectarAll(rs);
    }
  }

  /** Two code-distinct lists with no code in common concatenate to a code-distinct list. */
  lemma DistinctCodesAppend(a: seq<Ramo>, b: seq<Ramo>)
    requires DistinctCodes(a) && DistinctCodes(b)
    requires CodeSet(a) !! CodeSet(b)
    ensures DistinctCodes(a + b)
  {
    forall i, j | 0 <= i < j < |a + b| ensures (a + b)[i].codigo != (a + b)[j].codigo {
      if j < |a| {
        assert (a + b)[i] == a[i] && (a + b)[j] == a[j];
      } else if i >= |a| {
        assert (a + b)[i] == b[i - |a|] && (a + b)[j] == b[j - |a|];
      } else {
        assert (a + b)[i] == a[i] && (a + b)[j] == b[j - |a|];
        assert a[i] in a && b[j - |a|] in b;
        assert a[i].codigo in CodeSet(a) && b[j - |a|].codigo in CodeSet(b);
      }
    }
  }

  lemma InitialInv(base: NormalizedBase, g: Graphs, periodo: string)
    requires g == BuildGraphs(base)
    requires WellFormed(periodo) && Parse(periodo).term in {1, 2}
    ensures Inv(g, [], g.index.keys, g.aprobados, periodo)
  {
    BuildGraphsIndex(base);
    forall k | k in g.index.m ensures k !in g.aprobados {
      assert Eligible(k, base.aprobados, base.inscritos);
    }
    assert Planned([]) == {};
    WithoutNothing(g.index.keys);
  }

  lemma {:induction false} WithoutNothing(s: seq<string>)
    ensures Without(s, {}) == s
  {
    if s != [] {
      WithoutNothing(s[1..]);
    }
  }

  /** What the selection step guarantees about the courses it takes. */
  lemma TakenFacts(g: Graphs, pr: Priority, plan: seq<Semestre>, pend: seq<string>, aprobados: set<string>,
                   nivelBase: int)
    requires KeyedByCode(g.index) && pend == Without(g.index.keys, Planned(plan))
    ensures var t := Tomados(g.index, g.prereqMap, pr, pend, aprobados, nivelBase);
      && (forall r | r in t :: r in Candidates(g.index, g.prereqMap, pend, aprobados, nivelBase))
      && DistinctCodes(t)
      && Creditos(t) <= MAX_CREDITOS_POR_SEMESTRE
  {
    LevelGuardNeverFires(g.index, g.prereqMap, pr, pend, aprobados, nivelBase);
    PassesFromCandidates(g.index, g.prereqMap, pr, pend, aprobados, nivelBase);
    WithoutDistinct(g.index.keys, Planned(plan));
    PassesDistinct(g.index, g.prereqMap, pr, pend, aprobados, nivelBase);
  }

  /** What one productive iteration does to the state keeps the invariant. */
  lemma ProductiveStep(g: Graphs, pr: Priority, plan: seq<Semestre>, pend: seq<string>, aprobados: set<string>,
                       periodo: string, nivelBase: int)
    requires Inv(g, plan, pend, aprobados, periodo)
    requires !CapstoneReady(g, aprobados)
    requires Tomados(g.index, g.prereqMap, pr, pend, aprobados, nivelBase) != []
    ensures var t := Tomados(g.index, g.prereqMap, pr, pend, aprobados, nivelBase);
      Inv(g, plan + [Semestre(periodo, ProyectarAll(t))], Without(pend, CodeSet(t)), aprobados + CodeSet(t),
          NextPeriodoForProjection(periodo))
    ensures var t := Tomados(g.index, g.prereqMap, pr, pend, aprobados, nivelBase);
      |Without(pend, CodeSet(t))| < |pend|
  {
    TakenFacts(g, pr, plan, pend, aprobados, nivelBase);
    var t := Tomados(g.index, g.prereqMap, pr, pend, aprobados, nivelBase);
    var cs := Candidates(g.index, g.prereqMap, pend, aprobados, nivelBase);
    StepInv(g, plan, pend, aprobados, periodo, nivelBase, t, cs);
  }

  lemma StepInv(g: Graphs, plan: seq<Semestre>, pend: seq<string>, aprobados: set<string>, periodo: string,
                nivelBase: int, t: seq<Ramo>, cs: seq<Ramo>)
    requires Inv(g, plan, pend, aprobados, periodo)
    requires !CapstoneReady(g, aprobados)
    requires cs == Candidates(g.index, g.prereqMap, pend, aprobados, nivelBase)
    requires t != [] && (forall r | r in t :: r in cs) && DistinctCodes(t) && Creditos(t) <= MAX_CREDITOS_POR_SEMESTRE
    ensures Inv(g, plan + [Semestre(periodo, ProyectarAll(t))], Without(pend, CodeSet(t)), aprobados + CodeSet(t),
                NextPeriodoForProjection(periodo))
    ensures |Without(pend, CodeSet(t))| < |pend|
  {
    StepCodes(g, plan, pend, aprobados, periodo, nivelBase, t, cs);
    StepOrder(g, plan, pend, aprobados, periodo, nivelBase, t, cs);
  }

  /** The code bookkeeping of a productive iteration. */
  lemma StepCodes(g: Graphs, plan: seq<Semestre>, pend: seq<string>, aprobados: set<string>, periodo: string,
                  nivelBase: int, t: seq<Ramo>, cs: seq<Ramo>)
    requires Inv(g, plan, pend, aprobados, periodo)
    requires cs == Candidates(g.index, g.prereqMap, pend, aprobados, nivelBase)
    requires t != [] && (forall r | r in t :: r in cs) && DistinctCodes(t)
    ensures var plan' := plan + [Semestre(periodo, ProyectarAll(t))];
      && Planned(plan') == Planned(plan) + CodeSet(t)
      && Without(pend, CodeSet(t)) == Without(g.index.keys, Planned(plan'))
      && |Without(pend, CodeSet(t))| < |pend|
      && FromIndex(g, plan')
      && DistinctCodes(SemRamos(plan'))
  {
    var s := Semestre(periodo, ProyectarAll(t));
    var plan' := plan + [s];
    PlannedStep(g, plan, pend, t, cs, s, aprobados, nivelBase);
    WithoutWithout(g.index.keys, Planned(plan), CodeSet(t));
    assert t[0] in cs;
    WithoutShrinks(pend, CodeSet(t), t[0].codigo);
    FromIndexStep(g, plan, t, cs, s, pend, aprobados, nivelBase);
    DistinctCodesAppend(SemRamos(plan), s.ramos);
  }

  /** The ordering obligations of a productive iteration: prerequisites, periods, credits, capstone. */
  lemma StepOrder(g: Graphs, plan: seq<Semestre>, pend: seq<string>, aprobados: set<string>, periodo: string,
                  nivelBase: int, t: seq<Ramo>, cs: seq<Ramo>)
    requires Inv(g, plan, pend, aprobados, periodo)
    requires !CapstoneReady(g, aprobados)
    requires cs == Candidates(g.index, g.prereqMap, pend, aprobados, nivelBase)
    requires (forall r | r in t :: r in cs) && Creditos(t) <= MAX_CREDITOS_POR_SEMESTRE
    requires Planned(plan + [Semestre(periodo, ProyectarAll(t))]) == Planned(plan) + CodeSet(t)
    ensures var plan' := plan + [Semestre(periodo, ProyectarAll(t))];
      var per' := NextPeriodoForProjection(periodo);
      && PrereqsEarlier(g, plan')
      && PeriodsIncrease(plan') && WellFormed(per') && Parse(per').term in {1, 2}
      && (forall i | 0 <= i < |plan'| :: Before(Parse(plan'[i].periodo), Parse(per')))
      && UnderCap(plan')
      && (CAPSTONE_CODE in Planned(plan') ==> CapstoneBlocked(g))
  {
    var s := Semestre(periodo, ProyectarAll(t));
    PrereqsStep(g, plan, s, t, aprobados, cs, g.index, pend, nivelBase);
    PeriodsStep(plan, s);
    ProyectarAllKeeps(t);
    UnderCapStep(plan, s);
    assert Planned(plan) <= g.index.m.Keys;
    CapstoneStep(g, plan, t, aprobados, cs, g.index, pend, nivelBase);
  }

  /** The new semester's codes were pending, hence not yet planned, and are planned now. */
  lemma PlannedStep(g: Graphs, plan: seq<Semestre>, pend: seq<string>, t: seq<Ramo>, cs: seq<Ramo>, s: Semestre,
                    aprobados: set<string>, nivelBase: int)
    requires KeyedByCode(g.index) && pend == Without(g.index.keys, Planned(plan))
    requires cs == Candidates(g.index, g.prereqMap, pend, aprobados, nivelBase)
    requires (forall r | r in t :: r in cs) && DistinctCodes(t)
    requires s.ramos == ProyectarAll(t)
    ensures SemRamos(plan + [s]) == SemRamos(plan) + s.ramos
    ensures CodeSet(s.ramos) == CodeSet(t)
    ensures Planned(plan + [s]) == Planned(plan) + CodeSet(t)
    ensures CodeSet(t) !! Planned(plan)
    ensures DistinctCodes(s.ramos)
  {
    SemRamosAppend(plan, s);
    CodeSetAppend(SemRamos(plan), s.ramos);
    CodeSetProyectar(t);
    ProyectarAllKeeps(t);
    forall c | c in CodeSet(t) ensures c !in Planned(plan) {
      var r :| r in t && r.codigo == c;
      assert r in cs;
    }
    forall i, j | 0 <= i < j < |s.ramos| ensures s.ramos[i].codigo != s.ramos[j].codigo {
      assert s.ramos[i].codigo == t[i].codigo && s.ramos[j].codigo == t[j].codigo;
    }
  }

  lemma FromIndexStep(g: Graphs, plan: seq<Semestre>, t: seq<Ramo>, cs: seq<Ramo>, s: Semestre,
                      pend: seq<string>, aprobados: set<string>, nivelBase: int)
    requires KeyedByCode(g.index) && FromIndex(g, plan)
    requires cs == Candidates(g.index, g.prereqMap, pend, aprobados, nivelBase)
    requires t != [] && forall r | r in t :: r in cs
    requires s.ramos == ProyectarAll(t)
    requires SemRamos(plan + [s]) == SemRamos(plan) + s.ramos
    ensures FromIndex(g, plan + [s])
  {
    var plan' := plan + [s];
    forall i | 0 <= i < |plan'| ensures plan'[i].ramos != [] {
      if i < |plan| { assert plan'[i] == plan[i]; }
    }
    forall r | r in SemRamos(plan') ensures r.codigo in g.index.m && r == Proyectar(g.index.m[r.codigo]) {
      if r !in SemRamos(plan) {
        var i :| 0 <= i < |s.ramos| && s.ramos[i] == r;
        assert t[i] in cs;
      }
    }
  }

  lemma UnderCapStep(plan: seq<Semestre>, s: Semestre)
    requires UnderCap(plan) && Creditos(s.ramos) <= MAX_CREDITOS_POR_SEMESTRE
    ensures UnderCap(plan + [s])
  {
    var plan' := plan + [s];
    forall i | 0 <= i < |plan'| ensures Creditos(plan'[i].ramos) <= MAX_CREDITOS_POR_SEMESTRE {
      if i < |plan| { assert plan'[i] == plan[i]; }
    }
  }

  lemma PrereqsStep(g: Graphs, plan: seq<Semestre>, s: Semestre, t: seq<Ramo>, aprobados: set<string>,
                    cs: seq<Ramo>, idx: OrderedMap<Ramo>, pend: seq<string>, nivelBase: int)
    requires idx == g.index && KeyedByCode(idx)
    requires (forall k | k in idx.m :: k !in g.aprobados) && aprobados == g.aprobados + Planned(plan)
    requires PrereqsEarlier(g, plan)
    requires cs == Candidates(idx, g.prereqMap, pend, aprobados, nivelBase)
    requires forall r | r in t :: r in cs
    requires s.ramos == ProyectarAll(t)
    ensures PrereqsEarlier(g, plan + [s])
  {
    var plan' := plan + [s];
    forall i, r, req | 0 <= i < |plan'| && r in plan'[i].ramos && req in Reqs(g.prereqMap, r.codigo) && req in idx.m
      ensures req in Planned(plan'[..i])
    {
      if i < |plan| {
        assert plan'[..i] == plan[..i];
        assert plan'[i] == plan[i];
      } else {
        assert plan'[..i] == plan;
        var k :| 0 <= k < |s.ramos| && s.ramos[k] == r;
        var c := t[k];
        assert c in cs && c.codigo == r.codigo;
        CanTakeSpec(c, aprobados, [], g.prereqMap, Some(idx.m.Keys));
        assert req in aprobados;
      }
    }
  }

  lemma PeriodsStep(plan: seq<Semestre>, s: Semestre)
    requires PeriodsIncrease(plan)
    requires WellFormed(s.periodo) && Parse(s.periodo).term in {1, 2}
    requires forall i | 0 <= i < |plan| :: Before(Parse(plan[i].periodo), Parse(s.periodo))
    ensures PeriodsIncrease(plan + [s])
    ensures forall i | 0 <= i < |plan + [s]| ::
      Before(Parse((plan + [s])[i].periodo), Parse(NextPeriodoForProjection(s.periodo)))
  {
    var plan' := plan + [s];
    assert Before(Parse(s.periodo), Parse(NextPeriodoForProjection(s.periodo)));
    assert forall i | 0 <= i < |plan| :: plan'[i] == plan[i];
    assert plan'[|plan|] == s;
  }

  lemma CapstoneStep(g: Graphs, plan: seq<Semestre>, t: seq<Ramo>, aprobados: set<string>,
                     cs: seq<Ramo>, idx: OrderedMap<Ramo>, pend: seq<string>, nivelBase: int)
    requires idx == g.index && KeyedByCode(idx)
    requires aprobados == g.aprobados + Planned(plan)
    requires Planned(plan) <= idx.m.Keys
    requires CAPSTONE_CODE in Planned(plan) ==> CapstoneBlocked(g)
    requires !CapstoneReady(g, aprobados)
    requires cs == Candidates(idx, g.prereqMap, pend, aprobados, nivelBase)
    requires forall r | r in t :: r in cs
    ensures CAPSTONE_CODE in Planned(plan) + CodeSet(t) ==> CapstoneBlocked(g)
  {
    if CAPSTONE_CODE in CodeSet(t) {
      var r :| r in t && r.codigo == CAPSTONE_CODE;
      assert r in cs;
      CanTakeSpec(r, aprobados, [], g.prereqMap, Some(idx.m.Keys));
      var req :| req in Reqs(g.prereqMap, CAPSTONE_CODE) && req !in aprobados;
      assert req !in idx.m && req !in g.aprobados;
    }
  }

  // ----------------------------------------------------------- the planner

  /** The graphs the planner works on. */
  function GraphsOf(data: ProjectionResponse): Graphs {
    BuildGraphs(NormalizeHistorial(data))
  }

  /** The first planned period: the regular semester after the current one. */
  function StartPeriodo(data: ProjectionResponse): (p: string)
    requires AllWellFormed(data.semestres)
    ensures WellFormed(p) && Parse(p).term in {1, 2}
  {
    var base := NormalizeHistorial(data);
    assert AllWellFormed(base.semestres);
    NextPeriodoForProjection(DetectPeriodoActual(base.semestres))
  }

  /** Semester `i` is the final, capstone-only semester. */
  predicate CapstoneOnly(plan: seq<Semestre>, i: int) {
    0 <= i && i == |plan| - 1 && |plan[i].ramos| == 1 && plan[i].ramos[0].codigo == CAPSTONE_CODE
  }

  /** What a returned plan satisfies. */
  ghost predicate ValidPlan(g: Graphs, plan: seq<Semestre>) {
    && FromIndex(g, plan)
    && DistinctCodes(SemRamos(plan))
    && PrereqsEarlier(g, plan)
    && PeriodsIncrease(plan)
    && forall i | 0 <= i < |plan| :: Creditos(plan[i].ramos) <= MAX_CREDITOS_POR_SEMESTRE || CapstoneOnly(plan, i)
  }

  /** No planned semester comes before `start`. */
  ghost predicate FromStart(start: string, plan: seq<Semestre>)
    requires WellFormed(start) && PeriodsIncrease(plan)
  {
    forall i | 0 <= i < |plan| :: !Before(Parse(plan[i].periodo), Parse(start))
  }

  /** The semester planned when the capstone check succeeds. */
  function CapstoneSemestre(g: Graphs, periodo: string): Semestre
    requires CAPSTONE_CODE in g.index.m
  {
    Semestre(periodo, [Proyectar(g.index.m[CAPSTONE_CODE])])
  }

  /** The full loop invariant: `Inv` plus the period floor, the no-progress counter and the capstone case. */
  ghost predicate LoopInv(g: Graphs, start: string, plan: seq<Semestre>, pend: seq<string>, aprobados: set<string>,
                          periodo: string, safety: int) {
    && Inv(g, plan, pend, aprobados, periodo)
    && 0 <= safety <= MAX_SIN_PROGRESO
    && WellFormed(start)
    && !Before(Parse(periodo), Parse(start))
    && FromStart(start, plan)
    && (CapstoneReady(g, g.aprobados) ==> plan == [] && periodo == start && safety == 0)
  }

  /**
   * Any semester holding the capstone is the final, capstone-only one, unless
   * some capstone prerequisite can never be approved (then the capstone is an
   * ordinary pending course).
   */
  ghost predicate CapstoneAlone(g: Graphs, plan: seq<Semestre>) {
    forall i | 0 <= i < |plan| && CAPSTONE_CODE in CodeSet(plan[i].ramos) :: CapstoneBlocked(g) || CapstoneOnly(plan, i)
  }

  /** What the planner promises about the plan it returns. */
  ghost predicate Outcome(g: Graphs, start: string, plan: seq<Semestre>) {
    && ValidPlan(g, plan)
    && WellFormed(start)
    && FromStart(start, plan)
    && (CapstoneReady(g, g.aprobados) ==> plan == [CapstoneSemestre(g, start)])
    && CapstoneAlone(g, plan)
    && (g.index.keys == [] ==> plan == [])
  }

  lemma LoopInit(base: NormalizedBase, g: Graphs, start: string)
    requires g == BuildGraphs(base)
    requires WellFormed(start) && Parse(start).term in {1, 2}
    ensures LoopInv(g, start, [], g.index.keys, g.aprobados, start, 0)
  {
    InitialInv(base, g, start);
  }

  /** Once the capstone check has failed, it did not succeed at the start either. */
  lemma NotReadyAtStart(g: Graphs, start: string, plan: seq<Semestre>, pend: seq<string>, aprobados: set<string>,
                        periodo: string, safety: int)
    requires LoopInv(g, start, plan, pend, aprobados, periodo, safety)
    requires !CapstoneReady(g, aprobados)
    ensures !CapstoneReady(g, g.aprobados)
  {
    assert Planned([]) == {};
    assert CapstoneReady(g, g.aprobados) ==> aprobados == g.aprobados;
  }

  /** Appending a semester at `periodo` and moving on keeps every period at or after `start`. */
  lemma StartStep(start: string, plan: seq<Semestre>, s: Semestre)
    requires WellFormed(start) && PeriodsIncrease(plan) && FromStart(start, plan)
    requires WellFormed(s.periodo) && Parse(s.periodo).term in {1, 2} && !Before(Parse(s.periodo), Parse(start))
    requires PeriodsIncrease(plan + [s])
    ensures FromStart(start, plan + [s])
    ensures !Before(Parse(NextPeriodoForProjection(s.periodo)), Parse(start))
  {
    var plan' := plan + [s];
    assert Before(Parse(s.periodo), Parse(NextPeriodoForProjection(s.periodo)));
    forall i | 0 <= i < |plan'| ensures !Before(Parse(plan'[i].periodo), Parse(start)) {
      if i < |plan| { assert plan'[i] == plan[i]; }
    }
  }

  /** An iteration that takes nothing: next period, one more semester without progress. */
  lemma LoopIdle(g: Graphs, start: string, plan: seq<Semestre>, pend: seq<string>, aprobados: set<string>,
                 periodo: string, safety: int)
    requires LoopInv(g, start, plan, pend, aprobados, periodo, safety)
    requires !CapstoneReady(g, aprobados) && safety < MAX_SIN_PROGRESO
    ensures LoopInv(g, start, plan, pend, aprobados, NextPeriodoForProjection(periodo), safety + 1)
  {
    NotReadyAtStart(g, start, plan, pend, aprobados, periodo, safety);
    var next := NextPeriodoForProjection(periodo);
    assert Before(Parse(periodo), Parse(next));
    assert forall i | 0 <= i < |plan| :: Before(Parse(plan[i].periodo), Parse(next));
  }

  /** An iteration that takes the non-empty selection `Tomados(...)`. */
  lemma LoopProductive(g: Graphs, pr: Priority, start: string, plan: seq<Semestre>, pend: seq<string>,
                       aprobados: set<string>, periodo: string, safety: int, nivelBase: int)
    requires LoopInv(g, start, plan, pend, aprobados, periodo, safety)
    requires !CapstoneReady(g, aprobados)
    requires Tomados(g.index, g.prereqMap, pr, pend, aprobados, nivelBase) != []
    ensures var t := Tomados(g.index, g.prereqMap, pr, pend, aprobados, nivelBase);
      && LoopInv(g, start, plan + [Semestre(periodo, ProyectarAll(t))], Without(pend, CodeSet(t)),
                 aprobados + CodeSet(t), NextPeriodoForProjection(periodo), 0)
      && |Without(pend, CodeSet(t))| < |pend|
  {
    var t := Tomados(g.index, g.prereqMap, pr, pend, aprobados, nivelBase);
    NotReadyAtStart(g, start, plan, pend, aprobados, periodo, safety);
    ProductiveStep(g, pr, plan, pend, aprobados, periodo, nivelBase);
    StartStep(start, plan, Semestre(periodo, ProyectarAll(t)));
  }

  /** The capstone branch: the plan so far plus the capstone alone. */
  lemma LoopCapstone(g: Graphs, start: string, plan: seq<Semestre>, pend: seq<string>, aprobados: set<string>,
                     periodo: string, safety: int)
    requires LoopInv(g, start, plan, pend, aprobados, periodo, safety)
    requires CapstoneReady(g, aprobados)
    ensures Outcome(g, start, plan + [CapstoneSemestre(g, periodo)])
  {
    var plan' := plan + [CapstoneSemestre(g, periodo)];
    CapstoneFinal(g, plan, pend, aprobados, periodo);
    assert forall i | 0 <= i < |plan| :: plan'[i] == plan[i];
    assert g.index.keys != [] by {
      assert CAPSTONE_CODE in g.index.keys;
    }
    CapstoneLast(g, plan, pend, aprobados, periodo);
  }

  /** Before the capstone semester no semester holds the capstone, so it sits alone at the end. */
  lemma CapstoneLast(g: Graphs, plan: seq<Semestre>, pend: seq<string>, aprobados: set<string>, periodo: string)
    requires Inv(g, plan, pend, aprobados, periodo)
    requires CapstoneReady(g, aprobados)
    ensures CapstoneAlone(g, plan + [CapstoneSemestre(g, periodo)])
  {
    var plan' := plan + [CapstoneSemestre(g, periodo)];
    assert !CapstoneBlocked(g) by {
      assert Planned(plan) <= g.index.m.Keys;
      forall req | req in Reqs(g.prereqMap, CAPSTONE_CODE) ensures req in g.index.m || req in g.aprobados {
        assert req in aprobados;
      }
    }
    forall i | 0 <= i < |plan'| && CAPSTONE_CODE in CodeSet(plan'[i].ramos) ensures CapstoneOnly(plan', i) {
      if i < |plan| {
        assert plan'[i] == plan[i];
        SemesterPlanned(plan, i);
      }
    }
  }

  /** The codes of one semester are among the planned codes. */
  lemma SemesterPlanned(plan: seq<Semestre>, i: int)
    requires 0 <= i < |plan|
    ensures CodeSet(plan[i].ramos) <= Planned(plan)
  {
    forall c | c in CodeSet(plan[i].ramos) ensures c in Planned(plan) {
      var r :| r in plan[i].ramos && r.codigo == c;
      SemRamosMember(plan, r);
    }
  }

  /** The invariant's capstone clause, semester by semester. */
  lemma InvCapstoneAlone(g: Graphs, plan: seq<Semestre>)
    requires CAPSTONE_CODE in Planned(plan) ==> CapstoneBlocked(g)
    ensures CapstoneAlone(g, plan)
  {
    forall i | 0 <= i < |plan| && CAPSTONE_CODE in CodeSet(plan[i].ramos) ensures CapstoneBlocked(g) {
      SemesterPlanned(plan, i);
    }
  }

  /** Leaving the loop: every pending course is placed, or the no-progress limit is reached. */
  lemma LoopExit(g: Graphs, start: string, plan: seq<Semestre>, pend: seq<string>, aprobados: set<string>,
                 periodo: string, safety: int)
    requires LoopInv(g, start, plan, pend, aprobados, periodo, safety)
    requires pend == [] || safety >= MAX_SIN_PROGRESO
    ensures Outcome(g, start, plan)
  {
    assert Planned([]) == {};
    WithoutNothing(g.index.keys);
    assert CapstoneReady(g, g.aprobados) ==> CAPSTONE_CODE in pend;
    InvCapstoneAlone(g, plan);
    if g.index.keys == [] {
      assert Planned(plan) <= g.index.m.Keys;
      if plan != [] {
        assert plan[0].ramos[0] in SemRamos(plan) by {
          SemRamosMember(plan, plan[0].ramos[0]);
        }
      }
    }
  }

  /** The capstone branch: with all capstone prerequisites approved, plan it alone and stop. */
  lemma CapstoneFinal(g: Graphs, plan: seq<Semestre>, pend: seq<string>, aprobados: set<string>, periodo: string)
    requires Inv(g, plan, pend, aprobados, periodo)
    requires CapstoneReady(g, aprobados)
    ensures ValidPlan(g, plan + [CapstoneSemestre(g, periodo)])
    ensures forall i | 0 <= i < |plan| + 1 :: Before(Parse((plan + [CapstoneSemestre(g, periodo)])[i].periodo),
                                                   Parse(NextPeriodoForProjection(periodo)))
  {
    var s := CapstoneSemestre(g, periodo);
    var plan' := plan + [s];
    assert !CapstoneBlocked(g) by {
      assert Planned(plan) <= g.index.m.Keys;
      forall req | req in Reqs(g.prereqMap, CAPSTONE_CODE) ensures req in g.index.m || req in g.aprobados {
        assert req in aprobados;
      }
    }
    SemRamosAppend(plan, s);
    CapstoneCodes(g, plan, s);
    CapstonePrereqs(g, plan, aprobados, s);
    PeriodsStep(plan, s);
    CapstoneCap(plan, s);
  }

  /** The capstone semester is the one allowed past the credit cap. */
  lemma CapstoneCap(plan: seq<Semestre>, s: Semestre)
    requires UnderCap(plan)
    requires |s.ramos| == 1 && s.ramos[0].codigo == CAPSTONE_CODE
    ensures forall i | 0 <= i < |plan| + 1 ::
      Creditos((plan + [s])[i].ramos) <= MAX_CREDITOS_POR_SEMESTRE || CapstoneOnly(plan + [s], i)
  {
    var plan' := plan + [s];
    forall i | 0 <= i < |plan'| ensures Creditos(plan'[i].ramos) <= MAX_CREDITOS_POR_SEMESTRE || CapstoneOnly(plan', i) {
      if i < |plan| { assert plan'[i] == plan[i]; }
    }
  }

  lemma CapstoneCodes(g: Graphs, plan: seq<Semestre>, s: Semestre)
    requires KeyedByCode(g.index) && CAPSTONE_CODE in g.index.m
    requires FromIndex(g, plan) && DistinctCodes(SemRamos(plan))
    requires s == CapstoneSemestre(g, s.periodo)
    requires CAPSTONE_CODE !in Planned(plan)
    requires SemRamos(plan + [s]) == SemRamos(plan) + s.ramos
    ensures FromIndex(g, plan + [s]) && DistinctCodes(SemRamos(plan + [s]))
  {
    var plan' := plan + [s];
    assert CodeSet(s.ramos) == {CAPSTONE_CODE};
    DistinctCodesAppend(SemRamos(plan), s.ramos);
    forall i | 0 <= i < |plan'| ensures plan'[i].ramos != [] {
      if i < |plan| { assert plan'[i] == plan[i]; }
    }
  }

  lemma CapstonePrereqs(g: Graphs, plan: seq<Semestre>, aprobados: set<string>, s: Semestre)
    requires KeyedByCode(g.index) && CAPSTONE_CODE in g.index.m
    requires (forall k | k in g.index.m :: k !in g.aprobados) && aprobados == g.aprobados + Planned(plan)
    requires PrereqsEarlier(g, plan) && CapstoneReady(g, aprobados)
    requires s == CapstoneSemestre(g, s.periodo)
    ensures PrereqsEarlier(g, plan + [s])
  {
    var plan' := plan + [s];
    forall i, r, req | 0 <= i < |plan'| && r in plan'[i].ramos && req in Reqs(g.prereqMap, r.codigo) && req in g.index.m
      ensures req in Planned(plan'[..i])
    {
      if i < |plan| {
        assert plan'[..i] == plan[..i] && plan'[i] == plan[i];
      } else {
        assert plan'[..i] == plan;
        assert req in aprobados;
      }
    }
  }

  /** From the planner's outcome to what the caller is told. */
  lemma OutcomeMeans(data: ProjectionResponse, plan: seq<Semestre>)
    requires AllWellFormed(data.semestres)
    requires Outcome(GraphsOf(data), StartPeriodo(data), plan)
    ensures ValidPlan(GraphsOf(data), plan)
    ensures forall i | 0 <= i < |plan| :: !Before(Parse(plan[i].periodo), Parse(StartPeriodo(data)))
    ensures var base := NormalizeHistorial(data);
      forall r | r in SemRamos(plan) :: r.codigo !in base.aprobados && r.codigo !in base.inscritos
    ensures var g := GraphsOf(data);
      CapstoneReady(g, g.aprobados) ==> plan == [Semestre(StartPeriodo(data), [Proyectar(g.index.m[CAPSTONE_CODE])])]
    ensures GraphsOf(data).index.keys == [] ==> plan == []
    ensures forall i | 0 <= i < |plan| && CAPSTONE_CODE in CodeSet(plan[i].ramos) ::
      CapstoneBlocked(GraphsOf(data)) || CapstoneOnly(plan, i)
  {
    var base := NormalizeHistorial(data);
    BuildGraphsIndex(base);
  }

  // ------------------------------------------------------------ level floors

  /**
   * `floors[i]` is the `nivelBase` in force when semester `i` was planned:
   * floors never go down, start at the transcript's base level, bound the
   * courses of their semester from above by `floor + DESPLAZAMIENTO`, and the
   * next floor is at least every level just planned.
   */
  ghost predicate Floors(plan: seq<Semestre>, floors: seq<int>, nb0: int) {
    && |floors| == |plan|
    && (forall i | 0 <= i < |floors| :: nb0 <= floors[i])
    && (forall i, j | 0 <= i < j < |floors| :: floors[i] <= floors[j])
    && (forall i | 0 <= i < |plan| && !CapstoneOnly(plan, i) ::
          forall r | r in plan[i].ramos :: r.nivel <= floors[i] + DESPLAZAMIENTO)
    && (forall i | 0 <= i < |plan| - 1 :: forall r | r in plan[i].ramos :: r.nivel <= floors[i + 1])
  }

  /** `Floors` while looping: the current `nivelBase` is above every floor and every level planned. */
  ghost predicate FloorsInv(plan: seq<Semestre>, floors: seq<int>, nb0: int, nivelBase: int) {
    && |floors| == |plan|
    && nb0 <= nivelBase
    && (forall i | 0 <= i < |floors| :: nb0 <= floors[i] <= nivelBase)
    && (forall i, j | 0 <= i < j < |floors| :: floors[i] <= floors[j])
    && (forall i | 0 <= i < |plan| :: forall r | r in plan[i].ramos :: r.nivel <= floors[i] + DESPLAZAMIENTO)
    && (forall i | 0 <= i < |plan| :: forall r | r in plan[i].ramos :: r.nivel <= nivelBase)
    && (forall i | 0 <= i < |plan| - 1 :: forall r | r in plan[i].ramos :: r.nivel <= floors[i + 1])
  }

  /** Every course the selection takes sits within the level ceiling. */
  lemma TakenLevels(g: Graphs, pr: Priority, pend: seq<string>, aprobados: set<string>, nivelBase: int)
    requires KeyedByCode(g.index)
    ensures forall r | r in Tomados(g.index, g.prereqMap, pr, pend, aprobados, nivelBase) ::
      r.nivel <= nivelBase + DESPLAZAMIENTO
  {
    LevelGuardNeverFires(g.index, g.prereqMap, pr, pend, aprobados, nivelBase);
    PassesFromCandidates(g.index, g.prereqMap, pr, pend, aprobados, nivelBase);
  }

  lemma FloorsProductive(plan: seq<Semestre>, floors: seq<int>, nb0: int, nivelBase: int, t: seq<Ramo>, periodo: string)
    requires FloorsInv(plan, floors, nb0, nivelBase)
    requires forall r | r in t :: r.nivel <= nivelBase + DESPLAZAMIENTO
    ensures FloorsInv(plan + [Semestre(periodo, ProyectarAll(t))], floors + [nivelBase], nb0, NivelMax(t, nivelBase))
  {
    var s := Semestre(periodo, ProyectarAll(t));
    var nb' := NivelMax(t, nivelBase);
    forall r | r in s.ramos ensures r.nivel <= nivelBase + DESPLAZAMIENTO && r.nivel <= nb' {
      var k :| 0 <= k < |s.ramos| && s.ramos[k] == r;
      assert t[k] in t;
    }
    FloorsAppend(plan, floors, nb0, nivelBase, s, nb');
  }

  /** Appending a semester within the ceiling of `nivelBase` and below `nb'` keeps the floors, with `nb'` as the new level. */
  lemma FloorsAppend(plan: seq<Semestre>, floors: seq<int>, nb0: int, nivelBase: int, s: Semestre, nb': int)
    requires FloorsInv(plan, floors, nb0, nivelBase)
    requires nivelBase <= nb'
    requires forall r | r in s.ramos :: r.nivel <= nivelBase + DESPLAZAMIENTO && r.nivel <= nb'
    ensures FloorsInv(plan + [s], floors + [nivelBase], nb0, nb')
  {
    var plan' := plan + [s];
    var floors' := floors + [nivelBase];
    assert forall i | 0 <= i < |plan| :: plan'[i] == plan[i] && floors'[i] == floors[i];
    assert plan'[|plan|] == s && floors'[|plan|] == nivelBase;
  }

  lemma FloorsIdle(plan: seq<Semestre>, floors: seq<int>, nb0: int, nivelBase: int)
    requires FloorsInv(plan, floors, nb0, nivelBase)
    ensures FloorsInv(plan, floors, nb0, if nivelBase > nivelBase + 1 then nivelBase else nivelBase + 1)
  {
  }

  lemma FloorsCapstone(plan: seq<Semestre>, floors: seq<int>, nb0: int, nivelBase: int, s: Semestre)
    requires FloorsInv(plan, floors, nb0, nivelBase)
    requires |s.ramos| == 1 && s.ramos[0].codigo == CAPSTONE_CODE
    ensures Floors(plan + [s], floors + [nivelBase], nb0)
  {
    var plan' := plan + [s];
    var floors' := floors + [nivelBase];
    assert forall i | 0 <= i < |plan| :: plan'[i] == plan[i] && floors'[i] == floors[i];
    assert CapstoneOnly(plan', |plan|);
  }

  lemma FloorsExit(plan: seq<Semestre>, floors: seq<int>, nb0: int, nivelBase: int)
    requires FloorsInv(plan, floors, nb0, nivelBase)
    ensures Floors(plan, floors, nb0)
  {
  }

  // --------------------------------------------------- the loop as a recursion

  /** The variables the planning loop updates. */
  datatype Loop = Loop(
    plan: seq<Semestre>,
    floors: seq<int>,
    pend: seq<string>,
    aprobados: set<string>,
    periodo: string,
    nivelBase: int,
    safety: int)

  /** The selection made from a loop state. */
  function Take(g: Graphs, pr: Priority, st: Loop): seq<Ramo>
    requires KeyedByCode(g.index)
  {
    Tomados(g.index, g.prereqMap, pr, st.pend, st.aprobados, st.nivelBase)
  }

  /** The state after an iteration that takes nothing. */
  function Idle(st: Loop): Loop
    requires WellFormed(st.periodo)
  {
    st.(periodo := NextPeriodoForProjection(st.periodo),
        nivelBase := if st.nivelBase > st.nivelBase + 1 then st.nivelBase else st.nivelBase + 1,
        safety := st.safety + 1)
  }

  /** The state after an iteration that takes `t`. */
  function Commit(st: Loop, t: seq<Ramo>): Loop
    requires WellFormed(st.periodo)
  {
    Loop(st.plan + [Semestre(st.periodo, ProyectarAll(t))], st.floors + [st.nivelBase],
         Without(st.pend, CodeSet(t)), st.aprobados + CodeSet(t),
         NextPeriodoForProjection(st.periodo), NivelMax(t, st.nivelBase), 0)
  }

  /** Every course taken was still pending, so taking any shrinks the pending list. */
  lemma TakenShrinks(g: Graphs, pr: Priority, st: Loop)
    requires KeyedByCode(g.index) && Take(g, pr, st) != []
    ensures |Without(st.pend, CodeSet(Take(g, pr, st)))| < |st.pend|
  {
    var t := Take(g, pr, st);
    LevelGuardNeverFires(g.index, g.prereqMap, pr, st.pend, st.aprobados, st.nivelBase);
    PassesFromCandidates(g.index, g.prereqMap, pr, st.pend, st.aprobados, st.nivelBase);
    assert t[0] in t;
    WithoutShrinks(st.pend, CodeSet(t), t[0].codigo);
  }

  /**
   * The planning loop from state `st` on, as a recursion: the final plan and
   * the level floor of each of its semesters.
   */
  function Run(g: Graphs, pr: Priority, st: Loop): (seq<Semestre>, seq<int>)
    requires KeyedByCode(g.index) && WellFormed(st.periodo)
    decreases |st.pend|, MAX_SIN_PROGRESO - st.safety
  {
    if st.pend == [] || st.safety >= MAX_SIN_PROGRESO then (st.plan, st.floors)
    else if CapstoneReady(g, st.aprobados) then
      (st.plan + [CapstoneSemestre(g, st.periodo)], st.floors + [st.nivelBase])
    else
      var t := Take(g, pr, st);
      if t == [] then Run(g, pr, Idle(st))
      else
        TakenShrinks(g, pr, st);
        Run(g, pr, Commit(st, t))
  }

  /** An iteration that takes nothing leaves the final plan as it is. */
  lemma RunIdle(g: Graphs, pr: Priority, st: Loop)
    requires KeyedByCode(g.index) && WellFormed(st.periodo)
    requires st.pend != [] && st.safety < MAX_SIN_PROGRESO && !CapstoneReady(g, st.aprobados)
    requires Take(g, pr, st) == []
    ensures Run(g, pr, st) == Run(g, pr, Idle(st))
  {
  }

  /** An iteration that takes courses leaves the final plan as it is. */
  lemma RunCommit(g: Graphs, pr: Priority, st: Loop)
    requires KeyedByCode(g.index) && WellFormed(st.periodo)
    requires st.pend != [] && st.safety < MAX_SIN_PROGRESO && !CapstoneReady(g, st.aprobados)
    requires Take(g, pr, st) != []
    ensures Run(g, pr, st) == Run(g, pr, Commit(st, Take(g, pr, st)))
  {
  }

  /** Both loop invariants, on a loop state. */
  ghost predicate LoopState(g: Graphs, start: string, nb0: int, st: Loop) {
    && LoopInv(g, start, st.plan, st.pend, st.aprobados, st.periodo, st.safety)
    && FloorsInv(st.plan, st.floors, nb0, st.nivelBase)
  }

  /** What the finished loop promises of its plan and floors. */
  ghost predicate Finished(g: Graphs, start: string, nb0: int, r: (seq<Semestre>, seq<int>)) {
    Outcome(g, start, r.0) && Floors(r.0, r.1, nb0)
  }

  lemma IdleState(g: Graphs, pr: Priority, start: string, nb0: int, st: Loop)
    requires LoopState(g, start, nb0, st)
    requires st.safety < MAX_SIN_PROGRESO && !CapstoneReady(g, st.aprobados)
    ensures LoopState(g, start, nb0, Idle(st))
  {
    LoopIdle(g, start, st.plan, st.pend, st.aprobados, st.periodo, st.safety);
    FloorsIdle(st.plan, st.floors, nb0, st.nivelBase);
  }

  lemma CommitState(g: Graphs, pr: Priority, start: string, nb0: int, st: Loop)
    requires LoopState(g, start, nb0, st)
    requires !CapstoneReady(g, st.aprobados) && Take(g, pr, st) != []
    ensures LoopState(g, start, nb0, Commit(st, Take(g, pr, st)))
  {
    LoopProductive(g, pr, start, st.plan, st.pend, st.aprobados, st.periodo, st.safety, st.nivelBase);
    TakenLevels(g, pr, st.pend, st.aprobados, st.nivelBase);
    FloorsProductive(st.plan, st.floors, nb0, st.nivelBase, Take(g, pr, st), st.periodo);
  }

  lemma ExitFinished(g: Graphs, start: string, nb0: int, st: Loop)
    requires LoopState(g, start, nb0, st)
    requires st.pend == [] || st.safety >= MAX_SIN_PROGRESO
    ensures Finished(g, start, nb0, (st.plan, st.floors))
  {
    LoopExit(g, start, st.plan, st.pend, st.aprobados, st.periodo, st.safety);
    FloorsExit(st.plan, st.floors, nb0, st.nivelBase);
  }

  lemma CapstoneFinished(g: Graphs, start: string, nb0: int, st: Loop)
    requires LoopState(g, start, nb0, st)
    requires CapstoneReady(g, st.aprobados)
    ensures Finished(g, start, nb0, (st.plan + [CapstoneSemestre(g, st.periodo)], st.floors + [st.nivelBase]))
  {
    LoopCapstone(g, start, st.plan, st.pend, st.aprobados, st.periodo, st.safety);
    FloorsCapstone(st.plan, st.floors, nb0, st.nivelBase, CapstoneSemestre(g, st.periodo));
  }

  /** Whatever state satisfying the invariants the loop starts from, its final plan keeps every promise. */
  lemma {:induction false} RunFinished(g: Graphs, pr: Priority, start: string, nb0: int, st: Loop)
    requires LoopState(g, start, nb0, st)
    ensures Finished(g, start, nb0, Run(g, pr, st))
    decreases |st.pend|, MAX_SIN_PROGRESO - st.safety
  {
    if st.pend == [] || st.safety >= MAX_SIN_PROGRESO {
      ExitFinished(g, start, nb0, st);
    } else if CapstoneReady(g, st.aprobados) {
      CapstoneFinished(g, start, nb0, st);
    } else if Take(g, pr, st) == [] {
      IdleState(g, pr, start, nb0, st);
      RunFinished(g, pr, start, nb0, Idle(st));
    } else {
      CommitState(g, pr, start, nb0, st);
      TakenShrinks(g, pr, st);
      RunFinished(g, pr, start, nb0, Commit(st, Take(g, pr, st)));
    }
  }
}
