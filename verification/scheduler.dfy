/**
 * `buildAutomaticProjection` (backend/src/projection/automatic-projection.service.ts):
 * normalise the transcript, find the first planned period, build the graphs
 * and unlock scores, then plan semester after semester until every pending
 * course is placed, the capstone becomes takeable, or 100 consecutive
 * semesters pass without progress.
 */
module Scheduler {
  import opened Collections
  import opened Periods
  import opened Model
  import opened Normalize
  import opened Graphs
  import opened Unlock
  import opened Selection
  import opened Planning

  /** The selection priority: owed failed courses and unlock scores. */
  function PriorityOf(g: Graphs): Priority
    requires KeyedByCode(g.index)
  {
    Priority(g.reprobadosPendientes, UnlockScores(g.index, g.dependents))
  }

  /** The loop state before the first iteration. */
  function Initial(data: ProjectionResponse): Loop
    requires AllWellFormed(data.semestres)
  {
    var g := GraphsOf(data);
    Loop([], [], g.index.keys, g.aprobados, StartPeriodo(data), NormalizeHistorial(data).nivelBase, 0)
  }

  /** The plan, and the floor of each of its semesters, that the planning loop reaches. */
  function Plan(data: ProjectionResponse): (seq<Semestre>, seq<int>)
    requires AllWellFormed(data.semestres)
  {
    Run(GraphsOf(data), PriorityOf(GraphsOf(data)), Initial(data))
  }

  /**
   * What the plan means. It places each pending course at most once, as its
   * planned copy, after the pending prerequisites it needs, in increasing
   * regular semesters from the one after the current period, under the credit
   * cap except for a final capstone-only semester; a capstone that is takeable
   * from the start is planned alone, and one whose prerequisites can all still
   * be approved only ever appears alone in the final semester; every
   * semester's levels stay within two of a base level that starts at the
   * transcript's and never goes down.
   */
  lemma PlanMeans(data: ProjectionResponse)
    requires AllWellFormed(data.semestres)
    ensures ValidPlan(GraphsOf(data), Plan(data).0)
    ensures forall i | 0 <= i < |Plan(data).0| ::
      !Before(Parse(Plan(data).0[i].periodo), Parse(StartPeriodo(data)))
    ensures var base := NormalizeHistorial(data);
      forall r | r in SemRamos(Plan(data).0) :: r.codigo !in base.aprobados && r.codigo !in base.inscritos
    ensures var g := GraphsOf(data);
      CapstoneReady(g, g.aprobados) ==>
        Plan(data).0 == [Semestre(StartPeriodo(data), [Proyectar(g.index.m[CAPSTONE_CODE])])]
    ensures GraphsOf(data).index.keys == [] ==> Plan(data).0 == []
    ensures forall i | 0 <= i < |Plan(data).0| && CAPSTONE_CODE in CodeSet(Plan(data).0[i].ramos) ::
      CapstoneBlocked(GraphsOf(data)) || CapstoneOnly(Plan(data).0, i)
    ensures Floors(Plan(data).0, Plan(data).1, NormalizeHistorial(data).nivelBase)
  {
    var g := GraphsOf(data);
    var st := Initial(data);
    LoopInit(NormalizeHistorial(data), g, st.periodo);
    assert LoopState(g, st.periodo, st.nivelBase, st);
    RunFinished(g, PriorityOf(g), st.periodo, st.nivelBase, st);
    OutcomeMeans(data, Plan(data).0);
  }

  /**
   * `buildAutomaticProjection` on the data `buildProjection` returned: the
   * loop computes `Plan`, so `PlanMeans` says what the result holds.
   */
  method BuildAutomaticProjection(data: ProjectionResponse) returns (res: ProjectionResponse)
    requires AllWellFormed(data.semestres)
    ensures res == ProjectionResponse(data.resumen, Plan(data).0, [])
  {
    var g := GraphsOf(data);
    var pr := PriorityOf(g);
    var st := Initial(data);
    while st.pend != [] && st.safety < MAX_SIN_PROGRESO
      invariant WellFormed(st.periodo)
      invariant Run(g, pr, st) == Plan(data)
      decreases |st.pend|, MAX_SIN_PROGRESO - st.safety
    {
      if CapstoneReady(g, st.aprobados) {
        return ProjectionResponse(data.resumen, st.plan + [CapstoneSemestre(g, st.periodo)], []);
      }
      var tomados := Take(g, pr, st);
      if tomados == [] {
        RunIdle(g, pr, st);
        st := Idle(st);
      } else {
        TakenShrinks(g, pr, st);
        RunCommit(g, pr, st);
        st := Commit(st, tomados);
      }
    }
    res := ProjectionResponse(data.resumen, st.plan, []);
  }
}
