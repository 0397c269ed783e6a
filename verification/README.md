# Proyecto-Agil: the semester-projection core in Dafny

Proyecto-Agil helps a student plan the rest of a degree. The backend takes two lists from the university's API:

- the curriculum (*malla*), one entry per course, with credits, level and a comma-separated prerequisite list;
- the transcript (*avance*), one record per course taken, with its period and status.

From these it builds a projection:

- the semesters taken so far;
- the courses still pending, grouped by level;
- a credit summary.

A greedy scheduler then plans the remaining semesters under a 30-credit cap. The frontend shows the history next to the plan. It also checks each course a student drags into a hand-made plan.

This project models that core and proves its properties. The modules follow the program's files:

| module | models |
|---|---|
| `Periods` | period labels "YYYY-T" (term 1, 2, or 15 for winter): comparison, the two ways of advancing a period, the winter test, and reading raw transcript codes such as "202310" |
| `Normalize` | `normalizeHistorial`: per-semester deduplication by status rank, status coercion, the approved/enrolled/failed code sets and the base level; `detectPeriodoActual` |
| `Graphs` | `buildGraphs` (the pending index with failed courses re-injected, the prerequisite map and its inverse) and `canTake` |
| `Unlock` | `computeUnlockScores`, the memoised depth-first count of dependents |
| `Selection` | one iteration of the planning loop: candidates, the three level tiers, the five-key comparator, the greedy fill that skips and continues, and the level guard |
| `Planning` | the planning loop as a recursive reference (`Run`) with the loop invariant and the properties of a finished plan |
| `Scheduler` | `buildAutomaticProjection` after its fetch, as a `while` loop over the loop state |
| `Progress` | `buildProjection` after its fetches: the prerequisite split, the history semesters, the pending-by-level groups, the orderings and `computeProgress` |
| `Validaciones` | the `useValidaciones` hook: `tieneNumeroRomano`, `getSemestreDelAnioPorNivel`, `getNivelBase` and `canEnrollInSemester` with its four checks in order |
| `Historial` | the pure helpers of `HistorialCurricular.tsx`: `formatPeriodo`, `groupCursosBySemester`, `combineHistorialAndProjection`, `sortSemesters` |
| `ProyeccionesUtils` | storage keys, `formatPeriodo`, `getNextSemester` (the clock is a parameter) and `toRoman` |
| `Carreras` | `findMostRecentCareer` |
| `AvanceJoin` | the join and sort of `getAvanceConNombre` |
| `Model`, `Strings`, `Collections`, `Grouping`, `Options` | the shared records and the JavaScript behaviour the code relies on |

The shared JavaScript behaviour covers:

- `split`, `trim`, `substring`, `Number` and `parseInt`, with NaN modelled as `None`;
- insertion-ordered objects and `Map`s;
- `Array.prototype.sort`, modelled as a stable insertion sort, with a proof that it is sorted and a permutation.

Network fetches are parameters. The two lists arrive as inputs; the clock in `getNextSemester` is a year and a month.

Each operation is a pure function or a small method. Its contract or a companion lemma relates it to an independent statement of what it should do. Examples:

- the scheduler's plan respects the credit cap, the level ceiling and the prerequisite order, and periods strictly increase;
- `canEnrollInSemester` accepts exactly when all four conditions hold;
- the projection's semesters are a permutation of the transcript records, grouped by period and sorted;
- a storage key splits back into its parts.

Where the code differs from its own comments or from a natural reading, the model follows the code:

- `nextPeriodoForProjection` maps a winter term to the same year's second term, which is earlier;
- `computeUnlockScores` can score a course with pending dependents 0, and can count a shared dependent twice (see `Unlock.ScoreMissesDependent` and `Unlock.ScoreCountsSharedTwice`);
- the two `formatPeriodo` functions disagree on term 15;
- the capstone semester is not held to the credit cap.

## Model

| member | source | states |
|---|---|---|
| Periods.Label | backend/src/projection/utils/scheduler.ts:18-26 | a "year-term" label built from a pair is well formed and reads back as the same pair |
| Periods.ComparePeriodo | backend/src/projection/utils/scheduler.ts:11-16 | the comparison is negative, positive or zero exactly when the first period is earlier, later or the same (year first, then the term as a number, so 2 < 15) |
| Periods.ComparePeriodoIsOrder | backend/src/projection/utils/scheduler.ts:11-16 | the comparison is antisymmetric and transitive, so it is a consistent sort comparator |
| Periods.PeriodLeqAgrees | backend/src/projection/projection.service.ts:23-28 | the total order used to sort semesters agrees with `sortPeriodoAsc(a, b) <= 0` on well-formed labels |
| Periods.NextPeriodoCyclesYear | backend/src/projection/utils/scheduler.ts:18-26 | three steps walk a whole year: 1 to 2 to 15 to the next year's 1 |
| Periods.NextPeriodoOfLabel | backend/src/projection/utils/scheduler.ts:18-26 | the successor of every term, including any term other than 1, 2 and 15, which goes to the same year's 2 |
| Periods.NextPeriodoAdvances | backend/src/projection/utils/scheduler.ts:18-26 | the next period is strictly later exactly when the term is at most 2 or is the winter term |
| Periods.IsInvierno | backend/src/projection/utils/scheduler.ts:28-31 | true exactly for term 15 of a well-formed label; a label without a dash, whose term reads as 1, is never winter |
| Periods.NextPeriodoForProjection | backend/src/projection/utils/scheduler.ts:33-41 | the result is a regular term: term 2 goes to the next year's 1, every other term to the same year's 2 |
| Periods.NextPeriodoForProjectionAdvances | backend/src/projection/utils/scheduler.ts:33-41 | the projection's next period is strictly later exactly for terms up to 2; from winter it goes back in time |
| Periods.ParsePeriodoLabelReadsBack | backend/src/projection/projection.service.ts:12-21 | a raw code of five or more digits becomes a well-formed label: the first four digits, then the term code, with 10 read as 1 and 20 as 2 |
| Periods.ParsePeriodoLabelExamples | backend/src/projection/projection.service.ts:12-21 | "202310", "202320" and "202315" become "2023-1", "2023-2" and "2023-15" |
| Normalize.Coerce | backend/src/projection/utils/scheduler.ts:87-94 | the three transcript statuses are kept; any other status becomes REPROBADO |
| Normalize.DedupMapKeys | backend/src/projection/utils/scheduler.ts:77-86 | the per-semester map has exactly the codes of the semester's records, each under its own code |
| Normalize.DedupMapSpec | backend/src/projection/utils/scheduler.ts:77-86 | each kept record has the highest status rank among the records of its code, and is the first such record on ties |
| Normalize.NormalizeRamos | backend/src/projection/utils/scheduler.ts:87-94 | every kept record has status APROBADO, REPROBADO or INSCRITO |
| Normalize.NormalizeRamosCodes | backend/src/projection/utils/scheduler.ts:77-94 | a normalised semester has each code of the raw semester exactly once, and no other code |
| Normalize.NormalizeRamosWinnerAt | backend/src/projection/utils/scheduler.ts:77-94 | each normalised record is the winning raw record of its code, with its status coerced |
| Normalize.WinnerUnique | backend/src/projection/utils/scheduler.ts:80-85 | a code has at most one winning record: the highest rank, first on ties |
| Normalize.WinnerKept | backend/src/projection/utils/scheduler.ts:77-94 | every winning raw record survives normalisation, with its status coerced |
| Normalize.NormalizeRamosWinners | backend/src/projection/utils/scheduler.ts:77-94 | a normalised semester has the raw semester's set of codes and holds exactly its coerced winners, no other record |
| Normalize.MaxNivel | backend/src/projection/utils/scheduler.ts:98-108 | the result bounds the level of every approved or enrolled record and is the starting value or one of those levels |
| Normalize.NormalizeSemestres | backend/src/projection/utils/scheduler.ts:72-96 | the semesters keep their count and periods; each has distinct codes and only the three statuses |
| Normalize.NormalizeSemestresSpec | backend/src/projection/utils/scheduler.ts:72-96 | semester `i` of the result keeps the period and the set of codes of raw semester `i` and holds exactly its coerced winning records |
| Normalize.CodesWithWinners | backend/src/projection/utils/scheduler.ts:87-94 | a code carries a status in the normalised semesters exactly when some raw semester's winning record for it has that status once coerced |
| Normalize.CodesWithCover | backend/src/projection/utils/scheduler.ts:87-94 | every code of a normalised semester lands in the approved, enrolled or failed set |
| Normalize.NormalizeHistorial | backend/src/projection/utils/scheduler.ts:64-118 | semesters are deduplicated in place; summary and pending groups pass through; the base level is at least 1, is 1 or one of the approved/enrolled levels, and bounds every such level; each code is in one of the three sets |
| Normalize.NormalizeHistorialSets | backend/src/projection/utils/scheduler.ts:77-94 | a code is approved, enrolled or failed exactly when some semester's surviving record for it has that status once coerced |
| Normalize.LatestInscritoMax | backend/src/projection/utils/scheduler.ts:44-52 | the scan finds a period exactly when some semester has an enrolled record; the period found is not earlier than any such semester |
| Normalize.LatestPeriodMax | backend/src/projection/utils/scheduler.ts:54-57 | the fallback scan's result is not earlier than any semester's period |
| Normalize.DetectPeriodoActual | backend/src/projection/utils/scheduler.ts:43-58 | the latest period with an enrolled record; if there is none, the latest period overall; "1900-1" for no semesters; for non-empty input always one of the input periods |
| Graphs.IndexPendientesKeys | backend/src/projection/utils/scheduler.ts:121-128 | the pending index has exactly the pending codes that are neither approved nor enrolled |
| Graphs.IndexPendientesLast | backend/src/projection/utils/scheduler.ts:121-128 | for a repeated code, the last pending record is the one indexed |
| Graphs.IndexReprobadosOwed | backend/src/projection/utils/scheduler.ts:130-140 | the owed set gains exactly the failed codes that are neither approved nor enrolled |
| Graphs.IndexReprobadosKeys | backend/src/projection/utils/scheduler.ts:130-140 | re-injection adds exactly the owed codes to the index and leaves existing entries unchanged |
| Graphs.IndexReprobadosNew | backend/src/projection/utils/scheduler.ts:130-140 | a re-injected entry is a failed transcript record with its status set to PENDIENTE |
| Graphs.BuildGraphs | backend/src/projection/utils/scheduler.ts:120-164 | the index is keyed by course code and the returned approved set equals the input's |
| Graphs.BuildGraphsIndex | backend/src/projection/utils/scheduler.ts:120-140 | an index key is an eligible pending code or an owed failed code, and no approved or enrolled code is ever indexed |
| Graphs.BuildGraphsValues | backend/src/projection/utils/scheduler.ts:121-140 | pending codes map to their last pending record; the other keys map to failed records re-marked PENDIENTE |
| Graphs.BuildGraphsEdges | backend/src/projection/utils/scheduler.ts:142-153 | the prerequisite map has exactly the index's keys; d is a dependent of p exactly when d is indexed and lists p as a prerequisite |
| Graphs.DependentsReverse | backend/src/projection/utils/scheduler.ts:147-153 | the dependents map is the exact inverse of the prerequisite lists of the indexed courses |
| Graphs.CanTakeSpec | backend/src/projection/utils/scheduler.ts:166-182 | a course can be taken exactly when every prerequisite that counts is approved and is not among this semester's picks; with no index every prerequisite counts, otherwise only indexed ones |
| Graphs.CanTakeIgnoresMissing | backend/src/projection/utils/scheduler.ts:166-182 | prerequisites absent from the index never block a course |
| Unlock.Visit | backend/src/projection/utils/scheduler.ts:189-201 | the visited set only grows and stays within the pending codes; the memo keeps its entries and records the returned count; a positive count needs a pending dependent |
| Unlock.VisitDeps | backend/src/projection/utils/scheduler.ts:189-201 | the loop over dependents never lowers the count and raises it only if some dependent is pending |
| Unlock.ScoresFrom | backend/src/projection/utils/scheduler.ts:184-206 | the outer loop scores every code it visits, and a positive score always belongs to a course with a pending dependent |
| Unlock.UnlockScores | backend/src/projection/utils/scheduler.ts:184-206 | the scores are defined for exactly the pending codes, and a code with no pending dependent scores 0 |
| Unlock.ScoreMissesDependent | backend/src/projection/utils/scheduler.ts:184-206 | a course with a pending dependent can still score 0, because its memo entry is written during another root's walk |
| Unlock.ScoreCountsSharedTwice | backend/src/projection/utils/scheduler.ts:184-206 | a dependent reached along two memoised paths is counted twice: the score is 4 where three courses depend on the root |
| Selection.CmpIsKeyOrder | backend/src/projection/automatic-projection.service.ts:120-135 | `cmp(a, b) <= 0` exactly when the key (owed failed first, higher unlock score, lower level, fewer prerequisites, fewer credits) of a is lexicographically at most b's; the comparator is antisymmetric |
| Selection.CmpPreorder | backend/src/projection/automatic-projection.service.ts:120-135 | the comparator is a total preorder, so sorting by it is well defined |
| Selection.Candidates | backend/src/projection/automatic-projection.service.ts:98-113 | the candidates are exactly the remaining pending courses within the level ceiling whose prerequisites are satisfied |
| Selection.CandidatesDistinct | backend/src/projection/automatic-projection.service.ts:98-113 | no code is a candidate twice |
| Selection.Fill | backend/src/projection/automatic-projection.service.ts:141-160 | the fill keeps a subsequence of its tier and adds exactly the credits of what it keeps; unless it keeps nothing, the running total ends within 30 credits |
| Selection.FillMaximal | backend/src/projection/automatic-projection.service.ts:141-160 | every course the fill skips would have overflowed 30 credits at the end; skipping continues with later courses |
| Selection.FillSkipsAndContinues | backend/src/projection/automatic-projection.service.ts:141-160 | with credits 25, 10 and 5, the 10 is skipped and the 5 is still taken |
| Selection.Group | backend/src/projection/automatic-projection.service.ts:116-139 | a tier holds exactly the candidates of its level offset, sorted by the comparator |
| Selection.Passes | backend/src/projection/automatic-projection.service.ts:137-160 | the three fills together stay within 30 credits |
| Selection.LevelGuardNeverFires | backend/src/projection/automatic-projection.service.ts:162-171 | the level re-filter after the fills removes nothing |
| Selection.PassesFromCandidates | backend/src/projection/automatic-projection.service.ts:98-160 | every course taken is a candidate |
| Selection.PassesOrder | backend/src/projection/automatic-projection.service.ts:116-160 | courses are taken tier by tier (up to the base level, then one above, then two above), and by priority within a tier |
| Selection.PassesDistinct | backend/src/projection/automatic-projection.service.ts:98-160 | no code is taken twice in a semester |
| Selection.PassesMaximal | backend/src/projection/automatic-projection.service.ts:137-160 | every candidate left out would overflow the semester's 30 credits |
| Planning.NivelMax | backend/src/projection/automatic-projection.service.ts:208-211 | the new base level is the old one or the highest committed level, and bounds every committed level |
| Planning.InitialInv | backend/src/projection/automatic-projection.service.ts:55-61 | the loop invariant holds on entry: an empty plan, all indexed codes pending |
| Planning.TakenLevels | backend/src/projection/automatic-projection.service.ts:93-171 | every committed course sits at most two levels above that iteration's base level |
| Planning.TakenShrinks | backend/src/projection/automatic-projection.service.ts:185-189 | a productive iteration removes at least one pending code |
| Planning.ProductiveStep | backend/src/projection/automatic-projection.service.ts:183-211 | committing a semester keeps the invariant: planned copies of pending courses, no code twice, prerequisites in strictly earlier semesters, credits within 30, periods strictly increasing with terms 1 or 2 |
| Planning.LoopIdle | backend/src/projection/automatic-projection.service.ts:174-180 | an empty iteration keeps the loop invariant with the plan and pending set unchanged, the next period and the safety counter one higher |
| Planning.LoopProductive | backend/src/projection/automatic-projection.service.ts:183-211 | a productive iteration keeps the invariant, resets the safety counter and shrinks the pending set |
| Planning.LoopCapstone | backend/src/projection/automatic-projection.service.ts:63-88 | once the capstone's prerequisites are approved, appending it alone gives a finished plan, with the capstone in no earlier semester |
| Planning.LoopExit | backend/src/projection/automatic-projection.service.ts:214-218 | leaving the loop with nothing pending or after 100 empty iterations gives a finished plan |
| Planning.CapstoneLast | backend/src/projection/automatic-projection.service.ts:63-88 | when the capstone check succeeds, no earlier semester holds the capstone, so after the append it sits only in the final, capstone-only semester |
| Planning.InvCapstoneAlone | backend/src/projection/automatic-projection.service.ts:63-88 | while the capstone's prerequisites can all still be approved, no planned semester holds it |
| Planning.CapstoneFinal | backend/src/projection/automatic-projection.service.ts:63-88 | the capstone-only semester keeps the plan valid; it is the one semester allowed over the cap |
| Planning.FloorsProductive | backend/src/projection/automatic-projection.service.ts:203-211 | the base level never decreases, and each committed course respects that iteration's ceiling |
| Planning.FloorsIdle | backend/src/projection/automatic-projection.service.ts:174-180 | an empty iteration raises the base level by one |
| Planning.FloorsCapstone | backend/src/projection/automatic-projection.service.ts:63-88 | appending the capstone keeps the base-level history consistent |
| Planning.RunIdle | backend/src/projection/automatic-projection.service.ts:174-180 | the reference loop takes an empty step exactly when nothing can be taken |
| Planning.RunCommit | backend/src/projection/automatic-projection.service.ts:183-211 | the reference loop commits the selected courses when there are any |
| Planning.RunFinished | backend/src/projection/automatic-projection.service.ts:55-218 | from any reachable loop state, the reference loop ends in a valid plan with a consistent base-level history |
| Planning.OutcomeMeans | backend/src/projection/automatic-projection.service.ts:27-219 | a finished plan is valid, starts no earlier than the first planned period, never plans an approved or enrolled code, is the capstone alone when it is ready at the start, holds the capstone only in a final capstone-only semester unless one of its prerequisites can never be approved, and is empty when nothing is pending |
| Planning.StartPeriodo | backend/src/projection/automatic-projection.service.ts:38-42 | planning starts at a well-formed regular term |
| Scheduler.PlanMeans | backend/src/projection/automatic-projection.service.ts:27-219 | the projection plans only pending courses, once each, within 30 credits (capstone excepted), prerequisites first, in strictly increasing regular terms, under a non-decreasing base-level ceiling; the capstone is planned alone at the start when it is ready then, and otherwise only ever alone in the final semester, unless one of its prerequisites can never be approved |
| Scheduler.BuildAutomaticProjection | backend/src/projection/automatic-projection.service.ts:27-219 | the `while` loop returns the input summary unchanged, no pending groups, and the plan of the reference loop |
| Model.ProyectarAllKeeps | backend/src/projection/automatic-projection.service.ts:191-201 | the planned copies of a semester keep its codes and credit total |
| Progress.Prerequisitos | backend/src/projection/projection.service.ts:63-65 | an absent or empty list gives no prerequisites; every piece is free of commas and trimmed |
| Progress.PrerequisitosRoundTrip | backend/src/projection/projection.service.ts:63-65 | joining trimmed, non-empty, comma-free codes with commas and splitting again gives the codes back |
| Progress.MallaByCode | backend/src/projection/projection.service.ts:46-47 | the code map has exactly the curriculum's codes, each mapped to a curriculum entry with that code |
| Progress.MallaByCodeFinds | backend/src/projection/projection.service.ts:46-47 | with distinct codes, every curriculum entry is found under its code |
| Progress.HistorialPairsFrom | backend/src/projection/projection.service.ts:52-70 | a transcript record contributes to the history exactly when its course is in the curriculum, under its parsed period |
| Progress.PendientePairsFrom | backend/src/projection/projection.service.ts:73-93 | a curriculum course is pending exactly when no transcript record of any status names it |
| Progress.BuildProjectionSemestres | backend/src/projection/projection.service.ts:52-106 | one semester per distinct period, in ascending period order; each holds exactly its records (a permutation), ordered by level then name |
| Progress.BuildProjectionPendientes | backend/src/projection/projection.service.ts:73-113 | one group per level in strictly ascending order; each holds exactly the untaken courses of that level, ordered by name |
| Progress.AprobadosUnicos | backend/src/projection/projection.service.ts:125-130 | the distinct approved codes that are in the curriculum, each once |
| Progress.SumByCodeWhere | backend/src/projection/projection.service.ts:132-136 | summing over the distinct approved codes equals summing the curriculum credits of those codes |
| Progress.ProgressCountsOnce | backend/src/projection/projection.service.ts:121-136 | approved credits count each approved curriculum course once, however many approved records it has |
| Progress.ProgressBounds | backend/src/projection/projection.service.ts:121-144 | 0 <= approved <= total and 0 <= percentage <= 100; the percentage is 0 for a total of 0; approving everything gives 100 |
| Progress.RoundTenthNear | backend/src/projection/projection.service.ts:138-141 | rounding to a tenth moves the value by at most 0.05 |
| Progress.ProgressExample | backend/src/projection/projection.service.ts:121-144 | 5 approved credits of 15 give 33.3 percent |
| Validaciones.TieneNumeroRomanoMatches | frontend/src/app/components/hooks/useValidaciones.ts:23-31 | true exactly when the name has whitespace, then one to three 'I', then whitespace or the end |
| Validaciones.RomanoAlFinal | frontend/src/app/components/hooks/useValidaciones.ts:23-31 | "Cálculo II" carries a numeral |
| Validaciones.RomanoEnMedio | frontend/src/app/components/hooks/useValidaciones.ts:23-31 | "Física III Laboratorio" carries a numeral |
| Validaciones.CuatroIesNoEsRomano | frontend/src/app/components/hooks/useValidaciones.ts:23-31 | four 'I' in a row do not match at that position |
| Validaciones.IVNoEsRomano | frontend/src/app/components/hooks/useValidaciones.ts:23-31 | "IV" does not match at that position |
| Validaciones.SemestreDelAnioPorNivel | frontend/src/app/components/hooks/useValidaciones.ts:33-35 | 1 for odd levels and 2 for even ones; JavaScript's remainder makes every level at or below 0 give 2 |
| Validaciones.IndiceDe | frontend/src/app/components/hooks/useValidaciones.ts:56-58 | the first position holding the period, or -1 exactly when none does |
| Validaciones.CompareNumerico | frontend/src/app/components/hooks/useValidaciones.ts:49-54 | the comparator orders numeric labels by year, then term |
| Validaciones.OrdenadosSorted | frontend/src/app/components/hooks/useValidaciones.ts:49-54 | the projected semesters come out sorted by that order |
| Validaciones.AnterioresMeans | frontend/src/app/components/hooks/useValidaciones.ts:60-65 | courses of strictly earlier projected semesters count as completed; every counted course comes from a semester no later than the target |
| Validaciones.Niveles | frontend/src/app/components/hooks/useValidaciones.ts:67-77 | the curriculum's distinct levels, ascending |
| Validaciones.NivelBaseMeans | frontend/src/app/components/hooks/useValidaciones.ts:67-93 | the base level is 1 or one past a curriculum level; every course below it is completed; and for no level at or above it are all courses up to that level completed |
| Validaciones.NivelBaseGrows | frontend/src/app/components/hooks/useValidaciones.ts:37-94 | completing more courses never lowers the base level |
| Validaciones.NivelBaseAllCompleted | frontend/src/app/components/hooks/useValidaciones.ts:80-91 | with every course completed, the base level is one past the top level |
| Validaciones.PrerequisitosNoVacios | frontend/src/app/components/hooks/useValidaciones.ts:115-118 | the kept pieces are the non-empty trimmed pieces of the list, in list order and with their multiplicities; each is comma-free |
| Validaciones.Buscar | frontend/src/app/components/hooks/useValidaciones.ts:144 | `find`: the first entry with the code, or none exactly when no entry has it |
| Validaciones.NombreDe | frontend/src/app/components/hooks/useValidaciones.ts:144-145 | a missing prerequisite is named by the first curriculum entry with its code when that entry's name is non-empty, and by the code itself otherwise or when no entry has it |
| Validaciones.FaltantesNombres | frontend/src/app/components/hooks/useValidaciones.ts:132-148 | every unmet prerequisite is reported, and only those |
| Validaciones.FaltantesVacio | frontend/src/app/components/hooks/useValidaciones.ts:132-155 | nothing is reported exactly when every prerequisite is approved, enrolled, or planned strictly earlier |
| Validaciones.EncontradoEnProyecciones | frontend/src/app/components/hooks/useValidaciones.ts:136-141 | the inner loop finds a prerequisite exactly when a projected semester before the target's position holds it |
| Validaciones.PrerequisitoCumplido | frontend/src/app/components/hooks/useValidaciones.ts:133-146 | a prerequisite is met exactly when it is approved or enrolled, or planned before the target |
| Validaciones.BuscarFaltantesEn | frontend/src/app/components/hooks/useValidaciones.ts:132-148 | the prerequisite loop computes the reference list of missing prerequisites |
| Validaciones.BuscarFaltantes | frontend/src/app/components/hooks/useValidaciones.ts:119-148 | the same, after sorting the projected semesters and locating the target |
| Validaciones.ValidarEnOrden | frontend/src/app/components/hooks/useValidaciones.ts:96-184 | the first failing check decides: a course not offered in the term fails on that whatever the history and the semester's other courses; missing prerequisites fail with exactly those names whatever the other courses; a level too high fails on dispersion whatever the other courses |
| Validaciones.ValidarValida | frontend/src/app/components/hooks/useValidaciones.ts:96-184 | a course is valid exactly when four things hold: its name carries no numeral or the period's term matches its level's half of the year; each prerequisite to check is approved, enrolled or planned earlier (none for an empty list or ECIN-00663); its level is at most base + 2; and the semester's credits with it are at most 30 |
| Validaciones.ValidarMonotone | frontend/src/app/components/hooks/useValidaciones.ts:96-184 | a course valid for a transcript stays valid when more courses are approved or enrolled |
| Validaciones.CanEnrollInSemester | frontend/src/app/components/hooks/useValidaciones.ts:96-184 | the method's checks compute the reference validation |
| Validaciones.ValidarNivelYCreditos | frontend/src/app/components/hooks/useValidaciones.ts:158-183 | the dispersion and credit checks, reached after the first two pass, compute the reference validation |
| Historial.ColumnsAgree | frontend/src/app/components/HistorialCurricular.tsx:73-143 | for a four-digit year and any term of up to two characters other than "10" and "20", a projected period's column equals the history column of its re-encoded code |
| Historial.GroupCursosBySemesterSpec | frontend/src/app/components/HistorialCurricular.tsx:84-123 | no input gives no groups; otherwise one group per distinct column key, each holding exactly that column's courses in their original order |
| Historial.CombineSpec | frontend/src/app/components/HistorialCurricular.tsx:126-157 | the history groups come first, unchanged; projected courses are appended under their period's column |
| Historial.Rank | frontend/src/app/components/HistorialCurricular.tsx:206-208 | I ranks 1, W 2, II 3 and V 4; every other label ranks 5 |
| Historial.ColumnLeqMeans | frontend/src/app/components/HistorialCurricular.tsx:195-211 | columns compare by numeric year, then by term rank |
| Historial.SortSemestersSpec | frontend/src/app/components/HistorialCurricular.tsx:195-211 | the sorted keys are a permutation ordered by year, then term rank |
| ProyeccionesUtils.KeyWith | frontend/src/app/components/utils/proyecciones.utils.ts:7-20 | a storage key is null exactly when no career is selected |
| ProyeccionesUtils.StorageKeysSplit | frontend/src/app/components/utils/proyecciones.utils.ts:7-20 | each key splits on '_' back into its prefix, the code and the catalogue |
| ProyeccionesUtils.StorageKeysDistinct | frontend/src/app/components/utils/proyecciones.utils.ts:7-20 | the three kinds of key never collide, and equal keys of one kind mean the same career |
| ProyeccionesUtils.FormatPeriodoAgainstTable | frontend/src/app/components/utils/proyecciones.utils.ts:22-26 | terms 1 and 2 format as in the history view; term 15 formats as "II" here and "W" there |
| ProyeccionesUtils.NextSemesterFollows | frontend/src/app/components/utils/proyecciones.utils.ts:28-38 | the editor's next semester is the backend's planning successor of the semester the month falls in (January to June is the first), and is strictly later than it |
| ProyeccionesUtils.ToRomanReadsBack | frontend/src/app/components/utils/proyecciones.utils.ts:40-59 | numerals 1 to 15 read back as their number |
| ProyeccionesUtils.ToRomanDecimal | frontend/src/app/components/utils/proyecciones.utils.ts:40-59 | every other number is written in decimal and reads back as itself |
| ProyeccionesUtils.ToRomanFirst | frontend/src/app/components/utils/proyecciones.utils.ts:40-59 | the output is never empty and starts with a numeral letter exactly for 1 to 15 |
| ProyeccionesUtils.ToRomanInjective | frontend/src/app/components/utils/proyecciones.utils.ts:40-59 | distinct numbers give distinct strings |
| Carreras.Step | frontend/src/services/AvanceService.ts:89-105 | the current career replaces the latest exactly when its year is greater, or the year is equal and its semester greater; NaN comparisons keep the latest |
| Carreras.FindMostRecentCareer | frontend/src/services/AvanceService.ts:84-87 | null exactly for a missing or empty list |
| Carreras.ReduceIn | frontend/src/services/AvanceService.ts:89-107 | the pick is one of the careers |
| Carreras.ReduceIsPick | frontend/src/services/AvanceService.ts:89-105 | the `reduce` ends at the position the key comparison picks |
| Carreras.ReduceFirstLatest | frontend/src/services/AvanceService.ts:89-107 | when every catalogue reads as numbers, the pick is the first career with the latest (year, semester): all earlier careers are strictly older and none later is newer |
| AvanceJoin.MapaMallaUltimo | backend/src/avance/avance.service.ts:36 | a code has a name exactly when some curriculum entry has it, and the last such entry's name wins |
| AvanceJoin.NombreUltimo | backend/src/avance/avance.service.ts:36-40 | the name is that of the last entry for the code, or "Desconocido" when there is none or it is empty |
| AvanceJoin.Joined | backend/src/avance/avance.service.ts:38-44 | one output per transcript record, in order, with course, status, period and nrc copied and the looked-up name |
| AvanceJoin.GetAvanceConNombre | backend/src/avance/avance.service.ts:29-32 | the not-found result comes exactly from a response with an error |
| AvanceJoin.GetAvanceConNombreSorted | backend/src/avance/avance.service.ts:38-48 | otherwise the result holds every joined record exactly once, in non-decreasing period order |
| Strings.Substring | frontend/src/services/AvanceService.ts:90-97 | `substring` is the slice when both ends are in range, is clamped at the end of the string, and is empty when it starts past the end |
| Strings.Trim | backend/src/projection/projection.service.ts:63-65 | a trimmed string is an infix of the input with only whitespace before and after it, and has no whitespace at either end |
| Strings.SplitJoin | frontend/src/app/components/utils/proyecciones.utils.ts:23 | `split` loses nothing: joining the pieces with the separator gives the string back |
| Strings.JoinSplit | frontend/src/app/components/utils/proyecciones.utils.ts:23 | splitting separator-free pieces joined by the separator gives the pieces back |
| Strings.NumberJsRoundTrip | frontend/src/app/components/hooks/useValidaciones.ts:50-51 | `Number` reads back the decimal form of every integer |
| Strings.NumberJsRejectsTrailing | frontend/src/app/components/hooks/useValidaciones.ts:50-51 | `Number` gives NaN on digits followed by a stray character, where `parseInt` reads the digits |
| Strings.ParseIntJsRoundTrip | frontend/src/services/AvanceService.ts:90-97 | `parseInt` reads back the decimal form of every integer |
| Strings.ParseIntJsDigitsThenRest | frontend/src/services/AvanceService.ts:90-97 | `parseInt` reads the leading digits and ignores the rest |
| Strings.StrLeqTotal | backend/src/avance/avance.service.ts:46 | the string order used for `localeCompare` is total |
| Strings.StrLeqTransitive | backend/src/avance/avance.service.ts:46 | and transitive |
| Strings.StrLeqAntisymmetric | backend/src/avance/avance.service.ts:46 | and antisymmetric |
| Collections.Filter | frontend/src/app/components/hooks/useValidaciones.ts:115-118 | `filter` keeps exactly the elements that pass, in their original order, each as many times as it occurs in the input |
| Collections.SortBy | backend/src/projection/projection.service.ts:96-101 | sorting returns a permutation of its input |
| Collections.SortBySorted | backend/src/projection/projection.service.ts:96-101 | with a total-preorder comparator, the result is sorted |
| Grouping.GroupByGroups | backend/src/projection/projection.service.ts:52-70 | grouping into an insertion-ordered map gives one bucket per distinct key, each holding that key's values in order |
| Grouping.FirstIndexSnoc | backend/src/projection/projection.service.ts:52-70 | appending a pair does not move the first position of a key already present, and a new key first appears at the end |
| Grouping.GroupByFirstSeen | backend/src/projection/projection.service.ts:52-70 | the buckets come in the order their keys first appear among the pairs |
| Grouping.GroupSortedThenOrdered | backend/src/projection/projection.service.ts:96-106 | sorting each bucket, then the buckets, gives a permutation of the pairs with both orders holding |
| Grouping.GroupOrderedThenSorted | backend/src/projection/projection.service.ts:108-113 | sorting the buckets, then each bucket, gives the same guarantees |

## Left out

- The HTTP fetches in `buildProjection`, `buildAutomaticProjection`, `getAvance`, `getMalla` and the frontend services. Their results are inputs of the model.
- The React state and rendering of `HistorialCurricular.tsx`, and the `getEstadoClass` style lookup. These are presentation, not logic.
- `generarIdProyeccion`, `cargarProyeccionesGuardadas` and `guardarProyecciones`. They depend on the clock, `Math.random` and `localStorage`.
- Malformed period labels in the backend. `parseInt` of a non-numeric half gives NaN, and the comparisons then go their own way. The backend period operations require a label made of two digit strings joined by one dash.
  - The labels `parsePeriodoLabel` builds from raw codes of five or more digits have that form (`Periods.ParsePeriodoLabelReadsBack`).
  - Shorter or non-digit raw codes are outside the model. A four-digit code such as "2023" becomes "2023-"; `sortPeriodoAsc` reads its empty term as 0 and places it at (2023, 0), but the model sorts every such label first, before all years.
- Floating point:
  - `Progress.ProgressBounds` and `Progress.ProgressExample` compute the percentage on exact reals, rounded half up to a tenth. `toFixed` rounds a binary double, which can differ in the last digit.
  - `creditos || 0` is read as the integer credit value. A missing or NaN credit count is not modelled.
- Strings.NumberJsRoundTrip covers only the integer forms `Number` reads. Hexadecimal, exponent and fractional forms are not modelled, and neither is `parseInt`'s "0x" prefix.
- Strings.StrLeqTotal: `localeCompare` is modelled as code-unit lexicographic order. Locale collation rules (accents, case) are not modelled.
- Object keys are assumed not to look like array indices. JavaScript lists integer-like keys first in `Object.keys` and `for…in`, and course codes and period labels never have that form.
- Collections.SortBy: the sort is a stable insertion sort. It is proved to be a permutation and, for a total-preorder comparator, sorted. Stability itself is not stated, so ties may in principle be ordered differently by another engine's sort.
- AvanceJoin.GetAvanceConNombreSorted: it states a permutation and non-decreasing period order, not the relative order of records with equal periods.
- AvanceJoin.GetAvanceConNombre: any truthy `error` field is modelled as the `ConError` response. A response whose `error` field is present but falsy is modelled as a plain list.
- The reason texts of `canEnrollInSemester` are modelled as a datatype of reasons with their numbers. The Spanish message strings are not modelled.
- Unlock.UnlockScores: no contract says a score counts each reachable dependent exactly once, because the code as written does not do that (see `Unlock.ScoreMissesDependent` and `Unlock.ScoreCountsSharedTwice`). The scores are only a sorting heuristic.
- Planning.CapstoneFinal: the capstone-only semester may exceed 30 credits, because the source does not cap it.
- Carreras.ReduceFirstLatest: it characterises the pick only when every catalogue reads as numbers. With NaN keys the pick is still proved to be a list element (`Carreras.ReduceIn`) and to follow the step rule (`Carreras.ReduceIsPick`).
- Validaciones.NivelBaseMeans: it is stated for curricula whose levels are at least 1, as levels are numbered from 1 in the curriculum data.
- Validaciones.NivelBaseGrows: it requires levels of at least 1, for the same reason.
- Validaciones.ValidarMonotone: it requires levels of at least 1, for the same reason.
- Historial.GroupCursosBySemesterSpec: a non-array `cursos` value is modelled as absent (`None`). A course whose period is not a string is not modelled.
