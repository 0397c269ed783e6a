/**
 * `buildProjection` and `computeProgress` (backend/src/projection/projection.service.ts):
 * merge the curriculum (`malla`) with the transcript (`avance`) into the
 * semesters taken so far, the courses not yet taken grouped by level, and a
 * credit summary. The two lists are parameters: fetching them is left out.
 */
module Progress {
  import opened Options
  import opened Strings
  import opened Collections
  import opened Periods
  import opened Model
  import opened Grouping

  /** A transcript record, reduced to the fields the projection reads. */
  datatype AvanceItem = AvanceItem(period: string, course: string, status: Estado)

  /**
   * `def.prereq ? def.prereq.split(',').map(p => p.trim()) : []`: an absent
   * or empty list gives no prerequisites; otherwise every piece between commas,
   * trimmed.
   */
  function Prerequisitos(prereq: Option<string>): (ps: seq<string>)
    ensures prereq.None? || prereq == Some("") ==> ps == []
    ensures forall k | 0 <= k < |ps| :: ',' !in ps[k]
    ensures forall k | 0 <= k < |ps| :: ps[k] == [] || (!IsJsWhitespace(ps[k][0]) && !IsJsWhitespace(ps[k][|ps[k]| - 1]))
  {
    if prereq.None? || prereq.value == "" then []
    else
      var parts := Split(prereq.value, ',');
      seq(|parts|, k requires 0 <= k < |parts| => Trim(parts[k]))
  }

  /** A code list written with commas reads back as the same list. */
  lemma PrerequisitosRoundTrip(codes: seq<string>)
    requires |codes| >= 1
    requires forall k | 0 <= k < |codes| :: codes[k] != [] && ',' !in codes[k]
    requires forall k | 0 <= k < |codes| :: !IsJsWhitespace(codes[k][0]) && !IsJsWhitespace(codes[k][|codes[k]| - 1])
    ensures Prerequisitos(Some(Join(codes, ','))) == codes
  {
    JoinSplit(codes, ',');
    var joined := Join(codes, ',');
    assert joined != "" by {
      assert |codes| == 1 || joined == codes[0] + [','] + Join(codes[1..], ',');
    }
    forall k | 0 <= k < |codes| ensures Trim(codes[k]) == codes[k] {
      TrimKeepsTrimmed(codes[k]);
    }
  }

  /** The course record built from a curriculum entry with a given status. */
  function Entry(def: MallaItem, estado: Estado): Ramo {
    Ramo(def.codigo, def.asignatura, estado, def.creditos, def.nivel, Prerequisitos(def.prereq))
  }

  function CodesOf(malla: seq<MallaItem>): set<string> {
    set m | m in malla :: m.codigo
  }

  /** No two curriculum entries share a code. */
  predicate DistinctCodigos(malla: seq<MallaItem>) {
    forall i, j | 0 <= i < j < |malla| :: malla[i].codigo != malla[j].codigo
  }

  /**
   * `mallaByCode`: every curriculum code, mapped to the entry that carries it;
   * when a code repeats, the later entry overwrites the earlier one.
   */
  function MallaByCode(malla: seq<MallaItem>): (byCode: map<string, MallaItem>)
    ensures byCode.Keys == CodesOf(malla)
    ensures forall c | c in byCode :: byCode[c].codigo == c && byCode[c] in malla
    decreases |malla|
  {
    if malla == [] then map[]
    else
      var init := malla[..|malla| - 1];
      var last := malla[|malla| - 1];
      var prev := MallaByCode(init);
      assert forall m | m in init :: m in malla;
      assert malla == init + [last];
      prev[last.codigo := last]
  }

  /** With distinct codes, each entry is found under its own code. */
  lemma MallaByCodeFinds(malla: seq<MallaItem>, i: int)
    requires DistinctCodigos(malla) && 0 <= i < |malla|
    ensures malla[i].codigo in MallaByCode(malla) && MallaByCode(malla)[malla[i].codigo] == malla[i]
  {
    var c := malla[i].codigo;
    assert c in CodesOf(malla);
    var d := MallaByCode(malla)[c];
    var j :| 0 <= j < |malla| && malla[j] == d;
  }

  // ------------------------------------------------------------------ grouping

  /**
   * The `(periodo, entry)` pair of every transcript record whose course is in
   * the curriculum, in transcript order; records of other courses are skipped.
   */
  function HistorialPairs(avance: seq<AvanceItem>, byCode: map<string, MallaItem>): seq<(string, Ramo)> {
    if avance == [] then []
    else
      var a := avance[0];
      (if a.course in byCode then [(ParsePeriodoLabel(a.period), Entry(byCode[a.course], a.status))] else [])
        + HistorialPairs(avance[1..], byCode)
  }

  /** The `(nivel, entry)` pair of every curriculum entry with no transcript record, in curriculum order. */
  function PendientePairs(malla: seq<MallaItem>, cursados: set<string>): seq<(int, Ramo)> {
    if malla == [] then []
    else
      var def := malla[0];
      (if def.codigo !in cursados then [(def.nivel, Entry(def, Pendiente))] else [])
        + PendientePairs(malla[1..], cursados)
  }

  lemma {:induction false} HistorialPairsFrom(avance: seq<AvanceItem>, byCode: map<string, MallaItem>)
    ensures forall p | p in HistorialPairs(avance, byCode) :: exists a | a in avance ::
      a.course in byCode && p == (ParsePeriodoLabel(a.period), Entry(byCode[a.course], a.status))
    ensures forall a | a in avance && a.course in byCode ::
      (ParsePeriodoLabel(a.period), Entry(byCode[a.course], a.status)) in HistorialPairs(avance, byCode)
  {
    if avance != [] {
      HistorialPairsFrom(avance[1..], byCode);
      assert forall a | a in avance[1..] :: a in avance;
      assert forall a | a in avance :: a == avance[0] || a in avance[1..];
    }
  }

  lemma {:induction false} PendientePairsFrom(malla: seq<MallaItem>, cursados: set<string>)
    ensures forall p | p in PendientePairs(malla, cursados) :: exists def | def in malla ::
      def.codigo !in cursados && p == (def.nivel, Entry(def, Pendiente))
    ensures forall def | def in malla && def.codigo !in cursados ::
      (def.nivel, Entry(def, Pendiente)) in PendientePairs(malla, cursados)
  {
    if malla != [] {
      PendientePairsFrom(malla[1..], cursados);
      assert forall d | d in malla[1..] :: d in malla;
      assert forall d | d in malla :: d == malla[0] || d in malla[1..];
    }
  }

  // ------------------------------------------------------------------- orders

  /** `a.nivel - b.nivel || a.nombre.localeCompare(b.nombre)` at most 0. */
  predicate RamoLeq(a: Ramo, b: Ramo) {
    a.nivel < b.nivel || (a.nivel == b.nivel && StrLeq(a.nombre, b.nombre))
  }

  /** `a.nombre.localeCompare(b.nombre)` at most 0. */
  predicate NombreLeq(a: Ramo, b: Ramo) {
    StrLeq(a.nombre, b.nombre)
  }

  /** `sortPeriodoAsc(pa, pb)` at most 0. */
  predicate SemestreLeq(a: Bucket<string, Ramo>, b: Bucket<string, Ramo>) {
    PeriodLeq(a.key, b.key)
  }

  /** `na - nb` at most 0. */
  predicate NivelLeq(a: Bucket<int, Ramo>, b: Bucket<int, Ramo>) {
    a.key <= b.key
  }

  lemma RamoLeqPreorder(rs: seq<Ramo>)
    ensures TotalPreorderOn(rs, RamoLeq) && TotalPreorderOn(rs, NombreLeq)
  {
    forall x: string, y: string ensures StrLeq(x, y) || StrLeq(y, x) {
      StrLeqTotal(x, y);
    }
    forall x: string, y: string, z: string | StrLeq(x, y) && StrLeq(y, z) ensures StrLeq(x, z) {
      StrLeqTransitive(x, y, z);
    }
  }

  lemma SemestreLeqPreorder(bs: seq<Bucket<string, Ramo>>)
    ensures TotalPreorderOn(bs, SemestreLeq)
  {
  }

  // --------------------------------------------------------------- the merge

  function ToSemestres(bs: seq<Bucket<string, Ramo>>): (ss: seq<Semestre>)
    ensures |ss| == |bs|
    ensures forall i | 0 <= i < |bs| :: ss[i] == Semestre(bs[i].key, bs[i].items)
  {
    seq(|bs|, i requires 0 <= i < |bs| => Semestre(bs[i].key, bs[i].items))
  }

  /** The period labels of a list of semesters, in order. */
  function Periodos(ss: seq<Semestre>): (ps: seq<string>)
    ensures |ps| == |ss| && forall i | 0 <= i < |ss| :: ps[i] == ss[i].periodo
  {
    seq(|ss|, i requires 0 <= i < |ss| => ss[i].periodo)
  }

  /** The levels of a list of pending groups, in order. */
  function Niveles(gs: seq<PendienteGrupo>): (ns: seq<int>)
    ensures |ns| == |gs| && forall i | 0 <= i < |gs| :: ns[i] == gs[i].nivel
  {
    seq(|gs|, i requires 0 <= i < |gs| => gs[i].nivel)
  }

  function ToGrupos(bs: seq<Bucket<int, Ramo>>): (gs: seq<PendienteGrupo>)
    ensures |gs| == |bs|
    ensures forall i | 0 <= i < |bs| :: gs[i] == PendienteGrupo(bs[i].key, bs[i].items)
  {
    seq(|bs|, i requires 0 <= i < |bs| => PendienteGrupo(bs[i].key, bs[i].items))
  }

  /** The codes the transcript mentions, inside the curriculum or not (`cursadosSet`). */
  function Cursados(avance: seq<AvanceItem>): set<string> {
    set a | a in avance :: a.course
  }

  /** The semester buckets: the transcript grouped by period label, each sorted by level then name, periods ascending. */
  function SemestreBuckets(malla: seq<MallaItem>, avance: seq<AvanceItem>): seq<Bucket<string, Ramo>> {
    var hist := GroupBy(HistorialPairs(avance, MallaByCode(malla)));
    SortBy(SortItems(hist, RamoLeq), SemestreLeq)
  }

  /** The pending buckets: untaken courses grouped by level, levels ascending, each sorted by name. */
  function PendienteBuckets(malla: seq<MallaItem>, avance: seq<AvanceItem>): seq<Bucket<int, Ramo>> {
    var pend := GroupBy(PendientePairs(malla, Cursados(avance)));
    SortItems(SortBy(pend, NivelLeq), NombreLeq)
  }

  /** The `semestres` of the response. */
  function SemestresOf(malla: seq<MallaItem>, avance: seq<AvanceItem>): seq<Semestre> {
    ToSemestres(SemestreBuckets(malla, avance))
  }

  /** The `pendientes` of the response. */
  function PendientesOf(malla: seq<MallaItem>, avance: seq<AvanceItem>): seq<PendienteGrupo> {
    ToGrupos(PendienteBuckets(malla, avance))
  }

  /** `buildProjection` once the curriculum and the transcript are at hand. */
  function BuildProjection(malla: seq<MallaItem>, avance: seq<AvanceItem>): ProjectionResponse {
    ProjectionResponse(ComputeProgress(malla, avance), SemestresOf(malla, avance), PendientesOf(malla, avance))
  }

  lemma SemestreBucketsSpec(malla: seq<MallaItem>, avance: seq<AvanceItem>)
    ensures var bs := SemestreBuckets(malla, avance);
      && GroupsPermuted(bs, HistorialPairs(avance, MallaByCode(malla)))
      && SortedBy(bs, SemestreLeq)
      && forall i | 0 <= i < |bs| :: SortedBy(bs[i].items, RamoLeq)
  {
    forall xs: seq<Ramo> ensures TotalPreorderOn(xs, RamoLeq) {
      RamoLeqPreorder(xs);
    }
    forall bs: seq<Bucket<string, Ramo>> ensures TotalPreorderOn(bs, SemestreLeq) {
      SemestreLeqPreorder(bs);
    }
    GroupSortedThenOrdered(HistorialPairs(avance, MallaByCode(malla)), RamoLeq, SemestreLeq);
  }

  lemma PendienteBucketsSpec(malla: seq<MallaItem>, avance: seq<AvanceItem>)
    ensures var bs := PendienteBuckets(malla, avance);
      && GroupsPermuted(bs, PendientePairs(malla, Cursados(avance)))
      && (forall i, j | 0 <= i < j < |bs| :: bs[i].key < bs[j].key)
      && forall i | 0 <= i < |bs| :: SortedBy(bs[i].items, NombreLeq)
  {
    forall xs: seq<Ramo> ensures TotalPreorderOn(xs, NombreLeq) {
      RamoLeqPreorder(xs);
    }
    var ps := PendientePairs(malla, Cursados(avance));
    GroupOrderedThenSorted(ps, NombreLeq, NivelLeq);
    var sorted := SortBy(GroupBy(ps), NivelLeq);
    var bs := PendienteBuckets(malla, avance);
    forall i, j | 0 <= i < j < |bs| ensures bs[i].key < bs[j].key {
      assert Keys(bs)[i] == Keys(sorted)[i] && Keys(bs)[j] == Keys(sorted)[j];
      assert NivelLeq(sorted[i], sorted[j]);
      assert Keys(bs)[i] != Keys(bs)[j];
    }
  }

  /** The period labels of the transcript records whose course is in the curriculum. */
  ghost function Labels(avance: seq<AvanceItem>, byCode: map<string, MallaItem>): set<string> {
    set a | a in avance && a.course in byCode :: ParsePeriodoLabel(a.period)
  }

  /** A grouping of the transcript pairs has a bucket for each in-curriculum record's period and no other. */
  lemma HistorialKeys(avance: seq<AvanceItem>, byCode: map<string, MallaItem>, bs: seq<Bucket<string, Ramo>>)
    requires GroupsPermuted(bs, HistorialPairs(avance, byCode))
    ensures forall a | a in avance && a.course in byCode :: ParsePeriodoLabel(a.period) in Keys(bs)
    ensures forall i | 0 <= i < |bs| :: bs[i].key in Labels(avance, byCode)
  {
    var ps := HistorialPairs(avance, byCode);
    HistorialPairsFrom(avance, byCode);
    forall i | 0 <= i < |bs| ensures bs[i].key in Labels(avance, byCode) {
      GroupsKeyFrom(bs, ps, i);
      var p :| p in ps && p.0 == bs[i].key;
      var a :| a in avance && a.course in byCode && p == (ParsePeriodoLabel(a.period), Entry(byCode[a.course], a.status));
    }
  }

  /** The pending entries of the untaken curriculum courses of level `nivel`. */
  ghost function Untaken(malla: seq<MallaItem>, cursados: set<string>, nivel: int): set<Ramo> {
    set def | def in malla && def.codigo !in cursados && def.nivel == nivel :: Entry(def, Pendiente)
  }

  /** A grouping of the pending pairs holds every untaken course in its level's bucket, and nothing else. */
  lemma PendienteKeys(malla: seq<MallaItem>, cursados: set<string>, bs: seq<Bucket<int, Ramo>>)
    requires GroupsPermuted(bs, PendientePairs(malla, cursados))
    ensures forall def | def in malla && def.codigo !in cursados :: def.nivel in Keys(bs)
    ensures forall def, i | def in malla && def.codigo !in cursados && 0 <= i < |bs| && bs[i].key == def.nivel ::
      Entry(def, Pendiente) in bs[i].items
    ensures forall i, r | 0 <= i < |bs| && r in bs[i].items :: r in Untaken(malla, cursados, bs[i].key)
  {
    var ps := PendientePairs(malla, cursados);
    PendientePairsFrom(malla, cursados);
    forall def, i | def in malla && def.codigo !in cursados && 0 <= i < |bs| && bs[i].key == def.nivel
      ensures Entry(def, Pendiente) in bs[i].items
    {
      var p := (def.nivel, Entry(def, Pendiente));
      GroupsCover(bs, ps, p);
      var k :| 0 <= k < |bs| && bs[k].key == p.0 && p.1 in bs[k].items;
      assert k == i by {
        assert Keys(bs)[k] == Keys(bs)[i];
      }
    }
    forall i, r | 0 <= i < |bs| && r in bs[i].items ensures r in Untaken(malla, cursados, bs[i].key) {
      GroupsFrom(bs, ps, i, r);
      var def :| def in malla && def.codigo !in cursados && (bs[i].key, r) == (def.nivel, Entry(def, Pendiente));
    }
  }

  /**
   * The semesters: one per period label that some in-curriculum record
   * carries, labels distinct and in ascending period order; each holds exactly
   * the entries of that period's records, sorted by level and then name.
   */
  lemma BuildProjectionSemestres(malla: seq<MallaItem>, avance: seq<AvanceItem>)
    ensures var ss := SemestresOf(malla, avance);
      var byCode := MallaByCode(malla);
      var ps := HistorialPairs(avance, byCode);
      && (forall i, j | 0 <= i < j < |ss| :: ss[i].periodo != ss[j].periodo)
      && (forall i, j | 0 <= i < j < |ss| :: PeriodLeq(ss[i].periodo, ss[j].periodo))
      && (forall a | a in avance && a.course in byCode :: ParsePeriodoLabel(a.period) in Periodos(ss))
      && (forall i | 0 <= i < |ss| :: ss[i].periodo in Labels(avance, byCode))
      && (forall i | 0 <= i < |ss| :: multiset(ss[i].ramos) == multiset(Matching(ps, ss[i].periodo)))
      && (forall i | 0 <= i < |ss| :: SortedBy(ss[i].ramos, RamoLeq))
  {
    var bs := SemestreBuckets(malla, avance);
    var ss := ToSemestres(bs);
    SemestreBucketsSpec(malla, avance);
    HistorialKeys(avance, MallaByCode(malla), bs);
    assert Periodos(ss) == Keys(bs);
    forall i, j | 0 <= i < j < |ss| ensures ss[i].periodo != ss[j].periodo {
      assert Keys(bs)[i] == ss[i].periodo && Keys(bs)[j] == ss[j].periodo;
    }
  }

  /**
   * The pending groups: one per level of an untaken curriculum course, levels
   * strictly ascending; each holds exactly the untaken entries of its level,
   * as PENDIENTE and sorted by name.
   */
  lemma BuildProjectionPendientes(malla: seq<MallaItem>, avance: seq<AvanceItem>)
    ensures var gs := PendientesOf(malla, avance);
      var ps := PendientePairs(malla, Cursados(avance));
      && (forall i, j | 0 <= i < j < |gs| :: gs[i].nivel < gs[j].nivel)
      && (forall def | def in malla && def.codigo !in Cursados(avance) :: def.nivel in Niveles(gs))
      && (forall def, i | def in malla && def.codigo !in Cursados(avance) && 0 <= i < |gs| && gs[i].nivel == def.nivel ::
            Entry(def, Pendiente) in gs[i].ramos)
      && (forall i, r | 0 <= i < |gs| && r in gs[i].ramos :: r in Untaken(malla, Cursados(avance), gs[i].nivel))
      && (forall i | 0 <= i < |gs| :: multiset(gs[i].ramos) == multiset(Matching(ps, gs[i].nivel)))
      && (forall i | 0 <= i < |gs| :: SortedBy(gs[i].ramos, NombreLeq))
  {
    var bs := PendienteBuckets(malla, avance);
    var gs := ToGrupos(bs);
    PendienteBucketsSpec(malla, avance);
    PendienteKeys(malla, Cursados(avance), bs);
    assert Niveles(gs) == Keys(bs);
  }

  // ----------------------------------------------------------------- progress

  /** An approval record of a curriculum course. */
  predicate ApprovedIn(a: AvanceItem, byCode: map<string, MallaItem>) {
    a.status == Aprobado && a.course in byCode
  }

  /** `aprobadosUnicos`: the approved curriculum codes, each once, in the order first approved. */
  function AprobadosUnicos(avance: seq<AvanceItem>, byCode: map<string, MallaItem>): (cs: seq<string>)
    ensures Distinct(cs)
    ensures forall c | c in cs :: c in byCode
    ensures forall c :: c in cs <==> exists a | a in avance :: ApprovedIn(a, byCode) && a.course == c
    decreases |avance|
  {
    if avance == [] then []
    else
      var init := avance[..|avance| - 1];
      var a := avance[|avance| - 1];
      var prev := AprobadosUnicos(init, byCode);
      assert avance == init + [a];
      assert forall x | x in init :: x in avance;
      if ApprovedIn(a, byCode) && a.course !in prev then prev + [a.course] else prev
  }

  /** The credits of a list of curriculum codes, each looked up in the curriculum. */
  function SumByCode(cs: seq<string>, byCode: map<string, MallaItem>): int
    requires forall c | c in cs :: c in byCode
  {
    if cs == [] then 0 else byCode[cs[0]].creditos + SumByCode(cs[1..], byCode)
  }

  /** `Number(x.toFixed(1))`: the nearest multiple of a tenth, ties going up. */
  function RoundTenth(x: real): real {
    ((x * 10.0 + 0.5).Floor as real) / 10.0
  }

  /** Rounding moves a value by at most half a tenth. */
  lemma RoundTenthNear(x: real)
    ensures x - 0.05 < RoundTenth(x) <= x + 0.05
  {
  }

  /** Rounding keeps a value within 0..100. */
  lemma RoundTenthWithin(x: real)
    requires 0.0 <= x <= 100.0
    ensures 0.0 <= RoundTenth(x) <= 100.0
  {
    var n := (x * 10.0 + 0.5).Floor;
    assert n as real <= x * 10.0 + 0.5 < n as real + 1.0;
  }

  /** A part of a positive whole is between 0 and 100 percent of it, and all of it is 100 percent. */
  lemma RatioPercent(a: real, t: real)
    requires 0.0 <= a <= t && t > 0.0
    ensures 0.0 <= a / t * 100.0 <= 100.0
    ensures a == t ==> a / t * 100.0 == 100.0
  {
    assert a / t <= 1.0 by {
      assert a / t * t == a;
    }
  }

  /** The percentage of approved credits, rounded to a tenth; 0 when the curriculum has no credits. */
  function Porcentaje(aprobados: int, totales: int): real {
    if totales > 0 then RoundTenth(aprobados as real / totales as real * 100.0) else 0.0
  }

  /** `computeProgress(malla, avance)`. */
  function ComputeProgress(malla: seq<MallaItem>, avance: seq<AvanceItem>): Resumen {
    var byCode := MallaByCode(malla);
    var totales := SumCreditos(malla);
    var aprobados := SumByCode(AprobadosUnicos(avance, byCode), byCode);
    Resumen(totales, aprobados, Porcentaje(aprobados, totales))
  }

  /** The credits of the curriculum entries whose code is in `s`. */
  function SumWhere(malla: seq<MallaItem>, s: set<string>): int {
    if malla == [] then 0 else (if malla[0].codigo in s then malla[0].creditos else 0) + SumWhere(malla[1..], s)
  }

  lemma {:induction false} SumWhereAdd(malla: seq<MallaItem>, s: set<string>, c: string)
    requires c !in s
    ensures SumWhere(malla, s + {c}) == SumWhere(malla, s) + SumWhere(malla, {c})
  {
    if malla != [] {
      SumWhereAdd(malla[1..], s, c);
    }
  }

  /** With distinct codes, the credits under one code are those of its single entry. */
  lemma {:induction false} SumWhereSingle(malla: seq<MallaItem>, i: int)
    requires DistinctCodigos(malla) && 0 <= i < |malla|
    ensures SumWhere(malla, {malla[i].codigo}) == malla[i].creditos
  {
    if i == 0 {
      SumWhereNone(malla[1..], malla[0].codigo);
    } else {
      assert DistinctCodigos(malla[1..]) by {
        forall a, b | 0 <= a < b < |malla[1..]| ensures malla[1..][a].codigo != malla[1..][b].codigo {
          assert malla[1..][a] == malla[a + 1] && malla[1..][b] == malla[b + 1];
        }
      }
      SumWhereSingle(malla[1..], i - 1);
      assert malla[1..][i - 1] == malla[i];
    }
  }

  lemma {:induction false} SumWhereNone(malla: seq<MallaItem>, c: string)
    requires forall m | m in malla :: m.codigo != c
    ensures SumWhere(malla, {c}) == 0
  {
    if malla != [] {
      assert malla[0] in malla;
      assert forall m | m in malla[1..] :: m in malla;
      SumWhereNone(malla[1..], c);
    }
  }

  /** A list of distinct codes is its head followed by distinct codes that leave the head out. */
  lemma DistinctHead(cs: seq<string>)
    requires Distinct(cs) && cs != []
    ensures Distinct(cs[1..]) && cs[0] !in cs[1..]
    ensures (set c | c in cs) == (set c | c in cs[1..]) + {cs[0]}
  {
    var rest := cs[1..];
    forall a, b | 0 <= a < b < |rest| ensures rest[a] != rest[b] {
      assert rest[a] == cs[a + 1] && rest[b] == cs[b + 1];
    }
    forall k | 0 <= k < |rest| ensures rest[k] != cs[0] {
      assert rest[k] == cs[k + 1];
    }
    assert forall c :: c in cs <==> c == cs[0] || c in rest;
  }

  /** Summing distinct codes through the lookup map is summing the entries whose code is among them. */
  lemma {:induction false} SumByCodeWhere(cs: seq<string>, malla: seq<MallaItem>)
    requires DistinctCodigos(malla) && Distinct(cs)
    requires forall c | c in cs :: c in MallaByCode(malla)
    ensures SumByCode(cs, MallaByCode(malla)) == SumWhere(malla, set c | c in cs)
  {
    if cs == [] {
      assert (set c | c in cs) == {};
      SumWhereEmpty(malla);
    } else {
      var rest := cs[1..];
      DistinctHead(cs);
      assert forall c | c in rest :: c in cs;
      SumByCodeWhere(rest, malla);
      SumWhereAdd(malla, (set c | c in rest), cs[0]);
      assert SumWhere(malla, {cs[0]}) == MallaByCode(malla)[cs[0]].creditos by {
        var d := MallaByCode(malla)[cs[0]];
        var i :| 0 <= i < |malla| && malla[i] == d;
        SumWhereSingle(malla, i);
      }
    }
  }

  lemma {:induction false} SumWhereEmpty(malla: seq<MallaItem>)
    ensures SumWhere(malla, {}) == 0
  {
    if malla != [] {
      SumWhereEmpty(malla[1..]);
    }
  }

  lemma {:induction false} SumWhereBounds(malla: seq<MallaItem>, s: set<string>)
    requires forall m | m in malla :: m.creditos >= 0
    ensures 0 <= SumWhere(malla, s) <= SumCreditos(malla)
    ensures (forall m | m in malla :: m.codigo in s) ==> SumWhere(malla, s) == SumCreditos(malla)
  {
    if malla != [] {
      assert malla[0] in malla;
      assert forall m | m in malla[1..] :: m in malla;
      SumWhereBounds(malla[1..], s);
    }
  }

  /**
   * Each approved curriculum course counts once, however many approval records
   * it has: with distinct codes, the approved credits are the credits of the
   * entries having at least one approval record.
   */
  lemma ProgressCountsOnce(malla: seq<MallaItem>, avance: seq<AvanceItem>)
    requires DistinctCodigos(malla)
    ensures ComputeProgress(malla, avance).creditosAprobados
      == SumWhere(malla, set a | a in avance && a.status == Aprobado :: a.course)
  {
    var byCode := MallaByCode(malla);
    var cs := AprobadosUnicos(avance, byCode);
    SumByCodeWhere(cs, malla);
    var approved := set a | a in avance && a.status == Aprobado :: a.course;
    assert SumWhere(malla, set c | c in cs) == SumWhere(malla, approved) by {
      forall m | m in malla ensures m.codigo in (set c | c in cs) <==> m.codigo in approved {
        assert m.codigo in byCode.Keys;
        if m.codigo in approved {
          var a :| a in avance && a.status == Aprobado && a.course == m.codigo;
          assert ApprovedIn(a, byCode);
        }
      }
      SumWhereAgree(malla, (set c | c in cs), approved);
    }
  }

  /** Two sets that agree on the curriculum codes select the same credits. */
  lemma {:induction false} SumWhereAgree(malla: seq<MallaItem>, s: set<string>, t: set<string>)
    requires forall m | m in malla :: (m.codigo in s <==> m.codigo in t)
    ensures SumWhere(malla, s) == SumWhere(malla, t)
  {
    if malla != [] {
      assert malla[0] in malla;
      assert forall m | m in malla[1..] :: m in malla;
      SumWhereAgree(malla[1..], s, t);
    }
  }

  /**
   * With distinct codes and non-negative credits, the approved credits lie
   * between 0 and the total and the percentage between 0 and 100; once every
   * course has an approval record, all credits are approved and a positive
   * total gives exactly 100.
   */
  lemma ProgressBounds(malla: seq<MallaItem>, avance: seq<AvanceItem>)
    requires DistinctCodigos(malla)
    requires forall m | m in malla :: m.creditos >= 0
    ensures var r := ComputeProgress(malla, avance);
      && 0 <= r.creditosAprobados <= r.creditosTotales
      && 0.0 <= r.porcentaje <= 100.0
      && (r.creditosTotales == 0 ==> r.porcentaje == 0.0)
    ensures (forall m | m in malla :: exists a | a in avance :: a.status == Aprobado && a.course == m.codigo) ==>
      var r := ComputeProgress(malla, avance);
      r.creditosAprobados == r.creditosTotales && (r.creditosTotales > 0 ==> r.porcentaje == 100.0)
  {
    var approved := set a | a in avance && a.status == Aprobado :: a.course;
    ProgressCountsOnce(malla, avance);
    SumWhereBounds(malla, approved);
    var r := ComputeProgress(malla, avance);
    if r.creditosTotales > 0 {
      var x := r.creditosAprobados as real / r.creditosTotales as real * 100.0;
      RatioPercent(r.creditosAprobados as real, r.creditosTotales as real);
      RoundTenthWithin(x);
      if r.creditosAprobados == r.creditosTotales {
        assert RoundTenth(100.0) == 100.0;
      }
    }
    if forall m | m in malla :: exists a | a in avance :: a.status == Aprobado && a.course == m.codigo {
      forall m | m in malla ensures m.codigo in approved {
        var a :| a in avance && a.status == Aprobado && a.course == m.codigo;
      }
    }
  }

  /** The curriculum and the single approval of the progress example. */
  const ExMalla: seq<MallaItem> := [
    MallaItem("ECIN-00123", "Programación", 5, 1, None),
    MallaItem("ECIN-00456", "Base de Datos", 5, 2, Some("ECIN-00123")),
    MallaItem("ECIN-00789", "Algoritmos", 5, 1, None)]
  const ExAvance: seq<AvanceItem> := [AvanceItem("202310", "ECIN-00123", Aprobado)]

  /** 5 of 15 credits approved is 33.3 percent. */
  lemma ProgressExample()
    ensures ComputeProgress(ExMalla, ExAvance) == Resumen(15, 5, 33.3)
  {
    var byCode := MallaByCode(ExMalla);
    ExampleByCode();
    ExampleAprobados();
    ExamplePorcentaje();
    assert SumByCode(["ECIN-00123"], byCode) == 5;
  }

  /** The first course of the example is found under its code; the curriculum totals 15 credits. */
  lemma ExampleByCode()
    ensures "ECIN-00123" in MallaByCode(ExMalla) && MallaByCode(ExMalla)["ECIN-00123"] == ExMalla[0]
    ensures SumCreditos(ExMalla) == 15
  {
    assert ExMalla[0] in ExMalla;
    assert DistinctCodigos(ExMalla);
    MallaByCodeFinds(ExMalla, 0);
    assert SumCreditos(ExMalla[2..]) == 5;
    assert SumCreditos(ExMalla[1..]) == 10;
  }

  /** The single approval of the example counts once. */
  lemma ExampleAprobados()
    ensures "ECIN-00123" in MallaByCode(ExMalla)
    ensures AprobadosUnicos(ExAvance, MallaByCode(ExMalla)) == ["ECIN-00123"]
  {
    ExampleByCode();
    assert ExAvance[..0] == [];
  }

  /** 5 of 15 rounds to 33.3 percent. */
  lemma ExamplePorcentaje()
    ensures Porcentaje(5, 15) == 33.3
  {
    var x := 5.0 / 15.0 * 100.0;
    assert (x * 10.0 + 0.5).Floor == 333;
  }
}
