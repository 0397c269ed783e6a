/**
 * The prerequisite graph of the courses still to plan (`buildGraphs` and
 * `canTake` in backend/src/projection/utils/scheduler.ts). The pending index
 * holds every curriculum course with no APROBADO / INSCRITO record, plus
 * every failed course not yet passed nor retaken.
 */
module Graphs {
  import opened Options
  import opened Collections
  import opened Model
  import opened Normalize

  /** `prereqMap[codigo] || []`. */
  function Reqs(prereqMap: map<string, seq<string>>, codigo: string): seq<string> {
    if codigo in prereqMap then prereqMap[codigo] else []
  }

  datatype Graphs = Graphs(
    prereqMap: map<string, seq<string>>,
    dependents: map<string, seq<string>>,
    index: OrderedMap<Ramo>,
    aprobados: set<string>,
    reprobadosPendientes: set<string>)

  /** Every entry of the index is stored under its own code. */
  ghost predicate KeyedByCode(idx: OrderedMap<Ramo>) {
    idx.Valid() && forall k | k in idx.m :: idx.m[k].codigo == k
  }

  /** A curriculum course enters the index unless it is approved or being taken. */
  predicate Eligible(c: string, aprobados: set<string>, inscritos: set<string>) {
    c !in aprobados && c !in inscritos
  }

  /** `rs[i]` is the last record of its code in `rs`. */
  predicate LastOfCode(rs: seq<Ramo>, i: int)
    requires 0 <= i < |rs|
  {
    forall j | i < j < |rs| :: rs[j].codigo != rs[i].codigo
  }

  /** First loop of `buildGraphs`: eligible pending courses, a later record overwriting an earlier one. */
  function IndexPendientes(rs: seq<Ramo>, aprobados: set<string>, inscritos: set<string>, acc: OrderedMap<Ramo>)
    : (idx: OrderedMap<Ramo>)
    requires KeyedByCode(acc)
    ensures KeyedByCode(idx)
    decreases |rs|
  {
    if rs == [] then acc
    else
      var r := rs[0];
      var acc' := if Eligible(r.codigo, aprobados, inscritos) then acc.Put(r.codigo, r) else acc;
      IndexPendientes(rs[1..], aprobados, inscritos, acc')
  }

  /** The index holds the earlier keys plus exactly the eligible pending codes. */
  lemma {:induction false} IndexPendientesKeys(rs: seq<Ramo>, aprobados: set<string>, inscritos: set<string>,
                                               acc: OrderedMap<Ramo>)
    requires KeyedByCode(acc)
    ensures forall k :: k in IndexPendientes(rs, aprobados, inscritos, acc).m <==>
      k in acc.m || (k in Codes(rs) && Eligible(k, aprobados, inscritos))
    ensures forall k | k in acc.m && k !in Codes(rs) :: IndexPendientes(rs, aprobados, inscritos, acc).m[k] == acc.m[k]
    decreases |rs|
  {
    if rs != [] {
      var r := rs[0];
      var acc' := if Eligible(r.codigo, aprobados, inscritos) then acc.Put(r.codigo, r) else acc;
      IndexPendientesKeys(rs[1..], aprobados, inscritos, acc');
      assert Codes(rs) == [r.codigo] + Codes(rs[1..]);
    }
  }

  /** For an eligible code, the value kept is the last pending record of that code. */
  lemma {:induction false} IndexPendientesLast(rs: seq<Ramo>, aprobados: set<string>, inscritos: set<string>,
                                               acc: OrderedMap<Ramo>, i: int)
    requires KeyedByCode(acc)
    requires 0 <= i < |rs| && LastOfCode(rs, i) && Eligible(rs[i].codigo, aprobados, inscritos)
    ensures rs[i].codigo in IndexPendientes(rs, aprobados, inscritos, acc).m
    ensures IndexPendientes(rs, aprobados, inscritos, acc).m[rs[i].codigo] == rs[i]
    decreases |rs|
  {
    var r := rs[0];
    var acc' := if Eligible(r.codigo, aprobados, inscritos) then acc.Put(r.codigo, r) else acc;
    if i > 0 {
      assert rs[1..][i - 1] == rs[i];
      assert LastOfCode(rs[1..], i - 1) by {
        forall j | i - 1 < j < |rs[1..]| ensures rs[1..][j].codigo != rs[1..][i - 1].codigo {
          assert rs[1..][j] == rs[j + 1];
        }
      }
      IndexPendientesLast(rs[1..], aprobados, inscritos, acc', i - 1);
    } else {
      IndexPendientesKeys(rs[1..], aprobados, inscritos, acc');
      assert r.codigo !in Codes(rs[1..]) by {
        forall j | 0 <= j < |rs[1..]| ensures Codes(rs[1..])[j] != r.codigo {
          assert rs[1..][j] == rs[j + 1];
        }
      }
    }
  }

  /** The failed courses still owed: failed, not being retaken, never passed. */
  function OwedCodes(rs: seq<Ramo>, aprobados: set<string>, inscritos: set<string>): set<string> {
    set i | 0 <= i < |rs| && rs[i].estado == Reprobado && Eligible(rs[i].codigo, aprobados, inscritos) :: rs[i].codigo
  }

  lemma OwedCodesCons(rs: seq<Ramo>, aprobados: set<string>, inscritos: set<string>)
    requires rs != []
    ensures OwedCodes(rs, aprobados, inscritos) ==
      (if rs[0].estado == Reprobado && Eligible(rs[0].codigo, aprobados, inscritos) then {rs[0].codigo} else {})
      + OwedCodes(rs[1..], aprobados, inscritos)
  {
    var tail := rs[1..];
    forall c | c in OwedCodes(rs, aprobados, inscritos)
      ensures c in (if rs[0].estado == Reprobado && Eligible(rs[0].codigo, aprobados, inscritos) then {rs[0].codigo} else {})
                   + OwedCodes(tail, aprobados, inscritos)
    {
      var i :| 0 <= i < |rs| && rs[i].estado == Reprobado && Eligible(rs[i].codigo, aprobados, inscritos) && rs[i].codigo == c;
      if i > 0 { assert tail[i - 1] == rs[i]; }
    }
    forall c | c in OwedCodes(tail, aprobados, inscritos) ensures c in OwedCodes(rs, aprobados, inscritos) {
      var i :| 0 <= i < |tail| && tail[i].estado == Reprobado && Eligible(tail[i].codigo, aprobados, inscritos) && tail[i].codigo == c;
      assert rs[i + 1] == tail[i];
    }
  }

  /**
   * Second loop of `buildGraphs`: owed failed courses are recorded, and those
   * missing from the index join it as PENDIENTE; an existing entry is kept.
   */
  function IndexReprobados(rs: seq<Ramo>, aprobados: set<string>, inscritos: set<string>, acc: OrderedMap<Ramo>, owed: set<string>)
    : (res: (OrderedMap<Ramo>, set<string>))
    requires KeyedByCode(acc)
    ensures KeyedByCode(res.0)
    decreases |rs|
  {
    if rs == [] then (acc, owed)
    else
      var r := rs[0];
      var owes := r.estado == Reprobado && Eligible(r.codigo, aprobados, inscritos);
      var acc' := if owes && r.codigo !in acc.m then acc.Put(r.codigo, r.(estado := Pendiente)) else acc;
      var owed' := if owes then owed + {r.codigo} else owed;
      IndexReprobados(rs[1..], aprobados, inscritos, acc', owed')
  }

  /** The owed set the second loop returns collects exactly the owed codes. */
  lemma {:induction false} IndexReprobadosOwed(rs: seq<Ramo>, aprobados: set<string>, inscritos: set<string>,
                                               acc: OrderedMap<Ramo>, owed: set<string>)
    requires KeyedByCode(acc)
    ensures IndexReprobados(rs, aprobados, inscritos, acc, owed).1 == owed + OwedCodes(rs, aprobados, inscritos)
    decreases |rs|
  {
    if rs != [] {
      var r := rs[0];
      var owes := r.estado == Reprobado && Eligible(r.codigo, aprobados, inscritos);
      var acc' := if owes && r.codigo !in acc.m then acc.Put(r.codigo, r.(estado := Pendiente)) else acc;
      var owed' := if owes then owed + {r.codigo} else owed;
      IndexReprobadosOwed(rs[1..], aprobados, inscritos, acc', owed');
      OwedCodesCons(rs, aprobados, inscritos);
    }
  }

  /** The index gains exactly the owed codes it lacked and keeps every entry it had. */
  lemma {:induction false} IndexReprobadosKeys(rs: seq<Ramo>, aprobados: set<string>, inscritos: set<string>,
                                               acc: OrderedMap<Ramo>, owed: set<string>)
    requires KeyedByCode(acc)
    ensures var res := IndexReprobados(rs, aprobados, inscritos, acc, owed);
      && (forall k :: k in res.0.m <==> k in acc.m || k in OwedCodes(rs, aprobados, inscritos))
      && (forall k | k in acc.m :: res.0.m[k] == acc.m[k])
    decreases |rs|
  {
    if rs != [] {
      var r := rs[0];
      var owes := r.estado == Reprobado && Eligible(r.codigo, aprobados, inscritos);
      var acc' := if owes && r.codigo !in acc.m then acc.Put(r.codigo, r.(estado := Pendiente)) else acc;
      var owed' := if owes then owed + {r.codigo} else owed;
      IndexReprobadosKeys(rs[1..], aprobados, inscritos, acc', owed');
      OwedCodesCons(rs, aprobados, inscritos);
    }
  }

  /** Every entry the second loop adds is the PENDIENTE copy of a failed record of the list. */
  lemma {:induction false} IndexReprobadosNew(rs: seq<Ramo>, aprobados: set<string>, inscritos: set<string>,
                                              acc: OrderedMap<Ramo>, owed: set<string>)
    requires KeyedByCode(acc)
    ensures var res := IndexReprobados(rs, aprobados, inscritos, acc, owed);
      forall k | k in res.0.m && k !in acc.m :: res.0.m[k].estado == Pendiente && res.0.m[k].(estado := Reprobado) in rs
    decreases |rs|
  {
    if rs != [] {
      var r := rs[0];
      var owes := r.estado == Reprobado && Eligible(r.codigo, aprobados, inscritos);
      var acc' := if owes && r.codigo !in acc.m then acc.Put(r.codigo, r.(estado := Pendiente)) else acc;
      var owed' := if owes then owed + {r.codigo} else owed;
      IndexReprobadosNew(rs[1..], aprobados, inscritos, acc', owed');
      IndexReprobadosKeys(rs[1..], aprobados, inscritos, acc', owed');
      assert forall x | x in rs[1..] :: x in rs;
      assert owes && r.codigo !in acc.m ==> r.(estado := Pendiente).(estado := Reprobado) == r;
    }
  }

  /** `dependentsMap[p].push(codigo)` for every prerequisite `p` of `codigo`. */
  function AddDependent(dep: map<string, seq<string>>, ps: seq<string>, codigo: string): map<string, seq<string>>
    decreases |ps|
  {
    if ps == [] then dep
    else
      var p := ps[0];
      AddDependent(dep[p := (if p in dep then dep[p] else []) + [codigo]], ps[1..], codigo)
  }

  lemma {:induction false} AddDependentAt(dep: map<string, seq<string>>, ps: seq<string>, codigo: string, q: string, d: string)
    ensures (q in AddDependent(dep, ps, codigo) && d in AddDependent(dep, ps, codigo)[q]) <==>
      ((q in dep && d in dep[q]) || (d == codigo && q in ps))
    decreases |ps|
  {
    if ps != [] {
      var p := ps[0];
      var old_p := if p in dep then dep[p] else [];
      var dep' := dep[p := old_p + [codigo]];
      AddDependentAt(dep', ps[1..], codigo, q, d);
      assert q in ps <==> q == p || q in ps[1..];
      if q == p {
        assert d in old_p + [codigo] <==> d in old_p || d == codigo;
      }
    }
  }

  /** The dependents map: the reverse of the prerequisite relation over the index keys. */
  function Dependents(keys: seq<string>, prereqMap: map<string, seq<string>>, dep: map<string, seq<string>>)
    : map<string, seq<string>>
    decreases |keys|
  {
    if keys == [] then dep
    else Dependents(keys[1..], prereqMap, AddDependent(dep, Reqs(prereqMap, keys[0]), keys[0]))
  }

  lemma {:induction false} DependentsAt(keys: seq<string>, prereqMap: map<string, seq<string>>,
                                        dep: map<string, seq<string>>, p: string, d: string)
    ensures (p in Dependents(keys, prereqMap, dep) && d in Dependents(keys, prereqMap, dep)[p]) <==>
      ((p in dep && d in dep[p]) || (d in keys && p in Reqs(prereqMap, d)))
    decreases |keys|
  {
    if keys != [] {
      var dep' := AddDependent(dep, Reqs(prereqMap, keys[0]), keys[0]);
      AddDependentAt(dep, Reqs(prereqMap, keys[0]), keys[0], p, d);
      DependentsAt(keys[1..], prereqMap, dep', p, d);
      assert d in keys <==> d == keys[0] || d in keys[1..];
    }
  }

  /** `buildGraphs`. */
  function BuildGraphs(base: NormalizedBase): (g: Graphs)
    ensures KeyedByCode(g.index)
    ensures g.aprobados == base.aprobados
  {
    var pend := GroupRamos(base.pendientes);
    var sem := SemRamos(base.semestres);
    var idx0 := IndexPendientes(pend, base.aprobados, base.inscritos, EmptyMap());
    var (idx, owed) := IndexReprobados(sem, base.aprobados, base.inscritos, idx0, {});
    var prereqMap := map k | k in idx.m :: idx.m[k].prerequisitos;
    Graphs(prereqMap, Dependents(idx.keys, prereqMap, map[]), idx, base.aprobados, owed)
  }

  /**
   * The pending index holds exactly the eligible curriculum codes and the owed
   * failed codes, so no approved or enrolled course is ever planned again.
   */
  lemma BuildGraphsIndex(base: NormalizedBase)
    ensures var g := BuildGraphs(base);
      && g.reprobadosPendientes == OwedCodes(SemRamos(base.semestres), base.aprobados, base.inscritos)
      && (forall k :: k in g.index.m <==>
           (k in Codes(GroupRamos(base.pendientes)) && Eligible(k, base.aprobados, base.inscritos))
           || k in g.reprobadosPendientes)
      && (forall k | k in g.index.m :: Eligible(k, base.aprobados, base.inscritos))
  {
    var pend := GroupRamos(base.pendientes);
    var sem := SemRamos(base.semestres);
    var idx0 := IndexPendientes(pend, base.aprobados, base.inscritos, EmptyMap());
    IndexPendientesKeys(pend, base.aprobados, base.inscritos, EmptyMap());
    IndexReprobadosOwed(sem, base.aprobados, base.inscritos, idx0, {});
    IndexReprobadosKeys(sem, base.aprobados, base.inscritos, idx0, {});
    IndexReprobadosNew(sem, base.aprobados, base.inscritos, idx0, {});
  }

  /** A pending curriculum course keeps its last definition; an owed failed course is its failed record as PENDIENTE. */
  lemma BuildGraphsValues(base: NormalizedBase)
    ensures var g := BuildGraphs(base); var pend := GroupRamos(base.pendientes);
      && (forall i | 0 <= i < |pend| && LastOfCode(pend, i) && Eligible(pend[i].codigo, base.aprobados, base.inscritos) ::
            pend[i].codigo in g.index.m && g.index.m[pend[i].codigo] == pend[i])
      && (forall k | k in g.index.m && k !in Codes(pend) ::
            g.index.m[k].estado == Pendiente && g.index.m[k].(estado := Reprobado) in SemRamos(base.semestres))
  {
    var pend := GroupRamos(base.pendientes);
    var sem := SemRamos(base.semestres);
    var idx0 := IndexPendientes(pend, base.aprobados, base.inscritos, EmptyMap());
    IndexPendientesKeys(pend, base.aprobados, base.inscritos, EmptyMap());
    IndexReprobadosOwed(sem, base.aprobados, base.inscritos, idx0, {});
    IndexReprobadosKeys(sem, base.aprobados, base.inscritos, idx0, {});
    IndexReprobadosNew(sem, base.aprobados, base.inscritos, idx0, {});
    forall i | 0 <= i < |pend| && LastOfCode(pend, i) && Eligible(pend[i].codigo, base.aprobados, base.inscritos) {
      IndexPendientesLast(pend, base.aprobados, base.inscritos, EmptyMap(), i);
    }
  }

  /** The prerequisite map copies each pending course's list; the dependents map is its exact reverse. */
  lemma BuildGraphsEdges(base: NormalizedBase)
    ensures var g := BuildGraphs(base);
      && (forall k :: k in g.prereqMap <==> k in g.index.m)
      && (forall k | k in g.prereqMap :: g.prereqMap[k] == g.index.m[k].prerequisitos)
      && (forall p, d :: (p in g.dependents && d in g.dependents[p]) <==>
            (d in g.index.m && p in g.index.m[d].prerequisitos))
  {
    var g := BuildGraphs(base);
    assert g.prereqMap == (map k | k in g.index.m :: g.index.m[k].prerequisitos);
    assert g.dependents == Dependents(g.index.keys, g.prereqMap, map[]);
    DependentsReverse(g.index, g.prereqMap);
  }

  /** Over a valid index, the dependents map built from its prerequisite lists is their exact reverse. */
  lemma DependentsReverse(idx: OrderedMap<Ramo>, prereqMap: map<string, seq<string>>)
    requires idx.Valid()
    requires prereqMap == map k | k in idx.m :: idx.m[k].prerequisitos
    ensures forall p, d :: (p in Dependents(idx.keys, prereqMap, map[]) && d in Dependents(idx.keys, prereqMap, map[])[p]) <==>
      (d in idx.m && p in idx.m[d].prerequisitos)
  {
    forall p, d ensures (p in Dependents(idx.keys, prereqMap, map[]) && d in Dependents(idx.keys, prereqMap, map[])[p]) <==>
      (d in idx.m && p in idx.m[d].prerequisitos)
    {
      DependentsAt(idx.keys, prereqMap, map[], p, d);
    }
  }

  /**
   * `canTake`: every prerequisite that is itself still pending (or every one,
   * when no index is given) must be approved and not taken this semester.
   */
  function CanTake(ramo: Ramo, aprobados: set<string>, tomados: seq<Ramo>, prereqMap: map<string, seq<string>>,
                   index: Option<set<string>>): (ok: bool)
  {
    ReqsSatisfied(Reqs(prereqMap, ramo.codigo), aprobados, Codes(tomados), index)
  }

  /** The loop of `canTake` over the prerequisite list. */
  function ReqsSatisfied(reqs: seq<string>, aprobados: set<string>, tomados: seq<string>, index: Option<set<string>>)
    : (ok: bool)
    decreases |reqs|
  {
    if reqs == [] then true
    else
      var req := reqs[0];
      var existe := index.None? || req in index.value;
      if !existe then ReqsSatisfied(reqs[1..], aprobados, tomados, index)
      else if req !in aprobados then false
      else if req in tomados then false
      else ReqsSatisfied(reqs[1..], aprobados, tomados, index)
  }

  /** A prerequisite that matters is one still in the curriculum index. */
  predicate Counts(req: string, index: Option<set<string>>) {
    index.None? || req in index.value
  }

  /**
   * `canTake` holds exactly when every prerequisite that counts is approved
   * and is not among the courses already taken this semester.
   */
  lemma {:induction false} CanTakeSpec(ramo: Ramo, aprobados: set<string>, tomados: seq<Ramo>,
                                       prereqMap: map<string, seq<string>>, index: Option<set<string>>)
    ensures CanTake(ramo, aprobados, tomados, prereqMap, index) <==>
      forall req | req in Reqs(prereqMap, ramo.codigo) && Counts(req, index) ::
        req in aprobados && req !in Codes(tomados)
  {
    ReqsSatisfiedSpec(Reqs(prereqMap, ramo.codigo), aprobados, Codes(tomados), index);
  }

  lemma {:induction false} ReqsSatisfiedSpec(reqs: seq<string>, aprobados: set<string>, tomados: seq<string>,
                                             index: Option<set<string>>)
    ensures ReqsSatisfied(reqs, aprobados, tomados, index) <==>
      forall req | req in reqs && Counts(req, index) :: req in aprobados && req !in tomados
    decreases |reqs|
  {
    if reqs != [] {
      ReqsSatisfiedSpec(reqs[1..], aprobados, tomados, index);
      assert forall req :: req in reqs <==> req == reqs[0] || req in reqs[1..];
    }
  }

  /** A prerequisite outside the index never blocks a course. */
  lemma CanTakeIgnoresMissing(ramo: Ramo, aprobados: set<string>, prereqMap: map<string, seq<string>>,
                              index: set<string>)
    requires forall req | req in Reqs(prereqMap, ramo.codigo) :: req !in index
    ensures CanTake(ramo, aprobados, [], prereqMap, Some(index))
  {
    CanTakeSpec(ramo, aprobados, [], prereqMap, Some(index));
  }
}
