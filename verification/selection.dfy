/**
 * How one planned semester is filled (the body of the planning loop in
 * backend/src/projection/automatic-projection.service.ts): the admissible
 * pending courses are split into three level tiers, each tier is ordered by
 * priority, and the tiers are filled greedily under the credit cap.
 */
module Selection {
  import opened Options
  import opened Collections
  import opened Model
  import opened Graphs

  /** How many levels above the base level a course may sit (`DESPLAZAMIENTO`). */
  const DESPLAZAMIENTO: int := 2

  /** What the priority comparator reads: the owed failed courses and the unlock scores. */
  datatype Priority = Priority(reprobados: set<string>, scores: map<string, nat>)

  /** `unlockScore[codigo] || 0`. */
  function ScoreOf(pr: Priority, c: string): int {
    if c in pr.scores then pr.scores[c] else 0
  }

  function RepOf(pr: Priority, c: string): int {
    if c in pr.reprobados then 1 else 0
  }

  /**
   * `cmp`: owed failed courses first, then higher unlock score, lower level,
   * fewer prerequisites, fewer credits.
   */
  function Cmp(pr: Priority, a: Ramo, b: Ramo): int {
    var aRep := RepOf(pr, a.codigo);
    var bRep := RepOf(pr, b.codigo);
    if aRep != bRep then bRep - aRep
    else
      var s := ScoreOf(pr, b.codigo) - ScoreOf(pr, a.codigo);
      if s != 0 then s
      else if a.nivel != b.nivel then a.nivel - b.nivel
      else
        var ap := |a.prerequisitos|;
        var bp := |b.prerequisitos|;
        if ap != bp then ap - bp else a.creditos - b.creditos
  }

  /** The priority key `cmp` compares lexicographically. */
  function PriorityKey(pr: Priority, r: Ramo): (int, int, int, int, int) {
    (-RepOf(pr, r.codigo), -ScoreOf(pr, r.codigo), r.nivel, |r.prerequisitos|, r.creditos)
  }

  predicate KeyLeq(x: (int, int, int, int, int), y: (int, int, int, int, int)) {
    x.0 < y.0 || (x.0 == y.0 && (x.1 < y.1 || (x.1 == y.1 && (x.2 < y.2 || (x.2 == y.2 &&
      (x.3 < y.3 || (x.3 == y.3 && x.4 <= y.4)))))))
  }

  /** `cmp(a, b) <= 0` exactly when a's priority key is lexicographically at most b's. */
  lemma CmpIsKeyOrder(pr: Priority, a: Ramo, b: Ramo)
    ensures Cmp(pr, a, b) <= 0 <==> KeyLeq(PriorityKey(pr, a), PriorityKey(pr, b))
    ensures Cmp(pr, a, b) == -Cmp(pr, b, a)
  {
  }

  function Leq(pr: Priority): (Ramo, Ramo) -> bool {
    (a: Ramo, b: Ramo) => Cmp(pr, a, b) <= 0
  }

  /** `cmp` is a consistent comparator: total and transitive, so the sorts are well defined. */
  lemma CmpPreorder(pr: Priority, s: seq<Ramo>)
    ensures TotalPreorderOn(s, Leq(pr))
  {
    forall a, b | a in s && b in s ensures Leq(pr)(a, b) || Leq(pr)(b, a) {
      CmpIsKeyOrder(pr, a, b);
      CmpIsKeyOrder(pr, b, a);
    }
    forall a, b, c | a in s && b in s && c in s && Leq(pr)(a, b) && Leq(pr)(b, c) ensures Leq(pr)(a, c) {
      CmpIsKeyOrder(pr, a, b);
      CmpIsKeyOrder(pr, b, c);
      CmpIsKeyOrder(pr, a, c);
    }
  }

  // ------------------------------------------------------------- candidates

  /** A pending course can be offered: within the level ceiling, and `canTake` with nothing taken yet. */
  predicate Admissible(r: Ramo, idx: OrderedMap<Ramo>, prereqMap: map<string, seq<string>>,
                       aprobados: set<string>, nivelBase: int) {
    r.nivel <= nivelBase + DESPLAZAMIENTO && CanTake(r, aprobados, [], prereqMap, Some(idx.m.Keys))
  }

  /** The `candidatos` loop over the remaining codes, in their order. */
  function Candidates(idx: OrderedMap<Ramo>, prereqMap: map<string, seq<string>>, pend: seq<string>,
                      aprobados: set<string>, nivelBase: int): (cs: seq<Ramo>)
    requires KeyedByCode(idx)
    ensures forall r | r in cs :: r.codigo in pend && r.codigo in idx.m && idx.m[r.codigo] == r
    ensures forall r | r in cs :: Admissible(r, idx, prereqMap, aprobados, nivelBase)
    ensures forall c | c in pend && c in idx.m && Admissible(idx.m[c], idx, prereqMap, aprobados, nivelBase) ::
      idx.m[c] in cs
    decreases |pend|
  {
    if pend == [] then []
    else
      var c := pend[0];
      var rest := Candidates(idx, prereqMap, pend[1..], aprobados, nivelBase);
      assert forall x :: x in pend <==> x == c || x in pend[1..];
      if c !in idx.m then rest
      else
        var r := idx.m[c];
        if !Admissible(r, idx, prereqMap, aprobados, nivelBase) then rest
        else [r] + rest
  }

  /** Remaining codes without repeats give candidates without repeated codes. */
  lemma {:induction false} CandidatesDistinct(idx: OrderedMap<Ramo>, prereqMap: map<string, seq<string>>, pend: seq<string>,
                                              aprobados: set<string>, nivelBase: int)
    requires KeyedByCode(idx) && Distinct(pend)
    ensures DistinctCodes(Candidates(idx, prereqMap, pend, aprobados, nivelBase))
    decreases |pend|
  {
    if pend != [] {
      var c := pend[0];
      var rest := Candidates(idx, prereqMap, pend[1..], aprobados, nivelBase);
      assert Distinct(pend[1..]) && c !in pend[1..] by {
        forall i, j | 0 <= i < j < |pend[1..]| ensures pend[1..][i] != pend[1..][j] {
          assert pend[1..][i] == pend[i + 1] && pend[1..][j] == pend[j + 1];
        }
        forall k | 0 <= k < |pend[1..]| ensures pend[1..][k] != c {
          assert pend[1..][k] == pend[k + 1];
        }
      }
      CandidatesDistinct(idx, prereqMap, pend[1..], aprobados, nivelBase);
      if c in idx.m && Admissible(idx.m[c], idx, prereqMap, aprobados, nivelBase) {
        var r := idx.m[c];
        forall j | 0 <= j < |rest| ensures rest[j].codigo != r.codigo {
          assert rest[j] in rest;
        }
      }
    }
  }

  // -------------------------------------------------------------- filling

  /** One `for (const r of grupo)` pass: take a course when it still fits under the cap. */
  function Fill(rs: seq<Ramo>, creditos: int): (res: (seq<Ramo>, int))
    ensures res.1 == creditos + Creditos(res.0)
    ensures res.1 <= MAX_CREDITOS_POR_SEMESTRE || res.0 == []
    ensures Subseq(res.0, rs)
    decreases |rs|
  {
    if rs == [] then ([], creditos)
    else
      var r := rs[0];
      if creditos + r.creditos > MAX_CREDITOS_POR_SEMESTRE then Fill(rs[1..], creditos)
      else
        var res := Fill(rs[1..], creditos + r.creditos);
        assert ([r] + res.0)[1..] == res.0;
        ([r] + res.0, res.1)
  }

  /** Credits only grow when every course has a non-negative credit count. */
  predicate NonNegCredits(rs: seq<Ramo>) {
    forall r | r in rs :: r.creditos >= 0
  }

  /**
   * Greedy but not first-fit-and-stop: with non-negative credits, every course
   * the pass skips would overflow the cap even on top of the final total.
   */
  lemma {:induction false} FillMaximal(rs: seq<Ramo>, creditos: int)
    requires NonNegCredits(rs)
    ensures Fill(rs, creditos).1 >= creditos
    ensures forall r | r in rs && r !in Fill(rs, creditos).0 :: Fill(rs, creditos).1 + r.creditos > MAX_CREDITOS_POR_SEMESTRE
    decreases |rs|
  {
    if rs != [] {
      var r := rs[0];
      assert NonNegCredits(rs[1..]) by { assert forall x | x in rs[1..] :: x in rs; }
      assert forall x | x in rs :: x == r || x in rs[1..];
      if creditos + r.creditos > MAX_CREDITOS_POR_SEMESTRE {
        FillMaximal(rs[1..], creditos);
      } else {
        FillMaximal(rs[1..], creditos + r.creditos);
      }
    }
  }

  function Ex(c: string, creditos: int): Ramo {
    Ramo(c, c, Pendiente, creditos, 1, [])
  }

  /** A course that does not fit is skipped and a later, smaller one still goes in. */
  lemma FillSkipsAndContinues()
    ensures Fill([Ex("A", 25), Ex("B", 10), Ex("C", 5)], 0).0 == [Ex("A", 25), Ex("C", 5)]
  {
    assert [Ex("A", 25), Ex("B", 10), Ex("C", 5)][1..] == [Ex("B", 10), Ex("C", 5)];
    assert [Ex("B", 10), Ex("C", 5)][1..] == [Ex("C", 5)];
  }

  // ---------------------------------------------------------------- tiers

  /** 0: backlog (at or below the base level), 1: base + 1, 2: base + 2, 3: beyond. */
  function Tier(r: Ramo, nivelBase: int): int {
    if r.nivel <= nivelBase then 0
    else if r.nivel == nivelBase + 1 then 1
    else if r.nivel == nivelBase + 2 then 2
    else 3
  }

  function Group(cs: seq<Ramo>, nivelBase: int, t: int, pr: Priority): (g: seq<Ramo>)
    ensures multiset(g) <= multiset(cs)
    ensures forall r | r in g :: r in cs && Tier(r, nivelBase) == t
    ensures forall r | r in cs && Tier(r, nivelBase) == t :: r in g
    ensures SortedBy(g, Leq(pr))
  {
    var f := Filter(cs, (r: Ramo) => Tier(r, nivelBase) == t);
    CmpPreorder(pr, f);
    SortBySorted(f, Leq(pr));
    var g := SortBy(f, Leq(pr));
    assert forall r :: r in g <==> r in f by {
      forall r ensures r in g <==> r in f { assert r in multiset(g) <==> r in multiset(f); }
    }
    assert forall r | r in cs && Tier(r, nivelBase) == t :: r in f by {
      forall r | r in cs && Tier(r, nivelBase) == t ensures r in f {
        var i :| 0 <= i < |cs| && cs[i] == r;
      }
    }
    g
  }

  /** The three passes over the candidates of one semester. */
  function Passes(idx: OrderedMap<Ramo>, prereqMap: map<string, seq<string>>, pr: Priority,
                  pend: seq<string>, aprobados: set<string>, nivelBase: int): (t: seq<Ramo>)
    requires KeyedByCode(idx)
    ensures Creditos(t) <= MAX_CREDITOS_POR_SEMESTRE
  {
    PassesOver(Candidates(idx, prereqMap, pend, aprobados, nivelBase), pr, nivelBase)
  }

  /** The three passes, tier by tier, each continuing from the credits of the previous one. */
  function PassesOver(cs: seq<Ramo>, pr: Priority, nivelBase: int): (t: seq<Ramo>)
    ensures Creditos(t) <= MAX_CREDITOS_POR_SEMESTRE
  {
    var (tA, c1) := Fill(Group(cs, nivelBase, 0, pr), 0);
    var (tB1, c2) := Fill(Group(cs, nivelBase, 1, pr), c1);
    var (tB2, c3) := Fill(Group(cs, nivelBase, 2, pr), c2);
    CreditosAppend(tA, tB1);
    CreditosAppend(tA + tB1, tB2);
    tA + tB1 + tB2
  }

  /** `tomadosEsteSemestre` at the end of the loop body: the passes, then the level guard. */
  function Tomados(idx: OrderedMap<Ramo>, prereqMap: map<string, seq<string>>, pr: Priority,
                   pend: seq<string>, aprobados: set<string>, nivelBase: int): seq<Ramo>
    requires KeyedByCode(idx)
  {
    var tomados := Passes(idx, prereqMap, pr, pend, aprobados, nivelBase);
    var filtrados := Filter(tomados, (r: Ramo) => r.nivel <= nivelBase + DESPLAZAMIENTO);
    if |filtrados| != |tomados| then filtrados else tomados
  }

  /** Every course the passes take is an admissible candidate, so the level guard never removes one. */
  lemma LevelGuardNeverFires(idx: OrderedMap<Ramo>, prereqMap: map<string, seq<string>>, pr: Priority,
                             pend: seq<string>, aprobados: set<string>, nivelBase: int)
    requires KeyedByCode(idx)
    ensures Tomados(idx, prereqMap, pr, pend, aprobados, nivelBase) == Passes(idx, prereqMap, pr, pend, aprobados, nivelBase)
  {
    var t := Passes(idx, prereqMap, pr, pend, aprobados, nivelBase);
    PassesFromCandidates(idx, prereqMap, pr, pend, aprobados, nivelBase);
    FilterKeepsAll(t, (r: Ramo) => r.nivel <= nivelBase + DESPLAZAMIENTO);
  }

  lemma PassesFromCandidates(idx: OrderedMap<Ramo>, prereqMap: map<string, seq<string>>, pr: Priority,
                             pend: seq<string>, aprobados: set<string>, nivelBase: int)
    requires KeyedByCode(idx)
    ensures forall r | r in Passes(idx, prereqMap, pr, pend, aprobados, nivelBase) ::
      r in Candidates(idx, prereqMap, pend, aprobados, nivelBase)
  {
    var cs := Candidates(idx, prereqMap, pend, aprobados, nivelBase);
    var gA := Group(cs, nivelBase, 0, pr);
    var gB1 := Group(cs, nivelBase, 1, pr);
    var gB2 := Group(cs, nivelBase, 2, pr);
    var (tA, c1) := Fill(gA, 0);
    var (tB1, c2) := Fill(gB1, c1);
    var (tB2, c3) := Fill(gB2, c2);
    SubseqMembers(tA, gA);
    SubseqMembers(tB1, gB1);
    SubseqMembers(tB2, gB2);
  }

  /**
   * The order of a semester's courses: the backlog tier first, then base + 1,
   * then base + 2; inside a tier, by `cmp`.
   */
  lemma PassesOrder(idx: OrderedMap<Ramo>, prereqMap: map<string, seq<string>>, pr: Priority,
                    pend: seq<string>, aprobados: set<string>, nivelBase: int)
    requires KeyedByCode(idx)
    ensures var t := Passes(idx, prereqMap, pr, pend, aprobados, nivelBase);
      forall i, j | 0 <= i < j < |t| :: Tier(t[i], nivelBase) <= Tier(t[j], nivelBase)
        && (Tier(t[i], nivelBase) == Tier(t[j], nivelBase) ==> Cmp(pr, t[i], t[j]) <= 0)
  {
    var cs := Candidates(idx, prereqMap, pend, aprobados, nivelBase);
    var gA := Group(cs, nivelBase, 0, pr);
    var gB1 := Group(cs, nivelBase, 1, pr);
    var gB2 := Group(cs, nivelBase, 2, pr);
    var (tA, c1) := Fill(gA, 0);
    var (tB1, c2) := Fill(gB1, c1);
    var (tB2, c3) := Fill(gB2, c2);
    SubseqMembers(tA, gA);
    SubseqMembers(tB1, gB1);
    SubseqMembers(tB2, gB2);
    SubseqSorted(tA, gA, Leq(pr));
    SubseqSorted(tB1, gB1, Leq(pr));
    SubseqSorted(tB2, gB2, Leq(pr));
    TiersInOrder(tA, tB1, tB2, nivelBase, pr);
  }

  /** Three tier-pure, sorted runs laid end to end: ordered by tier, then by `cmp`. */
  lemma TiersInOrder(tA: seq<Ramo>, tB1: seq<Ramo>, tB2: seq<Ramo>, nivelBase: int, pr: Priority)
    requires forall r | r in tA :: Tier(r, nivelBase) == 0
    requires forall r | r in tB1 :: Tier(r, nivelBase) == 1
    requires forall r | r in tB2 :: Tier(r, nivelBase) == 2
    requires SortedBy(tA, Leq(pr)) && SortedBy(tB1, Leq(pr)) && SortedBy(tB2, Leq(pr))
    ensures var t := tA + tB1 + tB2;
      forall i, j | 0 <= i < j < |t| :: Tier(t[i], nivelBase) <= Tier(t[j], nivelBase)
        && (Tier(t[i], nivelBase) == Tier(t[j], nivelBase) ==> Cmp(pr, t[i], t[j]) <= 0)
  {
    var t := tA + tB1 + tB2;
    var a, b := |tA|, |tA| + |tB1|;
    forall i, j | 0 <= i < j < |t|
      ensures Tier(t[i], nivelBase) <= Tier(t[j], nivelBase)
      ensures Tier(t[i], nivelBase) == Tier(t[j], nivelBase) ==> Cmp(pr, t[i], t[j]) <= 0
    {
      if i < a {
        assert t[i] == tA[i] && tA[i] in tA;
        if j < a {
          assert t[j] == tA[j];
          assert Leq(pr)(tA[i], tA[j]);
        } else if j < b {
          assert t[j] == tB1[j - a] && tB1[j - a] in tB1;
        } else {
          assert t[j] == tB2[j - b] && tB2[j - b] in tB2;
        }
      } else if i < b {
        assert t[i] == tB1[i - a] && tB1[i - a] in tB1;
        if j < b {
          assert t[j] == tB1[j - a];
          assert Leq(pr)(tB1[i - a], tB1[j - a]);
        } else {
          assert t[j] == tB2[j - b] && tB2[j - b] in tB2;
        }
      } else {
        assert t[i] == tB2[i - b] && t[j] == tB2[j - b];
        assert Leq(pr)(tB2[i - b], tB2[j - b]);
      }
    }
  }

  /** Two admissible courses never share a code, so neither do the courses of one semester. */
  lemma PassesDistinct(idx: OrderedMap<Ramo>, prereqMap: map<string, seq<string>>, pr: Priority,
                       pend: seq<string>, aprobados: set<string>, nivelBase: int)
    requires KeyedByCode(idx) && Distinct(pend)
    ensures DistinctCodes(Passes(idx, prereqMap, pr, pend, aprobados, nivelBase))
  {
    CandidatesDistinct(idx, prereqMap, pend, aprobados, nivelBase);
    PassesOverDistinct(Candidates(idx, prereqMap, pend, aprobados, nivelBase), pr, nivelBase);
  }

  /** `PassesDistinct` for any list of candidates with distinct codes. */
  lemma PassesOverDistinct(cs: seq<Ramo>, pr: Priority, nivelBase: int)
    requires DistinctCodes(cs)
    ensures DistinctCodes(PassesOver(cs, pr, nivelBase))
  {
    var gA := Group(cs, nivelBase, 0, pr);
    var gB1 := Group(cs, nivelBase, 1, pr);
    var gB2 := Group(cs, nivelBase, 2, pr);
    var (tA, c1) := Fill(gA, 0);
    var (tB1, c2) := Fill(gB1, c1);
    var (tB2, c3) := Fill(gB2, c2);
    FillTierDistinct(cs, nivelBase, 0, pr, 0);
    FillTierDistinct(cs, nivelBase, 1, pr, c1);
    FillTierDistinct(cs, nivelBase, 2, pr, c2);
    TiersPoolCodes(tA, tB1, tB2, cs, nivelBase);
  }

  /** Three tiers of distinct candidates, joined, never repeat a code. */
  lemma TiersPoolCodes(tA: seq<Ramo>, tB1: seq<Ramo>, tB2: seq<Ramo>, cs: seq<Ramo>, nivelBase: int)
    requires DistinctCodes(cs)
    requires Distinct(tA) && forall r | r in tA :: r in cs && Tier(r, nivelBase) == 0
    requires Distinct(tB1) && forall r | r in tB1 :: r in cs && Tier(r, nivelBase) == 1
    requires Distinct(tB2) && forall r | r in tB2 :: r in cs && Tier(r, nivelBase) == 2
    ensures DistinctCodes(tA + tB1 + tB2)
  {
    TiersDistinct(tA, tB1, tB2, nivelBase);
    var t := tA + tB1 + tB2;
    assert forall r | r in t :: r in cs by {
      assert forall r | r in t :: r in tA || r in tB1 || r in tB2;
    }
    PoolCodes(t, cs);
  }

  /** One pass over a tier takes distinct courses of that tier from the candidates. */
  lemma FillTierDistinct(cs: seq<Ramo>, nivelBase: int, k: int, pr: Priority, creditos: int)
    requires DistinctCodes(cs)
    ensures var t := Fill(Group(cs, nivelBase, k, pr), creditos).0;
      Distinct(t) && forall r | r in t :: r in cs && Tier(r, nivelBase) == k
  {
    var g := Group(cs, nivelBase, k, pr);
    var t := Fill(g, creditos).0;
    SubseqMembers(t, g);
    DistinctCodesDistinct(cs);
    SubMultisetDistinct(g, cs);
    SubseqDistinct(t, g);
  }

  /** Three duplicate-free runs of different tiers laid end to end stay duplicate-free. */
  lemma TiersDistinct(tA: seq<Ramo>, tB1: seq<Ramo>, tB2: seq<Ramo>, nivelBase: int)
    requires forall r | r in tA :: Tier(r, nivelBase) == 0
    requires forall r | r in tB1 :: Tier(r, nivelBase) == 1
    requires forall r | r in tB2 :: Tier(r, nivelBase) == 2
    requires Distinct(tA) && Distinct(tB1) && Distinct(tB2)
    ensures Distinct(tA + tB1 + tB2)
  {
    var t := tA + tB1 + tB2;
    var a, b := |tA|, |tA| + |tB1|;
    forall i, j | 0 <= i < j < |t| ensures t[i] != t[j] {
      if i < a {
        assert t[i] == tA[i] && tA[i] in tA;
        if j < a { assert t[j] == tA[j]; }
        else if j < b { assert t[j] == tB1[j - a] && tB1[j - a] in tB1; }
        else { assert t[j] == tB2[j - b] && tB2[j - b] in tB2; }
      } else if i < b {
        assert t[i] == tB1[i - a] && tB1[i - a] in tB1;
        if j < b { assert t[j] == tB1[j - a]; }
        else { assert t[j] == tB2[j - b] && tB2[j - b] in tB2; }
      } else {
        assert t[i] == tB2[i - b] && t[j] == tB2[j - b];
      }
    }
  }

  lemma DistinctCodesDistinct(rs: seq<Ramo>)
    requires DistinctCodes(rs)
    ensures Distinct(rs)
  {
    forall i, j | 0 <= i < j < |rs| ensures rs[i] != rs[j] {
      assert rs[i].codigo != rs[j].codigo;
    }
  }

  /** Distinct records drawn from a list with distinct codes have distinct codes. */
  lemma PoolCodes(t: seq<Ramo>, cs: seq<Ramo>)
    requires Distinct(t) && DistinctCodes(cs)
    requires forall r | r in t :: r in cs
    ensures DistinctCodes(t)
  {
    forall i, j | 0 <= i < j < |t| ensures t[i].codigo != t[j].codigo {
      assert t[i] in t && t[j] in t;
      var p :| 0 <= p < |cs| && cs[p] == t[i];
      var q :| 0 <= q < |cs| && cs[q] == t[j];
      assert p != q;
      if p < q { assert cs[p].codigo != cs[q].codigo; } else { assert cs[q].codigo != cs[p].codigo; }
    }
  }

  /**
   * With non-negative credits no admissible course is left out that would
   * still have fitted: every candidate not taken overflows the cap on top of
   * the semester's total.
   */
  lemma PassesMaximal(idx: OrderedMap<Ramo>, prereqMap: map<string, seq<string>>, pr: Priority,
                      pend: seq<string>, aprobados: set<string>, nivelBase: int)
    requires KeyedByCode(idx)
    requires NonNegCredits(Candidates(idx, prereqMap, pend, aprobados, nivelBase))
    ensures var t := Passes(idx, prereqMap, pr, pend, aprobados, nivelBase);
      forall r | r in Candidates(idx, prereqMap, pend, aprobados, nivelBase) && r !in t ::
        Creditos(t) + r.creditos > MAX_CREDITOS_POR_SEMESTRE
  {
    var cs := Candidates(idx, prereqMap, pend, aprobados, nivelBase);
    assert forall r | r in cs :: Tier(r, nivelBase) <= 2 by {
      forall r | r in cs ensures Tier(r, nivelBase) <= 2 {
        assert Admissible(r, idx, prereqMap, aprobados, nivelBase);
      }
    }
    PassesOverMaximal(cs, pr, nivelBase);
  }

  /** `PassesMaximal` for any list of candidates of the three tiers. */
  lemma PassesOverMaximal(cs: seq<Ramo>, pr: Priority, nivelBase: int)
    requires NonNegCredits(cs)
    requires forall r | r in cs :: Tier(r, nivelBase) <= 2
    ensures var t := PassesOver(cs, pr, nivelBase);
      forall r | r in cs && r !in t :: Creditos(t) + r.creditos > MAX_CREDITOS_POR_SEMESTRE
  {
    var gA := Group(cs, nivelBase, 0, pr);
    var gB1 := Group(cs, nivelBase, 1, pr);
    var gB2 := Group(cs, nivelBase, 2, pr);
    var (tA, c1) := Fill(gA, 0);
    var (tB1, c2) := Fill(gB1, c1);
    var (tB2, c3) := Fill(gB2, c2);
    var t := tA + tB1 + tB2;
    TiersMaximal(cs, gA, gB1, gB2, nivelBase, tA, c1, tB1, c2, tB2, c3);
    CreditosThree(tA, tB1, tB2);
  }

  lemma CreditosThree(a: seq<Ramo>, b: seq<Ramo>, c: seq<Ramo>)
    ensures Creditos(a + b + c) == Creditos(a) + Creditos(b) + Creditos(c)
  {
    CreditosAppend(a, b);
    CreditosAppend(a + b, c);
  }

  /**
   * The three passes over the tiers leave out only courses that would
   * overflow the cap on top of the final total.
   */
  lemma TiersMaximal(cs: seq<Ramo>, gA: seq<Ramo>, gB1: seq<Ramo>, gB2: seq<Ramo>, nivelBase: int,
                     tA: seq<Ramo>, c1: int, tB1: seq<Ramo>, c2: int, tB2: seq<Ramo>, c3: int)
    requires NonNegCredits(cs)
    requires forall r | r in gA :: r in cs
    requires forall r | r in gB1 :: r in cs
    requires forall r | r in gB2 :: r in cs
    requires forall r | r in cs :: Tier(r, nivelBase) <= 2
    requires forall r | r in cs && Tier(r, nivelBase) == 0 :: r in gA
    requires forall r | r in cs && Tier(r, nivelBase) == 1 :: r in gB1
    requires forall r | r in cs && Tier(r, nivelBase) == 2 :: r in gB2
    requires (tA, c1) == Fill(gA, 0) && (tB1, c2) == Fill(gB1, c1) && (tB2, c3) == Fill(gB2, c2)
    ensures forall r | r in cs && r !in tA + tB1 + tB2 :: c3 + r.creditos > MAX_CREDITOS_POR_SEMESTRE
  {
    assert NonNegCredits(gA) && NonNegCredits(gB1) && NonNegCredits(gB2);
    FillMaximal(gA, 0);
    FillMaximal(gB1, c1);
    FillMaximal(gB2, c2);
    var t := tA + tB1 + tB2;
    forall r | r in cs && r !in t ensures c3 + r.creditos > MAX_CREDITOS_POR_SEMESTRE {
      var k := Tier(r, nivelBase);
      if k == 0 {
        assert r in gA && r !in tA;
      } else if k == 1 {
        assert r in gB1 && r !in tB1;
      } else {
        assert r in gB2 && r !in tB2;
      }
    }
  }
}
