/**
 * `computeUnlockScores` (backend/src/projection/utils/scheduler.ts): for every
 * pending course, a depth-first walk over the dependents graph that counts the
 * pending courses it reaches. `seen` is fresh for each root, while the memo is
 * shared by all roots and filled in as the walks finish.
 */
module Unlock {
  import opened Collections
  import opened Model

  /** `dependentsMap[codigo] || []`. */
  function Deps(dependents: map<string, seq<string>>, c: string): seq<string> {
    if c in dependents then dependents[c] else []
  }

  /** Some dependent of `c` is itself a pending course. */
  predicate HasPendingDependent(keys: set<string>, dependents: map<string, seq<string>>, c: string) {
    exists d | d in Deps(dependents, c) :: d in keys
  }

  /** Every memoised score that is positive belongs to a course with a pending dependent. */
  predicate MemoOk(keys: set<string>, dependents: map<string, seq<string>>, memo: map<string, nat>) {
    forall k | k in memo && memo[k] > 0 :: HasPendingDependent(keys, dependents, k)
  }

  datatype Walk = Walk(count: nat, seen: set<string>, memo: map<string, nat>)

  /** `visit(codigo, seen)`. */
  function Visit(keys: set<string>, dependents: map<string, seq<string>>, c: string, seen: set<string>,
                 memo: map<string, nat>): (w: Walk)
    requires seen <= keys
    ensures seen <= w.seen <= keys
    ensures c in w.memo && w.memo[c] == w.count
    ensures memo.Keys <= w.memo.Keys
    ensures MemoOk(keys, dependents, memo) ==> MemoOk(keys, dependents, w.memo)
    ensures MemoOk(keys, dependents, memo) && w.count > 0 ==> HasPendingDependent(keys, dependents, c)
    decreases keys - seen, 1, 0
  {
    if c in memo then Walk(memo[c], seen, memo)
    else
      var ds := Deps(dependents, c);
      var w := VisitDeps(keys, dependents, ds, seen, memo, 0);
      Walk(w.count, w.seen, w.memo[c := w.count])
  }

  /** The `for (const d of deps)` loop of `visit`, with `acc` the count so far. */
  function VisitDeps(keys: set<string>, dependents: map<string, seq<string>>, ds: seq<string>, seen: set<string>,
                     memo: map<string, nat>, acc: nat): (w: Walk)
    requires seen <= keys
    ensures seen <= w.seen <= keys
    ensures w.count >= acc
    ensures memo.Keys <= w.memo.Keys
    ensures MemoOk(keys, dependents, memo) ==> MemoOk(keys, dependents, w.memo)
    ensures w.count > acc ==> exists d | d in ds :: d in keys
    decreases keys - seen, 0, |ds|
  {
    if ds == [] then Walk(acc, seen, memo)
    else
      var d := ds[0];
      if d !in keys || d in seen then
        var w := VisitDeps(keys, dependents, ds[1..], seen, memo, acc);
        assert forall x | x in ds[1..] :: x in ds;
        w
      else
        var v := Visit(keys, dependents, d, seen + {d}, memo);
        assert keys - v.seen < keys - seen by {
          assert d in keys - seen && d !in keys - v.seen;
        }
        var w := VisitDeps(keys, dependents, ds[1..], v.seen, v.memo, acc + 1 + v.count);
        assert d in ds;
        w
  }

  /** The `for (const codigo in pendientesIndex)` loop, threading the shared memo. */
  function ScoresFrom(keys: set<string>, dependents: map<string, seq<string>>, order: seq<string>,
                      memo: map<string, nat>, score: map<string, nat>): (r: map<string, nat>)
    requires MemoOk(keys, dependents, memo)
    requires forall k | k in score && score[k] > 0 :: HasPendingDependent(keys, dependents, k)
    ensures forall k :: k in r <==> k in score || k in order
    ensures forall k | k in r && r[k] > 0 :: HasPendingDependent(keys, dependents, k)
    decreases |order|
  {
    if order == [] then score
    else
      var w := Visit(keys, dependents, order[0], {}, memo);
      var r := ScoresFrom(keys, dependents, order[1..], w.memo, score[order[0] := w.count]);
      assert forall k :: k in order <==> k == order[0] || k in order[1..];
      r
  }

  /** `computeUnlockScores(pendientesIndex, dependentsMap)`. */
  function UnlockScores(index: OrderedMap<Ramo>, dependents: map<string, seq<string>>): (score: map<string, nat>)
    requires index.Valid()
    ensures score.Keys == index.m.Keys
    ensures forall k | k in score && score[k] > 0 :: HasPendingDependent(index.m.Keys, dependents, k)
  {
    ScoresFrom(index.m.Keys, dependents, index.keys, map[], map[])
  }

  // ----------------------------------------------------------- worked examples

  function Stub(c: string): Ramo {
    Ramo(c, c, Pendiente, 0, 1, [])
  }

  function ExampleIndex(order: seq<string>): (idx: OrderedMap<Ramo>)
    requires Distinct(order)
    ensures idx.Valid() && idx.keys == order
  {
    OrderedMap(order, map c | c in order :: Stub(c))
  }

  const ExDeps: map<string, seq<string>> := map["x" := ["d", "c"], "c" := ["d"]]
  const ExKeys: set<string> := {"x", "c", "d"}

  lemma ExampleInnerWalk()
    ensures VisitDeps(ExKeys, ExDeps, ["c"], {"d"}, map["d" := 0], 1) == Walk(2, {"d", "c"}, map["d" := 0, "c" := 0])
  {
    assert Deps(ExDeps, "c") == ["d"];
    assert {"d"} + {"c"} == {"d", "c"};
    assert VisitDeps(ExKeys, ExDeps, ["d"], {"d", "c"}, map["d" := 0], 0) == Walk(0, {"d", "c"}, map["d" := 0]);
    assert Visit(ExKeys, ExDeps, "c", {"d", "c"}, map["d" := 0]) == Walk(0, {"d", "c"}, map["d" := 0, "c" := 0]);
    assert ["c"][1..] == [];
  }

  lemma ExampleRootWalk()
    ensures Visit(ExKeys, ExDeps, "x", {}, map[]) == Walk(2, {"d", "c"}, map["d" := 0, "c" := 0, "x" := 2])
  {
    assert Deps(ExDeps, "x") == ["d", "c"] && Deps(ExDeps, "d") == [];
    assert Visit(ExKeys, ExDeps, "d", {"d"}, map[]) == Walk(0, {"d"}, map["d" := 0]);
    assert {} + {"d"} == {"d"};
    ExampleInnerWalk();
    assert ["d", "c"][1..] == ["c"];
  }

  lemma ExampleLaterRoots()
    ensures var m3 := map["d" := 0, "c" := 0, "x" := 2];
      ScoresFrom(ExKeys, ExDeps, ["c", "d"], m3, map["x" := 2]) == map["x" := 2, "c" := 0, "d" := 0]
  {
    var m3 := map["d" := 0, "c" := 0, "x" := 2];
    assert Visit(ExKeys, ExDeps, "c", {}, m3) == Walk(0, {}, m3);
    assert Visit(ExKeys, ExDeps, "d", {}, m3) == Walk(0, {}, m3);
    assert ["c", "d"][1..] == ["d"];
    assert ScoresFrom(ExKeys, ExDeps, ["c", "d"], m3, map["x" := 2])
        == ScoresFrom(ExKeys, ExDeps, ["d"], m3, map["x" := 2, "c" := 0]);
  }

  /**
   * A course with a pending dependent can still score 0: with dependents
   * x -> [d, c] and c -> [d], the walk from x marks d seen before it reaches c,
   * then memoises c's score from inside that walk.
   */
  lemma ScoreMissesDependent()
    ensures UnlockScores(ExampleIndex(["x", "c", "d"]), ExDeps)["c"] == 0
    ensures HasPendingDependent(ExKeys, ExDeps, "c")
  {
    assert "d" in Deps(ExDeps, "c");
    var idx := ExampleIndex(["x", "c", "d"]);
    assert idx.m.Keys == ExKeys;
    ExampleRootWalk();
    ExampleLaterRoots();
    assert ["x", "c", "d"][1..] == ["c", "d"];
  }

  const ShDeps: map<string, seq<string>> := map["x" := ["a", "b"], "a" := ["c"], "b" := ["c"]]
  const ShKeys: set<string> := {"c", "a", "b", "x"}

  /** Root a, after c: its one dependent c is memoised at 0, so a scores 1. */
  lemma SharedRootA()
    ensures Visit(ShKeys, ShDeps, "a", {}, map["c" := 0]) == Walk(1, {"c"}, map["c" := 0, "a" := 1])
  {
    var m1 := map["c" := 0];
    assert Deps(ShDeps, "a") == ["c"];
    assert {} + {"c"} == {"c"};
    assert Visit(ShKeys, ShDeps, "c", {"c"}, m1) == Walk(0, {"c"}, m1);
    assert ["c"][1..] == [];
    assert VisitDeps(ShKeys, ShDeps, ["c"], {}, m1, 0) == Walk(1, {"c"}, m1);
  }

  /** Root b, after c and a: like a, it scores 1 through the memoised c. */
  lemma SharedRootB()
    ensures Visit(ShKeys, ShDeps, "b", {}, map["c" := 0, "a" := 1]) == Walk(1, {"c"}, map["c" := 0, "a" := 1, "b" := 1])
  {
    var m2 := map["c" := 0, "a" := 1];
    assert Deps(ShDeps, "b") == ["c"];
    assert {} + {"c"} == {"c"};
    assert Visit(ShKeys, ShDeps, "c", {"c"}, m2) == Walk(0, {"c"}, m2);
    assert ["c"][1..] == [];
    assert VisitDeps(ShKeys, ShDeps, ["c"], {}, m2, 0) == Walk(1, {"c"}, m2);
  }

  /** Roots c, a, b: c scores 0, a and b score 1 each, all memoised. */
  lemma SharedFirstRoots()
    ensures var m := map["c" := 0, "a" := 1, "b" := 1];
      ScoresFrom(ShKeys, ShDeps, ["c", "a", "b", "x"], map[], map[])
        == ScoresFrom(ShKeys, ShDeps, ["x"], m, map["c" := 0, "a" := 1, "b" := 1])
  {
    var m1 := map["c" := 0];
    var m2 := map["c" := 0, "a" := 1];
    var m3 := map["c" := 0, "a" := 1, "b" := 1];
    assert Deps(ShDeps, "c") == [];
    assert Visit(ShKeys, ShDeps, "c", {}, map[]) == Walk(0, {}, m1);
    SharedRootA();
    SharedRootB();
    assert ["c", "a", "b", "x"][1..] == ["a", "b", "x"];
    assert ["a", "b", "x"][1..] == ["b", "x"];
    assert ["b", "x"][1..] == ["x"];
    assert ScoresFrom(ShKeys, ShDeps, ["b", "x"], m2, m2) == ScoresFrom(ShKeys, ShDeps, ["x"], m3, m3);
    assert ScoresFrom(ShKeys, ShDeps, ["a", "b", "x"], m1, m1) == ScoresFrom(ShKeys, ShDeps, ["b", "x"], m2, m2);
  }

  /** The last root x adds 1 + 1 for a and 1 + 1 for b, c being counted inside both. */
  lemma SharedLastRoot()
    ensures var m := map["c" := 0, "a" := 1, "b" := 1];
      ScoresFrom(ShKeys, ShDeps, ["x"], m, map["c" := 0, "a" := 1, "b" := 1])["x"] == 4
  {
    var m := map["c" := 0, "a" := 1, "b" := 1];
    assert Deps(ShDeps, "x") == ["a", "b"];
    assert {} + {"a"} == {"a"} && {"a"} + {"b"} == {"a", "b"};
    assert Visit(ShKeys, ShDeps, "a", {"a"}, m) == Walk(1, {"a"}, m);
    assert Visit(ShKeys, ShDeps, "b", {"a", "b"}, m) == Walk(1, {"a", "b"}, m);
    assert ["a", "b"][1..] == ["b"];
    assert VisitDeps(ShKeys, ShDeps, ["b"], {"a"}, m, 2) == Walk(4, {"a", "b"}, m);
    assert VisitDeps(ShKeys, ShDeps, ["a", "b"], {}, m, 0) == Walk(4, {"a", "b"}, m);
    assert Visit(ShKeys, ShDeps, "x", {}, m).count == 4;
  }

  /**
   * A course reached along two paths is counted twice: with dependents
   * x -> [a, b], a -> [c], b -> [c] and roots in the order c, a, b, x, the
   * score of x is 4 although only three courses depend on it.
   */
  lemma ScoreCountsSharedTwice()
    ensures UnlockScores(ExampleIndex(["c", "a", "b", "x"]), ShDeps)["x"] == 4
  {
    var idx := ExampleIndex(["c", "a", "b", "x"]);
    assert idx.m.Keys == ShKeys;
    SharedFirstRoots();
    SharedLastRoot();
  }
}
