/**
 * Grouping items by key in first-seen order, the idiom both the backend
 * (`periodoMap`, `pendientesPorNivel`) and the frontend (`grouped[semesterKey]`)
 * write as "create the bucket if missing, then push": a list of buckets whose
 * keys appear in the order they were first met, each holding its items in
 * arrival order.
 */
module Grouping {
  import opened Collections

  datatype Bucket<K, V> = Bucket(key: K, items: seq<V>)

  /** The bucket keys, in order. */
  function Keys<K, V>(bs: seq<Bucket<K, V>>): (ks: seq<K>)
    ensures |ks| == |bs|
    ensures forall i | 0 <= i < |bs| :: ks[i] == bs[i].key
  {
    seq(|bs|, i requires 0 <= i < |bs| => bs[i].key)
  }

  /** The position of the bucket with key `k`. */
  function FindKey<K(==), V>(bs: seq<Bucket<K, V>>, k: K): (i: nat)
    requires k in Keys(bs)
    ensures i < |bs| && bs[i].key == k
    ensures forall j | 0 <= j < i :: bs[j].key != k
  {
    if bs[0].key == k then 0
    else
      assert Keys(bs)[1..] == Keys(bs[1..]);
      FindKey(bs[1..], k) + 1
  }

  /** `if (!grouped[k]) grouped[k] = []; grouped[k].push(v)`. */
  function AddTo<K(==), V>(bs: seq<Bucket<K, V>>, k: K, v: V): (r: seq<Bucket<K, V>>)
    ensures |bs| <= |r| && forall i | 0 <= i < |bs| :: r[i].key == bs[i].key
  {
    if k in Keys(bs) then
      var i := FindKey(bs, k);
      bs[i := Bucket(k, bs[i].items + [v])]
    else bs + [Bucket(k, [v])]
  }

  /** The buckets the loop over `ps` builds, each pair giving a key and an item. */
  function GroupBy<K(==), V>(ps: seq<(K, V)>): seq<Bucket<K, V>>
    decreases |ps|
  {
    if ps == [] then []
    else
      var last := ps[|ps| - 1];
      AddTo(GroupBy(ps[..|ps| - 1]), last.0, last.1)
  }

  /** The items of the pairs with key `k`, in order: what a bucket should hold. */
  function Matching<K(==), V>(ps: seq<(K, V)>, k: K): seq<V>
    decreases |ps|
  {
    if ps == [] then []
    else
      var last := ps[|ps| - 1];
      Matching(ps[..|ps| - 1], k) + (if last.0 == k then [last.1] else [])
  }

  /** The keys of a list of pairs. */
  ghost function KeysOf<K, V>(ps: seq<(K, V)>): set<K> {
    set p | p in ps :: p.0
  }

  /** `bs` is exactly the grouping of `ps`: one bucket per key, holding its items in order. */
  ghost predicate Groups<K, V>(bs: seq<Bucket<K, V>>, ps: seq<(K, V)>) {
    && Distinct(Keys(bs))
    && (forall i | 0 <= i < |bs| :: bs[i].key in KeysOf(ps))
    && (forall p | p in ps :: p.0 in Keys(bs))
    && (forall i | 0 <= i < |bs| :: bs[i].items == Matching(ps, bs[i].key))
  }

  /** `Groups`, except that each key of `extra` has a bucket too, which may be empty. */
  ghost predicate GroupsAlso<K, V>(bs: seq<Bucket<K, V>>, ps: seq<(K, V)>, extra: set<K>) {
    && Distinct(Keys(bs))
    && (forall i | 0 <= i < |bs| :: bs[i].key in KeysOf(ps) + extra)
    && (forall p | p in ps :: p.0 in Keys(bs))
    && (forall k | k in extra :: k in Keys(bs))
    && (forall i | 0 <= i < |bs| :: bs[i].items == Matching(ps, bs[i].key))
  }

  lemma AddToGroups<K, V>(bs: seq<Bucket<K, V>>, ps: seq<(K, V)>, k: K, v: V)
    requires Groups(bs, ps)
    ensures Groups(AddTo(bs, k, v), ps + [(k, v)])
  {
    assert KeysOf(ps) + {} == KeysOf(ps);
    assert KeysOf(ps + [(k, v)]) + {} == KeysOf(ps + [(k, v)]);
    AddToGroupsAlso(bs, ps, {}, k, v);
  }

  lemma AddToGroupsAlso<K, V>(bs: seq<Bucket<K, V>>, ps: seq<(K, V)>, extra: set<K>, k: K, v: V)
    requires GroupsAlso(bs, ps, extra)
    ensures GroupsAlso(AddTo(bs, k, v), ps + [(k, v)], extra)
  {
    var ps' := ps + [(k, v)];
    var bs' := AddTo(bs, k, v);
    assert ps'[..|ps'| - 1] == ps;
    assert forall x :: Matching(ps', x) == Matching(ps, x) + (if x == k then [v] else []);
    assert KeysOf(ps') == KeysOf(ps) + {k} by {
      forall x | x in KeysOf(ps') ensures x in KeysOf(ps) + {k} {
        var p :| p in ps' && p.0 == x;
        if p != (k, v) {
          assert p in ps;
        }
      }
      assert (k, v) in ps';
      forall x | x in KeysOf(ps) ensures x in KeysOf(ps') {
        var p :| p in ps && p.0 == x;
        assert p in ps';
      }
    }
    if k in Keys(bs) {
      var i := FindKey(bs, k);
      forall j | 0 <= j < |bs'| ensures bs'[j].items == Matching(ps', bs'[j].key) {
        if j != i {
          assert bs[j].key != k by {
            assert Keys(bs)[i] == k && Keys(bs)[j] == bs[j].key;
          }
        }
      }
      assert Keys(bs') == Keys(bs);
    } else {
      assert Keys(bs') == Keys(bs) + [k];
      assert Matching(ps, k) == [] by {
        MatchingAbsent(ps, k);
      }
    }
  }

  /** A key that no pair carries matches nothing. */
  lemma {:induction false} MatchingAbsent<K, V>(ps: seq<(K, V)>, k: K)
    requires k !in KeysOf(ps)
    ensures Matching(ps, k) == []
    decreases |ps|
  {
    if ps != [] {
      var init := ps[..|ps| - 1];
      assert KeysOf(init) <= KeysOf(ps) by {
        forall x | x in KeysOf(init) ensures x in KeysOf(ps) {
          var p :| p in init && p.0 == x;
          assert p in ps;
        }
      }
      assert ps[|ps| - 1] in ps;
      MatchingAbsent(init, k);
    }
  }

  /** The buckets hold exactly the items of each key, keys distinct and none missing. */
  lemma {:induction false} GroupByGroups<K, V>(ps: seq<(K, V)>)
    ensures Groups(GroupBy(ps), ps)
    decreases |ps|
  {
    if ps == [] {
      assert KeysOf(ps) == {};
    } else {
      var init := ps[..|ps| - 1];
      GroupByGroups(init);
      AddToGroups(GroupBy(init), init, ps[|ps| - 1].0, ps[|ps| - 1].1);
      assert init + [ps[|ps| - 1]] == ps;
    }
  }

  /** The position of the first pair with key `k`, or `|ps|` when no pair has it. */
  function FirstIndex<K(==), V>(ps: seq<(K, V)>, k: K): (n: nat)
    ensures n <= |ps|
    ensures n < |ps| ==> ps[n].0 == k
    ensures forall x | 0 <= x < n :: ps[x].0 != k
    decreases |ps|
  {
    if ps == [] then 0
    else if ps[0].0 == k then 0
    else 1 + FirstIndex(ps[1..], k)
  }

  /** A position holding `k` with no `k` before it is the first position of `k`. */
  lemma {:induction false} FirstIndexAt<K, V>(ps: seq<(K, V)>, k: K, n: nat)
    requires n < |ps| && ps[n].0 == k
    requires forall y | 0 <= y < n :: ps[y].0 != k
    ensures FirstIndex(ps, k) == n
    decreases |ps|
  {
    if ps[0].0 != k {
      FirstIndexAt(ps[1..], k, n - 1);
    }
  }

  /** Appending a pair leaves the first position of every key already present. */
  lemma FirstIndexSnoc<K, V>(ps: seq<(K, V)>, p: (K, V), k: K)
    ensures k in KeysOf(ps) ==> FirstIndex(ps + [p], k) == FirstIndex(ps, k) < |ps|
    ensures k !in KeysOf(ps) && k == p.0 ==> FirstIndex(ps + [p], k) == |ps|
  {
    var ps' := ps + [p];
    if k in KeysOf(ps) {
      var q :| q in ps && q.0 == k;
      var x :| 0 <= x < |ps| && ps[x] == q;
      var n := FirstIndex(ps, k);
      assert n <= x;
      FirstIndexAt(ps', k, n);
    } else if k == p.0 {
      forall y | 0 <= y < |ps| ensures ps'[y].0 != k {
        assert ps[y] in ps;
      }
      FirstIndexAt(ps', k, |ps|);
    }
  }

  /**
   * The buckets come in the order their keys first appear among the pairs:
   * an earlier bucket's key shows up strictly before a later bucket's.
   */
  lemma {:induction false} GroupByFirstSeen<K, V>(ps: seq<(K, V)>)
    ensures var bs := GroupBy(ps);
      forall i, j | 0 <= i < j < |bs| :: FirstIndex(ps, bs[i].key) < FirstIndex(ps, bs[j].key)
    decreases |ps|
  {
    if ps != [] {
      var init := ps[..|ps| - 1];
      var last := ps[|ps| - 1];
      assert init + [last] == ps;
      GroupByFirstSeen(init);
      GroupByGroups(init);
      var prev := GroupBy(init);
      var bs := GroupBy(ps);
      assert bs == AddTo(prev, last.0, last.1);
      forall i | 0 <= i < |prev| ensures FirstIndex(ps, bs[i].key) == FirstIndex(init, prev[i].key) < |init| {
        FirstIndexSnoc(init, last, prev[i].key);
      }
      if last.0 !in Keys(prev) {
        assert bs == prev + [Bucket(last.0, [last.1])];
        assert last.0 !in KeysOf(init);
        FirstIndexSnoc(init, last, last.0);
        forall i, j | 0 <= i < j < |bs| ensures FirstIndex(ps, bs[i].key) < FirstIndex(ps, bs[j].key) {
          if j == |prev| {
            assert bs[j].key == last.0;
          } else {
            assert 0 <= i < j < |prev| == |GroupBy(init)|;
            assert FirstIndex(init, prev[i].key) < FirstIndex(init, prev[j].key);
          }
        }
      } else {
        assert |bs| == |prev|;
        forall i, j | 0 <= i < j < |bs| ensures FirstIndex(ps, bs[i].key) < FirstIndex(ps, bs[j].key) {
          assert FirstIndex(init, prev[i].key) < FirstIndex(init, prev[j].key);
        }
      }
    }
  }

  /** The items of pair-list `ps` under key `k` all come from pairs with that key. */
  lemma {:induction false} MatchingFrom<K, V>(ps: seq<(K, V)>, k: K)
    ensures forall v | v in Matching(ps, k) :: (k, v) in ps
    decreases |ps|
  {
    if ps != [] {
      var init := ps[..|ps| - 1];
      MatchingFrom(init, k);
      assert forall p | p in init :: p in ps;
      assert ps[|ps| - 1] in ps;
    }
  }

  /** Every pair's item is among the items matching its key. */
  lemma {:induction false} MatchingHas<K, V>(ps: seq<(K, V)>, p: (K, V))
    requires p in ps
    ensures p.1 in Matching(ps, p.0)
    decreases |ps|
  {
    var init := ps[..|ps| - 1];
    if p != ps[|ps| - 1] {
      assert p in init by {
        var i :| 0 <= i < |ps| && ps[i] == p;
        assert init[i] == p;
      }
      MatchingHas(init, p);
    }
  }

  /** `if (!combined[k]) combined[k] = []`: a bucket for `k`, added last when missing. */
  function Touch<K(==), V>(bs: seq<Bucket<K, V>>, k: K): (r: seq<Bucket<K, V>>)
    ensures |bs| <= |r| && forall i | 0 <= i < |bs| :: r[i] == bs[i]
  {
    if k in Keys(bs) then bs else bs + [Bucket(k, [])]
  }

  lemma TouchGroups<K, V>(bs: seq<Bucket<K, V>>, ps: seq<(K, V)>, extra: set<K>, k: K)
    requires GroupsAlso(bs, ps, extra)
    ensures GroupsAlso(Touch(bs, k), ps, extra + {k})
  {
    if k !in Keys(bs) {
      assert Keys(Touch(bs, k)) == Keys(bs) + [k];
      MatchingAbsent(ps, k);
    }
  }

  /** `if (!grouped[key(x)]) grouped[key(x)] = []`, then push every pair of `pairs(x)`. */
  function TouchAdd<S, K(==), V>(bs: seq<Bucket<K, V>>, x: S, key: S -> K, pairs: S -> seq<(K, V)>)
    : (r: seq<Bucket<K, V>>)
  {
    AddAll(Touch(bs, key(x)), pairs(x))
  }

  /** `TouchAdd` for each source of `xs` in turn. */
  function TouchAddAll<S, K(==), V>(bs: seq<Bucket<K, V>>, xs: seq<S>, key: S -> K, pairs: S -> seq<(K, V)>)
    : (r: seq<Bucket<K, V>>)
    ensures |bs| <= |r| && forall i | 0 <= i < |bs| :: r[i].key == bs[i].key
    decreases |xs|
  {
    if xs == [] then bs else TouchAddAll(TouchAdd(bs, xs[0], key, pairs), xs[1..], key, pairs)
  }

  /** The pairs of all sources, source by source. */
  function AllPairs<S, K, V>(xs: seq<S>, pairs: S -> seq<(K, V)>): seq<(K, V)> {
    if xs == [] then [] else pairs(xs[0]) + AllPairs(xs[1..], pairs)
  }

  /** The bucket keys the sources open. */
  function AllKeys<S, K>(xs: seq<S>, key: S -> K): set<K> {
    if xs == [] then {} else {key(xs[0])} + AllKeys(xs[1..], key)
  }

  /** Opening the bucket of one source and pushing its pairs keeps a grouping. */
  lemma TouchAddGroups<S, K, V>(bs: seq<Bucket<K, V>>, qs: seq<(K, V)>, extra: set<K>, x: S,
                                key: S -> K, pairs: S -> seq<(K, V)>)
    requires GroupsAlso(bs, qs, extra)
    ensures GroupsAlso(TouchAdd(bs, x, key, pairs), qs + pairs(x), extra + {key(x)})
  {
    TouchGroups(bs, qs, extra, key(x));
    AddAllGroups(Touch(bs, key(x)), qs, extra + {key(x)}, pairs(x));
  }

  /**
   * Any property of (buckets, pairs so far, opened keys) that one `TouchAdd`
   * preserves holds after all of them.
   */
  lemma {:induction false} TouchAddAllKeeps<S, K, V>(inv: (seq<Bucket<K, V>>, seq<(K, V)>, set<K>) -> bool,
                                                     bs: seq<Bucket<K, V>>, qs: seq<(K, V)>, extra: set<K>, xs: seq<S>,
                                                     key: S -> K, pairs: S -> seq<(K, V)>,
                                                     ps: seq<(K, V)>, keys: set<K>)
    requires forall b, q, e, x | inv(b, q, e) :: inv(TouchAdd(b, x, key, pairs), q + pairs(x), e + {key(x)})
    requires inv(bs, qs, extra)
    requires ps == qs + AllPairs(xs, pairs) && keys == extra + AllKeys(xs, key)
    ensures inv(TouchAddAll(bs, xs, key, pairs), ps, keys)
    decreases |xs|
  {
    if xs == [] {
      assert ps == qs && keys == extra;
    } else {
      var k := key(xs[0]);
      assert ps == qs + pairs(xs[0]) + AllPairs(xs[1..], pairs);
      assert keys == extra + {k} + AllKeys(xs[1..], key);
      TouchAddAllKeeps(inv, TouchAdd(bs, xs[0], key, pairs), qs + pairs(xs[0]), extra + {k}, xs[1..], key, pairs, ps, keys);
    }
  }

  /**
   * Opening and filling the buckets of every source keeps a grouping: the
   * pairs grow by all the sources' pairs, and every opened key has a bucket.
   */
  lemma TouchAddAllGroups<S, K, V>(bs: seq<Bucket<K, V>>, qs: seq<(K, V)>, extra: set<K>, xs: seq<S>,
                                   key: S -> K, pairs: S -> seq<(K, V)>)
    requires GroupsAlso(bs, qs, extra)
    ensures GroupsAlso(TouchAddAll(bs, xs, key, pairs), qs + AllPairs(xs, pairs), extra + AllKeys(xs, key))
  {
    var inv := (b, q, e) => GroupsAlso(b, q, e);
    forall b, q, e, x | inv(b, q, e) ensures inv(TouchAdd(b, x, key, pairs), q + pairs(x), e + {key(x)}) {
      TouchAddGroups(b, q, e, x, key, pairs);
    }
    TouchAddAllKeeps(inv, bs, qs, extra, xs, key, pairs, qs + AllPairs(xs, pairs), extra + AllKeys(xs, key));
  }

  /** Pushing the pairs of `ps` one after another. */
  function AddAll<K(==), V>(bs: seq<Bucket<K, V>>, ps: seq<(K, V)>): (r: seq<Bucket<K, V>>)
    ensures |bs| <= |r| && forall i | 0 <= i < |bs| :: r[i].key == bs[i].key
    decreases |ps|
  {
    if ps == [] then bs else AddAll(AddTo(bs, ps[0].0, ps[0].1), ps[1..])
  }

  lemma {:induction false} AddAllGroups<K, V>(bs: seq<Bucket<K, V>>, qs: seq<(K, V)>, extra: set<K>, ps: seq<(K, V)>)
    requires GroupsAlso(bs, qs, extra)
    ensures GroupsAlso(AddAll(bs, ps), qs + ps, extra)
    decreases |ps|
  {
    if ps == [] {
      assert qs + ps == qs;
    } else {
      AddToGroupsAlso(bs, qs, extra, ps[0].0, ps[0].1);
      AddAllGroups(AddTo(bs, ps[0].0, ps[0].1), qs + [ps[0]], extra, ps[1..]);
      assert qs + [ps[0]] + ps[1..] == qs + ps;
    }
  }

  /** The items of a key in two lists of pairs are those of the first list, then those of the second. */
  lemma {:induction false} MatchingAppend<K, V>(ps: seq<(K, V)>, qs: seq<(K, V)>, k: K)
    ensures Matching(ps + qs, k) == Matching(ps, k) + Matching(qs, k)
    decreases |qs|
  {
    if qs == [] {
      assert ps + qs == ps;
    } else {
      var init := qs[..|qs| - 1];
      assert (ps + qs)[..|ps + qs| - 1] == ps + init;
      MatchingAppend(ps, init, k);
    }
  }

  // ---------------------------------------------------------------- reordering

  /** The pieces `Keys` is made of, as a function for `FlatMap`. */
  function KeyPiece<K, V>(b: Bucket<K, V>): seq<K> {
    [b.key]
  }

  lemma {:induction false} KeysFlat<K, V>(bs: seq<Bucket<K, V>>)
    ensures Keys(bs) == FlatMap(bs, KeyPiece)
  {
    if bs != [] {
      KeysFlat(bs[1..]);
      assert Keys(bs) == [bs[0].key] + Keys(bs[1..]);
    }
  }

  /** `Groups` up to the order of the items inside each bucket. */
  ghost predicate GroupsPermuted<K, V>(bs: seq<Bucket<K, V>>, ps: seq<(K, V)>) {
    && Distinct(Keys(bs))
    && (forall i | 0 <= i < |bs| :: bs[i].key in KeysOf(ps))
    && (forall p | p in ps :: p.0 in Keys(bs))
    && (forall i | 0 <= i < |bs| :: multiset(bs[i].items) == multiset(Matching(ps, bs[i].key)))
  }

  lemma GroupsArePermuted<K, V>(bs: seq<Bucket<K, V>>, ps: seq<(K, V)>)
    requires Groups(bs, ps)
    ensures GroupsPermuted(bs, ps)
  {
  }

  /** Sorting inside each bucket keeps the contents of every bucket. */
  lemma SortItemsPermuted<K, V>(bs: seq<Bucket<K, V>>, ps: seq<(K, V)>, leq: (V, V) -> bool)
    requires GroupsPermuted(bs, ps)
    ensures GroupsPermuted(SortItems(bs, leq), ps)
  {
  }

  /**
   * Reordering the buckets with a stable sort keeps them a grouping of the
   * same pairs: only their order changes.
   */
  lemma SortedGroups<K, V>(bs: seq<Bucket<K, V>>, ps: seq<(K, V)>, leq: (Bucket<K, V>, Bucket<K, V>) -> bool)
    requires GroupsPermuted(bs, ps)
    ensures GroupsPermuted(SortBy(bs, leq), ps)
  {
    var s := SortBy(bs, leq);
    SortedKeysDistinct(bs, leq);
    forall p | p in ps ensures p.0 in Keys(s) {
      var j :| 0 <= j < |bs| && Keys(bs)[j] == p.0;
      SameBuckets(bs, s, j);
      var i :| 0 <= i < |s| && s[i] == bs[j];
      assert Keys(s)[i] == p.0;
    }
    forall i | 0 <= i < |s|
      ensures s[i].key in KeysOf(ps) && multiset(s[i].items) == multiset(Matching(ps, s[i].key))
    {
      SameBuckets(s, bs, i);
    }
  }

  /** Sorting the buckets keeps their keys distinct. */
  lemma SortedKeysDistinct<K, V>(bs: seq<Bucket<K, V>>, leq: (Bucket<K, V>, Bucket<K, V>) -> bool)
    requires Distinct(Keys(bs))
    ensures Distinct(Keys(SortBy(bs, leq)))
  {
    var s := SortBy(bs, leq);
    KeysFlat(bs);
    KeysFlat(s);
    FlatMapSortBy(bs, leq, KeyPiece);
    SubMultisetDistinct(Keys(s), Keys(bs));
  }

  /** A bucket of one list is a bucket of any list with the same multiset of buckets. */
  lemma SameBuckets<K, V>(a: seq<Bucket<K, V>>, b: seq<Bucket<K, V>>, j: int)
    requires multiset(a) == multiset(b) && 0 <= j < |a|
    ensures exists i | 0 <= i < |b| :: b[i] == a[j]
  {
    assert a[j] in multiset(a);
    assert a[j] in b;
  }

  /** Every pair lands in the bucket of its key. */
  lemma GroupsCover<K, V>(bs: seq<Bucket<K, V>>, ps: seq<(K, V)>, p: (K, V))
    requires GroupsPermuted(bs, ps) && p in ps
    ensures exists i | 0 <= i < |bs| :: bs[i].key == p.0 && p.1 in bs[i].items
  {
    var i :| 0 <= i < |bs| && Keys(bs)[i] == p.0;
    MatchingHas(ps, p);
    assert p.1 in multiset(Matching(ps, p.0));
  }

  /** Every item of a bucket comes from a pair with the bucket's key. */
  lemma GroupsFrom<K, V>(bs: seq<Bucket<K, V>>, ps: seq<(K, V)>, i: int, v: V)
    requires GroupsPermuted(bs, ps) && 0 <= i < |bs| && v in bs[i].items
    ensures (bs[i].key, v) in ps
  {
    assert v in multiset(Matching(ps, bs[i].key));
    MatchingFrom(ps, bs[i].key);
  }

  /** Every bucket's key is the key of some pair. */
  lemma GroupsKeyFrom<K, V>(bs: seq<Bucket<K, V>>, ps: seq<(K, V)>, i: int)
    requires GroupsPermuted(bs, ps) && 0 <= i < |bs|
    ensures exists p | p in ps :: p.0 == bs[i].key
  {
    assert bs[i].key in KeysOf(ps);
  }

  /**
   * Grouping, sorting every bucket's items and then sorting the buckets gives
   * a grouping of the same pairs, buckets in order and items in order.
   */
  lemma GroupSortedThenOrdered<K, V>(ps: seq<(K, V)>, ileq: (V, V) -> bool, bleq: (Bucket<K, V>, Bucket<K, V>) -> bool)
    requires forall xs: seq<V> :: TotalPreorderOn(xs, ileq)
    requires forall bs: seq<Bucket<K, V>> :: TotalPreorderOn(bs, bleq)
    ensures var r := SortBy(SortItems(GroupBy(ps), ileq), bleq);
      && GroupsPermuted(r, ps)
      && SortedBy(r, bleq)
      && forall i | 0 <= i < |r| :: SortedBy(r[i].items, ileq)
  {
    var hist := GroupBy(ps);
    var items := SortItems(hist, ileq);
    var r := SortBy(items, bleq);
    assert GroupsPermuted(r, ps) by {
      GroupByGroups(ps);
      GroupsArePermuted(hist, ps);
      SortItemsPermuted(hist, ps, ileq);
      SortedGroups(items, ps, bleq);
    }
    assert SortedBy(r, bleq) by {
      SortBySorted(items, bleq);
    }
    SortItemsSorted(hist, ileq);
    ReorderKeepsItemsSorted(items, ileq, bleq);
  }

  /** After `SortItems`, every bucket's items are in order. */
  lemma SortItemsSorted<K, V>(bs: seq<Bucket<K, V>>, leq: (V, V) -> bool)
    requires forall xs: seq<V> :: TotalPreorderOn(xs, leq)
    ensures forall i | 0 <= i < |bs| :: SortedBy(SortItems(bs, leq)[i].items, leq)
  {
    forall i | 0 <= i < |bs| ensures SortedBy(SortItems(bs, leq)[i].items, leq) {
      SortBySorted(bs[i].items, leq);
    }
  }

  /** Reordering buckets whose items are in order leaves every bucket's items in order. */
  lemma ReorderKeepsItemsSorted<K, V>(bs: seq<Bucket<K, V>>, ileq: (V, V) -> bool, bleq: (Bucket<K, V>, Bucket<K, V>) -> bool)
    requires forall i | 0 <= i < |bs| :: SortedBy(bs[i].items, ileq)
    ensures forall i | 0 <= i < |SortBy(bs, bleq)| :: SortedBy(SortBy(bs, bleq)[i].items, ileq)
  {
    var r := SortBy(bs, bleq);
    forall i | 0 <= i < |r| ensures SortedBy(r[i].items, ileq) {
      SameBuckets(r, bs, i);
    }
  }

  /**
   * Grouping, sorting the buckets and then every bucket's items gives a
   * grouping of the same pairs, items in order, with the keys of the buckets
   * as the bucket sort left them.
   */
  lemma GroupOrderedThenSorted<K, V>(ps: seq<(K, V)>, ileq: (V, V) -> bool, bleq: (Bucket<K, V>, Bucket<K, V>) -> bool)
    requires forall xs: seq<V> :: TotalPreorderOn(xs, ileq)
    requires forall bs: seq<Bucket<K, V>> :: TotalPreorderOn(bs, bleq)
    ensures var sorted := SortBy(GroupBy(ps), bleq);
      var r := SortItems(sorted, ileq);
      && GroupsPermuted(r, ps)
      && SortedBy(sorted, bleq) && Keys(r) == Keys(sorted)
      && forall i | 0 <= i < |r| :: SortedBy(r[i].items, ileq)
  {
    var hist := GroupBy(ps);
    var sorted := SortBy(hist, bleq);
    var r := SortItems(sorted, ileq);
    assert GroupsPermuted(r, ps) by {
      GroupByGroups(ps);
      GroupsArePermuted(hist, ps);
      SortedGroups(hist, ps, bleq);
      SortItemsPermuted(sorted, ps, ileq);
    }
    SortBySorted(hist, bleq);
    SortItemsSorted(sorted, ileq);
  }

  /** Sorts the items of every bucket, leaving the keys in place. */
  function SortItems<K, V>(bs: seq<Bucket<K, V>>, leq: (V, V) -> bool): (r: seq<Bucket<K, V>>)
    ensures |r| == |bs| && Keys(r) == Keys(bs)
    ensures forall i | 0 <= i < |bs| :: r[i].items == SortBy(bs[i].items, leq)
  {
    seq(|bs|, i requires 0 <= i < |bs| => Bucket(bs[i].key, SortBy(bs[i].items, leq)))
  }
}
