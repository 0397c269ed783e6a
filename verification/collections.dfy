/**
 * Sequence utilities standing in for the JavaScript collection idioms of the
 * modelled code: `Array.prototype.filter`, the (stable) `Array.prototype.sort`,
 * and string-keyed objects / `Map`s, which remember insertion order.
 */
module Collections {

  predicate Distinct<T(==)>(s: seq<T>) {
    forall i, j | 0 <= i < j < |s| :: s[i] != s[j]
  }

  /** `s.filter(p)`. */
  function Filter<T>(s: seq<T>, p: T -> bool): (r: seq<T>)
    ensures |r| <= |s|
    ensures forall x | x in r :: x in s && p(x)
    ensures forall i | 0 <= i < |s| && p(s[i]) :: s[i] in r
    ensures multiset(r) <= multiset(s)
    ensures forall x | x in s :: multiset(r)[x] == if p(x) then multiset(s)[x] else 0
    ensures Subseq(r, s)
  {
    if s == [] then []
    else
      assert s == [s[0]] + s[1..];
      var rest := Filter(s[1..], p);
      if p(s[0]) then
        var r := [s[0]] + rest;
        assert r[1..] == rest;
        r
      else rest
  }

  /** Filtering drops exactly the rejected elements, so it shrinks iff one is rejected. */
  lemma {:induction false} FilterShrinks<T>(s: seq<T>, p: T -> bool, x: T)
    requires x in s && !p(x)
    ensures |Filter(s, p)| < |s|
  {
    if s[0] != x {
      FilterShrinks(s[1..], p, x);
    } else {
      assert |Filter(s[1..], p)| <= |s[1..]|;
    }
  }

  lemma {:induction false} FilterKeepsAll<T>(s: seq<T>, p: T -> bool)
    requires forall x | x in s :: p(x)
    ensures Filter(s, p) == s
  {
    if s != [] {
      FilterKeepsAll(s[1..], p);
      assert s == [s[0]] + s[1..];
    }
  }

  /** A sequence is duplicate-free exactly when no element occurs twice in its multiset. */
  lemma {:induction false} DistinctMultiplicity<T>(s: seq<T>)
    ensures Distinct(s) <==> forall x :: multiset(s)[x] <= 1
  {
    if s == [] {
    } else {
      DistinctMultiplicity(s[1..]);
      assert s == [s[0]] + s[1..];
      assert multiset(s) == multiset{s[0]} + multiset(s[1..]);
      if Distinct(s) {
        assert Distinct(s[1..]) by {
          forall i, j | 0 <= i < j < |s[1..]| ensures s[1..][i] != s[1..][j] {
            assert s[1..][i] == s[i + 1] && s[1..][j] == s[j + 1];
          }
        }
        assert s[0] !in s[1..] by {
          forall k | 0 <= k < |s[1..]| ensures s[1..][k] != s[0] {
            assert s[1..][k] == s[k + 1];
          }
        }
      } else {
        var i, j :| 0 <= i < j < |s| && s[i] == s[j];
        var x := s[i];
        assert s == s[..j] + s[j..];
        assert multiset(s) == multiset(s[..j]) + multiset(s[j..]);
        assert x in multiset(s[..j]) by { assert s[..j][i] == x; }
        assert x in multiset(s[j..]) by { assert s[j..][0] == x; }
        assert multiset(s)[x] >= 2;
      }
    }
  }

  /** Taking a sub-multiset of a duplicate-free sequence keeps it duplicate-free. */
  lemma SubMultisetDistinct<T>(a: seq<T>, b: seq<T>)
    requires multiset(a) <= multiset(b) && Distinct(b)
    ensures Distinct(a)
  {
    DistinctMultiplicity(a);
    DistinctMultiplicity(b);
    forall x ensures multiset(a)[x] <= 1 {
      assert multiset(a)[x] <= multiset(b)[x];
    }
  }

  /** `b` contains the elements of `a` in the same order, possibly with others in between. */
  ghost predicate Subseq<T>(a: seq<T>, b: seq<T>)
    decreases |b|
  {
    a == [] || (b != [] && ((a[0] == b[0] && Subseq(a[1..], b[1..])) || Subseq(a, b[1..])))
  }

  lemma {:induction false} SubseqMembers<T>(a: seq<T>, b: seq<T>)
    requires Subseq(a, b)
    ensures forall x | x in a :: x in b
    decreases |b|
  {
    if a != [] {
      if a[0] == b[0] && Subseq(a[1..], b[1..]) {
        SubseqMembers(a[1..], b[1..]);
        assert forall x | x in a :: x == a[0] || x in a[1..];
      } else {
        SubseqMembers(a, b[1..]);
      }
    }
  }

  /** A subsequence of a sorted sequence is sorted: picking elements keeps their relative order. */
  lemma {:induction false} SubseqSorted<T>(a: seq<T>, b: seq<T>, leq: (T, T) -> bool)
    requires Subseq(a, b) && SortedBy(b, leq)
    ensures SortedBy(a, leq)
    decreases |b|
  {
    if a != [] {
      assert SortedBy(b[1..], leq) by {
        forall i, j | 0 <= i < j < |b[1..]| ensures leq(b[1..][i], b[1..][j]) {
          assert b[1..][i] == b[i + 1] && b[1..][j] == b[j + 1];
        }
      }
      if a[0] == b[0] && Subseq(a[1..], b[1..]) {
        SubseqSorted(a[1..], b[1..], leq);
        SubseqMembers(a[1..], b[1..]);
        forall y | y in a[1..] ensures leq(a[0], y) {
          var k :| 0 <= k < |b[1..]| && b[1..][k] == y;
          assert b[k + 1] == y;
        }
        assert a == [a[0]] + a[1..];
        ConsSorted(a[0], a[1..], leq);
      } else {
        SubseqSorted(a, b[1..], leq);
      }
    }
  }

  /** A subsequence of a duplicate-free sequence is duplicate-free. */
  lemma {:induction false} SubseqDistinct<T>(a: seq<T>, b: seq<T>)
    requires Subseq(a, b) && Distinct(b)
    ensures Distinct(a)
    decreases |b|
  {
    if a != [] {
      assert Distinct(b[1..]) by {
        forall i, j | 0 <= i < j < |b[1..]| ensures b[1..][i] != b[1..][j] {
          assert b[1..][i] == b[i + 1] && b[1..][j] == b[j + 1];
        }
      }
      if a[0] == b[0] && Subseq(a[1..], b[1..]) {
        SubseqDistinct(a[1..], b[1..]);
        SubseqMembers(a[1..], b[1..]);
        forall i, j | 0 <= i < j < |a| ensures a[i] != a[j] {
          if i == 0 {
            assert a[j] == a[1..][j - 1] && a[1..][j - 1] in a[1..];
            assert a[j] in b[1..];
            var k :| 0 <= k < |b[1..]| && b[1..][k] == a[j];
            assert b[k + 1] == a[j];
          } else {
            assert a[i] == a[1..][i - 1] && a[j] == a[1..][j - 1];
          }
        }
      } else {
        SubseqDistinct(a, b[1..]);
      }
    }
  }

  /** `s` without the elements of `drop`, order kept (`Set.prototype.delete` on each). */
  function Without(s: seq<string>, drop: set<string>): (r: seq<string>)
    ensures forall x :: x in r <==> x in s && x !in drop
    ensures |r| <= |s|
  {
    if s == [] then []
    else (if s[0] in drop then [] else [s[0]]) + Without(s[1..], drop)
  }

  lemma {:induction false} WithoutWithout(s: seq<string>, a: set<string>, b: set<string>)
    ensures Without(Without(s, a), b) == Without(s, a + b)
  {
    if s != [] {
      WithoutWithout(s[1..], a, b);
      var w := Without(s, a);
      if s[0] in a {
        assert w == Without(s[1..], a);
      } else {
        assert w == [s[0]] + Without(s[1..], a);
        assert w[1..] == Without(s[1..], a);
      }
    }
  }

  lemma {:induction false} WithoutShrinks(s: seq<string>, drop: set<string>, x: string)
    requires x in s && x in drop
    ensures |Without(s, drop)| < |s|
  {
    if s[0] != x {
      WithoutShrinks(s[1..], drop, x);
    }
  }

  lemma {:induction false} WithoutDistinct(s: seq<string>, drop: set<string>)
    requires Distinct(s)
    ensures Distinct(Without(s, drop))
  {
    if s != [] {
      assert Distinct(s[1..]) by {
        forall i, j | 0 <= i < j < |s[1..]| ensures s[1..][i] != s[1..][j] {
          assert s[1..][i] == s[i + 1] && s[1..][j] == s[j + 1];
        }
      }
      WithoutDistinct(s[1..], drop);
      assert s[0] !in s[1..] by {
        forall k | 0 <= k < |s[1..]| ensures s[1..][k] != s[0] {
          assert s[1..][k] == s[k + 1];
        }
      }
    }
  }

  // ------------------------------------------------------------------ sorting

  /** `leq` is total and transitive on the elements of `dom`. */
  ghost predicate TotalPreorderOn<T>(dom: seq<T>, leq: (T, T) -> bool) {
    && (forall a, b | a in dom && b in dom :: leq(a, b) || leq(b, a))
    && (forall a, b, c | a in dom && b in dom && c in dom && leq(a, b) && leq(b, c) :: leq(a, c))
  }

  predicate SortedBy<T>(s: seq<T>, leq: (T, T) -> bool) {
    forall i, j | 0 <= i < j < |s| :: leq(s[i], s[j])
  }

  /** In a sorted sequence, an element not below a later-indexed one cannot come before it. */
  lemma SortedIndexOrder<T>(s: seq<T>, leq: (T, T) -> bool, i: int, j: int)
    requires SortedBy(s, leq)
    requires 0 <= i < |s| && 0 <= j < |s| && !leq(s[i], s[j])
    ensures j <= i
  {
  }

  /** Puts `x` after every element it is not strictly below: ties keep arrival order. */
  function Insert<T>(x: T, s: seq<T>, leq: (T, T) -> bool): (r: seq<T>)
    ensures multiset(r) == multiset(s) + multiset{x}
    ensures |r| == |s| + 1
  {
    if s == [] then [x]
    else if leq(s[0], x) then
      assert s == [s[0]] + s[1..];
      [s[0]] + Insert(x, s[1..], leq)
    else [x] + s
  }

  /**
   * Stable insertion sort. With a comparator that is a total preorder every
   * stable sort returns this same sequence, so it stands for `Array.prototype.sort`.
   */
  function SortBy<T>(s: seq<T>, leq: (T, T) -> bool): (r: seq<T>)
    ensures multiset(r) == multiset(s)
    ensures |r| == |s|
    decreases |s|
  {
    if s == [] then []
    else
      assert s == s[..|s| - 1] + [s[|s| - 1]];
      Insert(s[|s| - 1], SortBy(s[..|s| - 1], leq), leq)
  }

  lemma PreorderTotal<T>(dom: seq<T>, leq: (T, T) -> bool, a: T, b: T)
    requires TotalPreorderOn(dom, leq) && a in dom && b in dom
    ensures leq(a, b) || leq(b, a)
  {
  }

  lemma PreorderTransitive<T>(dom: seq<T>, leq: (T, T) -> bool, a: T, b: T, c: T)
    requires TotalPreorderOn(dom, leq) && a in dom && b in dom && c in dom
    requires leq(a, b) && leq(b, c)
    ensures leq(a, c)
  {
  }

  /** Prepending an element that is below everything keeps a sequence sorted. */
  lemma ConsSorted<T>(x: T, s: seq<T>, leq: (T, T) -> bool)
    requires SortedBy(s, leq)
    requires forall y | y in s :: leq(x, y)
    ensures SortedBy([x] + s, leq)
  {
    var r := [x] + s;
    forall i, j | 0 <= i < j < |r| ensures leq(r[i], r[j]) {
      assert r[j] == s[j - 1];
      if i == 0 {
        assert r[j] in s;
      } else {
        assert r[i] == s[i - 1];
      }
    }
  }

  lemma {:induction false} InsertSorted<T>(x: T, s: seq<T>, leq: (T, T) -> bool, dom: seq<T>)
    requires TotalPreorderOn(dom, leq)
    requires x in dom && forall y | y in s :: y in dom
    requires SortedBy(s, leq)
    ensures SortedBy(Insert(x, s, leq), leq)
  {
    if s != [] {
      if leq(s[0], x) {
        var tail := Insert(x, s[1..], leq);
        assert SortedBy(s[1..], leq) by {
          forall i, j | 0 <= i < j < |s[1..]| ensures leq(s[1..][i], s[1..][j]) {
            assert s[1..][i] == s[i + 1] && s[1..][j] == s[j + 1];
          }
        }
        InsertSorted(x, s[1..], leq, dom);
        forall y | y in tail ensures leq(s[0], y) {
          assert y in multiset(tail);
          if y != x {
            assert y in multiset(s[1..]);
            var k :| 0 <= k < |s[1..]| && s[1..][k] == y;
            assert s[k + 1] == y;
          }
        }
        ConsSorted(s[0], tail, leq);
      } else {
        PreorderTotal(dom, leq, x, s[0]);
        forall y | y in s ensures leq(x, y) {
          var k :| 0 <= k < |s| && s[k] == y;
          if k > 0 {
            PreorderTransitive(dom, leq, x, s[0], y);
          }
        }
        ConsSorted(x, s, leq);
      }
    }
  }

  lemma {:induction false} SortBySorted<T>(s: seq<T>, leq: (T, T) -> bool)
    requires TotalPreorderOn(s, leq)
    ensures SortedBy(SortBy(s, leq), leq)
    decreases |s|
  {
    if s != [] {
      var init := s[..|s| - 1];
      assert TotalPreorderOn(init, leq) by {
        assert forall y | y in init :: y in s;
      }
      SortBySorted(init, leq);
      var sorted := SortBy(init, leq);
      forall y | y in sorted ensures y in s {
        assert y in multiset(sorted);
        assert y in init;
      }
      InsertSorted(s[|s| - 1], sorted, leq, s);
    }
  }

  /** `s.flatMap(f)`: the pieces `f` gives each element, concatenated in order. */
  function FlatMap<T, U>(s: seq<T>, f: T -> seq<U>): seq<U> {
    if s == [] then [] else f(s[0]) + FlatMap(s[1..], f)
  }

  lemma {:induction false} FlatMapAppend<T, U>(a: seq<T>, b: seq<T>, f: T -> seq<U>)
    ensures FlatMap(a + b, f) == FlatMap(a, f) + FlatMap(b, f)
  {
    if a == [] {
      assert a + b == b;
    } else {
      assert (a + b)[1..] == a[1..] + b;
      FlatMapAppend(a[1..], b, f);
    }
  }

  lemma {:induction false} FlatMapInsert<T, U>(x: T, s: seq<T>, leq: (T, T) -> bool, f: T -> seq<U>)
    ensures multiset(FlatMap(Insert(x, s, leq), f)) == multiset(FlatMap(s, f)) + multiset(f(x))
  {
    if s == [] {
      assert FlatMap([x], f) == f(x) + FlatMap([x][1..], f);
    } else if leq(s[0], x) {
      var r := Insert(x, s, leq);
      assert r[1..] == Insert(x, s[1..], leq);
      FlatMapInsert(x, s[1..], leq, f);
    } else {
      assert ([x] + s)[1..] == s;
    }
  }

  /** Sorting only reorders the elements, so it keeps the multiset of their pieces. */
  lemma {:induction false} FlatMapSortBy<T, U>(s: seq<T>, leq: (T, T) -> bool, f: T -> seq<U>)
    ensures multiset(FlatMap(SortBy(s, leq), f)) == multiset(FlatMap(s, f))
    decreases |s|
  {
    if s != [] {
      var init := s[..|s| - 1];
      FlatMapSortBy(init, leq, f);
      FlatMapInsert(s[|s| - 1], SortBy(init, leq), leq, f);
      assert s == init + [s[|s| - 1]];
      FlatMapAppend(init, [s[|s| - 1]], f);
      assert FlatMap([s[|s| - 1]], f) == f(s[|s| - 1]) + FlatMap([s[|s| - 1]][1..], f);
    }
  }

  // ----------------------------------------------------------- ordered maps

  /**
   * A string-keyed JavaScript object or `Map`: the values, plus the keys in
   * the order they were first inserted (what `Object.keys` and iteration see).
   */
  datatype OrderedMap<V> = OrderedMap(keys: seq<string>, m: map<string, V>) {

    ghost predicate Valid() {
      Distinct(keys) && forall k :: k in m <==> k in keys
    }

    /** `obj[k] = v`: a new key goes last, an existing key keeps its place. */
    function Put(k: string, v: V): (r: OrderedMap<V>)
      ensures Valid() ==> r.Valid()
      ensures r.m == m[k := v]
      ensures r.keys == if k in m then keys else keys + [k]
    {
      if k in m then OrderedMap(keys, m[k := v]) else OrderedMap(keys + [k], m[k := v])
    }

    /** `Object.values(obj)` / `Array.from(map.values())`. */
    function Values(): (vs: seq<V>)
      requires Valid()
      ensures |vs| == |keys|
      ensures forall i | 0 <= i < |keys| :: vs[i] == m[keys[i]]
    {
      seq(|keys|, i requires 0 <= i < |keys| => m[keys[i]])
    }
  }

  function EmptyMap<V>(): (r: OrderedMap<V>)
    ensures r.Valid() && r.keys == [] && r.m == map[]
  {
    OrderedMap([], map[])
  }
}
