/**
 * `findMostRecentCareer` (frontend/src/services/AvanceService.ts): the
 * programme with the latest catalogue, read as a year (characters 0-3) and
 * a semester (characters 4-5), both with `parseInt`. Comparisons with NaN are
 * false, so an unreadable catalogue never replaces the current pick.
 */
module Carreras {
  import opened Options
  import opened Strings
  import opened Model

  function CatalogoYear(c: Carrera): Option<int> {
    ParseIntJs(Substring(c.catalogo, 0, 4))
  }

  function CatalogoSemester(c: Carrera): Option<int> {
    ParseIntJs(Substring(c.catalogo, 4, 6))
  }

  /** `a > b` on `parseInt` results: false when either is NaN. */
  predicate Greater(a: Option<int>, b: Option<int>) {
    a.Some? && b.Some? && a.value > b.value
  }

  /** `a === b` on `parseInt` results: false when either is NaN. */
  predicate SameNumber(a: Option<int>, b: Option<int>) {
    a.Some? && b.Some? && a.value == b.value
  }

  /** The parsed catalogue of a programme: year and semester, each possibly NaN. */
  datatype Clave = Clave(year: Option<int>, semester: Option<int>)

  function ClaveDe(c: Carrera): Clave {
    Clave(CatalogoYear(c), CatalogoSemester(c))
  }

  /** Both parts of the catalogue read as numbers. */
  predicate Readable(k: Clave) {
    k.year.Some? && k.semester.Some?
  }

  /**
   * The comparison inside the `reduce`: `b` has a greater year, or the same
   * year and a greater semester. Any NaN makes it false.
   */
  predicate Earlier(a: Clave, b: Clave) {
    Greater(b.year, a.year) || (SameNumber(a.year, b.year) && Greater(b.semester, a.semester))
  }

  /**
   * One step of the `reduce`: the current programme replaces the latest only
   * with a greater year, or the same year and a greater semester; ties and
   * unreadable numbers keep the latest.
   */
  function Step(latest: Carrera, current: Carrera): (r: Carrera)
    ensures r == latest || r == current
    ensures r == current <==> latest == current || Earlier(ClaveDe(latest), ClaveDe(current))
  {
    if Earlier(ClaveDe(latest), ClaveDe(current)) then current else latest
  }

  /** `carreras.reduce(step)` without an initial value: the fold starts at the first element. */
  function Reduce(cs: seq<Carrera>): Carrera
    requires cs != []
    decreases |cs|
  {
    if |cs| == 1 then cs[0] else Step(Reduce(cs[..|cs| - 1]), cs[|cs| - 1])
  }

  /** `findMostRecentCareer`: null for a missing or empty list. */
  function FindMostRecentCareer(carreras: Option<seq<Carrera>>): (r: Option<Carrera>)
    ensures r.None? <==> carreras.None? || carreras.value == []
  {
    if carreras.None? || carreras.value == [] then None else Some(Reduce(carreras.value))
  }

  /** The pick is one of the programmes. */
  lemma {:induction false} ReduceIn(cs: seq<Carrera>)
    requires cs != []
    ensures Reduce(cs) in cs
    decreases |cs|
  {
    if |cs| > 1 {
      ReduceIn(cs[..|cs| - 1]);
      assert cs[..|cs| - 1] <= cs;
    }
  }

  /** The parsed catalogues of a list of programmes, in order. */
  function Claves(cs: seq<Carrera>): (ks: seq<Clave>)
    ensures |ks| == |cs|
    ensures forall i | 0 <= i < |cs| :: ks[i] == ClaveDe(cs[i])
  {
    seq(|cs|, i requires 0 <= i < |cs| => ClaveDe(cs[i]))
  }

  /**
   * The position the `reduce` ends at, computed on the keys alone: the last
   * element replaces the pick of the prefix only when the prefix's pick is
   * earlier.
   */
  function Pick(ks: seq<Clave>): (p: nat)
    requires ks != []
    ensures p < |ks|
    decreases |ks|
  {
    if |ks| == 1 then 0
    else
      var q := Pick(ks[..|ks| - 1]);
      if Earlier(ks[q], ks[|ks| - 1]) then |ks| - 1 else q
  }

  /** `ks[i]` is the latest key, and every key before it is strictly earlier. */
  predicate FirstLatest(ks: seq<Clave>, i: int) {
    && 0 <= i < |ks|
    && (forall j | 0 <= j < i :: Earlier(ks[j], ks[i]))
    && (forall j | i < j < |ks| :: !Earlier(ks[i], ks[j]))
  }

  /** The `reduce` over the programmes ends at the position `Pick` finds on their keys. */
  lemma {:induction false} ReduceIsPick(cs: seq<Carrera>)
    requires cs != []
    ensures Reduce(cs) == cs[Pick(Claves(cs))]
    decreases |cs|
  {
    if |cs| > 1 {
      var n := |cs| - 1;
      var init := cs[..n];
      ReduceIsPick(init);
      assert Claves(cs)[..n] == Claves(init);
      var q := Pick(Claves(init));
      assert Reduce(init) == cs[q];
      assert ClaveDe(cs[q]) == Claves(cs)[q];
      assert ClaveDe(cs[n]) == Claves(cs)[n];
      if Earlier(Claves(cs)[q], Claves(cs)[n]) {
        assert Reduce(cs) == cs[n];
      } else {
        assert Reduce(cs) == cs[q];
      }
    }
  }

  /** On readable keys, `Pick` finds the first latest key: later ties never replace it. */
  lemma {:induction false} PickFirstLatest(ks: seq<Clave>)
    requires ks != []
    requires forall k | k in ks :: Readable(k)
    ensures FirstLatest(ks, Pick(ks))
    decreases |ks|
  {
    if |ks| > 1 {
      var n := |ks| - 1;
      var init := ks[..n];
      assert forall k | k in init :: k in ks;
      PickFirstLatest(init);
      var i := Pick(init);
      assert Readable(ks[i]) && Readable(ks[n]) by {
        assert ks[i] in ks && ks[n] in ks;
      }
      if Earlier(ks[i], ks[n]) {
        forall j | 0 <= j < n ensures Earlier(ks[j], ks[n]) {
          assert ks[j] == init[j];
          if j > i {
            assert !Earlier(init[i], init[j]);
            assert Readable(ks[j]) by { assert ks[j] in ks; }
          }
        }
      } else {
        forall j | 0 <= j < i ensures Earlier(ks[j], ks[i]) {
          assert ks[j] == init[j];
        }
        forall j | i < j < |ks| ensures !Earlier(ks[i], ks[j]) {
          if j < n {
            assert ks[j] == init[j];
          }
        }
      }
    }
  }

  /**
   * When every catalogue reads as numbers, the pick is the first programme
   * with the latest (year, semester): every programme before it is strictly
   * earlier, and none after it is later.
   */
  lemma ReduceFirstLatest(cs: seq<Carrera>)
    requires cs != []
    requires forall c | c in cs :: Readable(ClaveDe(c))
    ensures exists i | FirstLatest(Claves(cs), i) :: cs[i] == Reduce(cs)
  {
    var ks := Claves(cs);
    forall k | k in ks ensures Readable(k) {
      var j :| 0 <= j < |ks| && ks[j] == k;
      assert cs[j] in cs;
    }
    PickFirstLatest(ks);
    ReduceIsPick(cs);
  }
}
