/**
 * The handful of JavaScript string primitives the modelled code leans on:
 * decimal digits and `parseInt`, `toString` of integers, `split` on one
 * character, `trim`, and a code-unit order standing in for `localeCompare`.
 */
module Strings {
  import opened Options

  predicate IsDigit(c: char) {
    '0' <= c <= '9'
  }

  /** All characters are ASCII digits (the empty string qualifies). */
  predicate AllDigits(s: string) {
    forall i | 0 <= i < |s| :: IsDigit(s[i])
  }

  /** A non-empty string of ASCII digits. */
  predicate IsDigits(s: string) {
    |s| > 0 && AllDigits(s)
  }

  function DigitVal(c: char): nat
    requires IsDigit(c)
  {
    c as int - '0' as int
  }

  function DigitChar(d: nat): (c: char)
    requires d < 10
    ensures IsDigit(c) && DigitVal(c) == d
  {
    ('0' as int + d) as char
  }

  /** The value of a digit string, leading zeros allowed (what `parseInt` and `Number` read). */
  function ParseNat(s: string): nat
    requires AllDigits(s)
    decreases |s|
  {
    if s == [] then 0 else ParseNat(s[..|s| - 1]) * 10 + DigitVal(s[|s| - 1])
  }

  /** The decimal rendering of a natural number, as `${n}` prints it. */
  function NatToString(n: nat): (r: string)
    ensures IsDigits(r)
    ensures |r| == 1 || r[0] != '0'
  {
    if n < 10 then [DigitChar(n)] else NatToString(n / 10) + [DigitChar(n % 10)]
  }

  lemma {:induction false} NatToStringRoundTrip(n: nat)
    ensures ParseNat(NatToString(n)) == n
  {
    if n >= 10 {
      var s := NatToString(n);
      assert s[..|s| - 1] == NatToString(n / 10);
      NatToStringRoundTrip(n / 10);
    }
  }

  /** `Number.prototype.toString()` for an integer. */
  function IntToString(n: int): (r: string)
    ensures |r| > 0
  {
    if n < 0 then "-" + NatToString(-n) else NatToString(n)
  }

  /** Two digit strings of the same length with the same value are the same string. */
  lemma {:induction false} ParseNatInjective(a: string, b: string)
    requires AllDigits(a) && AllDigits(b) && |a| == |b|
    requires ParseNat(a) == ParseNat(b)
    ensures a == b
    decreases |a|
  {
    if a != [] {
      var n := |a| - 1;
      assert DigitVal(a[n]) == DigitVal(b[n]);
      ParseNatInjective(a[..n], b[..n]);
      assert a == a[..n] + [a[n]] && b == b[..n] + [b[n]];
    }
  }

  /** `s.substring(start, end)` with `start <= end`: positions past the end are clamped to it. */
  function Substring(s: string, start: nat, end: nat): (r: string)
    requires start <= end
    ensures end <= |s| ==> r == s[start..end]
    ensures start <= |s| <= end ==> r == s[start..]
    ensures |s| < start ==> r == []
  {
    var e := if end <= |s| then end else |s|;
    var b := if start <= e then start else e;
    s[b..e]
  }

  // ---------------------------------------------------------------- whitespace

  /** JavaScript's `\s`: WhiteSpace and LineTerminator code points. */
  predicate IsJsWhitespace(c: char) {
    || c == '\t' || c == '\n' || c == '\U{B}' || c == '\U{C}' || c == '\r' || c == ' '
    || c == '\U{A0}' || c == '\U{1680}' || ('\U{2000}' <= c <= '\U{200A}')
    || c == '\U{2028}' || c == '\U{2029}' || c == '\U{202F}' || c == '\U{205F}'
    || c == '\U{3000}' || c == '\U{FEFF}'
  }

  function TrimStart(s: string): (r: string)
    ensures |r| <= |s| && r == s[|s| - |r|..]
    ensures r == [] || !IsJsWhitespace(r[0])
    ensures forall i | 0 <= i < |s| - |r| :: IsJsWhitespace(s[i])
  {
    if s != [] && IsJsWhitespace(s[0]) then TrimStart(s[1..]) else s
  }

  function TrimEnd(s: string): (r: string)
    ensures |r| <= |s| && r == s[..|r|]
    ensures r == [] || !IsJsWhitespace(r[|r| - 1])
    ensures forall i | |r| <= i < |s| :: IsJsWhitespace(s[i])
  {
    if s != [] && IsJsWhitespace(s[|s| - 1]) then TrimEnd(s[..|s| - 1]) else s
  }

  /** `s` is `r` starting at position `k`, with only whitespace before and after it. */
  predicate PaddedAt(s: string, r: string, k: int) {
    && 0 <= k <= |s| - |r|
    && r == s[k..k + |r|]
    && (forall i | 0 <= i < k :: IsJsWhitespace(s[i]))
    && (forall i | k + |r| <= i < |s| :: IsJsWhitespace(s[i]))
  }

  /** `String.prototype.trim`: the longest infix with no whitespace at either end. */
  function Trim(s: string): (r: string)
    ensures |r| <= |s|
    ensures r == [] || (!IsJsWhitespace(r[0]) && !IsJsWhitespace(r[|r| - 1]))
    ensures forall c | c in r :: c in s
    ensures exists k :: PaddedAt(s, r, k)
  {
    var t := TrimStart(s);
    var r := TrimEnd(t);
    TrimBothPadded(s, t, r);
    r
  }

  /**
   * Dropping whitespace from the start of `s` to get `t`, then from the end of
   * `t` to get `r`, leaves `s` padded around `r`.
   */
  lemma TrimBothPadded(s: string, t: string, r: string)
    requires |t| <= |s| && t == s[|s| - |t|..] && forall i | 0 <= i < |s| - |t| :: IsJsWhitespace(s[i])
    requires |r| <= |t| && r == t[..|r|] && forall i | |r| <= i < |t| :: IsJsWhitespace(t[i])
    ensures PaddedAt(s, r, |s| - |t|)
  {
    var k := |s| - |t|;
    InfixOfSuffix(s, t, r, k);
    forall i | k + |r| <= i < |s| ensures IsJsWhitespace(s[i]) {
      assert s[i] == t[i - k];
    }
  }

  lemma InfixOfSuffix(s: string, t: string, r: string, k: int)
    requires 0 <= k <= |s| && t == s[k..] && |r| <= |t| && r == t[..|r|]
    ensures r == s[k..k + |r|]
  {
    forall i | 0 <= i < |r| ensures r[i] == s[k + i] {
      assert r[i] == t[i];
    }
  }

  lemma TrimKeepsTrimmed(s: string)
    requires s == [] || (!IsJsWhitespace(s[0]) && !IsJsWhitespace(s[|s| - 1]))
    ensures Trim(s) == s
  {
    assert TrimStart(s) == s;
    assert TrimEnd(s) == s;
  }

  // ------------------------------------------------------------------ parseInt

  /** The longest prefix of ASCII digits. */
  function DigitPrefix(s: string): (r: string)
    ensures |r| <= |s| && r == s[..|r|] && AllDigits(r)
    ensures |r| == |s| || !IsDigit(s[|r|])
  {
    if s != [] && IsDigit(s[0]) then [s[0]] + DigitPrefix(s[1..]) else []
  }

  /**
   * `parseInt(s, 10)`: skip leading whitespace, read an optional sign, then the
   * longest run of digits; `None` stands for `NaN` (no digit at all).
   */
  function ParseIntJs(s: string): Option<int> {
    var t := TrimStart(s);
    var neg := t != [] && t[0] == '-';
    var u := if t != [] && (t[0] == '-' || t[0] == '+') then t[1..] else t;
    var d := DigitPrefix(u);
    var v: int := if d == [] then 0 else ParseNat(d);
    if d == [] then None else Some(if neg then -v else v)
  }

  /**
   * `Number(s)` for the strings the model meets: surrounding whitespace is
   * ignored, the empty string is 0, an optional sign and ASCII digits give
   * their value, anything else is `NaN` (`None`).
   */
  function NumberJs(s: string): Option<int> {
    NumberTrimmed(Trim(s))
  }

  /** `Number` on a string whose surrounding whitespace is already gone. */
  function NumberTrimmed(t: string): Option<int> {
    var u := if t != [] && (t[0] == '-' || t[0] == '+') then t[1..] else t;
    if t == [] then Some(0)
    else if IsDigits(u) then Some(if t[0] == '-' then -(ParseNat(u) as int) else ParseNat(u))
    else None
  }

  /** `Number` reads back what integer `toString` prints, and reads nothing from a string with a stray character. */
  lemma NumberJsRoundTrip(n: int)
    ensures NumberJs(IntToString(n)) == Some(n)
  {
    var m: nat := if n < 0 then -n else n;
    NatToStringRoundTrip(m);
    NumberJsOfDigits(NatToString(m), n < 0);
  }

  /** A digit string, with or without a leading minus, is read by `Number` as its value. */
  lemma NumberJsOfDigits(d: string, neg: bool)
    requires IsDigits(d)
    ensures NumberJs(if neg then "-" + d else d) == Some(if neg then -(ParseNat(d) as int) else ParseNat(d))
  {
    var s := if neg then "-" + d else d;
    SignedDigitsTrimmed(d, neg);
    TrimKeepsTrimmed(s);
    NumberTrimmedOfDigits(d, neg);
  }

  lemma NumberTrimmedOfDigits(d: string, neg: bool)
    requires IsDigits(d)
    ensures NumberTrimmed(if neg then "-" + d else d) == Some(if neg then -(ParseNat(d) as int) else ParseNat(d))
  {
    var s := if neg then "-" + d else d;
    if neg {
      assert s[1..] == d;
    } else {
      assert IsDigit(s[0]);
    }
  }

  /** A digit string, with or without a leading minus, has no whitespace at either end. */
  lemma SignedDigitsTrimmed(d: string, neg: bool)
    requires IsDigits(d)
    ensures var s := if neg then "-" + d else d;
      s != [] && !IsJsWhitespace(s[0]) && !IsJsWhitespace(s[|s| - 1])
  {
    var s := if neg then "-" + d else d;
    assert IsDigit(d[|d| - 1]);
    assert s[|s| - 1] == d[|d| - 1];
    DigitNotWhitespace(d[|d| - 1]);
    if !neg {
      assert IsDigit(d[0]);
      DigitNotWhitespace(d[0]);
    }
  }

  lemma DigitNotWhitespace(c: char)
    requires IsDigit(c)
    ensures !IsJsWhitespace(c)
  {
  }

  /** Unlike `parseInt`, `Number` does not stop at a trailing non-digit. */
  lemma NumberJsRejectsTrailing(d: string, c: char)
    requires IsDigits(d) && !IsDigit(c) && !IsJsWhitespace(c)
    ensures NumberJs(d + [c]) == None
    ensures ParseIntJs(d + [c]) == Some(ParseNat(d))
  {
    var s := d + [c];
    assert !IsJsWhitespace(s[0]) && !IsJsWhitespace(s[|s| - 1]);
    TrimKeepsTrimmed(s);
    assert !IsDigit(s[|s| - 1]);
    ParseIntJsDigitsThenRest(d, [c]);
  }

  lemma DigitPrefixOfDigits(d: string, rest: string)
    requires AllDigits(d)
    requires rest == [] || !IsDigit(rest[0])
    ensures DigitPrefix(d + rest) == d
  {
    if d != [] {
      assert (d + rest)[1..] == d[1..] + rest;
      DigitPrefixOfDigits(d[1..], rest);
    }
  }

  /** parseInt reads back what integer `toString` prints. */
  lemma ParseIntJsOfNat(m: nat)
    ensures ParseIntJs(NatToString(m)) == Some(m)
  {
    var d := NatToString(m);
    NatToStringRoundTrip(m);
    DigitPrefixOfDigits(d, []);
    assert d + [] == d;
    assert !IsJsWhitespace(d[0]);
    assert TrimStart(d) == d;
  }

  lemma ParseIntJsOfNegative(m: nat)
    requires m > 0
    ensures ParseIntJs("-" + NatToString(m)) == Some(-(m as int))
  {
    var d := NatToString(m);
    var s := "-" + d;
    NatToStringRoundTrip(m);
    DigitPrefixOfDigits(d, []);
    assert d + [] == d;
    assert s[0] == '-' && !IsJsWhitespace(s[0]);
    assert TrimStart(s) == s;
    assert s[1..] == d;
  }

  /** parseInt reads back what integer `toString` prints. */
  lemma ParseIntJsRoundTrip(n: int)
    ensures ParseIntJs(IntToString(n)) == Some(n)
  {
    if n < 0 {
      var m: nat := -n;
      assert IntToString(n) == "-" + NatToString(m);
      ParseIntJsOfNegative(m);
    } else {
      assert IntToString(n) == NatToString(n);
      ParseIntJsOfNat(n);
    }
  }

  /** `parseInt` of a plain digit string is its value. */
  lemma ParseIntJsOfDigits(d: string)
    requires IsDigits(d)
    ensures ParseIntJs(d) == Some(ParseNat(d) as int)
  {
    ParseIntJsDigitsThenRest(d, []);
    assert d + [] == d;
  }

  /** parseInt stops at the first non-digit: `parseInt("2024ab") == 2024`. */
  lemma ParseIntJsDigitsThenRest(d: string, rest: string)
    requires IsDigits(d)
    requires rest == [] || !IsDigit(rest[0])
    ensures ParseIntJs(d + rest) == Some(ParseNat(d))
  {
    DigitPrefixOfDigits(d, rest);
    assert TrimStart(d + rest) == d + rest;
  }

  // --------------------------------------------------------------------- split

  function IndexOf(s: string, c: char): (i: nat)
    requires c in s
    ensures i < |s| && s[i] == c && c !in s[..i]
  {
    if s[0] == c then 0
    else
      var j := IndexOf(s[1..], c);
      assert s[..j + 1] == [s[0]] + s[1..][..j];
      j + 1
  }

  /** `s.split(sep)` for a one-character separator. */
  function Split(s: string, sep: char): (parts: seq<string>)
    ensures |parts| >= 1
    ensures forall k | 0 <= k < |parts| :: sep !in parts[k]
    decreases |s|
  {
    if sep !in s then [s]
    else
      var i := IndexOf(s, sep);
      [s[..i]] + Split(s[i + 1..], sep)
  }

  /** `parts.join(sep)`. */
  function Join(parts: seq<string>, sep: char): string {
    if |parts| == 0 then ""
    else if |parts| == 1 then parts[0]
    else parts[0] + [sep] + Join(parts[1..], sep)
  }

  /** Splitting loses nothing: joining the pieces back gives the original string. */
  lemma {:induction false} SplitJoin(s: string, sep: char)
    ensures Join(Split(s, sep), sep) == s
    decreases |s|
  {
    if sep in s {
      var i := IndexOf(s, sep);
      var rest := Split(s[i + 1..], sep);
      SplitJoin(s[i + 1..], sep);
      assert Split(s, sep)[1..] == rest;
      assert s == s[..i] + [sep] + s[i + 1..];
    }
  }

  lemma SplitNoSep(a: string, sep: char)
    requires sep !in a
    ensures Split(a, sep) == [a]
  {
  }

  lemma SplitTwo(a: string, b: string, sep: char)
    requires sep !in a && sep !in b
    ensures Split(a + [sep] + b, sep) == [a, b]
  {
    var s := a + [sep] + b;
    assert s[|a|] == sep;
    assert s[..|a|] == a;
    var i := IndexOf(s, sep);
    assert forall j | 0 <= j < |a| :: s[j] == a[j];
    assert i >= |a|;
    assert i <= |a| by {
      assert forall j | 0 <= j < i :: s[..i][j] == s[j];
    }
    assert s[|a| + 1..] == b;
  }

  /** The first piece of a split is everything before the first separator. */
  lemma SplitCons(a: string, b: string, sep: char)
    requires sep !in a
    ensures Split(a + [sep] + b, sep) == [a] + Split(b, sep)
  {
    var s := a + [sep] + b;
    assert s[|a|] == sep;
    var i := IndexOf(s, sep);
    assert forall j | 0 <= j < |a| :: s[j] == a[j];
    assert i >= |a|;
    assert i <= |a| by {
      assert forall j | 0 <= j < i :: s[..i][j] == s[j];
    }
    assert s[..|a|] == a;
    assert s[|a| + 1..] == b;
  }

  /** Joining pieces free of the separator and splitting again gives the pieces back. */
  lemma {:induction false} JoinSplit(parts: seq<string>, sep: char)
    requires |parts| >= 1 && forall k | 0 <= k < |parts| :: sep !in parts[k]
    ensures Split(Join(parts, sep), sep) == parts
    decreases |parts|
  {
    if |parts| == 1 {
      SplitNoSep(parts[0], sep);
    } else {
      JoinSplit(parts[1..], sep);
      SplitCons(parts[0], Join(parts[1..], sep), sep);
      assert parts == [parts[0]] + parts[1..];
    }
  }

  lemma DigitsNoChar(s: string, c: char)
    requires AllDigits(s) && !IsDigit(c)
    ensures c !in s
  {
    forall i | 0 <= i < |s|
      ensures s[i] != c
    {
      assert IsDigit(s[i]);
    }
  }

  // -------------------------------------------------------------------- order

  /**
   * Lexicographic order on code points; the model's stand-in for
   * `a.localeCompare(b) <= 0`.
   */
  predicate StrLeq(a: string, b: string)
    decreases |a|
  {
    a == [] || (b != [] && (a[0] < b[0] || (a[0] == b[0] && StrLeq(a[1..], b[1..]))))
  }

  lemma {:induction false} StrLeqTotal(a: string, b: string)
    ensures StrLeq(a, b) || StrLeq(b, a)
    decreases |a|
  {
    if a != [] && b != [] && a[0] == b[0] {
      StrLeqTotal(a[1..], b[1..]);
    }
  }

  lemma {:induction false} StrLeqTransitive(a: string, b: string, c: string)
    requires StrLeq(a, b) && StrLeq(b, c)
    ensures StrLeq(a, c)
    decreases |a|
  {
    if a != [] && a[0] == b[0] && b[0] == c[0] {
      StrLeqTransitive(a[1..], b[1..], c[1..]);
    }
  }

  lemma {:induction false} StrLeqAntisymmetric(a: string, b: string)
    requires StrLeq(a, b) && StrLeq(b, a)
    ensures a == b
    decreases |a|
  {
    if a != [] {
      StrLeqAntisymmetric(a[1..], b[1..]);
      assert a == [a[0]] + a[1..];
      assert b == [b[0]] + b[1..];
    }
  }
}
