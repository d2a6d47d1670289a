/**
 * The Python string builtins the decode pipeline relies on: `str.strip()`,
 * `str.rfind`, `str.startswith`, `str.endswith` and `int(str)` on signed
 * ASCII decimal text; and `str.find`, which serves only to read a prompt back.
 */
module Strings {
  import opened Wrappers

  /** The characters for which Python's `str.isspace()` holds. */
  predicate IsSpace(c: char) {
    || ('\t' <= c <= '\r')            // tab, line feed, vertical tab, form feed, carriage return
    || ('\U{1c}' <= c <= '\U{1f}')    // file, group, record and unit separators
    || c == ' '
    || c == '\U{85}' || c == '\U{a0}' || c == '\U{1680}'
    || ('\U{2000}' <= c <= '\U{200a}')
    || c == '\U{2028}' || c == '\U{2029}' || c == '\U{202f}' || c == '\U{205f}' || c == '\U{3000}'
  }

  predicate AllSpace(s: string) {
    forall k :: 0 <= k < |s| ==> IsSpace(s[k])
  }

  /** Neither end of `s` is whitespace. */
  predicate Unpadded(s: string) {
    s == [] || (!IsSpace(s[0]) && !IsSpace(s[|s| - 1]))
  }

  /** Drops the leading whitespace of `s`. */
  function TrimStart(s: string): (r: string)
    ensures |r| <= |s| && r == s[|s| - |r|..]
    ensures r == [] || !IsSpace(r[0])
    ensures AllSpace(s[..|s| - |r|])
    decreases |s|
  {
    if s != [] && IsSpace(s[0]) then
      var r := TrimStart(s[1..]);
      assert s[..|s| - |r|] == [s[0]] + s[1..][..|s| - 1 - |r|];
      r
    else s
  }

  /** Drops the trailing whitespace of `s`. */
  function TrimEnd(s: string): (r: string)
    ensures |r| <= |s| && r == s[..|r|]
    ensures r == [] || !IsSpace(r[|r| - 1])
    ensures AllSpace(s[|r|..])
    decreases |s|
  {
    if s != [] && IsSpace(s[|s| - 1]) then
      var r := TrimEnd(s[..|s| - 1]);
      assert s[|r|..] == s[..|s| - 1][|r|..] + [s[|s| - 1]];
      r
    else s
  }

  /** Python's `s.strip()`: `s` without its leading and trailing whitespace. */
  function Strip(s: string): (r: string)
    ensures Unpadded(r)
    ensures |r| <= |s|
  {
    TrimEnd(TrimStart(s))
  }

  lemma {:induction false} TrimStartOfPadded(lead: string, t: string)
    requires AllSpace(lead) && (t == [] || !IsSpace(t[0]))
    ensures TrimStart(lead + t) == t
    decreases |lead|
  {
    if lead != [] {
      assert (lead + t)[1..] == lead[1..] + t;
      TrimStartOfPadded(lead[1..], t);
    } else {
      assert lead + t == t;
    }
  }

  lemma {:induction false} TrimEndOfPadded(t: string, trail: string)
    requires AllSpace(trail) && (t == [] || !IsSpace(t[|t| - 1]))
    ensures TrimEnd(t + trail) == t
    decreases |trail|
  {
    if trail != [] {
      assert (t + trail)[..|t + trail| - 1] == t + trail[..|trail| - 1];
      TrimEndOfPadded(t, trail[..|trail| - 1]);
    } else {
      assert t + trail == t;
    }
  }

  /** Stripping removes exactly the whitespace padding around an unpadded text. */
  lemma StripRemovesPadding(lead: string, t: string, trail: string)
    requires AllSpace(lead) && AllSpace(trail) && Unpadded(t)
    ensures Strip(lead + t + trail) == t
  {
    if t == [] {
      assert lead + t + trail == lead + trail;
      TrimStartOfPadded(lead + trail, []);
      assert lead + trail + [] == lead + trail;
      assert TrimStart(lead + trail) == [];
    } else {
      assert lead + t + trail == lead + (t + trail);
      TrimStartOfPadded(lead, t + trail);
      TrimEndOfPadded(t, trail);
    }
  }

  /** Stripping an already stripped text changes nothing. */
  lemma StripIdempotent(s: string)
    ensures Strip(Strip(s)) == Strip(s)
  {
    var t := Strip(s);
    assert [] + t + [] == t;
    StripRemovesPadding([], t, []);
  }

  // ---------------------------------------------------------------- searching

  /** `p` occurs in `s` starting at position `k`. */
  predicate OccursAt(s: string, p: string, k: int) {
    0 <= k && k + |p| <= |s| && s[k..k + |p|] == p
  }

  predicate StartsWith(s: string, p: string) {
    |p| <= |s| && s[..|p|] == p
  }

  predicate EndsWith(s: string, p: string) {
    |p| <= |s| && s[|s| - |p|..] == p
  }

  /** A suffix of a suffix is a suffix. */
  lemma EndsWithTransitive(s: string, t: string, u: string)
    requires EndsWith(s, t) && EndsWith(t, u)
    ensures EndsWith(s, u)
  {
    assert s[|s| - |u|..] == t[|t| - |u|..];
  }

  /**
   * Regrouping a concatenation of four texts. A lemma of its own so that
   * callers whose texts are string literals regroup them in a small context.
   */
  lemma Regroup(a: string, b: string, c: string, d: string)
    ensures a + b + c + d == a + (b + c + d)
  {
  }

  /** A text with prefix `a` and suffix `e` is `a`, its middle, then `e`. */
  lemma SplitEnds(s: string, a: string, e: string)
    requires |s| >= |a| + |e| && StartsWith(s, a) && EndsWith(s, e)
    ensures s == a + s[|a|..|s| - |e|] + e
  {
    assert s == s[..|a|] + s[|a|..|s| - |e|] + s[|s| - |e|..];
  }

  /** A text in which `p` occurs at `k` is what precedes it, `p`, and what follows. */
  lemma SplitAround(s: string, p: string, k: int)
    requires OccursAt(s, p, k)
    ensures s == s[..k] + p + s[k + |p|..]
  {
    assert s == s[..k] + s[k..k + |p|] + s[k + |p|..];
  }

  /** The highest occurrence of `p` in `s` at or below position `hi`, or -1. */
  function RFindFrom(s: string, p: string, hi: int): (r: int)
    ensures r == -1 || 0 <= r <= hi
    ensures r == -1 <==> forall k :: 0 <= k <= hi ==> !OccursAt(s, p, k)
    ensures r >= 0 ==> OccursAt(s, p, r) && forall k :: r < k <= hi ==> !OccursAt(s, p, k)
    decreases hi + 1
  {
    if hi < 0 then -1
    else if OccursAt(s, p, hi) then hi
    else RFindFrom(s, p, hi - 1)
  }

  /** Python's `s.rfind(p)`: the last position at which `p` occurs in `s`, or -1 when it does not occur. */
  function RFind(s: string, p: string): (r: int)
    ensures r == -1 || 0 <= r <= |s| - |p|
    ensures r == -1 <==> forall k :: !OccursAt(s, p, k)
    ensures r >= 0 ==> OccursAt(s, p, r) && forall k :: r < k ==> !OccursAt(s, p, k)
  {
    RFindFrom(s, p, |s| - |p|)
  }

  /** The text from the last occurrence of `p` in `s` onwards, or `None` when `p` does not occur. */
  function FromLast(s: string, p: string): (r: Option<string>)
    ensures r.None? <==> forall k :: !OccursAt(s, p, k)
    ensures r.Some? ==> EndsWith(s, r.value) && StartsWith(r.value, p)
  {
    var k := RFind(s, p);
    if k == -1 then None
    else
      SuffixAtOccurrence(s, p, k);
      Some(s[k..])
  }

  lemma SuffixAtOccurrence(s: string, p: string, k: int)
    requires OccursAt(s, p, k)
    ensures EndsWith(s, s[k..]) && StartsWith(s[k..], p)
  {
    assert s[k..][..|p|] == s[k..k + |p|];
  }

  /** When `tail` starts with `p` and holds no later occurrence of it, the last occurrence in `pre + tail` begins `tail`. */
  lemma {:induction false} FromLastOfTail(pre: string, tail: string, p: string)
    requires StartsWith(tail, p)
    requires forall k :: 0 < k ==> !OccursAt(tail, p, k)
    ensures FromLast(pre + tail, p) == Some(tail)
  {
    var t := pre + tail;
    assert t[|pre|..] == tail;
    assert OccursAt(t, p, |pre|) by {
      assert t[|pre|..|pre| + |p|] == tail[..|p|];
    }
    forall k | |pre| < k
      ensures !OccursAt(t, p, k)
    {
      if k + |p| <= |t| {
        assert t[k..k + |p|] == tail[k - |pre|..k - |pre| + |p|];
      }
      assert !OccursAt(tail, p, k - |pre|);
    }
    assert RFind(t, p) == |pre|;
  }

  /** A text whose later characters all differ from the first character of `p` holds no later occurrence of `p`. */
  lemma NoLaterOccurrence(t: string, p: string)
    requires |p| > 0
    requires forall k :: 0 < k < |t| ==> t[k] != p[0]
    ensures forall k :: 0 < k ==> !OccursAt(t, p, k)
  {
    forall k | 0 < k
      ensures !OccursAt(t, p, k)
    {
      if k + |p| <= |t| {
        assert t[k..k + |p|][0] == t[k];
      }
    }
  }

  /** The lowest occurrence of `p` in `s` at or above position `lo`, or -1. */
  function FindFrom(s: string, p: string, lo: nat): (r: int)
    ensures r == -1 || lo <= r <= |s| - |p|
    ensures r == -1 <==> forall k :: lo <= k ==> !OccursAt(s, p, k)
    ensures r >= 0 ==> OccursAt(s, p, r) && forall k :: lo <= k < r ==> !OccursAt(s, p, k)
    decreases |s| - lo
  {
    if lo + |p| > |s| then -1
    else if OccursAt(s, p, lo) then lo
    else FindFrom(s, p, lo + 1)
  }

  /** Python's `s.find(p)`: the first position at which `p` occurs in `s`, or -1 when it does not occur. */
  function Find(s: string, p: string): (r: int)
    ensures r == -1 || 0 <= r <= |s| - |p|
    ensures r == -1 <==> forall k :: !OccursAt(s, p, k)
    ensures r >= 0 ==> OccursAt(s, p, r) && forall k :: k < r ==> !OccursAt(s, p, k)
  {
    FindFrom(s, p, 0)
  }

  // ---------------------------------------------------------------- integers

  predicate IsDigit(c: char) {
    '0' <= c <= '9'
  }

  predicate AllDigits(s: string) {
    forall k :: 0 <= k < |s| ==> IsDigit(s[k])
  }

  /** The value of a decimal digit string, most significant digit first. */
  function DigitsValue(s: string): nat
    requires AllDigits(s)
    decreases |s|
  {
    if s == [] then 0
    else DigitsValue(s[..|s| - 1]) * 10 + (s[|s| - 1] as int - '0' as int)
  }

  /**
   * `int(s)` restricted to an optionally signed, non-empty run of decimal
   * digits; every other text is a parse failure (Python's ValueError).
   */
  function ParseInt(s: string): (r: Option<int>)
    ensures r.Some? <==>
      (|s| > 0 && AllDigits(s)) || (|s| > 1 && (s[0] == '+' || s[0] == '-') && AllDigits(s[1..]))
    ensures r.Some? && |s| > 0 && s[0] == '-' ==> r.value <= 0
    ensures r.Some? && |s| > 0 && s[0] != '-' ==> r.value >= 0
  {
    if |s| > 1 && s[0] == '-' && AllDigits(s[1..]) then Some(-(DigitsValue(s[1..]) as int))
    else if |s| > 1 && s[0] == '+' && AllDigits(s[1..]) then Some(DigitsValue(s[1..]))
    else if |s| > 0 && AllDigits(s) then Some(DigitsValue(s))
    else None
  }

  /** A digit string holds no character that is not a digit. */
  lemma DigitsExclude(s: string, c: char)
    requires AllDigits(s) && !IsDigit(c)
    ensures c !in s
  {
    forall k | 0 <= k < |s|
      ensures s[k] != c
    {
      assert IsDigit(s[k]);
    }
  }

  /** The canonical decimal rendering of `n` (no sign, no leading zero). */
  function Decimal(n: nat): (r: string)
    ensures |r| > 0 && AllDigits(r)
    ensures DigitsValue(r) == n
    ensures |r| > 1 ==> r[0] != '0'
    decreases n
  {
    var last := [(n % 10 + '0' as int) as char];
    if n < 10 then last
    else
      var front := Decimal(n / 10);
      assert (front + last)[..|front + last| - 1] == front;
      front + last
  }

  /** Every character of `z` is the digit zero. */
  predicate AllZeros(z: string) {
    forall k :: 0 <= k < |z| ==> z[k] == '0'
  }

  /** A run of zeros is worth nothing. */
  lemma {:induction false} ZerosValue(z: string)
    requires AllZeros(z)
    ensures AllDigits(z) && DigitsValue(z) == 0
    decreases |z|
  {
    if z != [] {
      ZerosValue(z[..|z| - 1]);
    }
  }

  /** Leading zeros do not change the value of a digit string. */
  lemma {:induction false} LeadingZerosValue(z: string, d: string)
    requires AllZeros(z) && AllDigits(d)
    ensures AllDigits(z + d) && DigitsValue(z + d) == DigitsValue(d)
    decreases |d|
  {
    ZerosValue(z);
    if d == [] {
      assert z + d == z;
    } else {
      assert (z + d)[..|z + d| - 1] == z + d[..|d| - 1];
      LeadingZerosValue(z, d[..|d| - 1]);
    }
  }

  /** `int` reads a non-empty digit string, signed or not, as its digit value. */
  lemma ParseDigits(t: string)
    requires |t| > 0 && AllDigits(t)
    ensures ParseInt(t) == Some(DigitsValue(t))
    ensures ParseInt("+" + t) == Some(DigitsValue(t))
    ensures ParseInt("-" + t) == Some(-(DigitsValue(t) as int))
  {
    assert ("+" + t)[1..] == t;
    assert ("-" + t)[1..] == t;
  }

  /** `int` reads a zero-padded decimal text, such as "0042", as its value, with or without a sign. */
  lemma ParsePaddedDecimal(z: string, n: nat)
    requires AllZeros(z)
    ensures ParseInt(z + Decimal(n)) == Some(n)
    ensures ParseInt("+" + z + Decimal(n)) == Some(n)
    ensures ParseInt("-" + z + Decimal(n)) == Some(-(n as int))
  {
    var t := z + Decimal(n);
    LeadingZerosValue(z, Decimal(n));
    ParseDigits(t);
    assert "+" + z + Decimal(n) == "+" + t;
    assert "-" + z + Decimal(n) == "-" + t;
  }

}
