/** The JavaScript string and number built-ins the application relies on:
    `trim`, `toLowerCase`, `includes`, `startsWith`, `split(c)[0]`,
    `split('/').pop()`, `parseInt` of a digit run, `String(n)` and
    `Math.round(a / n)`. */
module JsText {

  /** WhiteSpace and LineTerminator of ECMAScript: what `trim` strips and what
      the regular-expression class `\s` matches. */
  predicate IsJsSpace(c: char) {
    c == '\t' || c == '\n' || c == '\U{000B}' || c == '\U{000C}' || c == '\r' || c == ' ' ||
    c == '\U{00A0}' || c == '\U{1680}' || ('\U{2000}' <= c <= '\U{200A}') ||
    c == '\U{2028}' || c == '\U{2029}' || c == '\U{202F}' || c == '\U{205F}' ||
    c == '\U{3000}' || c == '\U{FEFF}'
  }

  predicate AllSpace(s: string) {
    forall k :: 0 <= k < |s| ==> IsJsSpace(s[k])
  }

  lemma AllSpaceCons(c: char, t: string)
    requires IsJsSpace(c) && AllSpace(t)
    ensures AllSpace([c] + t)
  {
    assert forall k :: 0 < k <= |t| ==> ([c] + t)[k] == t[k - 1];
  }

  lemma AllSpaceSnoc(t: string, c: char)
    requires AllSpace(t) && IsJsSpace(c)
    ensures AllSpace(t + [c])
  {
    assert forall k :: 0 <= k < |t| ==> (t + [c])[k] == t[k];
  }

  /** Leading whitespace removed. */
  function TrimStart(s: string): (r: string)
    ensures |r| <= |s| && r == s[|s| - |r|..]
    ensures AllSpace(s[..|s| - |r|])
    ensures r == [] || !IsJsSpace(r[0])
  {
    if s != [] && IsJsSpace(s[0]) then
      var r := TrimStart(s[1..]);
      assert s[..|s| - |r|] == [s[0]] + s[1..][..|s| - 1 - |r|];
      AllSpaceCons(s[0], s[1..][..|s| - 1 - |r|]);
      r
    else
      s
  }

  /** Trailing whitespace removed. */
  function TrimEnd(s: string): (r: string)
    ensures |r| <= |s| && r == s[..|r|]
    ensures AllSpace(s[|r|..])
    ensures r == [] || !IsJsSpace(r[|r| - 1])
  {
    if s != [] && IsJsSpace(s[|s| - 1]) then
      var r := TrimEnd(s[..|s| - 1]);
      assert s[..|s| - 1][..|r|] == s[..|r|];
      assert s[|r|..] == s[..|s| - 1][|r|..] + [s[|s| - 1]];
      AllSpaceSnoc(s[..|s| - 1][|r|..], s[|s| - 1]);
      r
    else
      s
  }

  /** `String.prototype.trim`: `s` with the whitespace at both ends removed. */
  function Trim(s: string): (r: string)
    ensures r == [] || (!IsJsSpace(r[0]) && !IsJsSpace(r[|r| - 1]))
    ensures r == [] <==> AllSpace(s)
    ensures SliceBetweenSpace(r, s)
  {
    TrimBothEnds(s);
    TrimEnd(TrimStart(s))
  }

  /** `r` is a slice of `s` with only whitespace before and after it. */
  predicate SliceBetweenSpace(r: string, s: string) {
    exists i, j :: 0 <= i <= j <= |s| && r == s[i..j] && AllSpace(s[..i]) && AllSpace(s[j..])
  }

  /** Whitespace cut from the front and then from the back leaves a slice
      with only whitespace on either side of it, and nothing only when the
      whole string was whitespace. */
  lemma TrimBothEnds(s: string)
    ensures var r := TrimEnd(TrimStart(s));
      && SliceBetweenSpace(r, s)
      && (r == [] <==> AllSpace(s))
  {
    var t := TrimStart(s);
    TrimIsSlice(s, t, TrimEnd(t));
  }

  /** The same, for any `t` that drops leading whitespace of `s` and any `r`
      that then drops trailing whitespace of `t`. */
  lemma TrimIsSlice(s: string, t: string, r: string)
    requires |t| <= |s| && t == s[|s| - |t|..] && AllSpace(s[..|s| - |t|])
    requires |r| <= |t| && r == t[..|r|] && AllSpace(t[|r|..])
    requires r != [] ==> !IsJsSpace(r[0])
    ensures SliceBetweenSpace(r, s)
    ensures r == [] <==> AllSpace(s)
  {
    if r == [] {
      assert s == s[..|s| - |t|] + t;
      assert AllSpace(t) by { assert t[0..] == t; }
    } else {
      assert r[0] == s[|s| - |t|];
    }
    var i := |s| - |t|;
    assert r == s[i..i + |r|] && s[i + |r|..] == t[|r|..];
  }

  /** A string without whitespace at either end is its own trimming. */
  lemma {:induction false} TrimOfTrimmed(s: string)
    requires s == [] || (!IsJsSpace(s[0]) && !IsJsSpace(s[|s| - 1]))
    ensures Trim(s) == s
  {
  }

  /** `toLowerCase` on ASCII letters; every other character is kept. */
  function LowerChar(c: char): char {
    if 'A' <= c <= 'Z' then (c as int - 'A' as int + 'a' as int) as char else c
  }

  function ToLower(s: string): (r: string)
    ensures |r| == |s|
    ensures forall k :: 0 <= k < |s| ==> r[k] == LowerChar(s[k])
  {
    seq(|s|, k requires 0 <= k < |s| => LowerChar(s[k]))
  }

  /** `t` occurs in `s` starting at index `i`. */
  predicate OccursAt(s: string, t: string, i: nat) {
    i + |t| <= |s| && s[i..i + |t|] == t
  }

  /** `String.prototype.includes`. */
  function Contains(s: string, t: string): (b: bool)
    ensures b <==> exists i: nat :: OccursAt(s, t, i)
    decreases |s|
  {
    if |t| > |s| then
      false
    else if s[..|t|] == t then
      assert OccursAt(s, t, 0);
      true
    else
      var b := Contains(s[1..], t);
      OccursShift(s, t);
      b
  }

  /** An occurrence past index 0 is an occurrence in the tail. */
  lemma {:induction false} OccursShift(s: string, t: string)
    requires s != [] && !OccursAt(s, t, 0)
    ensures (exists i: nat :: OccursAt(s, t, i)) <==> (exists i: nat :: OccursAt(s[1..], t, i))
  {
    if exists i: nat :: OccursAt(s, t, i) {
      var i: nat :| OccursAt(s, t, i);
      assert i > 0;
      assert s[1..][i - 1..i - 1 + |t|] == s[i..i + |t|];
      assert OccursAt(s[1..], t, i - 1);
    }
    if exists i: nat :: OccursAt(s[1..], t, i) {
      var i: nat :| OccursAt(s[1..], t, i);
      assert s[1..][i..i + |t|] == s[i + 1..i + 1 + |t|];
      assert OccursAt(s, t, i + 1);
    }
  }

  predicate IsDigit(c: char) {
    '0' <= c <= '9'
  }

  predicate AllDigits(s: string) {
    forall k :: 0 <= k < |s| ==> IsDigit(s[k])
  }

  /** `parseInt(s, 10)` of a run of decimal digits. */
  function DecimalValue(s: string): nat
    requires AllDigits(s)
  {
    if s == [] then 0 else 10 * DecimalValue(s[..|s| - 1]) + (s[|s| - 1] as int - '0' as int)
  }

  /** `String(n)` for a natural number. */
  function NatToString(n: nat): string {
    var d := [(n % 10 + '0' as int) as char];
    if n < 10 then d else NatToString(n / 10) + d
  }

  /** `String(n)` is the shortest decimal spelling of `n`: digits only, no
      leading zero, and reading it back gives `n`. */
  lemma {:induction false} NatToStringSpells(n: nat)
    ensures var r := NatToString(n);
      r != [] && AllDigits(r) && DecimalValue(r) == n && (|r| > 1 ==> r[0] != '0')
  {
    if n >= 10 {
      NatToStringSpells(n / 10);
      var r := NatToString(n);
      assert r[..|r| - 1] == NatToString(n / 10);
    }
  }

  /** Two shortest decimal spellings of the same value are the same string,
      so `String` is injective. */
  lemma NatToStringInjective(m: nat, n: nat)
    requires NatToString(m) == NatToString(n)
    ensures m == n
  {
    NatToStringSpells(m);
    NatToStringSpells(n);
  }

  /** `s.split(c)[0]`: the part of `s` before the first `c`. */
  function BeforeFirst(s: string, c: char): (r: string)
    ensures c !in r
    ensures r <= s
    ensures |r| < |s| ==> s[|r|] == c
  {
    if s == [] || s[0] == c then [] else [s[0]] + BeforeFirst(s[1..], c)
  }

  /** `s.split('/').pop()`: the text after the last '/', or all of `s`. */
  function LastSegment(s: string): (r: string)
    ensures '/' !in r
  {
    if s == [] || s[|s| - 1] == '/' then [] else LastSegment(s[..|s| - 1]) + [s[|s| - 1]]
  }

  /** The last segment is the suffix of `s` that follows its last '/'. */
  lemma {:induction false} LastSegmentIsSuffix(s: string)
    ensures var r := LastSegment(s);
      && |r| <= |s| && r == s[|s| - |r|..]
      && (|r| < |s| ==> s[|s| - |r| - 1] == '/')
  {
    if s != [] && s[|s| - 1] != '/' {
      var init := s[..|s| - 1];
      LastSegmentIsSuffix(init);
      var r := LastSegment(init);
      var m := |s| - |r| - 1;
      assert LastSegment(s) == r + [s[|s| - 1]];
      assert s[m..] == s[m..|s| - 1] + [s[|s| - 1]];
      assert s[m..|s| - 1] == init[m..];
      assert m > 0 ==> s[m - 1] == init[m - 1];
    }
  }

  /** `Math.round(a / n)` for a positive divisor: halves round toward
      positive infinity, as `Math.round` does. */
  function RoundDiv(a: int, n: int): int
    requires n > 0
  {
    (2 * a + n) / (2 * n)
  }

  /** `RoundDiv(a, n)` is the integer nearest to a / n, halves upward. */
  lemma RoundDivIsNearest(a: int, n: int)
    requires n > 0
    ensures var r := RoundDiv(a, n); 2 * n * r - n <= 2 * a < 2 * n * r + n
  {
    var r := RoundDiv(a, n);
    var q := 2 * a + n;
    assert q == (2 * n) * r + q % (2 * n);
    assert 0 <= q % (2 * n) < 2 * n;
  }

  /** Rounding a quotient stays between the bounds of the dividend. */
  lemma RoundDivBetween(a: int, n: int, lo: int, hi: int)
    requires n > 0 && n * lo <= a <= n * hi
    ensures lo <= RoundDiv(a, n) <= hi
  {
    var r := RoundDiv(a, n);
    RoundDivIsNearest(a, n);
    assert lo <= r by {
      MulMonotone(2 * n, r + 1, lo);
      assert 2 * n * (r + 1) == 2 * n * r + 2 * n;
      assert 2 * n * lo == 2 * (n * lo);
    }
    assert r <= hi by {
      MulMonotone(2 * n, hi + 1, r);
      assert 2 * n * (hi + 1) == 2 * n * hi + 2 * n;
      assert 2 * n * hi == 2 * (n * hi);
    }
  }

  lemma MulMonotone(n: int, x: int, y: int)
    requires n >= 0
    ensures x <= y ==> n * x <= n * y
  {
    if x <= y {
      assert n * y - n * x == n * (y - x);
    }
  }
}
