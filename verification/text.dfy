/**
 * The few pieces of Python string behaviour the exam script relies on:
 * `str.strip()` (used when answers are scored) and the decimal rendering
 * of integers under the `02d` format (used by the countdown display).
 */
module Text {

  /** Python's `str.isspace()` for a single character. */
  predicate IsSpace(c: char) {
    || c == ' '
    || ('\t' <= c <= '\r')
    || ('\U{1c}' <= c <= '\U{1f}')
    || c == '\U{85}'
    || c == '\U{a0}'
    || c == '\U{1680}'
    || ('\U{2000}' <= c <= '\U{200a}')
    || c == '\U{2028}'
    || c == '\U{2029}'
    || c == '\U{202f}'
    || c == '\U{205f}'
    || c == '\U{3000}'
  }

  predicate AllSpace(s: string) {
    forall k :: 0 <= k < |s| ==> IsSpace(s[k])
  }

  /** True when `s` has no leading and no trailing whitespace. */
  predicate Trimmed(s: string) {
    s == [] || (!IsSpace(s[0]) && !IsSpace(s[|s| - 1]))
  }

  /** Python's `str.lstrip()`: drops the whitespace prefix, keeps the rest. */
  function LStrip(s: string): (r: string)
    ensures |r| <= |s| && r == s[|s| - |r|..]
    ensures forall k :: 0 <= k < |s| - |r| ==> IsSpace(s[k])
    ensures r == [] || !IsSpace(r[0])
  {
    if |s| > 0 && IsSpace(s[0]) then LStrip(s[1..]) else s
  }

  /** Python's `str.rstrip()`: drops the whitespace suffix, keeps the rest. */
  function RStrip(s: string): (r: string)
    ensures |r| <= |s| && r == s[..|r|]
    ensures forall k :: |r| <= k < |s| ==> IsSpace(s[k])
    ensures r == [] || !IsSpace(r[|r| - 1])
  {
    if |s| > 0 && IsSpace(s[|s| - 1]) then RStrip(s[..|s| - 1]) else s
  }

  /**
   * Python's `str.strip()`: what remains once the whitespace prefix and the
   * whitespace suffix are cut off (StripShape and StripCharacterized state
   * this in full).
   */
  function Strip(s: string): (r: string)
    ensures Trimmed(r)
    ensures |r| <= |s|
  {
    RStrip(LStrip(s))
  }

  lemma {:induction false} LStripSkipsSpace(pre: string, s: string)
    requires AllSpace(pre)
    ensures LStrip(pre + s) == LStrip(s)
    decreases |pre|
  {
    if pre != [] {
      assert (pre + s)[1..] == pre[1..] + s;
      LStripSkipsSpace(pre[1..], s);
    } else {
      assert pre + s == s;
    }
  }

  lemma {:induction false} RStripSkipsSpace(s: string, post: string)
    requires AllSpace(post)
    ensures RStrip(s + post) == RStrip(s)
    decreases |post|
  {
    if post != [] {
      assert (s + post)[..|s + post| - 1] == s + post[..|post| - 1];
      RStripSkipsSpace(s, post[..|post| - 1]);
    } else {
      assert s + post == s;
    }
  }

  /** A string made only of whitespace strips away to nothing from the left. */
  lemma {:induction false} LStripAllSpace(s: string)
    requires AllSpace(s)
    ensures LStrip(s) == []
  {
  }

  /**
   * Independent characterisation of `Strip`: whatever whitespace surrounds a
   * string without surrounding whitespace of its own, stripping returns
   * exactly that string. Together with Strip's own contract this pins the
   * result down uniquely.
   */
  lemma {:induction false} StripCharacterized(pre: string, mid: string, post: string)
    requires AllSpace(pre) && AllSpace(post) && Trimmed(mid)
    ensures Strip(pre + mid + post) == mid
  {
    assert pre + mid + post == pre + (mid + post);
    LStripSkipsSpace(pre, mid + post);
    if mid == [] {
      assert mid + post == post;
      LStripAllSpace(post);
      assert RStrip([]) == [];
    } else {
      assert (mid + post)[0] == mid[0];
      assert LStrip(mid + post) == mid + post;
      RStripSkipsSpace(mid, post);
      assert RStrip(mid) == mid;
    }
  }

  /** Stripping twice is the same as stripping once. */
  lemma StripIdempotent(s: string)
    ensures Strip(Strip(s)) == Strip(s)
  {
    var m := Strip(s);
    StripCharacterized([], m, []);
    assert [] + m + [] == m;
  }

  /** Extra whitespace around a string never changes what `strip()` yields. */
  lemma StripIgnoresPadding(pre: string, s: string, post: string)
    requires AllSpace(pre) && AllSpace(post)
    ensures Strip(pre + s + post) == Strip(s)
  {
    var m := Strip(s);
    var p, q := StripShape(s);
    AllSpaceConcat(pre, p);
    AllSpaceConcat(q, post);
    var a, b := pre + p, q + post;
    Regroup(pre, p, m, q, post);
    assert pre + s + post == a + m + b;
    StripCharacterized(a, m, b);
  }

  lemma Regroup(pre: string, p: string, m: string, q: string, post: string)
    ensures pre + (p + m + q) + post == (pre + p) + m + (q + post)
  {
  }

  /** Every string is its stripped form between a whitespace prefix and a whitespace suffix. */
  lemma StripShape(s: string) returns (p: string, q: string)
    ensures s == p + Strip(s) + q && AllSpace(p) && AllSpace(q)
  {
    var l := LStrip(s);
    p := LStripShape(s);
    q := RStripShape(l);
  }

  lemma LStripShape(s: string) returns (p: string)
    ensures s == p + LStrip(s) && AllSpace(p)
  {
    var l := LStrip(s);
    p := s[..|s| - |l|];
    assert forall k :: 0 <= k < |p| ==> p[k] == s[k];
  }

  lemma RStripShape(s: string) returns (q: string)
    ensures s == RStrip(s) + q && AllSpace(q)
  {
    var m := RStrip(s);
    q := s[|m|..];
    assert forall k :: 0 <= k < |q| ==> q[k] == s[|m| + k];
  }

  lemma AllSpaceConcat(a: string, b: string)
    requires AllSpace(a) && AllSpace(b)
    ensures AllSpace(a + b)
  {
    forall k | 0 <= k < |a + b| ensures IsSpace((a + b)[k]) {
      if k < |a| { assert (a + b)[k] == a[k]; } else { assert (a + b)[k] == b[k - |a|]; }
    }
  }

  /** A string equals its stripped form exactly when it has no surrounding whitespace. */
  lemma StripFixpoint(s: string)
    ensures Strip(s) == s <==> Trimmed(s)
  {
    if Trimmed(s) {
      StripCharacterized([], s, []);
      assert [] + s + [] == s;
    }
  }

  // ---------------------------------------------------------------------
  // Decimal digits

  predicate IsDigit(c: char) {
    '0' <= c <= '9'
  }

  predicate AllDigits(s: string) {
    forall k :: 0 <= k < |s| ==> IsDigit(s[k])
  }

  function DigitChar(d: nat): (c: char)
    requires d < 10
    ensures IsDigit(c) && c as int - '0' as int == d
  {
    ('0' as int + d) as char
  }

  function DigitValue(c: char): nat
    requires IsDigit(c)
  {
    c as int - '0' as int
  }

  /** Python's `str(n)` for a non-negative integer: shortest decimal form. */
  function Digits(n: nat): (r: string)
    ensures |r| >= 1 && AllDigits(r)
    ensures |r| == 1 <==> n < 10
    ensures r[0] == '0' ==> n == 0
    decreases n
  {
    if n < 10 then [DigitChar(n)] else Digits(n / 10) + [DigitChar(n % 10)]
  }

  /** Reads a string of decimal digits back as a number (most significant first). */
  function ParseDigits(s: string): nat
    requires AllDigits(s)
  {
    if |s| == 0 then 0 else 10 * ParseDigits(s[..|s| - 1]) + DigitValue(s[|s| - 1])
  }

  /** Reading back the decimal form of `n` yields `n`. */
  lemma {:induction false} DigitsRoundTrip(n: nat)
    ensures ParseDigits(Digits(n)) == n
    decreases n
  {
    var r := Digits(n);
    if n < 10 {
      assert r[..0] == [];
    } else {
      DigitsRoundTrip(n / 10);
      assert r[..|r| - 1] == Digits(n / 10);
    }
  }

  /** A leading zero does not change the value of a digit string. */
  lemma {:induction false} LeadingZero(s: string)
    requires AllDigits(s)
    ensures AllDigits("0" + s) && ParseDigits("0" + s) == ParseDigits(s)
    decreases |s|
  {
    var t := "0" + s;
    assert AllDigits(t) by {
      forall k | 0 <= k < |t| ensures IsDigit(t[k]) {
        if k > 0 { assert t[k] == s[k - 1]; }
      }
    }
    if s == [] {
      assert t[..0] == [];
    } else {
      assert t[..|t| - 1] == "0" + s[..|s| - 1];
      LeadingZero(s[..|s| - 1]);
    }
  }

  /**
   * Python's `format(n, "02d")`: the decimal form of `n`, zero-padded to at
   * least two characters; a negative number keeps its sign in front and is
   * never padded (its sign already makes two characters).
   */
  function Format02(n: int): (r: string)
    ensures |r| >= 2
    ensures n >= 0 ==> AllDigits(r) && ParseDigits(r) == n
    ensures n < 0 ==> r[0] == '-' && AllDigits(r[1..]) && ParseDigits(r[1..]) == -n
    ensures 0 <= n < 100 <==> |r| == 2 && AllDigits(r)
    ensures n >= 10 ==> r[0] != '0'
    ensures n < 0 ==> r[1] != '0'
  {
    if n < 0 then
      DigitsRoundTrip(-n);
      assert ("-" + Digits(-n))[1..] == Digits(-n);
      "-" + Digits(-n)
    else if n < 10 then
      DigitsRoundTrip(n);
      LeadingZero(Digits(n));
      "0" + Digits(n)
    else
      DigitsRoundTrip(n);
      DigitsWidth(n);
      Digits(n)
  }

  /** From 10 on, the decimal form has exactly two digits if and only if the number is below 100. */
  lemma DigitsWidth(n: nat)
    requires n >= 10
    ensures |Digits(n)| == 2 <==> n < 100
  {
    assert |Digits(n)| == |Digits(n / 10)| + 1;
  }
}
