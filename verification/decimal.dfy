/** Decimal amounts as the parser captures them, and the two numeric
    conversions the URI builder applies to them: `parseInt(amount, 10)`
    for whole-ADA amounts and the scaling to smallest units. */
module Decimal {
  import opened Chars
  import opened Scan

  /** What `\d*\.?\d+` matches, read as a scanner: a run of digits, then
      either the end (and the run is non-empty) or a `.` and a non-empty
      run of digits up to the end. */
  predicate IsDecimalLiteral(t: string) {
    var a := Run(t, 0, IsDigit);
    || (a == |t| && a >= 1)
    || (a + 1 < |t| && t[a] == '.' && a + 1 + Run(t, a + 1, IsDigit) == |t|)
  }

  /** The same language described by its contents: non-empty, digits with
      at most one `.`, ending in a digit. */
  predicate IsDigitsWithPoint(t: string) {
    && |t| >= 1 && IsDigit(t[|t| - 1])
    && (forall k :: 0 <= k < |t| ==> IsDigit(t[k]) || t[k] == '.')
    && (forall j, k :: 0 <= j < k < |t| && t[j] == '.' ==> t[k] != '.')
  }

  lemma DecimalLiteralIff(t: string)
    ensures IsDecimalLiteral(t) <==> IsDigitsWithPoint(t)
  {
    var a := Run(t, 0, IsDigit);
    if IsDigitsWithPoint(t) && a < |t| {
      assert t[a] == '.';
      assert a + 1 < |t|;
      RunUnique(t, a + 1, IsDigit, |t| - a - 1);
    }
  }

  function DigitValue(c: char): nat
    requires IsDigit(c)
  {
    c as int - '0' as int
  }

  function DigitChar(d: nat): (c: char)
    requires d < 10
    ensures IsDigit(c) && DigitValue(c) == d
  {
    ('0' as int + d) as char
  }

  /** The value of a digit string read in base 10. */
  function DigitsValue(s: string): nat
    requires AllDigits(s)
  {
    if |s| == 0 then 0 else DigitsValue(s[..|s| - 1]) * 10 + DigitValue(s[|s| - 1])
  }

  function Pow10(n: nat): (r: nat)
    ensures r >= 1
  {
    if n == 0 then 1 else 10 * Pow10(n - 1)
  }

  function Zeros(n: nat): (z: string)
    ensures |z| == n && AllDigits(z)
  {
    seq(n, _ => '0')
  }

  /** The integer digits of a decimal literal: everything before the `.`. */
  function IntPart(t: string): (r: string)
    requires IsDecimalLiteral(t)
    ensures AllDigits(r)
  {
    t[..Run(t, 0, IsDigit)]
  }

  /** The fraction digits of a decimal literal: everything after the `.`. */
  function FracPart(t: string): (r: string)
    requires IsDecimalLiteral(t)
    ensures AllDigits(r)
  {
    var a := Run(t, 0, IsDigit);
    if a < |t| then t[a + 1..] else ""
  }

  /** The shape of a decimal literal, split at its point. */
  lemma DecimalParts(t: string)
    requires IsDecimalLiteral(t)
    ensures AllDigits(IntPart(t)) && AllDigits(FracPart(t))
    ensures t == IntPart(t) + FracPart(t) || t == IntPart(t) + "." + FracPart(t)
    ensures t == IntPart(t) + FracPart(t) ==> FracPart(t) == "" && |IntPart(t)| >= 1
    ensures t != IntPart(t) + FracPart(t) ==> |FracPart(t)| >= 1
  {
    var a := Run(t, 0, IsDigit);
    if a < |t| {
      assert t[a] == '.';
      assert t == t[..a] + "." + t[a + 1..];
    }
  }

  /** The literal's digits without the point; the literal denotes
      `Mantissa(t) / 10^|FracPart(t)|`. */
  function Mantissa(t: string): nat
    requires IsDecimalLiteral(t)
  {
    DigitsValue(IntPart(t) + FracPart(t))
  }

  lemma {:induction false} DigitsValueAppend(a: string, b: string)
    requires AllDigits(a) && AllDigits(b)
    ensures AllDigits(a + b)
    ensures DigitsValue(a + b) == DigitsValue(a) * Pow10(|b|) + DigitsValue(b)
    decreases |b|
  {
    if |b| == 0 {
      assert a + b == a;
    } else {
      var b' := b[..|b| - 1];
      var c := DigitValue(b[|b| - 1]);
      assert (a + b)[..|a + b| - 1] == a + b';
      assert DigitsValue(a + b) == DigitsValue(a + b') * 10 + c;
      DigitsValueAppend(a, b');
      AppendDigit(DigitsValue(a), Pow10(|b'|), DigitsValue(b'), c);
    }
  }

  /** One more digit: `(x * p + y) * 10 + c == x * (10 * p) + (y * 10 + c)`. */
  lemma AppendDigit(x: nat, p: nat, y: nat, c: nat)
    ensures (x * p + y) * 10 + c == x * (10 * p) + (y * 10 + c)
  {
  }

  lemma {:induction false} DigitsValueBound(s: string)
    requires AllDigits(s)
    ensures DigitsValue(s) < Pow10(|s|)
    decreases |s|
  {
    if |s| > 0 {
      DigitsValueBound(s[..|s| - 1]);
    }
  }

  lemma {:induction false} ZerosValue(n: nat)
    ensures DigitsValue(Zeros(n)) == 0
  {
    if n > 0 {
      assert Zeros(n)[..n - 1] == Zeros(n - 1);
      ZerosValue(n - 1);
    }
  }

  lemma {:induction false} Pow10Add(a: nat, b: nat)
    ensures Pow10(a + b) == Pow10(a) * Pow10(b)
    decreases b
  {
    if b > 0 {
      Pow10Add(a, b - 1);
    }
  }

  lemma Pow10Split(n: nat, k: nat)
    requires k <= n
    ensures Pow10(n) == Pow10(n - k) * Pow10(k)
  {
    Pow10Add(n - k, k);
  }

  /** `String(n)` for a non-negative integer: its decimal digits. */
  function NatToString(n: nat): (r: string)
    ensures |r| >= 1 && AllDigits(r) && DigitsValue(r) == n
    ensures |r| > 1 ==> r[0] != '0'
  {
    if n < 10 then [DigitChar(n)]
    else
      var r := NatToString(n / 10) + [DigitChar(n % 10)];
      assert r[..|r| - 1] == NatToString(n / 10);
      r
  }

  /** `String(parseInt(t, 10))` on a captured amount: the leading digit run
      read in base 10, or `NaN` when the amount starts with its point. */
  function ParseIntText(t: string): string
    requires IsDecimalLiteral(t)
  {
    var a := Run(t, 0, IsDigit);
    if a == 0 then "NaN" else NatToString(DigitsValue(t[..a]))
  }

  /** `parseInt` truncates: for an amount with integer digits its result is
      the integer part of the amount's value, printed without leading
      zeros; for `.5` it is `NaN`. */
  lemma ParseIntTruncates(t: string)
    requires IsDecimalLiteral(t)
    ensures t[0] == '.' <==> ParseIntText(t) == "NaN"
    ensures t[0] != '.' ==>
      var r := ParseIntText(t);
      var k := Pow10(|FracPart(t)|);
      && |r| >= 1 && AllDigits(r) && (|r| > 1 ==> r[0] != '0')
      && DigitsValue(r) * k <= Mantissa(t) < (DigitsValue(r) + 1) * k
  {
    if t[0] != '.' {
      ParseIntValue(t);
    } else {
      assert Run(t, 0, IsDigit) == 0;
    }
  }

  lemma ParseIntValue(t: string)
    requires IsDecimalLiteral(t) && t[0] != '.'
    ensures var r := ParseIntText(t);
      var k := Pow10(|FracPart(t)|);
      && r != "NaN" && |r| >= 1 && AllDigits(r) && (|r| > 1 ==> r[0] != '0')
      && DigitsValue(r) * k <= Mantissa(t) < (DigitsValue(r) + 1) * k
  {
    DecimalParts(t);
    var ip, fp := IntPart(t), FracPart(t);
    var r := ParseIntText(t);
    assert |ip| >= 1 && r == NatToString(DigitsValue(ip)) by {
      assert IsDigit(t[0]);
    }
    assert r != "NaN" by {
      assert IsDigit(r[0]);
    }
    DigitsValueAppend(ip, fp);
    DigitsValueBound(fp);
    Truncation(DigitsValue(ip), Pow10(|fp|), DigitsValue(fp));
  }

  /** `v * k + f` lies in `[v * k, (v + 1) * k)` when `f < k`. */
  lemma Truncation(v: nat, k: nat, f: nat)
    requires f < k
    ensures v * k <= v * k + f < (v + 1) * k
  {
  }

  /** Drops leading zeros, keeping one digit: how a number prints. */
  function StripLeadingZeros(s: string): (r: string)
    requires AllDigits(s)
    ensures |r| >= 1 && AllDigits(r) && DigitsValue(r) == DigitsValue(s)
    ensures |r| > 1 ==> r[0] != '0'
  {
    if |s| == 0 then "0"
    else if |s| > 1 && s[0] == '0' then
      DigitsValueAppend(s[..1], s[1..]);
      assert s == s[..1] + s[1..];
      StripLeadingZeros(s[1..])
    else s
  }

  /** The number of trailing zeros of a digit string. */
  function TrailingZeros(s: string): (n: nat)
    ensures n <= |s|
    ensures forall k :: |s| - n <= k < |s| ==> s[k] == '0'
    ensures n < |s| ==> s[|s| - n - 1] != '0'
  {
    if |s| > 0 && s[|s| - 1] == '0' then 1 + TrailingZeros(s[..|s| - 1]) else 0
  }

  /** `(parseFloat(t) * 10 ** d).toString()` computed exactly: the point
      moves `d` places to the right, leading zeros of the integer part and
      trailing zeros of the fraction are dropped. */
  function ScaleAmount(t: string, d: nat): string
    requires IsDecimalLiteral(t)
  {
    ScaleDigits(IntPart(t), FracPart(t), d)
  }

  /** Scaling of the amount with integer digits `ip` and fraction digits `fp`. */
  function ScaleDigits(ip: string, fp: string, d: nat): string
    requires AllDigits(ip) && AllDigits(fp)
  {
    if d >= |fp| then
      StripLeadingZeros(ip + fp + Zeros(d - |fp|))
    else
      var whole := StripLeadingZeros(ip + fp[..d]);
      var rest := KeptFraction(fp, d);
      if rest == "" then whole else whole + "." + rest
  }

  /** The fraction digits left after moving the point `d` places, without
      their trailing zeros. */
  function KeptFraction(fp: string, d: nat): (rest: string)
    requires AllDigits(fp) && d <= |fp|
    ensures AllDigits(rest) && |rest| <= |fp| - d
  {
    var tail := fp[d..];
    tail[..|tail| - TrailingZeros(tail)]
  }

  /** An all-digit literal is its own integer part. */
  lemma IntegerLiteral(r: string)
    requires |r| >= 1 && AllDigits(r)
    ensures IsDecimalLiteral(r) && IntPart(r) == r && FracPart(r) == ""
    ensures Mantissa(r) == DigitsValue(r)
  {
    RunUnique(r, 0, IsDigit, |r|);
    assert r + "" == r;
  }

  /** A literal written as digits, point, digits splits back into them. */
  lemma PointedLiteral(w: string, f: string)
    requires |w| >= 1 && AllDigits(w) && |f| >= 1 && AllDigits(f)
    ensures IsDecimalLiteral(w + "." + f)
    ensures IntPart(w + "." + f) == w && FracPart(w + "." + f) == f
    ensures Mantissa(w + "." + f) == DigitsValue(w + f)
  {
    var r := w + "." + f;
    assert r[|w|] == '.';
    RunUnique(r, 0, IsDigit, |w|);
    RunUnique(r, |w| + 1, IsDigit, |f|);
    assert r[|w| + 1..] == f;
  }

  /** The literal `r` denotes the literal `t` times `10^d`: with both
      values brought to `|FracPart(t)|` fraction digits, `r`'s digits are
      `t`'s digits followed by `d` zeros. */
  predicate ScaledBy(r: string, t: string, d: nat) {
    IsDecimalLiteral(t) && ScaledDigits(r, IntPart(t), FracPart(t), d)
  }

  /** `ScaledBy` for the amount with integer digits `ip` and fraction
      digits `fp`, whose mantissa is the value of `ip + fp`. */
  predicate ScaledDigits(r: string, ip: string, fp: string, d: nat)
    requires AllDigits(ip) && AllDigits(fp)
  {
    && IsDecimalLiteral(r) && |FracPart(r)| <= |fp|
    && DigitsValue(ip + fp) * Pow10(d) == Mantissa(r) * Pow10(|fp| - |FracPart(r)|)
  }

  /** Scaling is exact: the result denotes the amount times `10^d`, and when
      the fraction has at most `d` digits it is an integer. */
  lemma ScaleAmountExact(t: string, d: nat)
    requires IsDecimalLiteral(t)
    ensures ScaledBy(ScaleAmount(t, d), t, d)
    ensures d >= |FracPart(t)| ==> AllDigits(ScaleAmount(t, d))
  {
    if d >= |FracPart(t)| {
      ScaleAmountWhole(t, d);
    } else {
      ScaleAmountFraction(t, d);
    }
  }

  lemma ScaleAmountWhole(t: string, d: nat)
    requires IsDecimalLiteral(t) && d >= |FracPart(t)|
    ensures ScaledBy(ScaleAmount(t, d), t, d) && AllDigits(ScaleAmount(t, d))
  {
    ScaleWhole(IntPart(t), FracPart(t), d);
  }

  lemma ScaleAmountFraction(t: string, d: nat)
    requires IsDecimalLiteral(t) && d < |FracPart(t)|
    ensures ScaledBy(ScaleAmount(t, d), t, d)
  {
    ScaleFraction(IntPart(t), FracPart(t), d);
  }

  lemma ScaleWhole(ip: string, fp: string, d: nat)
    requires AllDigits(ip) && AllDigits(fp) && d >= |fp|
    ensures var r := ScaleDigits(ip, fp, d);
      && ScaledDigits(r, ip, fp, d) && FracPart(r) == "" && AllDigits(r)
  {
    var n := DigitsValue(ip + fp);
    var r := StripLeadingZeros(ip + fp + Zeros(d - |fp|));
    assert ScaleDigits(ip, fp, d) == r;
    var x, y := Pow10(d - |fp|), Pow10(|fp|);
    assert DigitsValue(r) == n * x by {
      AppendZerosValue(ip + fp, d - |fp|);
    }
    IntegerLiteral(r);
    Pow10Split(d, |fp|);
    Reassociate(n, x, y);
  }

  lemma Reassociate(a: nat, b: nat, c: nat)
    ensures (a * b) * c == a * (b * c)
  {
  }

  /** `m * 10^z` scaled by `10^d` is `m` scaled by `10^(z+d)`. */
  lemma ShiftArith(m: nat, n: nat, z: nat, d: nat)
    requires n == m * Pow10(z)
    ensures n * Pow10(d) == m * Pow10(z + d)
  {
    Pow10Add(z, d);
    Reassociate(m, Pow10(z), Pow10(d));
  }

  /** `a * p + q` with `p = x * y` and `q = b * y` is `(a * x + b) * y`. */
  lemma Regroup(n: nat, a: nat, p: nat, q: nat, x: nat, y: nat, b: nat)
    requires n == a * p + q && p == x * y && q == b * y
    ensures n == (a * x + b) * y
  {
    assert (a * x + b) * y == a * (x * y) + b * y;
  }

  /** Splitting the digits after `d` fraction places. */
  lemma SplitValue(ip: string, fp: string, d: nat)
    requires AllDigits(ip) && AllDigits(fp) && d <= |fp|
    ensures DigitsValue(ip + fp) == DigitsValue(ip + fp[..d]) * Pow10(|fp| - d) + DigitsValue(fp[d..])
  {
    assert ip + fp == (ip + fp[..d]) + fp[d..];
    DigitsValueAppend(ip + fp[..d], fp[d..]);
  }

  /** Trailing zeros multiply the value of the digits before them. */
  lemma TrailingZerosValue(s: string)
    requires AllDigits(s)
    ensures var z := TrailingZeros(s);
      DigitsValue(s) == DigitsValue(s[..|s| - z]) * Pow10(z)
  {
    var z := TrailingZeros(s);
    TrailingZerosSplit(s, z);
    AppendZerosValue(s[..|s| - z], z);
  }

  lemma TrailingZerosSplit(s: string, z: nat)
    requires z == TrailingZeros(s)
    ensures s == s[..|s| - z] + Zeros(z)
  {
    var t := s[..|s| - z] + Zeros(z);
    forall k | 0 <= k < |s|
      ensures s[k] == t[k]
    {
      if k >= |s| - z {
        assert Zeros(z)[k - (|s| - z)] == '0';
      }
    }
  }

  /** Appending `z` zeros multiplies a value by `10^z`. */
  lemma AppendZerosValue(a: string, z: nat)
    requires AllDigits(a)
    ensures AllDigits(a + Zeros(z)) && DigitsValue(a + Zeros(z)) == DigitsValue(a) * Pow10(z)
  {
    DigitsValueAppend(a, Zeros(z));
    ZerosValue(z);
  }

  /** The fraction digits after place `d` are the kept ones followed by
      the dropped zeros. */
  lemma KeptValue(fp: string, d: nat)
    requires AllDigits(fp) && d <= |fp|
    ensures var rest := KeptFraction(fp, d);
      DigitsValue(fp[d..]) == DigitsValue(rest) * Pow10(|fp| - d - |rest|)
  {
    TrailingZerosValue(fp[d..]);
  }

  /** The digits of an amount are the digits kept by scaling followed by
      the zeros that scaling drops. */
  lemma FractionSplit(ip: string, fp: string, d: nat)
    requires AllDigits(ip) && AllDigits(fp) && d < |fp|
    ensures var rest := KeptFraction(fp, d);
      var z := |fp| - d - |rest|;
      DigitsValue(ip + fp)
      == (DigitsValue(ip + fp[..d]) * Pow10(|rest|) + DigitsValue(rest)) * Pow10(z)
  {
    var rest := KeptFraction(fp, d);
    var z := |fp| - d - |rest|;
    SplitValue(ip, fp, d);
    KeptValue(fp, d);
    ShiftSplit(DigitsValue(ip + fp), DigitsValue(ip + fp[..d]), DigitsValue(fp[d..]), DigitsValue(rest),
               |rest|, z, |fp| - d);
  }

  /** `a` followed by `len` digits of value `b`, where `b` is `r` followed
      by `z` zeros, is `a` followed by `r`, then by the `z` zeros. */
  lemma ShiftSplit(n: nat, a: nat, b: nat, r: nat, k: nat, z: nat, len: nat)
    requires n == a * Pow10(len) + b && b == r * Pow10(z) && len == k + z
    ensures n == (a * Pow10(k) + r) * Pow10(z)
  {
    Pow10Add(k, z);
    Regroup(n, a, Pow10(len), b, Pow10(k), Pow10(z), r);
  }

  lemma ScaleFraction(ip: string, fp: string, d: nat)
    requires AllDigits(ip) && AllDigits(fp) && d < |fp|
    ensures ScaledDigits(ScaleDigits(ip, fp, d), ip, fp, d)
  {
    if KeptFraction(fp, d) == "" {
      ScaleFractionToWhole(ip, fp, d);
    } else {
      ScaleFractionToPointed(ip, fp, d);
    }
  }

  lemma ScaleFractionToWhole(ip: string, fp: string, d: nat)
    requires AllDigits(ip) && AllDigits(fp) && d < |fp| && KeptFraction(fp, d) == ""
    ensures var r := ScaleDigits(ip, fp, d);
      && IsDecimalLiteral(r) && |FracPart(r)| <= |fp|
      && DigitsValue(ip + fp) * Pow10(d) == Mantissa(r) * Pow10(|fp| - |FracPart(r)|)
  {
    var r := StripLeadingZeros(ip + fp[..d]);
    assert ScaleDigits(ip, fp, d) == r;
    FractionSplit(ip, fp, d);
    var m := DigitsValue(r);
    var n := DigitsValue(ip + fp);
    var z := |fp| - d;
    assert n == m * Pow10(z);
    IntegerLiteral(r);
    ShiftArith(m, n, z, d);
  }

  lemma ScaleFractionToPointed(ip: string, fp: string, d: nat)
    requires AllDigits(ip) && AllDigits(fp) && d < |fp| && KeptFraction(fp, d) != ""
    ensures ScaledDigits(ScaleDigits(ip, fp, d), ip, fp, d)
  {
    var rest := KeptFraction(fp, d);
    var whole := StripLeadingZeros(ip + fp[..d]);
    PointedDigits(ip, fp, d);
    PointedSplit(ip, fp, d);
    PointedValue(DigitsValue(ip + fp), |fp|, d, whole, rest, ScaleDigits(ip, fp, d));
  }

  /** With fraction digits left over, the scaled amount is the shifted
      integer digits, a point, and those fraction digits. */
  lemma PointedDigits(ip: string, fp: string, d: nat)
    requires AllDigits(ip) && AllDigits(fp) && d < |fp| && KeptFraction(fp, d) != ""
    ensures ScaleDigits(ip, fp, d) == StripLeadingZeros(ip + fp[..d]) + "." + KeptFraction(fp, d)
  {
  }

  /** `FractionSplit` in terms of the printed integer digits. */
  lemma PointedSplit(ip: string, fp: string, d: nat)
    requires AllDigits(ip) && AllDigits(fp) && d < |fp|
    ensures var rest := KeptFraction(fp, d);
      DigitsValue(ip + fp)
      == (DigitsValue(StripLeadingZeros(ip + fp[..d])) * Pow10(|rest|) + DigitsValue(rest))
         * Pow10(|fp| - d - |rest|)
  {
    FractionSplit(ip, fp, d);
  }

  /** A pointed result `whole.rest` whose digits, followed by zeros, make
      up the `len` digits of value `n`. */
  lemma PointedValue(n: nat, len: nat, d: nat, whole: string, rest: string, r: string)
    requires |whole| >= 1 && AllDigits(whole) && |rest| >= 1 && AllDigits(rest)
    requires d + |rest| <= len && r == whole + "." + rest
    requires n == (DigitsValue(whole) * Pow10(|rest|) + DigitsValue(rest)) * Pow10(len - d - |rest|)
    ensures IsDecimalLiteral(r) && |FracPart(r)| <= len
    ensures n * Pow10(d) == Mantissa(r) * Pow10(len - |FracPart(r)|)
  {
    var z := len - d - |rest|;
    var m := DigitsValue(whole) * Pow10(|rest|) + DigitsValue(rest);
    PointedLiteral(whole, rest);
    DigitsValueAppend(whole, rest);
    ShiftArith(m, n, z, d);
  }

  /** The scaled amount is written the way a number prints: its integer
      digits start with `0` only when `0` is all of them, and a fraction,
      when there is one, does not end in `0`. */
  lemma ScaleAmountCanonical(t: string, d: nat)
    requires IsDecimalLiteral(t)
    ensures var r := ScaleAmount(t, d);
      && IsDecimalLiteral(r) && |IntPart(r)| >= 1
      && (|IntPart(r)| > 1 ==> r[0] != '0')
      && (|FracPart(r)| >= 1 ==> r[|r| - 1] != '0')
  {
    var ip, fp := IntPart(t), FracPart(t);
    assert ScaleAmount(t, d) == ScaleDigits(ip, fp, d);
    ScaleDigitsCanonical(ip, fp, d);
  }

  lemma ScaleDigitsCanonical(ip: string, fp: string, d: nat)
    requires AllDigits(ip) && AllDigits(fp)
    ensures var r := ScaleDigits(ip, fp, d);
      && IsDecimalLiteral(r) && |IntPart(r)| >= 1
      && (|IntPart(r)| > 1 ==> r[0] != '0')
      && (|FracPart(r)| >= 1 ==> r[|r| - 1] != '0')
  {
    if d >= |fp| || KeptFraction(fp, d) == "" {
      IntegerLiteral(ScaleDigits(ip, fp, d));
    } else {
      var rest := KeptFraction(fp, d);
      var whole := StripLeadingZeros(ip + fp[..d]);
      var tail := fp[d..];
      assert rest[|rest| - 1] == tail[|tail| - TrailingZeros(tail) - 1];
      PointedLiteral(whole, rest);
      assert (whole + "." + rest)[0] == whole[0];
    }
  }
}
