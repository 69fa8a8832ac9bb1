/** Decimal rounding and fixed-point text, as Python's `round(v, d)` and
    `f"{v:.{d}f}"` produce them. Values are exact reals, so rounding is
    round-half-to-even on the exact decimal value. */
module Decimal {
  import opened Wrappers
  import Text

  function Pow10(d: nat): (r: nat)
    ensures r >= 1
  {
    if d == 0 then 1 else 10 * Pow10(d - 1)
  }

  /** `10^d` as a real. */
  function Scale(d: nat): (r: real)
    ensures r >= 1.0
  {
    Pow10(d) as real
  }

  /** The integer nearest to `v`; a tie goes to the even neighbour. */
  function RoundHalfEven(v: real): (k: int)
    ensures v - 1.0 / 2.0 <= k as real <= v + 1.0 / 2.0
    ensures (k as real - v == 1.0 / 2.0 || v - k as real == 1.0 / 2.0) ==> k % 2 == 0
  {
    var f := v.Floor;
    var frac := v - f as real;
    if frac < 1.0 / 2.0 then f
    else if frac > 1.0 / 2.0 then f + 1
    else if f % 2 == 0 then f
    else f + 1
  }

  /** A non-negative value never rounds to a negative integer, nor a negative
      one to a positive integer. */
  lemma RoundHalfEvenSign(v: real)
    ensures v >= 0.0 ==> RoundHalfEven(v) >= 0
    ensures v < 0.0 ==> RoundHalfEven(v) <= 0
  {
  }

  /** `v` to the nearest multiple of `1/p`. */
  function RoundScaled(v: real, p: real): (r: real)
    requires p >= 1.0
    ensures v - 1.0 / (2.0 * p) <= r <= v + 1.0 / (2.0 * p)
  {
    ScaledBound(RoundHalfEven(v * p) as real, v, p);
    RoundHalfEven(v * p) as real / p
  }

  /** `round(v, d)`: `v` to the nearest multiple of `10^-d`. */
  function RoundTo(v: real, d: nat): (r: real)
    ensures v - 1.0 / (2.0 * Scale(d)) <= r <= v + 1.0 / (2.0 * Scale(d))
  {
    RoundScaled(v, Scale(d))
  }

  /** `round(v, d)` is a whole number `k` of steps `10^-d`: the integer
      nearest to `v * 10^d`, and on a tie (`v` exactly half a step away) an
      even one. With the bound of `RoundTo`, it is the nearest multiple. */
  lemma RoundToGrid(v: real, d: nat)
    ensures var k := RoundHalfEven(v * Scale(d));
      RoundTo(v, d) * Scale(d) == k as real
      && v * Scale(d) - 1.0 / 2.0 <= k as real <= v * Scale(d) + 1.0 / 2.0
      && ((k as real - v * Scale(d) == 1.0 / 2.0 || v * Scale(d) - k as real == 1.0 / 2.0) ==> k % 2 == 0)
  {
    DivMul(RoundHalfEven(v * Scale(d)) as real, Scale(d));
  }

  lemma ScaledBound(k: real, v: real, p: real)
    requires p >= 1.0
    requires v * p - 1.0 / 2.0 <= k <= v * p + 1.0 / 2.0
    ensures v - 1.0 / (2.0 * p) <= k / p <= v + 1.0 / (2.0 * p)
  {
    var e := k - v * p;
    assert k / p == v + e / p;
    assert -1.0 / 2.0 <= e <= 1.0 / 2.0;
    assert e / p <= 1.0 / (2.0 * p) by {
      assert e / p * (2.0 * p) == 2.0 * e;
    }
    assert -(1.0 / (2.0 * p)) <= e / p by {
      assert e / p * (2.0 * p) == 2.0 * e;
    }
  }

  /** Rounding an already rounded value changes nothing. */
  lemma RoundToIdempotent(v: real, d: nat)
    ensures RoundTo(RoundTo(v, d), d) == RoundTo(v, d)
  {
    RoundScaledIdempotent(v, Scale(d));
  }

  lemma RoundScaledIdempotent(v: real, p: real)
    requires p >= 1.0
    ensures RoundScaled(RoundScaled(v, p), p) == RoundScaled(v, p)
  {
    var k := RoundHalfEven(v * p);
    var r := k as real / p;
    assert RoundScaled(v, p) == r;
    DivMul(k as real, p);
    assert r * p == k as real;
    RoundHalfEvenInt(k);
    assert RoundHalfEven(r * p) == k;
    RoundScaledUnfold(r, p);
  }

  lemma RoundScaledUnfold(v: real, p: real)
    requires p >= 1.0
    ensures RoundScaled(v, p) == RoundHalfEven(v * p) as real / p
  {
  }

  lemma RoundHalfEvenInt(k: int)
    ensures RoundHalfEven(k as real) == k
  {
    assert (k as real).Floor == k;
  }

  lemma DivMul(a: real, p: real)
    requires p != 0.0
    ensures a / p * p == a
  {
  }

  predicate IsDigit(c: char) {
    '0' <= c <= '9'
  }

  predicate AllDigits(s: string) {
    forall i :: 0 <= i < |s| ==> IsDigit(s[i])
  }

  function DigitChar(d: nat): (c: char)
    requires d < 10
    ensures IsDigit(c) && c as int - '0' as int == d
  {
    ('0' as int + d) as char
  }

  /** The decimal digits of `n`, most significant first, without leading zeros. */
  function NatDigits(n: nat): (s: string)
    ensures |s| >= 1 && AllDigits(s)
  {
    if n < 10 then [DigitChar(n)] else NatDigits(n / 10) + [DigitChar(n % 10)]
  }

  /** The number a string of decimal digits denotes. */
  function DigitsValue(s: string): nat
    requires AllDigits(s)
  {
    if s == [] then 0 else DigitsValue(s[..|s| - 1]) * 10 + (s[|s| - 1] as int - '0' as int)
  }

  /** Reading back the digits of `n` gives `n`. */
  lemma {:induction false} DigitsRoundTrip(n: nat)
    ensures DigitsValue(NatDigits(n)) == n
  {
    if n >= 10 {
      var s := NatDigits(n);
      assert s[..|s| - 1] == NatDigits(n / 10);
      DigitsRoundTrip(n / 10);
    }
  }

  /** The value of a concatenation: the left part shifted by the right part's length. */
  lemma {:induction false} DigitsValueAppend(a: string, b: string)
    requires AllDigits(a) && AllDigits(b)
    ensures AllDigits(a + b)
    ensures DigitsValue(a + b) == DigitsValue(a) * Pow10(|b|) + DigitsValue(b)
    decreases |b|
  {
    AllDigitsAppend(a, b);
    if b == [] {
      assert a + b == a;
    } else {
      var b' := b[..|b| - 1];
      var ab := a + b;
      AllDigitsAppend(a, b');
      var last := b[|b| - 1] as int - '0' as int;
      assert ab[..|ab| - 1] == a + b';
      assert ab[|ab| - 1] == b[|b| - 1];
      DigitsValueAppend(a, b');
      assert DigitsValue(ab) == DigitsValue(a + b') * 10 + last;
      assert DigitsValue(b) == DigitsValue(b') * 10 + last;
      ShiftStep(DigitsValue(a), Pow10(|b'|), DigitsValue(b'), last);
    }
  }

  lemma ShiftStep(x: int, p: int, y: int, last: int)
    ensures (x * p + y) * 10 + last == x * (10 * p) + (y * 10 + last)
  {
  }

  lemma AllDigitsAppend(a: string, b: string)
    requires AllDigits(a) && AllDigits(b)
    ensures AllDigits(a + b)
  {
    forall i | 0 <= i < |a + b|
      ensures IsDigit((a + b)[i])
    {
      if i < |a| {
        assert (a + b)[i] == a[i];
      } else {
        assert (a + b)[i] == b[i - |a|];
      }
    }
  }

  function Zeros(k: nat): (s: string)
    ensures |s| == k && AllDigits(s)
  {
    if k == 0 then "" else "0" + Zeros(k - 1)
  }

  /** Leading zeros do not change the value. */
  lemma ZerosValue(k: nat)
    ensures DigitsValue(Zeros(k)) == 0
  {
    if k > 0 {
      assert Zeros(k)[..k - 1] == Zeros(k - 1) by {
        ZerosShift(k - 1);
      }
      ZerosValue(k - 1);
    }
  }

  lemma ZerosShift(k: nat)
    ensures Zeros(k + 1) == Zeros(k) + "0"
  {
    if k > 0 {
      ZerosShift(k - 1);
    }
  }

  /** `s` left-padded with zeros to at least `w` characters. */
  function PadZeros(s: string, w: nat): (r: string)
    requires AllDigits(s)
    ensures AllDigits(r) && |r| >= w && |r| >= |s|
    ensures DigitsValue(r) == DigitsValue(s)
  {
    if |s| >= w then s
    else
      var z := Zeros(w - |s|);
      DigitsValueAppend(z, s);
      ZerosValue(w - |s|);
      z + s
  }

  /** `f"{x:.{d}f}"`: an optional minus sign, at least one integer digit, a
      point and exactly `d` fraction digits. As in Python, a negative value
      that rounds to zero keeps its minus sign. */
  function FormatFixed(x: real, d: nat): (r: string)
    requires d > 0
    ensures |r| > d + 1 && r[|r| - d - 1] == '.'
    ensures forall i :: |r| - d <= i < |r| ==> IsDigit(r[i])
    ensures forall i :: 0 <= i < |r| ==> IsDigit(r[i]) || r[i] == '.' || r[i] == '-'
    ensures (r[0] == '-') <==> x < 0.0
  {
    FixedTextShape(x < 0.0, Magnitude(Units(x, d)), d);
    FixedText(x < 0.0, Magnitude(Units(x, d)), d)
  }

  /** `x` in units of `10^-d`, rounded half to even. */
  function Units(x: real, d: nat): int {
    RoundHalfEven(x * Scale(d))
  }

  function Magnitude(k: int): nat {
    if k < 0 then -k else k
  }

  /** The text of `m / 10^d`, with a leading minus sign when `neg`. */
  function FixedText(neg: bool, m: nat, d: nat): string
    requires d > 0
  {
    var digits := PadZeros(NatDigits(m), d + 1);
    var n := |digits|;
    (if neg then "-" else "") + digits[..n - d] + "." + digits[n - d..]
  }

  lemma FixedTextShape(neg: bool, m: nat, d: nat)
    requires d > 0
    ensures var r := FixedText(neg, m, d);
      |r| > d + 1 && r[|r| - d - 1] == '.'
      && (forall i :: |r| - d <= i < |r| ==> IsDigit(r[i]))
      && (forall i :: 0 <= i < |r| ==> IsDigit(r[i]) || r[i] == '.' || r[i] == '-')
      && ((r[0] == '-') <==> neg)
  {
    PlacedShape(neg, PadZeros(NatDigits(m), d + 1), d);
  }

  /** A sign, the digits with a point `d` places from the right. */
  lemma PlacedShape(neg: bool, digits: string, d: nat)
    requires d > 0 && |digits| >= d + 1 && AllDigits(digits)
    ensures var n := |digits|;
      var r := (if neg then "-" else "") + digits[..n - d] + "." + digits[n - d..];
      |r| > d + 1 && r[|r| - d - 1] == '.'
      && (forall i :: |r| - d <= i < |r| ==> IsDigit(r[i]))
      && (forall i :: 0 <= i < |r| ==> IsDigit(r[i]) || r[i] == '.' || r[i] == '-')
      && ((r[0] == '-') <==> neg)
  {
    var n := |digits|;
    var sign, a, b := if neg then "-" else "", digits[..n - d], digits[n - d..];
    var r := sign + a + "." + b;
    assert |r| == |sign| + |a| + 1 + d;
    forall i | 0 <= i < |r|
      ensures IsDigit(r[i]) || r[i] == '.' || r[i] == '-'
      ensures |r| - d <= i ==> IsDigit(r[i])
    {
      if i < |sign| {
        assert r[i] == '-';
      } else if i < |sign| + |a| {
        assert r[i] == digits[i - |sign|];
      } else if i == |sign| + |a| {
        assert r[i] == '.';
      } else {
        assert r[i] == digits[i - |sign| - 1];
      }
    }
    assert r[0] == (if neg then '-' else digits[0]);
  }

  function Signed(neg: bool, v: real): real {
    if neg then -v else v
  }

  /** Reads text of the shape `FormatFixed` writes: `-`?, digits, `.`, digits. */
  function ParseFixed(s: string): Option<real> {
    var neg := |s| > 0 && s[0] == '-';
    var body := if neg then s[1..] else s;
    var p := Text.IndexOf(body, '.');
    if p == |body| then None
    else
      var ip := body[..p];
      var fp := body[p + 1..];
      if ip == [] || fp == [] || !AllDigits(ip) || !AllDigits(fp) then None
      else
        DigitsValueAppend(ip, fp);
        Some(Signed(neg, DigitsValue(ip + fp) as real / Scale(|fp|)))
  }

  /** The fixed-point text of `x` reads back as `x` rounded to `d` places. */
  lemma FormatFixedRoundTrip(x: real, d: nat)
    requires d > 0
    ensures ParseFixed(FormatFixed(x, d)) == Some(RoundTo(x, d))
  {
    var m := Magnitude(Units(x, d));
    assert FormatFixed(x, d) == FixedText(x < 0.0, m, d);
    ParseFixedText(x < 0.0, m, d);
    SignedValue(x, d);
    RoundToUnfold(x, d);
  }

  lemma RoundToUnfold(x: real, d: nat)
    ensures RoundTo(x, d) == Units(x, d) as real / Scale(d)
  {
    RoundScaledUnfold(x, Scale(d));
  }

  lemma ParseFixedText(neg: bool, m: nat, d: nat)
    requires d > 0
    ensures ParseFixed(FixedText(neg, m, d)) == Some(Signed(neg, m as real / Scale(d)))
  {
    var digits := PadZeros(NatDigits(m), d + 1);
    var n := |digits|;
    var a := digits[..n - d];
    var b := digits[n - d..];
    FixedTextParts(neg, m, d, digits, a, b);
    PaddedHalves(digits, m, d, a, b);
    ParseFixedParts(neg, m, d, a, b);
  }

  lemma ParseFixedParts(neg: bool, m: nat, d: nat, a: string, b: string)
    requires a != [] && b != [] && |b| == d && AllDigits(a) && AllDigits(b)
    requires AllDigits(a + b) && DigitsValue(a + b) == m
    ensures ParseFixed((if neg then "-" else "") + a + "." + b) == Some(Signed(neg, m as real / Scale(d)))
  {
    ParseFixedShape(neg, a, b);
  }

  lemma FixedTextParts(neg: bool, m: nat, d: nat, digits: string, a: string, b: string)
    requires d > 0 && digits == PadZeros(NatDigits(m), d + 1)
    requires a == digits[..|digits| - d] && b == digits[|digits| - d..]
    ensures FixedText(neg, m, d) == (if neg then "-" else "") + a + "." + b
  {
  }

  /** The padded digits of `m`, cut `d` places from the right: two non-empty
      digit runs that together still denote `m`. */
  lemma PaddedHalves(digits: string, m: nat, d: nat, a: string, b: string)
    requires d > 0 && digits == PadZeros(NatDigits(m), d + 1)
    requires a == digits[..|digits| - d] && b == digits[|digits| - d..]
    ensures a != [] && b != [] && |b| == d && AllDigits(a) && AllDigits(b)
    ensures AllDigits(a + b) && DigitsValue(a + b) == m
  {
    assert a + b == digits;
    DigitsRoundTrip(m);
  }

  /** The sign of the text and the magnitude of the units give back the units. */
  lemma SignedValue(x: real, d: nat)
    ensures Signed(x < 0.0, Magnitude(Units(x, d)) as real / Scale(d)) == Units(x, d) as real / Scale(d)
  {
    var p := Scale(d);
    var k := Units(x, d);
    RoundHalfEvenSign(x * p);
    if x < 0.0 {
      assert x * p < 0.0;
      assert Magnitude(k) as real == -(k as real);
      assert -(k as real) / p == -(k as real / p);
    } else {
      assert x * p >= 0.0;
      assert Magnitude(k) == k;
    }
  }

  /** What `ParseFixed` reads from a sign, two digit runs and a point. */
  lemma ParseFixedShape(neg: bool, a: string, b: string)
    requires a != [] && b != [] && AllDigits(a) && AllDigits(b)
    ensures AllDigits(a + b)
    ensures ParseFixed((if neg then "-" else "") + a + "." + b)
      == Some(Signed(neg, DigitsValue(a + b) as real / Scale(|b|)))
  {
    DigitsValueAppend(a, b);
    var s := (if neg then "-" else "") + a + "." + b;
    var body := a + "." + b;
    SignPrefix(neg, a, b);
    PointAt(a, b);
    assert (if neg then s[1..] else s) == body;
    assert Text.IndexOf(body, '.') == |a|;
    assert body[..|a|] == a && body[|a| + 1..] == b;
  }

  /** The sign is read off the first character, and the rest is the body. */
  lemma SignPrefix(neg: bool, a: string, b: string)
    requires a != [] && AllDigits(a)
    ensures var s := (if neg then "-" else "") + a + "." + b;
      (|s| > 0 && s[0] == '-') == neg && (if neg then s[1..] else s) == a + "." + b
  {
    var s := (if neg then "-" else "") + a + "." + b;
    if neg {
      assert s == "-" + (a + "." + b);
      assert s[1..] == a + "." + b;
    } else {
      assert s == a + "." + b;
      assert s[0] == a[0];
    }
  }

  /** The first point of `a.b` follows `a`. */
  lemma PointAt(a: string, b: string)
    requires AllDigits(a)
    ensures Text.IndexOf(a + "." + b, '.') == |a|
    ensures (a + "." + b)[..|a|] == a && (a + "." + b)[|a| + 1..] == b
  {
    assert '.' !in a by {
      assert forall i :: 0 <= i < |a| ==> IsDigit(a[i]);
    }
    Text.IndexOfJoined(a, '.', b);
  }

  /** `str(i)` for a Python `int`. */
  function IntToString(i: int): (r: string)
    ensures |r| >= 1
    ensures forall j :: 0 <= j < |r| ==> IsDigit(r[j]) || r[j] == '-'
    ensures (r[0] == '-') <==> i < 0
  {
    (if i < 0 then "-" else "") + NatDigits(if i < 0 then -i else i)
  }
}
