/** The transcendental functions the plugin takes from Python's `math`
    module. They stay uninterpreted: a `Trig` value supplies them, and the
    predicates below name the few facts some properties rely on. */
module Maths {

  datatype Trig = Trig(sqrt: real -> real, acos: real -> real, tan: real -> real, pi: real)
  {
    /** `sqrt` is the non-negative square root on non-negative arguments. */
    ghost predicate SquareRoot() {
      forall v: real :: v >= 0.0 ==> sqrt(v) >= 0.0 && sqrt(v) * sqrt(v) == v
    }

    /** The facts about `acos`, `tan` and `pi` at the points where a square
        calibration print lands. */
    predicate RightAngle() {
      pi > 0.0 && acos(0.0) == pi / 2.0 && tan(0.0) == 0.0
    }
  }

  /** `max(-1.0, min(1.0, v))`. */
  function Clamp(v: real): (r: real)
    ensures -1.0 <= r <= 1.0
    ensures -1.0 <= v <= 1.0 ==> r == v
    ensures v > 1.0 ==> r == 1.0
    ensures v < -1.0 ==> r == -1.0
  {
    if v > 1.0 then 1.0 else if v < -1.0 then -1.0 else v
  }

  function Times(x: real, y: real): real {
    x * y
  }

  /** `x**2`. */
  function Sq(x: real): real {
    Times(x, x)
  }

  lemma TimesPositive(x: real, y: real)
    requires (x > 0.0 && y > 0.0) || (x < 0.0 && y < 0.0)
    ensures Times(x, y) > 0.0
  {
    if x > 0.0 {
      assert x * y > 0.0;
    } else {
      assert x * y > 0.0;
    }
  }

  /** The square of a non-zero number is positive. */
  lemma SqPositive(x: real)
    requires x != 0.0
    ensures Sq(x) > 0.0
  {
    TimesPositive(x, x);
  }

  /** Dividing by `q` and multiplying back gives the original value. */
  lemma DivCancel(x: real, q: real)
    requires q != 0.0
    ensures (x / q) * q == x
  {
  }

  /** A positive factor keeps the sign of the other. */
  lemma ScaleSign(r: real, q: real)
    requires q > 0.0
    ensures r > 0.0 <==> r * q > 0.0
    ensures r == 0.0 <==> r * q == 0.0
  {
    if r > 0.0 {
      assert r * q > 0.0;
    } else if r < 0.0 {
      assert r * q < 0.0;
    }
  }

  /** A non-zero factor cancels from both sides. */
  lemma CancelFactor(a: real, b: real, q: real)
    requires q != 0.0 && a * q == b * q
    ensures a == b
  {
    assert (a - b) * q == 0.0;
  }
}
