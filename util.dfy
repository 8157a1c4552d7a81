/** Numeric and sequence helpers shared by the morphing engine:
    the source's clamp, lerp and cubic easing, Math.round, and the
    abstract monotone maps that stand for Math.pow(., 1.8). */
module Util {

  datatype Option<T> = None | Some(value: T)

  function Min(a: real, b: real): real { if a <= b then a else b }
  function Max(a: real, b: real): real { if a >= b then a else b }
  function MinInt(a: int, b: int): int { if a <= b then a else b }
  function MaxInt(a: int, b: int): int { if a >= b then a else b }
  function AbsInt(a: int): nat { if a < 0 then -a else a }
  function Abs(a: real): real { if a < 0.0 then -a else a }

  /** `clamp(v,a,b) = Math.max(a, Math.min(b, v))` */
  function Clamp(v: real, a: real, b: real): (r: real)
    ensures a <= b ==> a <= r <= b
    ensures a <= v <= b ==> r == v
    ensures v <= a ==> r == a
    ensures a <= b <= v ==> r == b
  {
    Max(a, Min(b, v))
  }

  /** The same clamp on the integer index at the end of `tweenChar`. */
  function ClampInt(v: int, a: int, b: int): (r: int)
    ensures a <= b ==> a <= r <= b
    ensures a <= v <= b ==> r == v
  {
    MaxInt(a, MinInt(b, v))
  }

  /** `lerp(a,b,t) = a + (b-a)*t` */
  function Lerp(a: real, b: real, t: real): (r: real)
    ensures t == 0.0 ==> r == a
    ensures t == 1.0 ==> r == b
    ensures 0.0 <= t <= 1.0 && a <= b ==> a <= r <= b
    ensures 0.0 <= t <= 1.0 && b <= a ==> b <= r <= a
  {
    MulUnitInterval(b - a, t);
    a + (b - a) * t
  }

  /** c*t is 0 at t = 0, c at t = 1, and between 0 and c for t in [0,1]. */
  lemma MulUnitInterval(c: real, t: real)
    ensures t == 0.0 ==> c * t == 0.0
    ensures t == 1.0 ==> c * t == c
    ensures 0.0 <= t <= 1.0 && c >= 0.0 ==> 0.0 <= c * t <= c
    ensures 0.0 <= t <= 1.0 && c <= 0.0 ==> c <= c * t <= 0.0
  {
    if 0.0 <= t <= 1.0 && c >= 0.0 {
      assert c * t <= c * 1.0;
    }
    if 0.0 <= t <= 1.0 && c <= 0.0 {
      assert (-c) * t <= (-c) * 1.0;
    }
  }

  lemma MulMonotone(c: real, s: real, t: real)
    requires c >= 0.0 && s <= t
    ensures c * s <= c * t
  {
    assert c * (t - s) >= 0.0;
  }

  lemma MulNonneg(x: real, y: real)
    requires x >= 0.0 && y >= 0.0
    ensures x * y >= 0.0
  {
  }

  /** lerp moves from a toward b as t grows. */
  lemma LerpMonotone(a: real, b: real, s: real, t: real)
    requires s <= t
    ensures a <= b ==> Lerp(a, b, s) <= Lerp(a, b, t)
    ensures b <= a ==> Lerp(a, b, t) <= Lerp(a, b, s)
  {
    assert Lerp(a, b, t) - Lerp(a, b, s) == (b - a) * (t - s);
    if a <= b {
      MulNonneg(b - a, t - s);
    } else {
      MulNonneg(a - b, t - s);
      assert (a - b) * (t - s) == -((b - a) * (t - s));
    }
  }

  function Cube(t: real): real { t * t * t }

  lemma {:induction false} CubeMonotone(a: real, b: real)
    requires 0.0 <= a <= b
    ensures 0.0 <= Cube(a) <= Cube(b)
  {
    var aa, bb := a * a, b * b;
    MulMonotone(a, a, b);
    MulMonotone(b, a, b);
    assert a * b == b * a;
    assert aa <= bb;
    MulNonneg(a, a);
    MulNonneg(aa, a);
    MulMonotone(aa, a, b);
    MulMonotone(b, aa, bb);
    assert aa * b == b * aa && bb * b == b * bb;
    assert Cube(a) == aa * a && Cube(b) == bb * b;
  }

  lemma CubeUnit(a: real)
    requires 0.0 <= a <= 1.0
    ensures 0.0 <= Cube(a) <= 1.0
  {
    CubeMonotone(a, 1.0);
  }

  /** `easeInOutCubic(t) = t<0.5 ? 4t^3 : 1 - (-2t+2)^3/2` */
  function EaseInOutCubic(t: real): (r: real)
    ensures 0.0 <= t <= 1.0 ==> 0.0 <= r <= 1.0
    ensures 0.0 <= t < 0.5 ==> r <= 0.5
    ensures 0.5 <= t <= 1.0 ==> 0.5 <= r
    ensures t == 0.0 ==> r == 0.0
    ensures t == 1.0 ==> r == 1.0
  {
    if t < 0.5 then
      CubeOnInterval(t, 0.5);
      4.0 * Cube(t)
    else
      var c := -2.0 * t + 2.0;
      CubeOnInterval(c, 1.0);
      1.0 - Cube(c) / 2.0
  }

  lemma CubeOnInterval(t: real, b: real)
    ensures 0.0 <= t <= b ==> 0.0 <= Cube(t) <= Cube(b)
  {
    if 0.0 <= t <= b {
      CubeMonotone(t, b);
    }
  }

  lemma EaseMonotone(s: real, t: real)
    requires 0.0 <= s <= t <= 1.0
    ensures EaseInOutCubic(s) <= EaseInOutCubic(t)
  {
    if t < 0.5 {
      CubeMonotone(s, t);
    } else if s >= 0.5 {
      CubeMonotone(-2.0 * t + 2.0, -2.0 * s + 2.0);
    }
  }

  /** Outside [0,1] the curve is not clamped: below 0 it stays at or below
      0, above 1 at or above 1. */
  lemma EaseOutside(t: real)
    ensures t <= 0.0 ==> EaseInOutCubic(t) <= 0.0
    ensures t >= 1.0 ==> EaseInOutCubic(t) >= 1.0
  {
    if t <= 0.0 {
      CubeMonotone(0.0, -t);
      assert Cube(-t) == -Cube(t);
    }
    if t >= 1.0 {
      var c := -2.0 * t + 2.0;
      CubeMonotone(0.0, -c);
      assert Cube(-c) == -Cube(c);
    }
  }

  /** `Math.round(x)`: the nearest integer, halves rounded up. */
  function Round(x: real): (r: int)
    ensures r as real <= x + 0.5 < r as real + 1.0
  {
    (x + 0.5).Floor
  }

  lemma RoundMonotone(x: real, y: real)
    requires x <= y
    ensures Round(x) <= Round(y)
  {
  }

  /** Rounding a value between two integers stays between them. */
  lemma RoundBetween(a: int, x: real, b: int)
    requires a as real <= x <= b as real
    ensures a <= Round(x) <= b
  {
    RoundMonotone(a as real, x);
    RoundMonotone(x, b as real);
    assert Round(a as real) == a;
    assert Round(b as real) == b;
  }

  /** An abstract stand-in for Math.pow(., 1.8) on [0,1]: it fixes 0 and 1
      and is monotone there, so it maps [0,1] onto [0,1]. */
  ghost predicate IsUnitMap(f: real -> real) {
    && f(0.0) == 0.0
    && f(1.0) == 1.0
    && forall s, t :: 0.0 <= s <= t <= 1.0 ==> f(s) <= f(t)
  }

  lemma UnitMapRange(f: real -> real, t: real)
    requires IsUnitMap(f) && 0.0 <= t <= 1.0
    ensures 0.0 <= f(t) <= 1.0
  {
    assert f(0.0) <= f(t);
    assert f(t) <= f(1.0);
  }

  /** No element occurs twice. */
  predicate NoDup<T(==)>(s: seq<T>) {
    forall i, j :: 0 <= i < j < |s| ==> s[i] != s[j]
  }

  /** The index of the first occurrence of x in s. */
  function FirstIndex<T(==)>(s: seq<T>, x: T): (k: nat)
    requires x in s
    ensures k < |s| && s[k] == x && x !in s[..k]
  {
    if s[0] == x then 0 else FirstIndex(s[1..], x) + 1
  }

  lemma FirstIndexNoDup<T>(s: seq<T>, k: nat)
    requires NoDup(s) && k < |s|
    ensures FirstIndex(s, s[k]) == k
  {
  }
}
