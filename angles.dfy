/** Angle helpers: degree/radian conversion, wrapping a radian angle into
    [0, 2π], the quadrant fix-up of the polar angle, the lower-hemisphere
    flip of a declination/dip pair, and the open-interval tolerance test.
    Floating point is modelled as `real`; `atan` is a parameter. */
module Angles {

  /** `M_PI` to the digits the C library gives it. */
  const PI: real := 3.14159265358979323846
  const TWO_PI: real := 2.0 * PI
  const HALF_PI: real := PI * 0.5

  /** `rad2deg`: no wrapping into [0, 360]. */
  function Rad2Deg(rad: real): real
  {
    rad / PI * 180.0
  }

  /** `deg2rad`: no wrapping into [0, 2π]. */
  function Deg2Rad(deg: real): real
  {
    deg / 180.0 * PI
  }

  /** Over the reals the two conversions are exact inverses. */
  lemma RadDegRoundTrip(r: real, d: real)
    ensures Deg2Rad(Rad2Deg(r)) == r
    ensures Rad2Deg(Deg2Rad(d)) == d
  {
  }

  /** A full turn more in radians is 360 more in degrees, and back: neither
      conversion wraps its result. */
  lemma ConversionsDoNotWrap(r: real, d: real)
    ensures Rad2Deg(r + TWO_PI) == Rad2Deg(r) + 360.0
    ensures Deg2Rad(d + 360.0) == Deg2Rad(d) + TWO_PI
    ensures Rad2Deg(3.0 * PI) == 540.0
  {
  }

  /** `isEqual(a, b, del)`: `a` lies in the open interval (b - del, b + del). */
  predicate IsEqual(a: real, b: real, del: real)
  {
    a < b + del && a > b - del
  }

  /** `isEqual` is a strict distance test, symmetric in `a` and `b`, and
      never holds for a tolerance that is not positive. */
  lemma IsEqualMeaning(a: real, b: real, del: real)
    ensures IsEqual(a, b, del) <==> (if a < b then b - a else a - b) < del
    ensures IsEqual(a, b, del) <==> IsEqual(b, a, del)
    ensures del <= 0.0 ==> !IsEqual(a, b, del)
    ensures del > 0.0 ==> IsEqual(a, a, del)
  {
  }

  /** Whole turns: `k` times 2π. */
  function Turns(k: int): real
  {
    k as real * TWO_PI
  }

  /** `normRadAngle`: adds 2π while the angle is negative, then subtracts
      2π while it exceeds 2π. The result is in [0, 2π] and differs from the
      input by whole turns; negative inputs land in [0, 2π), inputs above
      2π in (0, 2π], and inputs already in range are returned unchanged. */
  method NormRadAngle(angleRad: real) returns (r: real, ghost k: int)
    ensures 0.0 <= r <= TWO_PI
    ensures r == angleRad + Turns(k)
    ensures angleRad < 0.0 ==> r < TWO_PI
    ensures angleRad > TWO_PI ==> r > 0.0
    ensures 0.0 <= angleRad <= TWO_PI ==> r == angleRad
  {
    r, k := angleRad, 0;
    while r < 0.0
      invariant r == angleRad + Turns(k)
      invariant angleRad < 0.0 ==> r < TWO_PI
      invariant angleRad >= 0.0 ==> r == angleRad
      decreases if r < 0.0 then (-r).Floor + 1 else 0
    {
      r, k := r + TWO_PI, k + 1;
    }
    while r > TWO_PI
      invariant r >= 0.0
      invariant r == angleRad + Turns(k)
      invariant angleRad < 0.0 ==> r < TWO_PI
      invariant angleRad > TWO_PI ==> r > 0.0
      invariant 0.0 <= angleRad <= TWO_PI ==> r == angleRad
      decreases r.Floor
    {
      r, k := r - TWO_PI, k - 1;
    }
  }

  /** The contract of `NormRadAngle` pins the result: two angles that
      differ from the input by whole turns and both lie in [0, 2π), or both
      in (0, 2π], are equal. */
  lemma NormRadDetermined(a: real, r1: real, k1: int, r2: real, k2: int)
    requires r1 == a + Turns(k1) && r2 == a + Turns(k2)
    requires (0.0 <= r1 < TWO_PI && 0.0 <= r2 < TWO_PI) || (0.0 < r1 <= TWO_PI && 0.0 < r2 <= TWO_PI)
    ensures r1 == r2
  {
    assert r1 - r2 == (k1 - k2) as real * TWO_PI;
    assert k1 > k2 ==> (k1 - k2) as real >= 1.0;
    assert k1 < k2 ==> (k2 - k1) as real >= 1.0;
  }

  /** The two wrapped angles the source checks: -π wraps to π and 3π
      wraps to π, whichever number of turns is used. */
  lemma NormRadAngleTests(r1: real, k1: int, r2: real, k2: int)
    requires r1 == -PI + Turns(k1) && 0.0 <= r1 < TWO_PI
    requires r2 == 3.0 * PI + Turns(k2) && 0.0 < r2 <= TWO_PI
    ensures r1 == PI && r2 == PI
  {
    NormRadDetermined(-PI, r1, k1, PI, 1);
    NormRadDetermined(3.0 * PI, r2, k2, PI, -1);
  }

  /** The range of `atan`: the open interval (-π/2, π/2). */
  ghost predicate AtanRange(atan: real -> real)
  {
    forall t :: -HALF_PI < atan(t) < HALF_PI
  }

  /** `atan` in range and with the sign of its argument. */
  ghost predicate AtanLike(atan: real -> real)
  {
    && AtanRange(atan)
    && (forall t :: (t < 0.0 ==> atan(t) < 0.0) && (t > 0.0 ==> atan(t) > 0.0) && (t == 0.0 ==> atan(t) == 0.0))
  }

  /** The polar angle `phi` of `xyz2tpr`: straight up or down the y axis
      when x is 0, otherwise `atan(y/x)`, moved by π into the left half
      plane when x < 0 and by 2π when still negative. */
  function Phi(x: real, y: real, atan: real -> real): (phi: real)
    requires x != 0.0 ==> -HALF_PI < atan(y / x) < HALF_PI
    ensures 0.0 <= phi < TWO_PI
  {
    if x == 0.0 then
      if y < 0.0 then 3.0 * PI * 0.5 else PI * 0.5
    else
      var p := atan(y / x);
      var p1 := if x < 0.0 then p + PI else p;
      if p1 < 0.0 then p1 + TWO_PI else p1
  }

  /** With a sign-preserving `atan`, `phi` names the half plane of (x, y):
      0 is +x, π/2 is +y, π is -x, 3π/2 is -y. */
  lemma PhiQuadrant(x: real, y: real, atan: real -> real)
    requires AtanLike(atan)
    ensures y > 0.0 ==> 0.0 < Phi(x, y, atan) < PI
    ensures y < 0.0 ==> PI < Phi(x, y, atan) < TWO_PI
    ensures y == 0.0 && x > 0.0 ==> Phi(x, y, atan) == 0.0
    ensures y == 0.0 && x < 0.0 ==> Phi(x, y, atan) == PI
    ensures x > 0.0 ==> Phi(x, y, atan) < HALF_PI || Phi(x, y, atan) > 3.0 * HALF_PI
    ensures x < 0.0 ==> HALF_PI < Phi(x, y, atan) < 3.0 * HALF_PI
  {
    if x != 0.0 {
      var t := y / x;
      assert -HALF_PI < atan(t) < HALF_PI;
      if (y > 0.0 && x > 0.0) || (y < 0.0 && x < 0.0) {
        assert t > 0.0;
      } else if y != 0.0 {
        assert t < 0.0;
      } else {
        assert t == 0.0;
      }
    }
  }

  /** `flip`: puts a (declination, dip) pair in the lower hemisphere. A
      negative dip is negated and the declination turned by 180 degrees;
      then a negative declination is raised by 360. */
  function Flip(dec: real, dip: real): (r: (real, real))
    ensures r.1 >= 0.0 && r.1 == (if dip < 0.0 then -dip else dip)
    ensures dip >= 0.0 ==> r.0 == dec || r.0 == dec + 360.0
    ensures dip < 0.0 ==> r.0 == dec - 180.0 || r.0 == dec + 180.0
    ensures 0.0 <= dec < 360.0 ==> 0.0 <= r.0 < 360.0
    ensures -180.0 <= dec ==> r.0 >= 0.0
  {
    var (dec1, dip1) := if dip < 0.0 then (dec - 180.0, -dip) else (dec, dip);
    if dec1 < 0.0 then (dec1 + 360.0, dip1) else (dec1, dip1)
  }

  /** A flipped pair is already in the lower hemisphere: flipping again
      changes nothing (for declinations from -180 up, which includes every
      declination in [0, 360)). */
  lemma FlipIdempotent(dec: real, dip: real)
    requires dec >= -180.0
    ensures Flip(Flip(dec, dip).0, Flip(dec, dip).1) == Flip(dec, dip)
  {
  }
}
