/** Vector helpers used by the waypoint renderer: conversion between a
    three-component vector and a list of floats, and componentwise linear
    interpolation of positions and of quaternion components. Floats are
    modelled as `real`. */
module InventorUtilities {

  /** A three-component vector (the scene library's `SbVec3f`). */
  datatype Vec3 = Vec3(x: real, y: real, z: real)

  /** `ToVector`: the three components, in order, as a list. */
  function ToVector(v: Vec3): (s: seq<real>)
    ensures |s| == 3
  {
    [v.x, v.y, v.z]
  }

  /** `ToSbVec3f`: a list of exactly three floats as a vector. */
  function ToSbVec3f(s: seq<real>): (v: Vec3)
    requires |s| == 3
  {
    Vec3(s[0], s[1], s[2])
  }

  /** The two conversions are inverse to each other. */
  lemma VectorRoundTrip(v: Vec3, s: seq<real>)
    requires |s| == 3
    ensures ToSbVec3f(ToVector(v)) == v
    ensures ToVector(ToSbVec3f(s)) == s
  {
  }

  /** One interpolated component: `a + (b - a) * percent`. */
  function Lerp(a: real, b: real, percent: real): real
  {
    a + (b - a) * percent
  }

  /** An interpolated component starts at `a`, ends at `b`, and for a
      percentage in [0, 1] lies between them. */
  lemma LerpBetween(a: real, b: real, percent: real)
    ensures Lerp(a, b, 0.0) == a && Lerp(a, b, 1.0) == b
    ensures 0.0 <= percent <= 1.0 ==>
      (a <= b ==> a <= Lerp(a, b, percent) <= b) && (b <= a ==> b <= Lerp(a, b, percent) <= a)
  {
    if 0.0 <= percent <= 1.0 {
      var d := if a <= b then b - a else a - b;
      ProductNonNegative(d, percent);
      ProductNonNegative(d, 1.0 - percent);
    }
  }

  lemma ProductNonNegative(x: real, y: real)
    requires x >= 0.0 && y >= 0.0
    ensures x * y >= 0.0
  {
  }

  /** The componentwise interpolation of two lists of equal length. */
  function Interpolated(v1: seq<real>, v2: seq<real>, percent: real): (v3: seq<real>)
    requires |v1| == |v2|
    ensures |v3| == |v1|
  {
    seq(|v1|, i requires 0 <= i < |v1| => Lerp(v1[i], v2[i], percent))
  }

  /** `InterpolatePos`: builds the interpolated list one component at a
      time. */
  method InterpolatePos(v1: seq<real>, v2: seq<real>, percent: real) returns (v3: seq<real>)
    requires |v1| == |v2|
    ensures v3 == Interpolated(v1, v2, percent)
  {
    v3 := [];
    var i := 0;
    while i < |v1|
      invariant 0 <= i <= |v1|
      invariant |v3| == i
      invariant forall j :: 0 <= j < i ==> v3[j] == Lerp(v1[j], v2[j], percent)
    {
      var a := v1[i];
      var b := v2[i];
      var delta := b - a;
      var newVal := a + delta * percent;
      v3 := v3 + [newVal];
      i := i + 1;
    }
  }

  /** At 0 the interpolation is the first list, at 1 the second, and for a
      percentage in between every component lies between the two inputs'
      components. */
  lemma InterpolatedEndpoints(v1: seq<real>, v2: seq<real>, percent: real)
    requires |v1| == |v2|
    ensures Interpolated(v1, v2, 0.0) == v1
    ensures Interpolated(v1, v2, 1.0) == v2
    ensures 0.0 <= percent <= 1.0 ==> forall i :: 0 <= i < |v1| ==>
      var c := Interpolated(v1, v2, percent)[i];
      (v1[i] <= v2[i] ==> v1[i] <= c <= v2[i]) && (v2[i] <= v1[i] ==> v2[i] <= c <= v1[i])
  {
    forall i | 0 <= i < |v1|
      ensures Interpolated(v1, v2, 0.0)[i] == v1[i] && Interpolated(v1, v2, 1.0)[i] == v2[i]
      ensures 0.0 <= percent <= 1.0 ==>
        var c := Interpolated(v1, v2, percent)[i];
        (v1[i] <= v2[i] ==> v1[i] <= c <= v2[i]) && (v2[i] <= v1[i] ==> v2[i] <= c <= v1[i])
    {
      LerpBetween(v1[i], v2[i], percent);
    }
  }

  /** `InterpolateVec`: `v1 + (v2 - v1) * percent` on vectors. */
  function InterpolateVec(v1: Vec3, v2: Vec3, percent: real): Vec3
  {
    Vec3(v1.x + (v2.x - v1.x) * percent, v1.y + (v2.y - v1.y) * percent, v1.z + (v2.z - v1.z) * percent)
  }

  /** Interpolating vectors directly agrees with converting them to lists,
      interpolating the lists and converting back, as the renderer does. */
  lemma InterpolateVecAgrees(v1: Vec3, v2: Vec3, percent: real)
    ensures InterpolateVec(v1, v2, percent) == ToSbVec3f(Interpolated(ToVector(v1), ToVector(v2), percent))
  {
  }

  /** The quaternion arithmetic of `InterpolateRotations`: the four
      components of the two rotations interpolated into a fresh
      four-element array. */
  method InterpolateQuaternion(q1: seq<real>, q2: seq<real>, percent: real) returns (q3: array<real>)
    requires |q1| == 4 && |q2| == 4
    ensures q3.Length == 4
    ensures q3[..] == Interpolated(q1, q2, percent)
  {
    q3 := new real[4];
    for i := 0 to 4
      invariant forall j :: 0 <= j < i ==> q3[j] == Lerp(q1[j], q2[j], percent)
    {
      q3[i] := q1[i] + (q2[i] - q1[i]) * percent;
    }
  }
}
