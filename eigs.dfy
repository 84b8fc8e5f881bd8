/** Picking the minimum, intermediate and maximum eigen value/vector out of
    an unordered eigen decomposition of a 3x3 tensor, and laying them out as
    the nine-slot (value, declination, dip) array. The decomposition itself,
    `sqrt` and `acos` are outside the model: the eigen vectors and values
    arrive as read-only values (a matrix as a sequence of rows, a vector as a
    sequence) and the polar angle `theta` as a parameter. */
module Eigs {
  import opened Angles

  /** Which eigen value/vector: modelled by name, since the header and the
      implementation number the enumerators differently. */
  datatype EigsKind = KMin | KInt | KMax

  /** Three pairwise distinct eigen values, as the debug build asserts. */
  predicate DistinctValues(v: seq<real>)
  {
    |v| == 3 && v[0] != v[1] && v[0] != v[2] && v[1] != v[2]
  }

  /** `GetIndex`: the index of the smallest, of one neither smallest nor
      largest, or of the largest of three distinct eigen values. */
  function GetIndex(which: EigsKind, v: seq<real>): (i: nat)
    requires DistinctValues(v)
    ensures i < 3
    ensures match which
      case KMin => v[i] <= v[0] && v[i] <= v[1] && v[i] <= v[2]
      case KMax => v[0] <= v[i] && v[1] <= v[i] && v[2] <= v[i]
      case KInt => (v[0] < v[i] || v[1] < v[i] || v[2] < v[i]) && (v[i] < v[0] || v[i] < v[1] || v[i] < v[2])
  {
    var a, b, c := v[0], v[1], v[2];
    match which
    case KMin =>
      if a < b && a < c then 0
      else if b < c then 1
      else 2
    case KInt =>
      if (a < b && a > c) || (a > b && a < c) then 0
      else if (b < a && b > c) || (b > a && b < c) then 1
      else 2
    case KMax =>
      if a > b && a > c then 0
      else if b > c then 1
      else 2
  }

  /** The three kinds pick three different indices: a permutation of
      {0, 1, 2}. */
  lemma GetIndexPermutation(v: seq<real>)
    requires DistinctValues(v)
    ensures {GetIndex(KMin, v), GetIndex(KInt, v), GetIndex(KMax, v)} == {0, 1, 2}
  {
  }

  /** The picked values rise from minimum to intermediate to maximum. */
  lemma GetIndexOrder(v: seq<real>)
    requires DistinctValues(v)
    ensures v[GetIndex(KMin, v)] < v[GetIndex(KInt, v)] < v[GetIndex(KMax, v)]
  {
    GetIndexPermutation(v);
  }

  /** The orderings the source checks its index selection against. */
  lemma GetIndexTests()
    ensures GetIndex(KMin, [0.1, 0.2, 0.3]) == 0 && GetIndex(KInt, [0.1, 0.2, 0.3]) == 1 && GetIndex(KMax, [0.1, 0.2, 0.3]) == 2
    ensures GetIndex(KMin, [0.1, 0.3, 0.2]) == 0 && GetIndex(KInt, [0.1, 0.3, 0.2]) == 2 && GetIndex(KMax, [0.1, 0.3, 0.2]) == 1
    ensures GetIndex(KMin, [0.3, 0.2, 0.1]) == 2 && GetIndex(KInt, [0.3, 0.2, 0.1]) == 1 && GetIndex(KMax, [0.3, 0.2, 0.1]) == 0
    ensures GetIndex(KMin, [0.3, 0.1, 0.2]) == 1 && GetIndex(KInt, [0.3, 0.1, 0.2]) == 2 && GetIndex(KMax, [0.3, 0.1, 0.2]) == 0
    ensures GetIndex(KMin, [0.2, 0.1, 0.3]) == 1 && GetIndex(KInt, [0.2, 0.1, 0.3]) == 0 && GetIndex(KMax, [0.2, 0.1, 0.3]) == 2
  {
  }

  /** The shapes `GetEig` and `GetEigs` need: a 3x3 eigen vector matrix
      (one vector per column) and three distinct eigen values. */
  predicate Decomposition(eigenvecs: seq<seq<real>>, eigenvals: seq<real>)
  {
    && |eigenvecs| == 3 && |eigenvecs[0]| == 3 && |eigenvecs[1]| == 3 && |eigenvecs[2]| == 3
    && DistinctValues(eigenvals)
  }

  /** `GetEig`: copies the negated eigen vector in column
      `GetIndex(which)` into `vec` and returns its eigen value; it always
      reports success. */
  method GetEig(which: EigsKind, eigenvecs: seq<seq<real>>, eigenvals: seq<real>, vec: array<real>)
    returns (ok: bool, val: real)
    requires Decomposition(eigenvecs, eigenvals)
    requires vec.Length == 3
    modifies vec
    ensures ok
    ensures var index := GetIndex(which, eigenvals);
      && val == eigenvals[index]
      && vec[0] == -eigenvecs[0][index] && vec[1] == -eigenvecs[1][index] && vec[2] == -eigenvecs[2][index]
  {
    var index := GetIndex(which, eigenvals);
    vec[0] := -eigenvecs[0][index];
    vec[1] := -eigenvecs[1][index];
    vec[2] := -eigenvecs[2][index];
    val := eigenvals[index];
    ok := true;
  }

  /** The (declination, dip) in degrees that `GetEigs` stores for the
      vector (x, y, z): its polar angle phi as declination and 90 minus
      theta as dip, flipped into the lower hemisphere. */
  function DirectionOf(x: real, y: real, z: real, theta: (real, real, real) -> real, atan: real -> real): (real, real)
    requires AtanRange(atan)
  {
    Flip(Rad2Deg(Phi(x, y, atan)), 90.0 - Rad2Deg(theta(x, y, z)))
  }

  /** Every stored direction has its declination in [0, 360) and a dip
      that is not negative: it points into the lower hemisphere. */
  lemma DirectionInLowerHemisphere(x: real, y: real, z: real, theta: (real, real, real) -> real, atan: real -> real)
    requires AtanRange(atan)
    ensures var d := DirectionOf(x, y, z, theta, atan);
      0.0 <= d.0 < 360.0 && d.1 >= 0.0
  {
  }

  /** The direction of the eigen vector `GetEig(which)` copies out. */
  function Direction(which: EigsKind, eigenvecs: seq<seq<real>>, eigenvals: seq<real>,
                     theta: (real, real, real) -> real, atan: real -> real): (real, real)
    requires Decomposition(eigenvecs, eigenvals) && AtanRange(atan)
  {
    var i := GetIndex(which, eigenvals);
    DirectionOf(-eigenvecs[0][i], -eigenvecs[1][i], -eigenvecs[2][i], theta, atan)
  }

  /** The direction of the vector `GetEig(which)` copies out is
      `Direction(which)`. */
  lemma DirectionOfColumn(which: EigsKind, eigenvecs: seq<seq<real>>, eigenvals: seq<real>, x: real, y: real, z: real,
                          theta: (real, real, real) -> real, atan: real -> real)
    requires Decomposition(eigenvecs, eigenvals) && AtanRange(atan)
    requires var i := GetIndex(which, eigenvals);
      x == -eigenvecs[0][i] && y == -eigenvecs[1][i] && z == -eigenvecs[2][i]
    ensures DirectionOf(x, y, z, theta, atan) == Direction(which, eigenvecs, eigenvals, theta, atan)
  {
  }

  /** `GetEigs`: slots 0, 3 and 6 hold the minimum, intermediate and
      maximum eigen values, each followed by its eigen vector's declination
      and dip, so the values rise along the slots. */
  method GetEigs(eigenvec: seq<seq<real>>, eigenval: seq<real>, newEigs: array<real>,
                 theta: (real, real, real) -> real, atan: real -> real) returns (ok: bool)
    requires Decomposition(eigenvec, eigenval) && AtanRange(atan)
    requires newEigs.Length == 9
    modifies newEigs
    ensures ok
    ensures newEigs[0] == eigenval[GetIndex(KMin, eigenval)]
    ensures newEigs[3] == eigenval[GetIndex(KInt, eigenval)]
    ensures newEigs[6] == eigenval[GetIndex(KMax, eigenval)]
    ensures newEigs[0] < newEigs[3] < newEigs[6]
    ensures (newEigs[1], newEigs[2]) == Direction(KMin, eigenvec, eigenval, theta, atan)
    ensures (newEigs[4], newEigs[5]) == Direction(KInt, eigenvec, eigenval, theta, atan)
    ensures (newEigs[7], newEigs[8]) == Direction(KMax, eigenvec, eigenval, theta, atan)
  {
    GetIndexOrder(eigenval);
    var vec := new real[3];
    var ok0, val0 := GetEig(KMin, eigenvec, eigenval, vec);
    DirectionOfColumn(KMin, eigenvec, eigenval, vec[0], vec[1], vec[2], theta, atan);
    var d0 := DirectionOf(vec[0], vec[1], vec[2], theta, atan);
    var ok1, val1 := GetEig(KInt, eigenvec, eigenval, vec);
    DirectionOfColumn(KInt, eigenvec, eigenval, vec[0], vec[1], vec[2], theta, atan);
    var d1 := DirectionOf(vec[0], vec[1], vec[2], theta, atan);
    var ok2, val2 := GetEig(KMax, eigenvec, eigenval, vec);
    DirectionOfColumn(KMax, eigenvec, eigenval, vec[0], vec[1], vec[2], theta, atan);
    var d2 := DirectionOf(vec[0], vec[1], vec[2], theta, atan);
    ok := ok0 && ok1 && ok2;
    newEigs[0], newEigs[1], newEigs[2], newEigs[3], newEigs[4], newEigs[5], newEigs[6], newEigs[7], newEigs[8]
      := val0, d0.0, d0.1, val1, d1.0, d1.1, val2, d2.0, d2.1;
  }
}
