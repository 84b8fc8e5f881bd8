/** A voxel grid of point counts: every point added to the grid falls into
    one cell of a width x height x depth box, and the grid keeps, per cell,
    how many points landed there plus the total of points that were inside
    the box. The flat cell index of cell (x, y, z) is x + y*W + z*W*H. */
module VoxelDensity {

  /** `size_t` is a 64-bit unsigned integer; arithmetic on it wraps. */
  const SIZE_T_MODULUS: nat := 0x1_0000_0000_0000_0000
  type SizeT = n: nat | n < SIZE_T_MODULUS

  /** `Density::badValue()`: the largest `size_t`. */
  const BAD_VALUE: SizeT := SIZE_T_MODULUS - 1

  /** Each side of the grid is below this (asserted by the constructor). */
  const MAX_SIDE: nat := 10000

  /** Upper bound on the cell count of any grid the constructor accepts. */
  const MAX_CELLS: nat := 1_000_000_000_000

  /** Bound on a cell offset that `getCell` asserts. */
  const OFFSET_LIMIT: nat := 1_000_000_000

  /** Truncation of a real toward zero, as a C cast does. */
  function Trunc(r: real): (t: int)
    ensures r >= 0.0 ==> 0 <= t && t as real <= r < t as real + 1.0
    ensures r < 0.0 ==> t <= 0 && t as real - 1.0 < r <= t as real
  {
    if r >= 0.0 then r.Floor else -((-r).Floor)
  }

  /** Conversion of a real to `size_t`: truncation toward zero, then the
      value modulo 2^64 (a negative value wraps around). */
  function ToSizeT(r: real): (n: SizeT)
    ensures 0.0 <= r < SIZE_T_MODULUS as real ==> n == r.Floor
  {
    Trunc(r) % SIZE_T_MODULUS
  }

  /** `lo / d` where `d = (hi - lo) / n` is the cell size. With `n == 0` the
      floating-point cell size is +infinity and the quotient is 0. */
  function AxisOrigin(lo: real, hi: real, n: nat): real
    requires lo < hi
  {
    if n == 0 then 0.0 else lo / ((hi - lo) / n as real)
  }

  /** Sum of a sequence of counts. */
  function Sum(s: seq<nat>): nat
  {
    if s == [] then 0 else s[0] + Sum(s[1..])
  }

  /** Incrementing one count increments the sum by one. */
  lemma {:induction false} SumIncrement(s: seq<nat>, c: nat)
    requires c < |s|
    ensures Sum(s[c := s[c] + 1]) == Sum(s) + 1
  {
    if c == 0 {
      assert s[c := s[c] + 1][1..] == s[1..];
    } else {
      SumIncrement(s[1..], c - 1);
      assert s[c := s[c] + 1][1..] == s[1..][c - 1 := s[c] + 1];
    }
  }

  /** A sequence of zeros sums to zero. */
  lemma {:induction false} SumZeros(s: seq<nat>)
    requires forall i :: 0 <= i < |s| ==> s[i] == 0
    ensures Sum(s) == 0
  {
    if s != [] {
      SumZeros(s[1..]);
    }
  }

  /** Any grid the constructor accepts has fewer than 10^12 cells, so the
      `badValue()` is never a valid cell index. */
  lemma CellCountBound(w: nat, h: nat, d: nat)
    requires w < MAX_SIDE && h < MAX_SIDE && d < MAX_SIDE
    ensures w * h * d < MAX_CELLS
    ensures w * h * d < BAD_VALUE
  {
    MulLe(w, h, 9999, 9999);
    MulLe(w * h, d, 9999 * 9999, 9999);
  }

  /** Multiplication is monotone in its left factor. */
  lemma {:induction false} MulMono(a: nat, b: nat, c: nat)
    requires a <= b
    ensures a * c <= b * c
  {
    if c > 0 {
      MulMono(a, b, c - 1);
      assert a * c == a * (c - 1) + a;
      assert b * c == b * (c - 1) + b;
    }
  }

  /** Multiplication is monotone in both factors. */
  lemma MulLe(a: nat, b: nat, x: nat, y: nat)
    requires a <= x && b <= y
    ensures a * b <= x * y
  {
    MulMono(a, x, b);
    MulMono(b, y, x);
  }

  /** A strictly larger left factor adds at least one more right factor. */
  lemma MulStep(a: nat, b: nat, d: nat)
    ensures a < b ==> a * d + d <= b * d
  {
    if a < b {
      MulMono(a + 1, b, d);
      assert (a + 1) * d == a * d + d;
    }
  }

  /** A quotient by a positive divisor is no larger than the dividend. */
  lemma DivLe(n: nat, d: nat)
    requires d > 0
    ensures n / d <= n
  {
    MulMono(1, d, n / d);
  }

  /** A remainder by a positive divisor is no larger than the dividend. */
  lemma ModLe(n: nat, d: nat)
    requires d > 0
    ensures n % d <= n
  {
    assert n == d * (n / d) + n % d;
    assert d * (n / d) >= 0;
  }

  /** If `n < q*d` then `n / d < q`. */
  lemma DivBelow(n: nat, d: nat, q: nat)
    requires d > 0 && n < q * d
    ensures n / d < q
  {
    if n / d >= q {
      MulMono(q, n / d, d);
    }
  }

  class Density {
    const width: nat   // cells along x
    const height: nat  // cells along y
    const depth: nat   // cells along z
    const xMin: real
    const xMax: real
    const yMin: real
    const yMax: real
    const zMin: real
    const zMax: real
    /** Number of points in each voxel, flattened. */
    const counts: array<nat>
    /** Points added that fell inside the box (never the ones outside). */
    var totalPointsInside: nat

    /** The bounding box and cell numbers as the constructor asserts them. */
    predicate ValidBox()
    {
      && width < MAX_SIDE && height < MAX_SIDE && depth < MAX_SIDE
      && xMin < xMax && yMin < yMax && zMin < zMax
    }

    ghost predicate Valid()
      reads this, counts
    {
      && ValidBox()
      && counts.Length == width * height * depth
      && counts.Length < MAX_CELLS
      && totalPointsInside == Sum(counts[..])
    }

    constructor (w: nat, h: nat, d: nat,
                 minX: real, maxX: real, minY: real, maxY: real, minZ: real, maxZ: real)
      requires w < MAX_SIDE && h < MAX_SIDE && d < MAX_SIDE
      requires minX < maxX && minY < maxY && minZ < maxZ
      ensures Valid() && fresh(counts)
      ensures width == w && height == h && depth == d
      ensures xMin == minX && xMax == maxX && yMin == minY && yMax == maxY
      ensures zMin == minZ && zMax == maxZ
      ensures counts.Length == w * h * d
      ensures forall i :: 0 <= i < counts.Length ==> counts[i] == 0
      ensures totalPointsInside == 0
    {
      width, height, depth := w, h, d;
      xMin, xMax, yMin, yMax, zMin, zMax := minX, maxX, minY, maxY, minZ, maxZ;
      CellCountBound(w, h, d);
      counts := new nat[w * h * d];
      new;
      for i := 0 to counts.Length
        invariant forall j :: 0 <= j < i ==> counts[j] == 0
      {
        counts[i] := 0;
      }
      totalPointsInside := 0;
      SumZeros(counts[..]);
    }

    /** `isValidCell`: an index names a cell iff it is below the cell count. */
    predicate IsValidCell(i: nat)
    {
      i < counts.Length
    }

    /** `getCellCount`: the count held by a valid cell. */
    function CellCount(i: nat): nat
      reads counts
      requires IsValidCell(i)
    {
      counts[i]
    }

    /** The closed box `[min, max]` on every axis. */
    predicate InBox(x: real, y: real, z: real)
    {
      && xMin <= x <= xMax
      && yMin <= y <= yMax
      && zMin <= z <= zMax
    }

    /** `getCellX` as written: `size_t(x - xR[0]/dx)`, the division binding
        tighter than the subtraction. */
    function CellX(x: real): SizeT
      requires ValidBox()
    {
      ToSizeT(x - AxisOrigin(xMin, xMax, width))
    }

    function CellY(y: real): SizeT
      requires ValidBox()
    {
      ToSizeT(y - AxisOrigin(yMin, yMax, height))
    }

    function CellZ(z: real): SizeT
      requires ValidBox()
    {
      ToSizeT(z - AxisOrigin(zMin, zMax, depth))
    }

    /** The intended `getCellX`, `size_t((x - xR[0]) / dx)`. */
    function CellXIntended(x: real): (i: SizeT)
      requires ValidBox() && width > 0
      ensures xMin <= x < xMax ==> i < width
    {
      var dx := (xMax - xMin) / width as real;
      var q := (x - xMin) / dx;
      if xMin <= x < xMax then
        assert q == (x - xMin) * width as real / (xMax - xMin);
        assert q < width as real by {
          assert (x - xMin) * width as real < (xMax - xMin) * width as real;
        }
        ToSizeT(q)
      else
        ToSizeT(q)
    }

    /** Flat offset of cell (i, j, k) in `size_t` arithmetic. */
    function Offset(i: SizeT, j: SizeT, k: SizeT): SizeT
    {
      (i + j * width + k * width * height) % SIZE_T_MODULUS
    }

    /** What `getCell` asserts before returning an inside offset. */
    predicate OffsetAsserted(x: real, y: real, z: real)
      requires ValidBox()
    {
      InBox(x, y, z) ==> Offset(CellX(x), CellY(y), CellZ(z)) < OFFSET_LIMIT
    }

    /** `getCell`: the flat index of the cell a point falls in, or
        `badValue()` for a point outside the closed box. */
    function GetCell(x: real, y: real, z: real): (c: SizeT)
      requires ValidBox() && OffsetAsserted(x, y, z)
      ensures c == BAD_VALUE <==> !InBox(x, y, z)
      ensures InBox(x, y, z) ==> c == Offset(CellX(x), CellY(y), CellZ(z)) && c < OFFSET_LIMIT
    {
      if !(xMin <= x <= xMax) then BAD_VALUE
      else if !(yMin <= y <= yMax) then BAD_VALUE
      else if !(zMin <= z <= zMax) then BAD_VALUE
      else Offset(CellX(x), CellY(y), CellZ(z))
    }

    /** When the three cell coordinates lie inside the grid, `getCell`
        returns a valid cell, x + y*W + z*W*H, which the intended
        decomposition takes back to those coordinates. */
    lemma GetCellInGrid(x: real, y: real, z: real)
      requires Valid() && InBox(x, y, z)
      requires CellX(x) < width && CellY(y) < height && CellZ(z) < depth
      ensures OffsetAsserted(x, y, z) ==> IsValidCell(GetCell(x, y, z))
      ensures OffsetAsserted(x, y, z) ==>
        CellXYZIntended(GetCell(x, y, z)) == (CellX(x), CellY(y), CellZ(z))
    {
      FlattenInRange(CellX(x), CellY(y), CellZ(z));
    }

    /** Cell (i, j, k) of the grid has flat index below W*H*D, no wrap-around,
        and the intended decomposition returns (i, j, k). */
    lemma FlattenInRange(i: nat, j: nat, k: nat)
      requires Valid()
      requires i < width && j < height && k < depth
      ensures i + j * width + k * width * height < counts.Length
      ensures Offset(i, j, k) == i + j * width + k * width * height
      ensures CellXYZIntended(Offset(i, j, k)) == (i, j, k)
    {
      Flatten(width, height, depth, i, j, k);
      var n := i + j * width + k * width * height;
      assert n < counts.Length;
      assert n % SIZE_T_MODULUS == n;
    }

    /** `getCellXYZ` as written: `cz = index/(W*H)`, then
        `i2 = index - cz*getDepth()` in `size_t`, `cy = i2/W`,
        `cx = i2 - cy*W`. */
    function CellXYZ(index: SizeT): (SizeT, SizeT, SizeT)
      requires width > 0 && height > 0
    {
      MulMono(1, width, height);
      DivLe(index, width * height);
      var cz: SizeT := index / (width * height);
      var i2: SizeT := (index - cz * depth) % SIZE_T_MODULUS;
      DivLe(i2, width);
      var cy: SizeT := i2 / width;
      var cx: SizeT := (i2 - cy * width) % SIZE_T_MODULUS;
      (cx, cy, cz)
    }

    /** On the first layer (index < W*H) the decomposition as written is the
        inverse of x + y*W with z == 0. */
    lemma CellXYZFirstLayer(index: SizeT)
      requires width > 0 && height > 0
      requires index < width * height
      ensures CellXYZ(index) == (index % width, index / width, 0)
      ensures index % width + index / width * width == index
      ensures index / width < height
    {
      DivModUnique(index, width * height, 0, index);
      var cy := index / width;
      assert index == cy * width + index % width;
      assert (index - 0 * depth) % SIZE_T_MODULUS == index;
      assert (index - cy * width) % SIZE_T_MODULUS == index % width;
      DivBelow(index, width, height);
    }

    /** The intended decomposition, `index - cz*W*H` for the remainder. */
    function CellXYZIntended(index: SizeT): (SizeT, SizeT, SizeT)
      requires width > 0 && height > 0
    {
      MulMono(1, width, height);
      DivLe(index, width * height);
      var cz: SizeT := index / (width * height);
      ModLe(index, width * height);
      var i2: SizeT := index % (width * height);
      DivLe(i2, width);
      ModLe(i2, width);
      (i2 % width, i2 / width, cz)
    }

    /** The intended decomposition inverts x + y*W + z*W*H on every valid
        cell index, with every coordinate inside the grid. */
    lemma CellXYZIntendedInverts(index: SizeT)
      requires Valid() && width > 0 && height > 0
      requires IsValidCell(index)
      ensures var c := CellXYZIntended(index);
        && c.0 < width && c.1 < height && c.2 < depth
        && c.0 + c.1 * width + c.2 * width * height == index
    {
      var layer := width * height;
      var cz, i2 := index / layer, index % layer;
      var cy, cx := i2 / width, i2 % width;
      assert index == cz * layer + i2;
      assert i2 == cy * width + cx;
      DivBelow(i2, width, height);
      assert counts.Length == depth * layer;
      DivBelow(index, layer, depth);
      assert cz * width * height == cz * layer;
    }

    /** `getCellCenter` (arithmetic only): the centre of a cell measured
        from the coordinate origin, `(cx + 0.5) * dx`; it is not offset by
        the box minimum. */
    function CellCenter(cellNum: SizeT): (real, real, real)
      requires ValidBox() && width > 0 && height > 0 && depth > 0
    {
      var c := CellXYZ(cellNum);
      ((c.0 as real + 0.5) * ((xMax - xMin) / width as real),
       (c.1 as real + 0.5) * ((yMax - yMin) / height as real),
       (c.2 as real + 0.5) * ((zMax - zMin) / depth as real))
    }

    /** Each centre coordinate lies strictly inside its cell's extent
        `[c*d, (c+1)*d)` counted from 0. */
    lemma CellCenterInsideCell(cellNum: SizeT)
      requires ValidBox() && width > 0 && height > 0 && depth > 0
      ensures var c, p := CellXYZ(cellNum), CellCenter(cellNum);
        var dx, dy, dz := (xMax - xMin) / width as real, (yMax - yMin) / height as real,
                          (zMax - zMin) / depth as real;
        && c.0 as real * dx < p.0 < (c.0 as real + 1.0) * dx
        && c.1 as real * dy < p.1 < (c.1 as real + 1.0) * dy
        && c.2 as real * dz < p.2 < (c.2 as real + 1.0) * dz
    {
      var c := CellXYZ(cellNum);
      var dx, dy, dz := (xMax - xMin) / width as real, (yMax - yMin) / height as real,
                        (zMax - zMin) / depth as real;
      assert dx > 0.0 && dy > 0.0 && dz > 0.0;
      assert (c.0 as real + 0.5) * dx == c.0 as real * dx + 0.5 * dx;
      assert (c.1 as real + 0.5) * dy == c.1 as real * dy + 0.5 * dy;
      assert (c.2 as real + 0.5) * dz == c.2 as real * dz + 0.5 * dz;
    }

    /** What `addPoint` demands of the point: `getCell`'s offset assertion
        and `cellNum < counts.size()` for a point inside the box. */
    predicate AddPointAsserted(x: real, y: real, z: real)
      requires ValidBox()
    {
      OffsetAsserted(x, y, z) && (InBox(x, y, z) ==> IsValidCell(GetCell(x, y, z)))
    }

    /** `addPoint`: a point inside the box bumps exactly its cell and the
        inside total; a point outside changes nothing and returns false. */
    method AddPoint(x: real, y: real, z: real) returns (inside: bool)
      requires Valid() && AddPointAsserted(x, y, z)
      modifies counts, this`totalPointsInside
      ensures Valid()
      ensures inside == InBox(x, y, z)
      ensures inside ==>
        var c := GetCell(x, y, z);
        && counts[..] == old(counts[..])[c := old(counts[c]) + 1]
        && totalPointsInside == old(totalPointsInside) + 1
      ensures !inside ==> counts[..] == old(counts[..]) && totalPointsInside == old(totalPointsInside)
    {
      var cellNum := GetCell(x, y, z);
      if cellNum == BAD_VALUE {
        return false;
      }
      SumIncrement(counts[..], cellNum);
      assert counts[..][cellNum := counts[cellNum] + 1] == counts[..][cellNum := counts[..][cellNum] + 1];
      counts[cellNum] := counts[cellNum] + 1;
      totalPointsInside := totalPointsInside + 1;
      return true;
    }
  }

  /** Row-major flattening of cell (i, j, k) of a W x H x D grid stays
      below W*H*D, and dividing by the layer size and then the row width
      recovers (i, j, k). */
  lemma Flatten(W: nat, H: nat, D: nat, i: nat, j: nat, k: nat)
    requires i < W && j < H && k < D
    ensures var n := i + j * W + k * W * H;
      && n < W * H * D
      && n / (W * H) == k && n % (W * H) == i + j * W
      && (i + j * W) / W == j && (i + j * W) % W == i
  {
    var layer := i + j * W;
    assert layer < W * H by {
      MulMono(j + 1, H, W);
      assert (j + 1) * W == j * W + W;
    }
    var n := layer + k * (W * H);
    assert n < W * H * D by {
      MulMono(k + 1, D, W * H);
      assert (k + 1) * (W * H) == k * (W * H) + W * H;
    }
    assert k * W * H == k * (W * H);
    DivModUnique(n, W * H, k, layer);
    DivModUnique(layer, W, j, i);
  }

  /** If `n == q*d + r` with `0 <= r < d`, then `q` and `r` are the quotient
      and remainder of `n` by `d`. */
  lemma DivModUnique(n: nat, d: nat, q: nat, r: nat)
    requires 0 <= r < d && n == q * d + r
    ensures n / d == q && n % d == r
  {
    var q' := n / d;
    assert n == q' * d + n % d;
    MulStep(q', q, d);
    MulStep(q, q', d);
  }

  //// Findings: the two quirks of the layout code, each beside its fix.

  /** With a cell size other than 1 the precedence in `getCellX` sends a
      point inside the box to a cell beyond the row: on a 2x1x1 grid over
      x in [0, 4] the point x = 3 gets cell 3, which is not a valid cell, so
      `addPoint`'s assertion fails; the intended formula gives cell 1. */
  lemma CellXPrecedenceCounterexample(d: Density)
    requires d.Valid() && d.width == 2 && d.height == 1 && d.depth == 1
    requires d.xMin == 0.0 && d.xMax == 4.0
    requires d.yMin == 0.0 && d.yMax == 1.0 && d.zMin == 0.0 && d.zMax == 1.0
    ensures d.InBox(3.0, 0.5, 0.5)
    ensures d.CellX(3.0) == 3 && d.CellXIntended(3.0) == 1
    ensures !d.AddPointAsserted(3.0, 0.5, 0.5)
  {
    assert AxisOrigin(0.0, 4.0, 2) == 0.0;
    assert d.CellX(3.0) == 3;
    assert d.CellY(0.5) == 0 && d.CellZ(0.5) == 0;
    assert d.Offset(3, 0, 0) == 3;
  }

  /** On a 2x2x2 grid cell 4 is (0, 0, 1); `getCellXYZ` as written
      subtracts `cz*getDepth()` = 2 instead of `cz*W*H` = 4 and answers
      (0, 1, 1). */
  lemma CellXYZDepthCounterexample(d: Density)
    requires d.width == 2 && d.height == 2 && d.depth == 2
    ensures d.CellXYZ(4) == (0, 1, 1)
    ensures d.CellXYZIntended(4) == (0, 0, 1)
  {
  }
}
