/** An empirical cumulative distribution of `size_t` data: a sparse table
    of the distinct data values, smallest first, each paired with the
    fraction of the data at or below it. The data values are only compared,
    so they are modelled as `nat`; `float` percents are modelled as `real`. */
module EmpiricalCdf {

  // ---------------------------------------------------------------------
  // Sorting (the constructor sorts a copy of its input with `std::sort`)
  // ---------------------------------------------------------------------

  predicate SortedAsc(s: seq<nat>)
  {
    forall i, j :: 0 <= i < j < |s| ==> s[i] <= s[j]
  }

  predicate StrictlyIncreasing(s: seq<nat>)
  {
    forall i, j :: 0 <= i < j < |s| ==> s[i] < s[j]
  }

  function Insert(x: nat, s: seq<nat>): seq<nat>
  {
    if s == [] || x <= s[0] then [x] + s else [s[0]] + Insert(x, s[1..])
  }

  /** An ascending sort; any algorithm yields the same sequence, so the
      choice of insertion sort does not matter to the tables built from it. */
  function SortAscending(s: seq<nat>): seq<nat>
  {
    if s == [] then [] else Insert(s[0], SortAscending(s[1..]))
  }

  /** Number of elements of `s` that are at most `x`. */
  function CountLe(s: seq<nat>, x: nat): (c: nat)
    ensures c <= |s|
  {
    if s == [] then 0 else (if s[0] <= x then 1 else 0) + CountLe(s[1..], x)
  }

  lemma {:induction false} InsertFacts(x: nat, s: seq<nat>)
    requires SortedAsc(s)
    ensures SortedAsc(Insert(x, s))
    ensures multiset(Insert(x, s)) == multiset(s) + multiset{x}
    ensures forall v :: CountLe(Insert(x, s), v) == CountLe(s, v) + (if x <= v then 1 else 0)
  {
    InsertMultiset(x, s);
    InsertSorted(x, s);
    forall v {
      InsertCount(x, s, v);
    }
  }

  lemma {:induction false} InsertMultiset(x: nat, s: seq<nat>)
    ensures multiset(Insert(x, s)) == multiset(s) + multiset{x}
  {
    if s == [] || x <= s[0] {
    } else {
      InsertMultiset(x, s[1..]);
      assert s == [s[0]] + s[1..];
    }
  }

  lemma {:induction false} InsertCount(x: nat, s: seq<nat>, v: nat)
    ensures CountLe(Insert(x, s), v) == CountLe(s, v) + (if x <= v then 1 else 0)
  {
    if s == [] || x <= s[0] {
      assert Insert(x, s)[1..] == s;
    } else {
      InsertCount(x, s[1..], v);
      assert Insert(x, s)[1..] == Insert(x, s[1..]);
    }
  }

  lemma {:induction false} InsertSorted(x: nat, s: seq<nat>)
    requires SortedAsc(s)
    ensures SortedAsc(Insert(x, s))
    ensures |Insert(x, s)| == |s| + 1
    ensures Insert(x, s)[0] == if s == [] || x <= s[0] then x else s[0]
  {
    if s == [] || x <= s[0] {
      assert Insert(x, s) == [x] + s;
    } else {
      InsertSorted(x, s[1..]);
      var t := Insert(x, s[1..]);
      assert Insert(x, s) == [s[0]] + t;
      assert s[0] <= t[0];
      forall i, j | 0 <= i < j < |[s[0]] + t|
        ensures ([s[0]] + t)[i] <= ([s[0]] + t)[j]
      {
        if i == 0 {
          assert t[0] <= t[j - 1];
        }
      }
    }
  }

  /** `SortAscending` sorts, permutes, and so keeps every `CountLe`. */
  lemma {:induction false} SortFacts(s: seq<nat>)
    ensures SortedAsc(SortAscending(s))
    ensures multiset(SortAscending(s)) == multiset(s)
    ensures forall v :: CountLe(SortAscending(s), v) == CountLe(s, v)
  {
    if s != [] {
      SortFacts(s[1..]);
      InsertFacts(s[0], SortAscending(s[1..]));
      assert s == [s[0]] + s[1..];
    }
  }

  // ---------------------------------------------------------------------
  // Counting facts
  // ---------------------------------------------------------------------

  lemma {:induction false} CountLeAppend(a: seq<nat>, b: seq<nat>, x: nat)
    ensures CountLe(a + b, x) == CountLe(a, x) + CountLe(b, x)
  {
    if a == [] {
      assert a + b == b;
    } else {
      CountLeAppend(a[1..], b, x);
      assert (a + b)[1..] == a[1..] + b;
    }
  }

  lemma {:induction false} CountLeAll(s: seq<nat>, x: nat)
    requires forall i :: 0 <= i < |s| ==> s[i] <= x
    ensures CountLe(s, x) == |s|
  {
    if s != [] {
      CountLeAll(s[1..], x);
    }
  }

  lemma {:induction false} CountLeNone(s: seq<nat>, x: nat)
    requires forall i :: 0 <= i < |s| ==> x < s[i]
    ensures CountLe(s, x) == 0
  {
    if s != [] {
      CountLeNone(s[1..], x);
    }
  }

  /** In sorted data, the number of elements at most `x` is the index of
      the first element above `x`. */
  lemma SortedCount(d: seq<nat>, i: nat, x: nat)
    requires SortedAsc(d) && i <= |d|
    requires forall j :: 0 <= j < i ==> d[j] <= x
    requires i < |d| ==> x < d[i]
    ensures CountLe(d, x) == i
  {
    assert d == d[..i] + d[i..];
    CountLeAppend(d[..i], d[i..], x);
    CountLeAll(d[..i], x);
    CountLeNone(d[i..], x);
  }

  /** `CountLe` grows with its bound. */
  lemma {:induction false} CountLeMonotone(s: seq<nat>, x: nat, y: nat)
    requires x <= y
    ensures CountLe(s, x) <= CountLe(s, y)
  {
    if s != [] {
      CountLeMonotone(s[1..], x, y);
    }
  }

  /** Raising the bound past no element leaves `CountLe` unchanged. */
  lemma {:induction false} CountLeGap(s: seq<nat>, x: nat, y: nat)
    requires x <= y
    requires forall e :: e in s ==> e <= x || y < e
    ensures CountLe(s, x) == CountLe(s, y)
  {
    if s != [] {
      assert s[0] in s;
      assert forall e :: e in s[1..] ==> e in s;
      CountLeGap(s[1..], x, y);
    }
  }

  /** An element at most `x` is counted. */
  lemma {:induction false} CountLePositive(s: seq<nat>, x: nat)
    requires x in s
    ensures CountLe(s, x) >= 1
  {
    if s[0] != x {
      CountLePositive(s[1..], x);
    }
  }

  // ---------------------------------------------------------------------
  // The tables
  // ---------------------------------------------------------------------

  /** `value`/`percent` is the table of `data`: `value` holds each distinct
      datum once (zeros only when `countZeros`), smallest first, and
      `percent[k]` is the fraction of all data, zeros included, at most
      `value[k]`. */
  ghost predicate IsTableOf(data: seq<nat>, countZeros: bool, value: seq<nat>, percent: seq<real>)
  {
    && |value| == |percent|
    && StrictlyIncreasing(value)
    && (forall x :: x in value <==> x in data && (countZeros || x > 0))
    && (forall k :: 0 <= k < |percent| ==>
          |data| > 0 && percent[k] == CountLe(data, value[k]) as real / |data| as real)
  }

  /** Two strictly increasing sequences with the same elements are equal. */
  lemma {:induction false} StrictlyIncreasingUnique(a: seq<nat>, b: seq<nat>)
    requires StrictlyIncreasing(a) && StrictlyIncreasing(b)
    requires forall x :: x in a <==> x in b
    ensures a == b
  {
    assert |b| > 0 ==> b[0] in b;
    if a != [] {
      assert a[0] in a;
      assert b != [];
      assert b[0] in b;
      assert a[0] == b[0];
      forall x
        ensures x in a[1..] <==> x in b[1..]
      {
        assert x in a[1..] <==> x in a && x > a[0];
        assert x in b[1..] <==> x in b && x > b[0];
      }
      StrictlyIncreasingUnique(a[1..], b[1..]);
      assert a == [a[0]] + a[1..] && b == [b[0]] + b[1..];
    }
  }

  /** The data determine their table. */
  lemma TableUnique(data: seq<nat>, countZeros: bool,
                    v1: seq<nat>, p1: seq<real>, v2: seq<nat>, p2: seq<real>)
    requires IsTableOf(data, countZeros, v1, p1) && IsTableOf(data, countZeros, v2, p2)
    ensures v1 == v2 && p1 == p2
  {
    StrictlyIncreasingUnique(v1, v2);
  }

  /** Every percent lies in (0, 1], and percents rise with the values. */
  lemma TablePercents(data: seq<nat>, countZeros: bool, value: seq<nat>, percent: seq<real>)
    requires IsTableOf(data, countZeros, value, percent)
    ensures forall k :: 0 <= k < |percent| ==> 0.0 < percent[k] <= 1.0
    ensures forall i, j :: 0 <= i < j < |percent| ==> percent[i] < percent[j]
  {
    forall k | 0 <= k < |percent|
      ensures 0.0 < percent[k] <= 1.0
    {
      PercentInRange(data, countZeros, value, percent, k);
    }
    forall i, j | 0 <= i < j < |percent|
      ensures percent[i] < percent[j]
    {
      PercentRises(data, countZeros, value, percent, i, j);
    }
  }

  lemma PercentInRange(data: seq<nat>, countZeros: bool, value: seq<nat>, percent: seq<real>, k: nat)
    requires IsTableOf(data, countZeros, value, percent) && k < |percent|
    ensures 0.0 < percent[k] <= 1.0
  {
    assert value[k] in value;
    CountLePositive(data, value[k]);
    var c := CountLe(data, value[k]);
    FractionBounds(c, |data|);
  }

  lemma FractionBounds(c: nat, n: nat)
    requires 0 < c <= n
    ensures 0.0 < c as real / n as real <= 1.0
  {
  }

  lemma PercentRises(data: seq<nat>, countZeros: bool, value: seq<nat>, percent: seq<real>, i: nat, j: nat)
    requires IsTableOf(data, countZeros, value, percent) && i < j < |percent|
    ensures percent[i] < percent[j]
  {
    assert value[j] in value;
    assert value[i] < value[j];
    CountLeMonotone(data, value[i], value[j] - 1);
    CountLeSplitAt(data, value[j]);
    FractionLess(CountLe(data, value[i]), CountLe(data, value[j]), |data|);
  }

  lemma FractionLess(a: nat, b: nat, n: nat)
    requires a < b && n > 0
    ensures a as real / n as real < b as real / n as real
  {
    assert b as real / n as real - a as real / n as real == (b - a) as real / n as real;
  }

  /** Counting up to `x` counts one more element than up to `x - 1` for
      each copy of `x`. */
  lemma {:induction false} CountLeSplitAt(s: seq<nat>, x: nat)
    requires x > 0 && x in s
    ensures CountLe(s, x) > CountLe(s, x - 1)
  {
    CountLeMonotone(s[1..], x - 1, x);
    if s[0] != x {
      CountLeSplitAt(s[1..], x);
    }
  }

  /** Index of the first table entry not below `val`: where the linear scan
      of `getCDF` stops. */
  function Position(value: seq<nat>, val: nat): (p: nat)
    ensures p <= |value|
    ensures forall k :: 0 <= k < p ==> value[k] < val
    ensures p < |value| ==> val <= value[p]
  {
    if value == [] || val <= value[0] then 0 else 1 + Position(value[1..], val)
  }

  /** `getCDF(val)` as written: past the table 1, on an entry its percent,
      below the table 0, and between two entries the lower entry's VALUE. */
  function CdfAsWritten(value: seq<nat>, percent: seq<real>, val: nat): real
    requires |value| == |percent|
  {
    var p := Position(value, val);
    if p >= |value| then 1.0
    else if val == value[p] then percent[p]
    else if p == 0 then 0.0
    else value[p - 1] as real
  }

  /** `getCDF(val)` with the lower entry's PERCENT between two entries. */
  function CdfCorrected(value: seq<nat>, percent: seq<real>, val: nat): real
    requires |value| == |percent|
  {
    var p := Position(value, val);
    if p >= |value| then 1.0
    else if val == value[p] then percent[p]
    else if p == 0 then 0.0
    else percent[p - 1]
  }

  /** The corrected lookup is the fraction of the data at most `val`,
      for every `val` when zeros are counted, and from the first entry on
      when they are not (below it the zeros make the fraction non-zero). */
  lemma CdfCorrectedIsFraction(data: seq<nat>, countZeros: bool, value: seq<nat>, percent: seq<real>, val: nat)
    requires IsTableOf(data, countZeros, value, percent) && |data| > 0
    requires countZeros || (|value| > 0 && value[0] <= val)
    ensures CdfCorrected(value, percent, val) == CountLe(data, val) as real / |data| as real
  {
    var p := Position(value, val);
    var n := |data| as real;
    if p >= |value| {
      AboveTable(data, countZeros, value, val);
      FractionOne(|data|);
    } else if val == value[p] {
      assert CdfCorrected(value, percent, val) == percent[p];
    } else if p == 0 {
      assert val < value[0];
      assert countZeros;
      BelowTable(data, value, val);
      assert 0.0 / n == 0.0;
    } else {
      BetweenEntries(data, countZeros, value, p, val);
      assert CdfCorrected(value, percent, val) == percent[p - 1];
    }
  }

  lemma FractionOne(n: nat)
    requires n > 0
    ensures n as real / n as real == 1.0
  {
  }

  /** Past the last entry every datum is counted. */
  lemma AboveTable(data: seq<nat>, countZeros: bool, value: seq<nat>, val: nat)
    requires forall x :: x in value <==> x in data && (countZeros || x > 0)
    requires forall k :: 0 <= k < |value| ==> value[k] < val
    ensures CountLe(data, val) == |data|
  {
    forall i | 0 <= i < |data|
      ensures data[i] <= val
    {
      assert data[i] in data;
      if countZeros || data[i] > 0 {
        assert data[i] in value;
      }
    }
    CountLeAll(data, val);
  }

  /** With zeros counted, below the first entry no datum is counted. */
  lemma BelowTable(data: seq<nat>, value: seq<nat>, val: nat)
    requires forall x :: x in value <==> x in data
    requires StrictlyIncreasing(value) && |value| > 0 && val < value[0]
    ensures CountLe(data, val) == 0
  {
    forall i | 0 <= i < |data|
      ensures val < data[i]
    {
      assert data[i] in data;
      var j :| 0 <= j < |value| && value[j] == data[i];
      assert value[0] <= value[j];
    }
    CountLeNone(data, val);
  }

  /** Strictly between two consecutive entries lies no datum. */
  lemma BetweenEntries(data: seq<nat>, countZeros: bool, value: seq<nat>, p: nat, val: nat)
    requires forall x :: x in value <==> x in data && (countZeros || x > 0)
    requires StrictlyIncreasing(value) && 0 < p < |value|
    requires value[p - 1] < val < value[p]
    ensures CountLe(data, value[p - 1]) == CountLe(data, val)
  {
    forall e | e in data
      ensures e <= value[p - 1] || val < e
    {
    }
    CountLeGap(data, value[p - 1], val);
  }

  /** The four outcomes of the as-written lookup, entry by entry. */
  lemma CdfAsWrittenOutcomes(value: seq<nat>, percent: seq<real>, val: nat)
    requires |value| == |percent| && StrictlyIncreasing(value)
    ensures (forall k :: 0 <= k < |value| ==> value[k] < val) ==> CdfAsWritten(value, percent, val) == 1.0
    ensures forall k :: 0 <= k < |value| && value[k] == val ==> CdfAsWritten(value, percent, val) == percent[k]
    ensures |value| > 0 && val < value[0] ==> CdfAsWritten(value, percent, val) == 0.0
    ensures forall k :: 0 < k < |value| && value[k - 1] < val < value[k] ==>
      CdfAsWritten(value, percent, val) == value[k - 1] as real
  {
    var p := Position(value, val);
    forall k | 0 <= k < |value| && value[k] == val
      ensures p == k
    {
      PositionIs(value, val, k);
    }
    forall k | 0 < k < |value| && value[k - 1] < val < value[k]
      ensures p == k
    {
      PositionIs(value, val, k);
    }
  }

  /** The as-written lookup agrees with the corrected one except strictly
      between two entries, where it returns a data value. */
  lemma CdfAsWrittenDiffers(value: seq<nat>, percent: seq<real>, val: nat)
    requires |value| == |percent|
    ensures var p := Position(value, val);
      if 0 < p < |value| && val != value[p]
      then CdfAsWritten(value, percent, val) == value[p - 1] as real
      else CdfAsWritten(value, percent, val) == CdfCorrected(value, percent, val)
  {
  }

  /** Data [2, 4]: the table is value [2, 4], percent [0.5, 1.0], and at 3
      the as-written lookup returns 2.0, not a fraction, where half the
      data lie at or below 3. */
  lemma CdfValueCounterexample()
    ensures IsTableOf([2, 4], true, [2, 4], [0.5, 1.0])
    ensures CdfAsWritten([2, 4], [0.5, 1.0], 3) == 2.0
    ensures CdfCorrected([2, 4], [0.5, 1.0], 3) == 0.5
    ensures CountLe([2, 4], 3) as real / 2.0 == 0.5
  {
    var v: seq<nat> := [2, 4];
    assert Position(v, 3) == 1 by {
      assert Position(v[1..], 3) == 0;
    }
    assert CountLe(v, 2) == 1 && CountLe(v, 4) == 2 by {
      assert v[1..] == [4];
    }
  }

  class Cdf {
    /** The distinct data values, smallest first. */
    var value: seq<nat>
    /** Fraction of the data at or below each value. */
    var percent: seq<real>
    /** The data and flag the table was built from. */
    ghost const data: seq<nat>
    ghost const countZeros: bool

    ghost predicate Valid()
      reads this
    {
      IsTableOf(data, countZeros, value, percent)
    }

    /** `Cdf(data, countZeros)`: sorts a copy of the data and builds the
        tables; `d[0]` is read when zeros are counted, so the data must
        then be non-empty. */
    constructor (data: seq<nat>, countZeros: bool)
      requires countZeros ==> |data| > 0
      ensures Valid() && this.data == data && this.countZeros == countZeros
    {
      this.data := data;
      this.countZeros := countZeros;
      var v, p := BuildTables(data, countZeros);
      value, percent := v, p;
    }

    /** The table-building loop of the constructor. The caller's data are
        copied and left unchanged. */
    static method BuildTables(data: seq<nat>, countZeros: bool) returns (value: seq<nat>, percent: seq<real>)
      requires countZeros ==> |data| > 0
      ensures IsTableOf(data, countZeros, value, percent)
      ensures value == [] <==> !countZeros && forall i :: 0 <= i < |data| ==> data[i] == 0
      ensures value != [] ==>
        && percent[|percent| - 1] == 1.0
        && forall i :: 0 <= i < |data| ==> data[i] <= value[|value| - 1]
    {
      var d := SortAscending(data);
      SortedCopy(data);
      var n := |d|;
      value, percent := [], [];

      var curVal: nat;
      var start: nat;
      ghost var lo: nat;
      if countZeros {
        curVal := d[0];
        start := 1;
        lo := 0;
      } else {
        var i := FirstNonZero(d);
        if i >= n {
          AllZero(data, d);
          return;
        }
        curVal := d[i];
        start := i;
        lo := i;
      }
      value, percent := CollectRuns(d, lo, start, curVal);
      FromSorted(data, countZeros, d, lo, value, percent);
    }

    /** The search for the first non-zero entry of the sorted copy. */
    static method FirstNonZero(d: seq<nat>) returns (i: nat)
      ensures i <= |d|
      ensures forall j :: 0 <= j < i ==> d[j] == 0
      ensures i < |d| ==> d[i] != 0
    {
      i := 0;
      while i < |d| && 0 == d[i]
        invariant i <= |d|
        invariant forall j :: 0 <= j < i ==> d[j] == 0
      {
        i := i + 1;
      }
    }

    /** The scan over the sorted copy from `start` on: each change of value
        closes a run with the fraction of the data before it, and the last
        entry closes the table with 1. */
    static method CollectRuns(d: seq<nat>, ghost lo: nat, start: nat, curVal: nat)
      returns (value: seq<nat>, percent: seq<real>)
      requires ScanInv(d, lo, start, curVal, [], [])
      ensures |value| == |percent| && StrictlyIncreasing(value) && |value| > 0
      ensures forall x :: x in value <==> x in d[lo..]
      ensures forall k :: 0 <= k < |percent| ==> percent[k] == CountLe(d, value[k]) as real / |d| as real
      ensures value[|value| - 1] == d[|d| - 1] && percent[|percent| - 1] == 1.0
    {
      var n := |d|;
      value, percent := [], [];
      var cur := curVal;
      for i := start to n
        invariant ScanInv(d, lo, i, cur, value, percent)
      {
        ScanStep(d, lo, i, cur, value, percent);
        if cur != d[i] {
          value := value + [cur];
          percent := percent + [i as real / n as real];
          cur := d[i];
        }
      }
      ScanEnd(d, lo, cur, value, percent);
      value := value + [d[n - 1]];
      percent := percent + [1.0];
    }

    /** `getCDF(val)`: the linear scan and its four outcomes as written. */
    method GetCdf(val: nat) returns (r: real)
      requires Valid()
      ensures r == CdfAsWritten(value, percent, val)
      ensures (forall k :: 0 <= k < |value| ==> value[k] < val) ==> r == 1.0
      ensures forall k :: 0 <= k < |value| && value[k] == val ==> r == percent[k]
      ensures |value| > 0 && val < value[0] ==> r == 0.0
      ensures forall k :: 0 < k < |value| && value[k - 1] < val < value[k] ==> r == value[k - 1] as real
    {
      var offset := 0;
      while offset < |value| && val > value[offset]
        invariant offset <= |value|
        invariant forall k :: 0 <= k < offset ==> value[k] < val
      {
        offset := offset + 1;
      }
      PositionIs(value, val, offset);
      CdfAsWrittenOutcomes(value, percent, val);
      if offset >= |value| {
        return 1.0;
      }
      if val == value[offset] {
        return percent[offset];
      }
      if 0 == offset && val < value[offset] {
        return 0.0;
      }
      if val < value[offset] {
        return value[offset - 1] as real;
      }
      assert false;
    }

    /** `getCDF(val, bottom, top)`: the same result, with `top` the result
        and `bottom` the percent of the entry before the scan's stop (0 at
        the first entry), so the pair brackets the lookup on every entry
        and past the table. */
    method GetCdfBracketed(val: nat) returns (r: real, bottom: real, top: real)
      requires Valid()
      ensures r == CdfAsWritten(value, percent, val) && top == r
      ensures Position(value, val) == 0 ==> bottom == 0.0
      ensures Position(value, val) > 0 ==> bottom == percent[Position(value, val) - 1]
      ensures (val in value || forall k :: 0 <= k < |value| ==> value[k] < val) ==> bottom <= top
    {
      var offset := 0;
      while offset < |value| && val > value[offset]
        invariant offset <= |value|
        invariant forall k :: 0 <= k < offset ==> value[k] < val
      {
        offset := offset + 1;
      }
      PositionIs(value, val, offset);
      if offset >= |value| {
        r := 1.0;
      } else if val == value[offset] {
        r := percent[offset];
      } else if 0 == offset && val < value[offset] {
        r := 0.0;
      } else if val < value[offset] {
        r := value[offset - 1] as real;
      } else {
        assert false;
      }

      if 0 == offset {
        bottom, top := 0.0, r;
      } else {
        top := r;
        bottom := percent[offset - 1];
      }
      TablePercents(data, countZeros, value, percent);
    }
  }

  /** The sorted copy has the elements and counts of the data. */
  lemma SortedCopy(data: seq<nat>)
    ensures SortedAsc(SortAscending(data)) && |SortAscending(data)| == |data|
    ensures forall x :: x in SortAscending(data) <==> x in data
    ensures forall v :: CountLe(SortAscending(data), v) == CountLe(data, v)
  {
    var d := SortAscending(data);
    SortFacts(data);
    assert |d| == |multiset(d)| == |multiset(data)| == |data|;
    forall x
      ensures x in d <==> x in data
    {
      assert x in d <==> x in multiset(d);
      assert x in data <==> x in multiset(data);
    }
  }

  /** A sorted copy made only of zeros comes from data made only of zeros. */
  lemma AllZero(data: seq<nat>, d: seq<nat>)
    requires forall x :: x in d <==> x in data
    requires forall j :: 0 <= j < |d| ==> d[j] == 0
    ensures forall i :: 0 <= i < |data| ==> data[i] == 0
  {
    forall i | 0 <= i < |data|
      ensures data[i] == 0
    {
      assert data[i] in data;
    }
  }

  /** The state of the constructor's scan over the sorted copy `d`, which
      started at index `lo` and has reached index `i`: `value` holds the
      distinct entries of `d[lo..i]` other than the current run's value
      `curVal`, each with its fraction of `d`. */
  ghost predicate ScanInv(d: seq<nat>, lo: nat, i: nat, curVal: nat, value: seq<nat>, percent: seq<real>)
  {
    && SortedAsc(d) && lo < |d| && lo <= i <= |d|
    && (i > lo ==> curVal == d[i - 1])
    && (i == lo ==> curVal == d[lo])
    && |value| == |percent|
    && StrictlyIncreasing(value)
    && (forall k :: 0 <= k < |value| ==> value[k] < curVal)
    && (forall x :: x in value <==> x in d[lo..i] && x != curVal)
    && (forall k :: 0 <= k < |percent| ==> percent[k] == CountLe(d, value[k]) as real / |d| as real)
  }

  /** One step of the scan: a new run closes the current one with the
      fraction of data before index `i`. */
  lemma ScanStep(d: seq<nat>, lo: nat, i: nat, curVal: nat, value: seq<nat>, percent: seq<real>)
    requires ScanInv(d, lo, i, curVal, value, percent) && i < |d|
    ensures curVal != d[i] ==>
      ScanInv(d, lo, i + 1, d[i], value + [curVal], percent + [i as real / |d| as real])
    ensures curVal == d[i] ==> ScanInv(d, lo, i + 1, curVal, value, percent)
  {
    assert d[lo..i + 1] == d[lo..i] + [d[i]];
    if curVal != d[i] {
      assert i > lo;
      assert d[i - 1] in d[lo..i];
      SortedCount(d, i, curVal);
      var v, p := value + [curVal], percent + [i as real / |d| as real];
      forall x
        ensures x in v <==> x in d[lo..i + 1] && x != d[i]
      {
        assert x in v <==> x in value || x == curVal;
      }
    }
  }

  /** Closing the last run completes the table of `d[lo..]`. */
  lemma ScanEnd(d: seq<nat>, lo: nat, curVal: nat, value: seq<nat>, percent: seq<real>)
    requires ScanInv(d, lo, |d|, curVal, value, percent)
    ensures var v, p := value + [d[|d| - 1]], percent + [1.0];
      && |v| == |p|
      && StrictlyIncreasing(v)
      && (forall x :: x in v <==> x in d[lo..])
      && (forall k :: 0 <= k < |p| ==> p[k] == CountLe(d, v[k]) as real / |d| as real)
  {
    var n := |d|;
    assert d[lo..n] == d[lo..];
    SortedCount(d, n, d[n - 1]);
    FractionOne(n);
    var v := value + [d[n - 1]];
    forall x
      ensures x in v <==> x in d[lo..]
    {
      assert x in v <==> x in value || x == curVal;
      assert d[n - 1] in d[lo..];
    }
  }

  /** The entries of the sorted copy from `lo` on are the data, less the
      zeros when they are not counted. */
  lemma SuffixMembers(data: seq<nat>, countZeros: bool, d: seq<nat>, lo: nat, value: seq<nat>)
    requires SortedAsc(d) && lo < |d|
    requires forall x :: x in d <==> x in data
    requires countZeros ==> lo == 0
    requires !countZeros ==> d[lo] != 0 && forall j :: 0 <= j < lo ==> d[j] == 0
    requires forall x :: x in value <==> x in d[lo..]
    ensures forall x :: x in value <==> x in data && (countZeros || x > 0)
  {
    forall x
      ensures x in value <==> x in data && (countZeros || x > 0)
    {
      if x in data && (countZeros || x > 0) {
        var j :| 0 <= j < |d| && d[j] == x;
        assert d[lo..][j - lo] == x;
      }
      if x in value {
        var j :| 0 <= j < |d[lo..]| && d[lo..][j] == x;
        assert d[lo] <= d[lo + j];
      }
    }
  }

  /** The completed table of the sorted copy is the table of the data. */
  lemma FromSorted(data: seq<nat>, countZeros: bool, d: seq<nat>, lo: nat, value: seq<nat>, percent: seq<real>)
    requires d == SortAscending(data) && lo < |d|
    requires countZeros ==> lo == 0
    requires !countZeros ==> d[lo] != 0 && forall j :: 0 <= j < lo ==> d[j] == 0
    requires |value| == |percent| && StrictlyIncreasing(value) && |value| > 0
    requires forall x :: x in value <==> x in d[lo..]
    requires forall k :: 0 <= k < |percent| ==> percent[k] == CountLe(d, value[k]) as real / |d| as real
    requires value[|value| - 1] == d[|d| - 1] && percent[|percent| - 1] == 1.0
    ensures IsTableOf(data, countZeros, value, percent)
    ensures !(!countZeros && forall i :: 0 <= i < |data| ==> data[i] == 0)
    ensures forall i :: 0 <= i < |data| ==> data[i] <= value[|value| - 1]
  {
    SortedCopy(data);
    assert d[lo..][0] == d[lo];
    assert d[lo] in data;
    SuffixMembers(data, countZeros, d, lo, value);
    BoundedByLast(data, d);
    PercentsCarryOver(data, d, value, percent);
  }

  /** Every datum is at most the last entry of its sorted copy. */
  lemma BoundedByLast(data: seq<nat>, d: seq<nat>)
    requires SortedAsc(d) && |d| > 0
    requires forall x :: x in d <==> x in data
    ensures forall i :: 0 <= i < |data| ==> data[i] <= d[|d| - 1]
  {
    forall i | 0 <= i < |data|
      ensures data[i] <= d[|d| - 1]
    {
      assert data[i] in d;
    }
  }

  /** Fractions of the sorted copy are fractions of the data. */
  lemma PercentsCarryOver(data: seq<nat>, d: seq<nat>, value: seq<nat>, percent: seq<real>)
    requires |d| == |data| > 0 && |value| == |percent|
    requires forall v :: CountLe(d, v) == CountLe(data, v)
    requires forall k :: 0 <= k < |percent| ==> percent[k] == CountLe(d, value[k]) as real / |d| as real
    ensures forall k :: 0 <= k < |percent| ==>
      |data| > 0 && percent[k] == CountLe(data, value[k]) as real / |data| as real
  {
    forall k | 0 <= k < |percent|
      ensures percent[k] == CountLe(data, value[k]) as real / |data| as real
    {
      assert CountLe(d, value[k]) == CountLe(data, value[k]);
    }
  }

  /** The scan's stopping index is `Position`. */
  lemma {:induction false} PositionIs(value: seq<nat>, val: nat, p: nat)
    requires p <= |value|
    requires forall k :: 0 <= k < p ==> value[k] < val
    requires p < |value| ==> val <= value[p]
    ensures Position(value, val) == p
  {
    if p > 0 {
      PositionIs(value[1..], val, p - 1);
    }
  }
}
