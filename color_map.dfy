/** The colour pallet of the volume colour-map tool: four 256-entry tables
    (red, green, blue, alpha) indexed by voxel level, filled from a text
    file whose lines give linear ramps between two levels. Reading the file
    is modelled as a sequence of lines; the ten-number parse of a line
    (`istringstream >>`) and the scene library's HSV to RGB conversion are
    parameters. Floats are modelled as `real`. */
module ColorMap {
  import opened Wrappers

  /** The number of table entries, one per 8-bit voxel level. */
  const TABLE_SIZE: nat := 256

  /** The line buffer of the file loop: a line of this length or more
      makes `getline` fail and ends the reading. */
  const LINE_BUFFER: nat := 256

  datatype ColorModel = UnknownColorModel | Alpha | LumAlpha | Rgba | Hsva

  /** Four components: red, green, blue, alpha on an RGBA line; hue,
      saturation, value, alpha on an HSVA line. */
  datatype Color4 = Color4(x: real, y: real, z: real, w: real)

  /** One ramp line: a level and its colour, then a second level and its
      colour. */
  datatype CmapLine = CmapLine(v1: real, c1: Color4, v2: real, c2: Color4)

  // ---------------------------------------------------------------------
  // The colour-model selector
  // ---------------------------------------------------------------------

  /** `pat` occurs in `str` starting at position `i`. */
  predicate OccursAt(str: string, pat: string, i: int)
  {
    0 <= i && i + |pat| <= |str| && str[i..i + |pat|] == pat
  }

  /** `str.find(pat) != npos`. */
  predicate Contains(str: string, pat: string)
  {
    exists i :: 0 <= i <= |str| - |pat| && OccursAt(str, pat, i)
  }

  /** The model a `COLOR_MODEL` line names, testing the names in the order
      `ALPHA`, `LUM_ALPHA`, `RGBA`, `HSVA`; `None` for any other line. */
  function ModelNamed(str: string): Option<ColorModel>
  {
    if !Contains(str, "COLOR_MODEL") then None
    else if Contains(str, "ALPHA") then Some(Alpha)
    else if Contains(str, "LUM_ALPHA") then Some(LumAlpha)
    else if Contains(str, "RGBA") then Some(Rgba)
    else if Contains(str, "HSVA") then Some(Hsva)
    else None
  }

  /** Every line naming `LUM_ALPHA` also contains `ALPHA`. */
  lemma LumAlphaContainsAlpha(str: string)
    requires Contains(str, "LUM_ALPHA")
    ensures Contains(str, "ALPHA")
  {
    var lum := "LUM_ALPHA";
    assert |lum| == 9 && lum[4..] == "ALPHA";
    var i :| 0 <= i <= |str| - |lum| && OccursAt(str, lum, i);
    assert str[i..i + 9] == lum;
    assert str[i + 4..i + 9] == lum[4..];
    assert OccursAt(str, "ALPHA", i + 4);
  }

  /** Because `ALPHA` is tested first, no line ever selects `LUM_ALPHA`,
      and a selected model is never the unknown one. */
  lemma LumAlphaUnreachable(str: string)
    ensures ModelNamed(str) != Some(LumAlpha)
    ensures ModelNamed(str) != Some(UnknownColorModel)
  {
    if Contains(str, "LUM_ALPHA") {
      LumAlphaContainsAlpha(str);
    }
  }

  /** A line naming `LUM_ALPHA` selects ALPHA. */
  lemma ModelNamedLumAlpha()
    ensures ModelNamed("COLOR_MODEL = LUM_ALPHA") == Some(Alpha)
  {
    var line := "COLOR_MODEL = LUM_ALPHA";
    assert OccursAt(line, "COLOR_MODEL", 0);
    assert OccursAt(line, "ALPHA", 18);
  }

  // ---------------------------------------------------------------------
  // The linear fill
  // ---------------------------------------------------------------------

  /** The level of table entry `i`: `i / 255`. */
  function Level(i: nat): real
  {
    i as real / 255.0
  }

  /** The four validity checks of a ramp's levels, as written: the fourth
      bounds `v1` by 2 where `v2` by 1 was evidently meant. */
  predicate LevelsAccepted(v1: real, v2: real)
  {
    && !(v1 > v2)
    && v1 != v2
    && !(0.0 > v1 || 1.0 < v1)
    && !(0.0 > v2 || 2.0 < v1)
  }

  /** Accepted levels are increasing with the first in [0, 1]; the fourth
      check never rejects what the third lets through, so a second level
      above 1 is accepted. */
  lemma LevelsAcceptedMeaning(v1: real, v2: real)
    ensures LevelsAccepted(v1, v2) <==> 0.0 <= v1 < v2 && v1 <= 1.0
    ensures LevelsAccepted(0.5, 1.5)
  {
  }

  /** The value at level `v` on the line through (v1, c1) and (v2, c2), by
      slope and intercept. */
  function Ramp(v1: real, c1: real, v2: real, c2: real, v: real): real
    requires v1 != v2
  {
    v * Slope(v1, c1, v2, c2) + Intercept(v1, c1, v2, c2)
  }

  function Slope(v1: real, c1: real, v2: real, c2: real): real
    requires v1 != v2
  {
    (c2 - c1) / (v2 - v1)
  }

  function Intercept(v1: real, c1: real, v2: real, c2: real): real
    requires v1 != v2
  {
    c1 - Slope(v1, c1, v2, c2) * v1
  }

  /** The ramp passes through both end points and, between the levels,
      stays between the two components. */
  lemma RampBetween(v1: real, c1: real, v2: real, c2: real, v: real)
    requires v1 < v2
    ensures Ramp(v1, c1, v2, c2, v1) == c1
    ensures Ramp(v1, c1, v2, c2, v2) == c2
    ensures v1 <= v <= v2 ==>
      (c1 <= c2 ==> c1 <= Ramp(v1, c1, v2, c2, v) <= c2) && (c2 <= c1 ==> c2 <= Ramp(v1, c1, v2, c2, v) <= c1)
  {
    RampForm(v1, c1, v2, c2, v);
    RampForm(v1, c1, v2, c2, v2);
    if v1 <= v <= v2 {
      if c1 <= c2 {
        RampRising(v1, c1, v2, c2, v);
      } else {
        RampFalling(v1, c1, v2, c2, v);
      }
    }
  }

  /** The ramp as the first component plus the slope times the distance
      from the first level; the slope spans the two components. */
  lemma RampForm(v1: real, c1: real, v2: real, c2: real, v: real)
    requires v1 < v2
    ensures Slope(v1, c1, v2, c2) * (v2 - v1) == c2 - c1
    ensures Ramp(v1, c1, v2, c2, v) == c1 + (v - v1) * Slope(v1, c1, v2, c2)
  {
  }

  lemma RampRising(v1: real, c1: real, v2: real, c2: real, v: real)
    requires v1 <= v <= v2 && v1 < v2 && c1 <= c2
    requires Slope(v1, c1, v2, c2) * (v2 - v1) == c2 - c1
    requires Ramp(v1, c1, v2, c2, v) == c1 + (v - v1) * Slope(v1, c1, v2, c2)
    ensures c1 <= Ramp(v1, c1, v2, c2, v) <= c2
  {
    var m := Slope(v1, c1, v2, c2);
    QuotientSign(c2 - c1, v2 - v1);
    ProductMonotone(v - v1, v2 - v1, m);
  }

  lemma RampFalling(v1: real, c1: real, v2: real, c2: real, v: real)
    requires v1 <= v <= v2 && v1 < v2 && c2 < c1
    requires Slope(v1, c1, v2, c2) * (v2 - v1) == c2 - c1
    requires Ramp(v1, c1, v2, c2, v) == c1 + (v - v1) * Slope(v1, c1, v2, c2)
    ensures c2 <= Ramp(v1, c1, v2, c2, v) <= c1
  {
    var m := Slope(v1, c1, v2, c2);
    QuotientSign(c1 - c2, v2 - v1);
    assert (c1 - c2) / (v2 - v1) == -m;
    ProductMonotone(v - v1, v2 - v1, -m);
  }

  lemma QuotientSign(n: real, d: real)
    requires n >= 0.0 && d > 0.0
    ensures n / d >= 0.0
  {
    assert (n / d) * d == n;
  }

  lemma ProductMonotone(x: real, y: real, m: real)
    requires 0.0 <= x <= y && m >= 0.0
    ensures 0.0 <= x * m <= y * m
  {
    assert (y - x) * m >= 0.0;
  }

  /** A written component is capped at 1 against rounding jitter. */
  function Cap(x: real): real
  {
    if 1.0 < x then 1.0 else x
  }

  /** Entry `i` lies on the ramp's levels. */
  predicate InSpan(v1: real, v2: real, i: nat)
  {
    !(v1 > Level(i) || v2 < Level(i))
  }

  /** The value entry `i` of one table holds after a ramp: the capped ramp
      value inside the span, the previous value elsewhere. */
  function FillEntry(prev: real, v1: real, c1: real, v2: real, c2: real, i: nat): real
    requires v1 != v2
  {
    if InSpan(v1, v2, i) then Cap(Ramp(v1, c1, v2, c2, Level(i))) else prev
  }

  /** For accepted levels and components in [0, 1], the cap never bites:
      the entries on the span lie on the ramp between the two colours, the
      entry at exactly a ramp level takes that level's colour, and all
      other entries keep their values. */
  lemma FillEntryMeaning(prev: real, v1: real, c1: real, v2: real, c2: real, i: nat)
    requires LevelsAccepted(v1, v2) && 0.0 <= c1 <= 1.0 && 0.0 <= c2 <= 1.0
    ensures InSpan(v1, v2, i) ==> FillEntry(prev, v1, c1, v2, c2, i) == Ramp(v1, c1, v2, c2, Level(i))
    ensures InSpan(v1, v2, i) ==> 0.0 <= FillEntry(prev, v1, c1, v2, c2, i) <= 1.0
    ensures Level(i) == v1 ==> FillEntry(prev, v1, c1, v2, c2, i) == c1
    ensures Level(i) == v2 ==> FillEntry(prev, v1, c1, v2, c2, i) == c2
    ensures !InSpan(v1, v2, i) ==> FillEntry(prev, v1, c1, v2, c2, i) == prev
  {
    RampBetween(v1, c1, v2, c2, Level(i));
  }

  /** Every one of the ten numbers of a ramp line lies in [0, 1]. */
  predicate InUnitRange(line: CmapLine)
  {
    && 0.0 <= line.v1 <= 1.0 && 0.0 <= line.v2 <= 1.0
    && 0.0 <= line.c1.x <= 1.0 && 0.0 <= line.c1.y <= 1.0 && 0.0 <= line.c1.z <= 1.0 && 0.0 <= line.c1.w <= 1.0
    && 0.0 <= line.c2.x <= 1.0 && 0.0 <= line.c2.y <= 1.0 && 0.0 <= line.c2.z <= 1.0 && 0.0 <= line.c2.w <= 1.0
  }

  /** A line starting with `#`. */
  predicate IsComment(line: string)
  {
    |line| > 0 && line[0] == '#'
  }

  /** The fill loop of `insertCmapEntryRGBA` for one table: the slope
      and intercept computed once, then every entry whose level lies
      between `v1` and `v2` set to the capped ramp value. */
  method FillTable(t: array<real>, v1: real, c1: real, v2: real, c2: real)
    requires t.Length == TABLE_SIZE && v1 != v2
    modifies t
    ensures forall i :: 0 <= i < TABLE_SIZE ==> t[i] == FillEntry(old(t[i]), v1, c1, v2, c2, i)
  {
    var m := Slope(v1, c1, v2, c2);
    var b := Intercept(v1, c1, v2, c2);
    for i := 0 to TABLE_SIZE
      invariant forall j :: 0 <= j < TABLE_SIZE ==>
        t[j] == if j < i then FillEntry(old(t[j]), v1, c1, v2, c2, j) else old(t[j])
    {
      var v := Level(i);
      if v1 > v || v2 < v {
        continue;
      }
      t[i] := Cap(v * m + b);
    }
  }

  // ---------------------------------------------------------------------
  // The pallet
  // ---------------------------------------------------------------------

  class ColorPallet {
    const r: array<real>
    const g: array<real>
    const b: array<real>
    const a: array<real>
    var colorModel: ColorModel

    /** Four separate tables of 256 entries. */
    predicate Valid()
      reads this
    {
      && r.Length == TABLE_SIZE && g.Length == TABLE_SIZE && b.Length == TABLE_SIZE && a.Length == TABLE_SIZE
      && r != g && r != b && r != a && g != b && g != a && b != a
    }

    /** The table set-up of the constructor: every entry 0, the colour
        model RGBA. */
    constructor ()
      ensures Valid() && fresh(r) && fresh(g) && fresh(b) && fresh(a)
      ensures forall i :: 0 <= i < TABLE_SIZE ==> r[i] == 0.0 && g[i] == 0.0 && b[i] == 0.0 && a[i] == 0.0
      ensures colorModel == Rgba
    {
      r := new real[TABLE_SIZE](_ => 0.0);
      g := new real[TABLE_SIZE](_ => 0.0);
      b := new real[TABLE_SIZE](_ => 0.0);
      a := new real[TABLE_SIZE](_ => 0.0);
      colorModel := Rgba;
    }

    /** `setRGBA`: an offset past the tables is refused and nothing is
        written; otherwise entry `offset` of each table, and only it,
        takes the new colour. For offsets in range the colour model must
        be RGBA or HSVA and every component in [0, 1]. */
    method SetRgba(offset: nat, color: Color4) returns (ok: bool)
      requires Valid()
      requires offset < TABLE_SIZE ==> colorModel == Hsva || colorModel == Rgba
      requires offset < TABLE_SIZE ==>
        0.0 <= color.x <= 1.0 && 0.0 <= color.y <= 1.0 && 0.0 <= color.z <= 1.0 && 0.0 <= color.w <= 1.0
      modifies r, g, b, a
      ensures Valid()
      ensures ok <==> offset < TABLE_SIZE
      ensures ok ==> r[..] == old(r[..])[offset := color.x] && g[..] == old(g[..])[offset := color.y]
      ensures ok ==> b[..] == old(b[..])[offset := color.z] && a[..] == old(a[..])[offset := color.w]
      ensures !ok ==> unchanged(r, g, b, a)
    {
      if TABLE_SIZE <= offset {
        return false;
      }
      r[offset] := color.x;
      g[offset] := color.y;
      b[offset] := color.z;
      a[offset] := color.w;
      return true;
    }

    /** `getRGBA`: an offset past the tables is refused; otherwise the four
        components stored at `offset`. For offsets in range the colour
        model must be RGBA or HSVA and the stored values in [0, 1]. */
    method GetRgba(offset: nat) returns (ok: bool, color: Color4)
      requires Valid()
      requires offset < TABLE_SIZE ==> colorModel == Hsva || colorModel == Rgba
      requires offset < TABLE_SIZE ==>
        0.0 <= r[offset] <= 1.0 && 0.0 <= g[offset] <= 1.0 && 0.0 <= b[offset] <= 1.0 && 0.0 <= a[offset] <= 1.0
      ensures ok <==> offset < TABLE_SIZE
      ensures ok ==> color == Color4(r[offset], g[offset], b[offset], a[offset])
      ensures ok ==> 0.0 <= color.x <= 1.0 && 0.0 <= color.y <= 1.0 && 0.0 <= color.z <= 1.0 && 0.0 <= color.w <= 1.0
    {
      if TABLE_SIZE <= offset {
        return false, Color4(0.0, 0.0, 0.0, 0.0);
      }
      return true, Color4(r[offset], g[offset], b[offset], a[offset]);
    }

    /** `checkColorModel`: a `COLOR_MODEL` line naming a model switches to
        it and reports true; any other line changes nothing. */
    method CheckColorModel(str: string) returns (found: bool)
      modifies this
      ensures found <==> ModelNamed(str).Some?
      ensures found ==> colorModel == ModelNamed(str).value
      ensures !found ==> colorModel == old(colorModel)
    {
      if !Contains(str, "COLOR_MODEL") {
        return false;
      }
      if Contains(str, "ALPHA") {
        colorModel := Alpha;
        return true;
      }
      if Contains(str, "LUM_ALPHA") {
        colorModel := LumAlpha;
        return true;
      }
      if Contains(str, "RGBA") {
        colorModel := Rgba;
        return true;
      }
      if Contains(str, "HSVA") {
        colorModel := Hsva;
        return true;
      }
      return false;
    }

    /** `insertCmapEntryRGBA`: rejects levels that fail the four checks
        without writing; otherwise every entry whose level lies between
        `v1` and `v2` takes the capped ramp value in each table, and every
        other entry is left as it was. */
    method InsertCmapEntryRgba(v1: real, c1: Color4, v2: real, c2: Color4) returns (ok: bool)
      requires Valid()
      modifies r, g, b, a
      ensures Valid()
      ensures ok <==> LevelsAccepted(v1, v2)
      ensures !ok ==> unchanged(r, g, b, a)
      ensures ok ==> forall i :: 0 <= i < TABLE_SIZE ==>
        && r[i] == FillEntry(old(r[i]), v1, c1.x, v2, c2.x, i)
        && g[i] == FillEntry(old(g[i]), v1, c1.y, v2, c2.y, i)
        && b[i] == FillEntry(old(b[i]), v1, c1.z, v2, c2.z, i)
        && a[i] == FillEntry(old(a[i]), v1, c1.w, v2, c2.w, i)
    {
      if v1 > v2 { return false; }
      if v1 == v2 { return false; }
      if 0.0 > v1 || 1.0 < v1 { return false; }
      if 0.0 > v2 || 2.0 < v1 { return false; }
      FillTable(r, v1, c1.x, v2, c2.x);
      FillTable(g, v1, c1.y, v2, c2.y);
      FillTable(b, v1, c1.z, v2, c2.z);
      FillTable(a, v1, c1.w, v2, c2.w);
      return true;
    }

    /** `handleRGBA_Line`: a line that does not parse as ten numbers, or
        whose numbers are not all in [0, 1], is refused without touching
        the tables; otherwise the outcome is that of
        `InsertCmapEntryRgba` on its ramp. */
    method HandleRgbaLine(line: string, parse: string -> Option<CmapLine>) returns (ok: bool)
      requires Valid() && colorModel == Rgba
      modifies r, g, b, a
      ensures Valid()
      ensures ok <==> parse(line).Some? && InUnitRange(parse(line).value) && LevelsAccepted(parse(line).value.v1, parse(line).value.v2)
      ensures !ok ==> unchanged(r, g, b, a)
      ensures ok ==> var e := parse(line).value; forall i :: 0 <= i < TABLE_SIZE ==>
        && r[i] == FillEntry(old(r[i]), e.v1, e.c1.x, e.v2, e.c2.x, i)
        && g[i] == FillEntry(old(g[i]), e.v1, e.c1.y, e.v2, e.c2.y, i)
        && b[i] == FillEntry(old(b[i]), e.v1, e.c1.z, e.v2, e.c2.z, i)
        && a[i] == FillEntry(old(a[i]), e.v1, e.c1.w, e.v2, e.c2.w, i)
    {
      var parsed := parse(line);
      if parsed.None? {
        return false;
      }
      var e := parsed.value;
      if !InUnitRange(e) {
        return false;
      }
      ok := InsertCmapEntryRgba(e.v1, e.c1, e.v2, e.c2);
    }

    /** `handleHSVA_Line`: the same four level checks, then hue,
        saturation, value and alpha ramped and capped like an RGBA line,
        the first three converted by `hsv2rgb` into the colour tables and
        alpha stored directly. The components are not range-checked. */
    method HandleHsvaLine(line: string, parse: string -> Option<CmapLine>,
                          hsv2rgb: (real, real, real) -> (real, real, real)) returns (ok: bool)
      requires Valid()
      modifies r, g, b, a
      ensures Valid()
      ensures ok <==> parse(line).Some? && LevelsAccepted(parse(line).value.v1, parse(line).value.v2)
      ensures !ok ==> unchanged(r, g, b, a)
      ensures ok ==> var e := parse(line).value; forall i :: 0 <= i < TABLE_SIZE ==>
        && (InSpan(e.v1, e.v2, i) ==> (r[i], g[i], b[i]) == HsvEntry(e, i, hsv2rgb))
        && (!InSpan(e.v1, e.v2, i) ==> r[i] == old(r[i]) && g[i] == old(g[i]) && b[i] == old(b[i]))
        && a[i] == FillEntry(old(a[i]), e.v1, e.c1.w, e.v2, e.c2.w, i)
    {
      var parsed := parse(line);
      if parsed.None? {
        return false;
      }
      var e := parsed.value;
      if e.v1 > e.v2 { return false; }
      if e.v1 == e.v2 { return false; }
      if 0.0 > e.v1 || 1.0 < e.v1 { return false; }
      if 0.0 > e.v2 || 2.0 < e.v1 { return false; }
      for i := 0 to TABLE_SIZE
        invariant forall j :: 0 <= j < TABLE_SIZE ==>
          (r[j], g[j], b[j]) == (if j < i && InSpan(e.v1, e.v2, j) then HsvEntry(e, j, hsv2rgb) else (old(r[j]), old(g[j]), old(b[j])))
        invariant forall j :: 0 <= j < TABLE_SIZE ==>
          a[j] == (if j < i then FillEntry(old(a[j]), e.v1, e.c1.w, e.v2, e.c2.w, j) else old(a[j]))
      {
        if !InSpan(e.v1, e.v2, i) {
          continue;
        }
        var rgb := HsvEntry(e, i, hsv2rgb);
        r[i], g[i], b[i] := rgb.0, rgb.1, rgb.2;
        a[i] := Cap(Ramp(e.v1, e.c1.w, e.v2, e.c2.w, Level(i)));
      }
      return true;
    }

    /** The colour-model independent handling of one line: comments are
        skipped, `COLOR_MODEL` lines switch the model, and any other line is
        a ramp for the current model. ALPHA and LUM_ALPHA ramps are not
        implemented and change nothing; a line under the unknown model is
        an error. */
    method HandleLine(line: string, parse: string -> Option<CmapLine>,
                      hsv2rgb: (real, real, real) -> (real, real, real)) returns (ok: bool)
      requires Valid()
      modifies this, r, g, b, a
      ensures Valid()
      ensures ok <==> IsComment(line) || ModelNamed(line).Some? || old(colorModel) != UnknownColorModel
      ensures IsComment(line) ==> colorModel == old(colorModel) && unchanged(r, g, b, a)
      ensures !IsComment(line) && ModelNamed(line).Some? ==>
        colorModel == ModelNamed(line).value && unchanged(r, g, b, a)
      ensures !IsComment(line) && ModelNamed(line).None? ==> colorModel == old(colorModel)
      ensures !IsComment(line) && ModelNamed(line).None? && old(colorModel) in {Alpha, LumAlpha, UnknownColorModel} ==>
        unchanged(r, g, b, a)
      ensures !IsComment(line) && ModelNamed(line).None? && old(colorModel) == Rgba ==>
        if parse(line).Some? && InUnitRange(parse(line).value) && LevelsAccepted(parse(line).value.v1, parse(line).value.v2)
        then var e := parse(line).value; forall i :: 0 <= i < TABLE_SIZE ==>
          && r[i] == FillEntry(old(r[i]), e.v1, e.c1.x, e.v2, e.c2.x, i)
          && g[i] == FillEntry(old(g[i]), e.v1, e.c1.y, e.v2, e.c2.y, i)
          && b[i] == FillEntry(old(b[i]), e.v1, e.c1.z, e.v2, e.c2.z, i)
          && a[i] == FillEntry(old(a[i]), e.v1, e.c1.w, e.v2, e.c2.w, i)
        else unchanged(r, g, b, a)
      ensures !IsComment(line) && ModelNamed(line).None? && old(colorModel) == Hsva ==>
        if parse(line).Some? && LevelsAccepted(parse(line).value.v1, parse(line).value.v2)
        then var e := parse(line).value; forall i :: 0 <= i < TABLE_SIZE ==>
          && (InSpan(e.v1, e.v2, i) ==> (r[i], g[i], b[i]) == HsvEntry(e, i, hsv2rgb))
          && (!InSpan(e.v1, e.v2, i) ==> r[i] == old(r[i]) && g[i] == old(g[i]) && b[i] == old(b[i]))
          && a[i] == FillEntry(old(a[i]), e.v1, e.c1.w, e.v2, e.c2.w, i)
        else unchanged(r, g, b, a)
    {
      if IsComment(line) {
        return true;
      }
      var switched := CheckColorModel(line);
      if switched {
        return true;
      }
      ok := true;
      match colorModel
      case Alpha =>
      case LumAlpha =>
      case Rgba =>
        var _ := HandleRgbaLine(line, parse);
      case Hsva =>
        var _ := HandleHsvaLine(line, parse, hsv2rgb);
      case UnknownColorModel =>
        ok := false;
    }

    /** The file loop of the constructor: `None` is a file that cannot be
        opened, which fails; otherwise lines are handled in order until the
        first one too long for the line buffer. The model starts and stays
        known, so no line fails. */
    method LoadLines(file: Option<seq<string>>, parse: string -> Option<CmapLine>,
                     hsv2rgb: (real, real, real) -> (real, real, real)) returns (ok: bool)
      requires Valid() && colorModel != UnknownColorModel
      modifies this, r, g, b, a
      ensures Valid() && colorModel != UnknownColorModel
      ensures ok <==> file.Some?
      ensures file.None? ==> colorModel == old(colorModel) && unchanged(r, g, b, a)
    {
      if file.None? {
        return false;
      }
      var lines := file.value;
      ok := true;
      var i := 0;
      while i < |lines| && |lines[i]| < LINE_BUFFER
        invariant 0 <= i <= |lines|
        invariant Valid() && colorModel != UnknownColorModel && ok
      {
        LumAlphaUnreachable(lines[i]);
        var lineOk := HandleLine(lines[i], parse, hsv2rgb);
        ok := ok && lineOk;
        i := i + 1;
      }
    }
  }

  /** The red, green and blue an HSVA ramp gives entry `i`: the capped
      hue, saturation and value ramps converted by `hsv2rgb`. */
  function HsvEntry(e: CmapLine, i: nat, hsv2rgb: (real, real, real) -> (real, real, real)): (real, real, real)
    requires e.v1 != e.v2
  {
    var v := Level(i);
    hsv2rgb(Cap(Ramp(e.v1, e.c1.x, e.v2, e.c2.x, v)), Cap(Ramp(e.v1, e.c1.y, e.v2, e.c2.y, v)), Cap(Ramp(e.v1, e.c1.z, e.v2, e.c2.z, v)))
  }
}
