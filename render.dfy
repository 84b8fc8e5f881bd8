/** The waypoint renderer's pure decisions: the inclusive range test, the
    check on the interpolation step, and the schedule of frames (one run of
    percentages per pair of consecutive waypoints, the loop option that
    returns to the first waypoint, and the extra frame at the last one).
    Scene graphs, cameras and writing images are outside the model; a
    waypoint is any value and a frame records the pair of waypoints and the
    percentage it is rendered at. */
module Render {
  import opened InventorUtilities

  /** `InRange`: orders the two bounds, then tests `check` against them. */
  function InRange(check: real, v1: real, v2: real): (r: bool)
    ensures r <==> (v1 <= check <= v2 || v2 <= check <= v1)
  {
    var (a, b) := if v1 < v2 then (v1, v2) else (v2, v1);
    !(check < a || check > b)
  }

  /** The bounds can be given in either order, both are included, and an
      empty interval holds only its one point. */
  lemma InRangeProperties(check: real, v1: real, v2: real)
    ensures InRange(check, v1, v2) == InRange(check, v2, v1)
    ensures InRange(v1, v1, v2) && InRange(v2, v1, v2)
    ensures InRange(check, v1, v1) <==> check == v1
  {
  }

  /** Every camera position along a segment, at a percentage in [0, 1],
      lies componentwise between the positions of the two waypoints. */
  lemma InterpolatedInRange(v1: seq<real>, v2: seq<real>, percent: real)
    requires |v1| == |v2| && 0.0 <= percent <= 1.0
    ensures forall i :: 0 <= i < |v1| ==> InRange(Interpolated(v1, v2, percent)[i], v1[i], v2[i])
  {
    InterpolatedEndpoints(v1, v2, percent);
  }

  /** The step check as written: a given step must lie in [0, 1], so a
      step of 0 passes. */
  predicate StepAcceptedAsWritten(given: bool, step: real)
  {
    !given || InRange(step, 0.0, 1.0)
  }

  /** The percentage the inner loop reaches after `k` additions of `step`. */
  function PercentAfter(step: real, k: nat): real
  {
    k as real * step
  }

  /** `PercentAfter` follows the inner loop's own update: it starts at 0
      and each pass adds `step`. */
  lemma PercentAfterPasses(step: real)
    ensures PercentAfter(step, 0) == 0.0
    ensures forall k: nat :: PercentAfter(step, k + 1) == PercentAfter(step, k) + step
  {
  }

  /** A step of 0 is accepted, and then the percentage never reaches 1:
      the inner loop over the first segment does not end. */
  lemma StepZeroNeverEnds()
    ensures StepAcceptedAsWritten(true, 0.0)
    ensures forall k: nat :: PercentAfter(0.0, k) < 1.0
  {
  }

  /** The step check as evidently intended: a given step must lie in
      (0, 1]. */
  predicate StepAccepted(given: bool, step: real)
  {
    !given || (InRange(step, 0.0, 1.0) && step != 0.0)
  }

  /** The intended check differs from the one written only at 0, and
      every step it accepts is positive, so the percentage passes 1. */
  lemma StepAcceptedEnds(given: bool, step: real)
    ensures StepAccepted(given, step) <==> StepAcceptedAsWritten(given, step) && !(given && step == 0.0)
    ensures given && StepAccepted(given, step) ==> step > 0.0 && PercentAfter(step, (1.0 / step).Floor + 1) >= 1.0
  {
    if given && StepAccepted(given, step) {
      var k := (1.0 / step).Floor + 1;
      assert k as real > 1.0 / step;
      assert k as real * step > (1.0 / step) * step;
    }
  }

  /** One more step leaves one step fewer before reaching 1. */
  lemma StepsLeftDecrease(cur: real, step: real)
    requires step > 0.0
    ensures ((1.0 - (cur + step)) / step).Floor == ((1.0 - cur) / step).Floor - 1
  {
    var q := (1.0 - cur) / step;
    assert q * step == 1.0 - cur;
    assert (q - 1.0) * step == 1.0 - (cur + step);
    QuotientOfProduct(1.0 - (cur + step), step, q - 1.0);
  }

  lemma QuotientOfProduct(x: real, y: real, q: real)
    requires y != 0.0 && q * y == x
    ensures x / y == q
  {
  }

  /** The percentages the inner loop visits from `cur` on: `cur`, then
      `cur + step`, and so on while below 1. */
  function PercentsFrom(cur: real, step: real): (ps: seq<real>)
    requires step > 0.0
    decreases if cur < 1.0 then ((1.0 - cur) / step).Floor + 1 else 0
  {
    if cur < 1.0 then
      StepsLeftDecrease(cur, step);
      [cur] + PercentsFrom(cur + step, step)
    else []
  }

  /** The percentages are `cur + k * step` for k = 0, 1, ...: each below 1,
      and one more step would reach 1. */
  lemma {:induction false} PercentsFromShape(cur: real, step: real)
    requires step > 0.0
    ensures var ps := PercentsFrom(cur, step);
      && (forall k :: 0 <= k < |ps| ==> ps[k] == cur + k as real * step && ps[k] < 1.0)
      && cur + |ps| as real * step >= 1.0
      && (cur < 1.0 <==> |ps| > 0)
    decreases if cur < 1.0 then ((1.0 - cur) / step).Floor + 1 else 0
  {
    if cur < 1.0 {
      StepsLeftDecrease(cur, step);
      PercentsFromShape(cur + step, step);
      var ps := PercentsFrom(cur, step);
      var rest := PercentsFrom(cur + step, step);
      assert ps == [cur] + rest;
      forall k | 1 <= k < |ps|
        ensures ps[k] == cur + k as real * step
      {
        assert ps[k] == rest[k - 1];
        assert (k - 1) as real * step + step == k as real * step;
      }
      assert cur + step + |rest| as real * step == cur + |ps| as real * step;
    }
  }

  /** The percentages of one segment, starting at 0. */
  function SegmentPercents(step: real): (ps: seq<real>)
    requires step > 0.0
  {
    PercentsFrom(0.0, step)
  }

  /** A segment's percentages start at 0, rise by `step`, stay in [0, 1),
      and are as many as it takes to reach 1. */
  lemma SegmentPercentsShape(step: real)
    requires step > 0.0
    ensures var ps := SegmentPercents(step);
      && |ps| > 0 && ps[0] == 0.0
      && (forall k :: 0 <= k < |ps| ==> ps[k] == PercentAfter(step, k) && 0.0 <= ps[k] < 1.0)
      && PercentAfter(step, |ps|) >= 1.0
  {
    PercentsFromShape(0.0, step);
    var ps := SegmentPercents(step);
    forall k | 0 <= k < |ps|
      ensures 0.0 <= ps[k]
    {
      assert ps[k] == k as real * step;
    }
  }

  /** One rendered frame: interpolated from `from` towards `to`. */
  datatype Frame<T> = Frame(from: T, to: T, percent: real)

  /** The frames of one segment, one per percentage. */
  function SegmentFrames<T>(from: T, to: T, ps: seq<real>): (fs: seq<Frame<T>>)
    ensures |fs| == |ps|
  {
    seq(|ps|, k requires 0 <= k < |ps| => Frame(from, to, ps[k]))
  }

  /** The waypoints visited: with the loop option the first is appended to
      the end. */
  function Route<T>(waypoints: seq<T>, loop: bool): (ws: seq<T>)
    requires |waypoints| > 0
  {
    if loop then waypoints + [waypoints[0]] else waypoints
  }

  /** The frames of every segment (ws[j], ws[j + 1]) in order. */
  function PlanSegments<T>(ws: seq<T>, ps: seq<real>): seq<Frame<T>>
  {
    if |ws| < 2 then []
    else PlanSegments(ws[..|ws| - 1], ps) + SegmentFrames(ws[|ws| - 2], ws[|ws| - 1], ps)
  }

  /** The whole schedule: all segments, then, without the loop option, one
      frame at the last waypoint. */
  function Plan<T>(waypoints: seq<T>, loop: bool, step: real): seq<Frame<T>>
    requires |waypoints| > 0 && step > 0.0
  {
    var ws := Route(waypoints, loop);
    PlanSegments(ws, SegmentPercents(step))
      + (if loop then [] else [Frame(ws[|ws| - 1], ws[|ws| - 1], 0.0)])
  }

  /** The segments' frames come segment by segment: frame `j * |ps| + k` is
      percentage `k` of segment (ws[j], ws[j + 1]). */
  lemma {:induction false} PlanSegmentsLayout<T>(ws: seq<T>, ps: seq<real>, j: nat, k: nat)
    requires |ws| >= 2 && j < |ws| - 1 && k < |ps|
    ensures |PlanSegments(ws, ps)| == (|ws| - 1) * |ps|
    ensures j * |ps| + k < |PlanSegments(ws, ps)|
    ensures PlanSegments(ws, ps)[j * |ps| + k] == Frame(ws[j], ws[j + 1], ps[k])
  {
    var front := ws[..|ws| - 1];
    if |ws| == 2 {
      assert PlanSegments(front, ps) == [];
    } else if j < |ws| - 2 {
      PlanSegmentsLayout(front, ps, j, k);
      assert (|ws| - 1) * |ps| == (|ws| - 2) * |ps| + |ps|;
    } else {
      PlanSegmentsLayout(front, ps, 0, k);
      assert (|ws| - 1) * |ps| == (|ws| - 2) * |ps| + |ps|;
    }
  }

  /** Why a schedule cannot be made. */
  datatype Outcome<T> = StepOutOfRange | TooFewWaypoints | Frames(frames: seq<T>)

  /** The inner loop of the animation: frames from `d1` towards `d2`,
      from percentage 0 up by `step` while below 1. */
  method SegmentLoop<T>(d1: T, d2: T, step: real) returns (frames: seq<Frame<T>>)
    requires step > 0.0
    ensures frames == SegmentFrames(d1, d2, SegmentPercents(step))
  {
    frames := [];
    ghost var done: seq<real> := [];
    var curPercent := 0.0;
    while curPercent < 1.0
      invariant done + PercentsFrom(curPercent, step) == SegmentPercents(step)
      invariant frames == SegmentFrames(d1, d2, done)
      decreases if curPercent < 1.0 then ((1.0 - curPercent) / step).Floor + 1 else 0
    {
      StepsLeftDecrease(curPercent, step);
      frames := frames + [Frame(d1, d2, curPercent)];
      done := done + [curPercent];
      curPercent := curPercent + step;
    }
  }

  /** The animation loop of `main`: requires at least two waypoints, appends
      the first one when looping, walks every segment in order, and
      finishes with the frame at the last waypoint unless looping. */
  method Schedule<T>(waypoints: seq<T>, loop: bool, step: real) returns (r: Outcome<Frame<T>>)
    requires step > 0.0
    ensures |waypoints| < 2 ==> r == TooFewWaypoints
    ensures |waypoints| >= 2 ==> r == Frames(Plan(waypoints, loop, step))
  {
    if |waypoints| < 2 {
      return TooFewWaypoints;
    }
    var ws := waypoints;
    if loop {
      ws := ws + [ws[0]];
    }
    var frames: seq<Frame<T>> := [];
    var wpt := 0;
    while wpt < |ws| - 1
      invariant 0 <= wpt <= |ws| - 1
      invariant frames == PlanSegments(ws[..wpt + 1], SegmentPercents(step))
    {
      var segment := SegmentLoop(ws[wpt], ws[wpt + 1], step);
      frames := frames + segment;
      assert ws[..wpt + 2][..wpt + 1] == ws[..wpt + 1];
      wpt := wpt + 1;
    }
    assert ws[..wpt + 1] == ws;
    if !loop {
      frames := frames + [Frame(ws[|ws| - 1], ws[|ws| - 1], 0.0)];
    }
    return Frames(frames);
  }

  /** The renderer's run: the step check (as evidently intended), then the
      schedule. `step` is the given step, or the default one when none is
      given. */
  method Run<T>(given: bool, step: real, waypoints: seq<T>, loop: bool) returns (r: Outcome<Frame<T>>)
    requires !given ==> step > 0.0
    ensures !StepAccepted(given, step) ==> r == StepOutOfRange
    ensures StepAccepted(given, step) && |waypoints| < 2 ==> r == TooFewWaypoints
    ensures StepAccepted(given, step) && |waypoints| >= 2 ==> r == Frames(Plan(waypoints, loop, step))
  {
    if !StepAccepted(given, step) {
      return StepOutOfRange;
    }
    r := Schedule(waypoints, loop, step);
  }

  /** What the schedule looks like: segment `j` of the route supplies the
      frames `j * m` to `j * m + m - 1` (m percentages per segment) from
      waypoint `j` towards waypoint `j + 1`; the first frame is the first
      waypoint at 0; without the loop option one frame at the last
      waypoint follows, and with it the last segment returns to the first
      waypoint. */
  lemma PlanShape<T>(waypoints: seq<T>, loop: bool, step: real, j: nat, k: nat)
    requires |waypoints| >= 2 && step > 0.0
    requires j < |Route(waypoints, loop)| - 1 && k < |SegmentPercents(step)|
    ensures var ws, m := Route(waypoints, loop), |SegmentPercents(step)|;
      var plan := Plan(waypoints, loop, step);
      && |plan| == (|ws| - 1) * m + (if loop then 0 else 1)
      && 0 < |plan| && j * m + k < |plan|
      && plan[j * m + k] == Frame(ws[j], ws[j + 1], k as real * step)
      && plan[0] == Frame(waypoints[0], waypoints[1], 0.0)
      && (!loop ==> plan[|plan| - 1] == Frame(waypoints[|waypoints| - 1], waypoints[|waypoints| - 1], 0.0))
      && (loop ==> plan[|plan| - 1].to == waypoints[0])
  {
    var ws, ps := Route(waypoints, loop), SegmentPercents(step);
    var m := |ps|;
    SegmentPercentsShape(step);
    PlanSegmentsLayout(ws, ps, j, k);
    PlanSegmentsLayout(ws, ps, 0, 0);
    PlanSegmentsLayout(ws, ps, |ws| - 2, m - 1);
    assert (|ws| - 2) * m + (m - 1) == (|ws| - 1) * m - 1;
  }

  /** Every frame of the schedule is rendered at a percentage in [0, 1). */
  lemma PlanPercents<T>(waypoints: seq<T>, loop: bool, step: real)
    requires |waypoints| >= 2 && step > 0.0
    ensures forall f :: f in Plan(waypoints, loop, step) ==> 0.0 <= f.percent < 1.0
  {
    SegmentPercentsShape(step);
    PlanSegmentsPercents(Route(waypoints, loop), SegmentPercents(step));
  }

  lemma {:induction false} PlanSegmentsPercents<T>(ws: seq<T>, ps: seq<real>)
    requires forall k :: 0 <= k < |ps| ==> 0.0 <= ps[k] < 1.0
    ensures forall f :: f in PlanSegments(ws, ps) ==> 0.0 <= f.percent < 1.0
  {
    if |ws| >= 2 {
      PlanSegmentsPercents(ws[..|ws| - 1], ps);
    }
  }
}
