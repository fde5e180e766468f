/** How long an animation lasts: a bound that is logarithmic in the distance. */
module StripAnimation {
  import opened Options
  import opened StripModel
  import opened StripInvariants

  /** The least fraction of its distance that a moving value covers in a frame. */
  const LEAST_RATE: real := 6.5 / 240.0

  /** What at most is left of a distance after one frame: 1 - 6.5 / 240 of it. */
  function Kept(d: real): real {
    467.0 * d / 480.0
  }

  function Distance(a: real, b: real): real {
    if a < b then b - a else a - b
  }

  lemma NonNegativeProduct(x: real, y: real)
    requires 0.0 <= x && 0.0 <= y
    ensures 0.0 <= x * y
  {
  }

  /** One frame shrinks the distance by at least the least rate, and closes it
      altogether below half a pixel. */
  lemma FrameShrinks(current: real, target: real, rate: real, dt: real)
    requires LEAST_RATE <= rate * dt <= 1.0
    ensures var next := SmoothToward(current, target, rate, dt);
            && Distance(next, target) <= Kept(Distance(current, target))
            && (Distance(current, target) < ANIM_EPSILON ==> next == target)
  {
    var f := rate * dt;
    var d := Distance(current, target);
    NonNegativeProduct(f - LEAST_RATE, d);
    assert (f - LEAST_RATE) * d == f * d - LEAST_RATE * d;
    if d >= ANIM_EPSILON {
      RemainingDistance(current, target, target - current, f);
    } else {
    }
  }

  lemma RemainingDistance(current: real, target: real, delta: real, f: real)
    requires 0.0 < f <= 1.0 && delta == target - current
    ensures Distance(Advance(current, delta, f), target) == Distance(current, target) - f * Distance(current, target)
  {
    PartOf(delta, f);
    var d := Distance(current, target);
    if delta > 0.0 {
      assert d == delta;
      assert f * d == delta * f;
    } else {
      assert d == -delta;
      assert f * d == -(delta * f);
    }
  }

  /** The part of its distance that a value covers in a second, camera and widths:
      removals are the quickest, zooms the slowest. */
  function Pace(p: Profile): (real, real) {
    match p
    case Remove => (12.0, 12.5)
    case Default => (10.5, 11.5)
    case Insert => (8.5, 9.5)
    case Maximize => (7.0, 6.5)
  }

  predicate Covers(from: real, to: real, target: real, part: real) {
    Distance(to, target) == if Distance(from, target) < 0.5 then 0.0 else Distance(from, target) - part * Distance(from, target)
  }

  /** What a frame leaves of every distance, exactly. */
  lemma FrameCovers(s: Strip, dt: real)
    requires MIN_DT <= dt <= MAX_DT
    ensures var s' := Tick(s, dt).0;
            && Covers(s.cameraX, s'.cameraX, s.cameraTarget, Pace(s.profile).0 * dt)
            && |s'.columns| == |s.columns|
            && forall i :: 0 <= i < |s.columns| ==>
                 Covers(s.columns[i].currentWidth, s'.columns[i].currentWidth, s.columns[i].targetWidth as real,
                        Pace(s.profile).1 * dt)
  {
    RateBounds(s.profile, dt);
    StepCovers(s.cameraX, s.cameraTarget, CameraLambda(s.profile), Pace(s.profile).0, dt);
    forall i | 0 <= i < |s.columns|
      ensures Covers(s.columns[i].currentWidth, Tick(s, dt).0.columns[i].currentWidth, s.columns[i].targetWidth as real,
                     Pace(s.profile).1 * dt)
    {
      StepCovers(s.columns[i].currentWidth, s.columns[i].targetWidth as real, WidthLambda(s.profile), Pace(s.profile).1, dt);
    }
  }

  /** A step of a whole second's rate or more arrives; one of none stays. */
  lemma StepIsClamped(current: real, target: real, rate: real, dt: real)
    ensures rate * dt >= 1.0 ==> SmoothToward(current, target, rate, dt) == target
    ensures rate * dt <= 0.0 && Distance(current, target) >= 0.5 ==> SmoothToward(current, target, rate, dt) == current
  {
    assert Advance(current, target - current, 1.0) == target && Advance(current, target - current, 0.0) == current;
  }

  lemma StepCovers(current: real, target: real, rate: real, pace: real, dt: real)
    requires 0.0 < rate * dt <= 1.0 && rate == pace
    ensures Covers(current, SmoothToward(current, target, rate, dt), target, pace * dt)
  {
    RemainingDistance(current, target, target - current, rate * dt);
  }

  // ---- whole animations ----

  predicate FramesOk(dts: seq<real>) {
    forall i :: 0 <= i < |dts| ==> MIN_DT <= dts[i] <= MAX_DT
  }

  /** The strip after a number of frames; its targets stay where they are. */
  function Frames(s: Strip, dts: seq<real>): Strip
    decreases |dts|
  {
    if dts == [] then s else Tick(Frames(s, dts[..|dts| - 1]), dts[|dts| - 1]).0
  }

  /** Every value is within `d` of its target. */
  ghost predicate Within(s: Strip, d: real) {
    && Distance(s.cameraX, s.cameraTarget) <= d
    && forall i :: 0 <= i < |s.columns| ==> Distance(s.columns[i].currentWidth, s.columns[i].targetWidth as real) <= d
  }

  predicate SameTargets(s: Strip, s': Strip) {
    && s'.cameraTarget == s.cameraTarget
    && |s'.columns| == |s.columns|
    && forall i :: 0 <= i < |s.columns| ==>
         s'.columns[i] == s.columns[i].(currentWidth := s'.columns[i].currentWidth)
  }

  lemma TickShrinks(s: Strip, dt: real, d: real)
    requires MIN_DT <= dt <= MAX_DT && Within(s, d)
    ensures Within(Tick(s, dt).0, Kept(d))
    ensures d < ANIM_EPSILON ==> AtRest(Tick(s, dt).0)
  {
    RateBounds(s.profile, dt);
    var s' := Tick(s, dt).0;
    FrameShrinks(s.cameraX, s.cameraTarget, CameraLambda(s.profile), dt);
    Scale(Distance(s.cameraX, s.cameraTarget), d);
    forall i | 0 <= i < |s.columns|
      ensures Distance(s'.columns[i].currentWidth, s'.columns[i].targetWidth as real) <= Kept(d)
      ensures d < ANIM_EPSILON ==> s'.columns[i].currentWidth == s'.columns[i].targetWidth as real
    {
      var c := s.columns[i];
      FrameShrinks(c.currentWidth, c.targetWidth as real, WidthLambda(s.profile), dt);
      Scale(Distance(c.currentWidth, c.targetWidth as real), d);
    }
  }

  lemma TickKeepsTargets(s: Strip, dt: real)
    ensures SameTargets(s, Tick(s, dt).0)
  {
  }

  lemma Scale(a: real, b: real)
    requires a <= b
    ensures Kept(a) <= Kept(b)
  {
  }

  /** What is left of a distance after so many frames at the slowest rate. */
  function Left(d: real, n: nat): real {
    if n == 0 then d else Kept(Left(d, n - 1))
  }

  lemma {:induction false} LeftTwice(d: real, m: nat, n: nat)
    ensures Left(d, m + n) == Left(Left(d, m), n)
  {
    if n != 0 {
      LeftTwice(d, m, n - 1);
    }
  }

  lemma LeftAfter4(d: real)
    requires 0.0 <= d
    ensures 0.0 <= Left(d, 4) <= 0.8961 * d
  {
    assert Left(d, 1) == Kept(Left(d, 0));
    assert Left(d, 2) == Kept(Left(d, 1));
    assert Left(d, 3) == Kept(Left(d, 2));
    assert Left(d, 4) == Kept(Left(d, 3));
  }

  lemma LeftAfter13(d: real)
    requires 0.0 <= d
    ensures 0.0 <= Left(d, 13) <= 0.7002 * d
  {
    LeftAfter4(d);
    LeftAfter4(Left(d, 4));
    LeftTwice(d, 4, 4);
    LeftAfter4(Left(d, 8));
    LeftTwice(d, 8, 4);
    assert Left(d, 13) == Kept(Left(d, 12));
  }

  /** Twenty-six frames at the slowest rate halve any distance. */
  lemma LeftAfter26(d: real, n: nat)
    requires 0.0 <= d && n == 26
    ensures Left(d, n) <= d / 2.0
  {
    LeftAfter13(d);
    LeftAfter13(Left(d, 13));
    LeftTwice(d, 13, 13);
  }

  lemma {:induction false} FramesShrink(s: Strip, dts: seq<real>, d: real)
    requires FramesOk(dts) && Within(s, d)
    ensures Within(Frames(s, dts), Left(d, |dts|))
    decreases |dts|
  {
    if dts != [] {
      var front := dts[..|dts| - 1];
      FramesShrink(s, front, d);
      TickShrinks(Frames(s, front), dts[|dts| - 1], Left(d, |front|));
    }
  }

  lemma {:induction false} FramesKeepTargets(s: Strip, dts: seq<real>)
    requires FramesOk(dts)
    ensures SameTargets(s, Frames(s, dts))
    decreases |dts|
  {
    if dts != [] {
      var front := dts[..|dts| - 1];
      FramesKeepTargets(s, front);
      TickKeepsTargets(Frames(s, front), dts[|dts| - 1]);
    }
  }

  lemma {:induction false} FramesConcat(s: Strip, a: seq<real>, b: seq<real>)
    ensures Frames(s, a + b) == Frames(Frames(s, a), b)
    decreases |b|
  {
    if b == [] {
      assert a + b == a;
    } else {
      assert (a + b)[..|a + b| - 1] == a + b[..|b| - 1];
      FramesConcat(s, a, b[..|b| - 1]);
    }
  }

  /** How often `d` must be halved to be less than half a pixel. */
  function Halvings(d: real): nat
    decreases if d < 0.5 then 0 else (4.0 * d).Floor
  {
    if d < ANIM_EPSILON then 0 else 1 + Halvings(d / 2.0)
  }

  function FrameBound(d: real): nat {
    26 * Halvings(d) + 1
  }

  lemma AtRestStays(s: Strip, dts: seq<real>)
    requires FramesOk(dts) && AtRest(s)
    ensures AtRest(Frames(s, dts))
    decreases |dts|
  {
    if dts != [] {
      AtRestStays(s, dts[..|dts| - 1]);
      TickStopsExactlyAtRest(Frames(s, dts[..|dts| - 1]), dts[|dts| - 1]);
    }
  }

  lemma HalvedAfter26(s: Strip, dts: seq<real>, d: real)
    requires FramesOk(dts) && Within(s, d) && |dts| == 26 && 0.0 <= d
    ensures Within(Frames(s, dts), d / 2.0)
  {
    FramesShrink(s, dts, d);
    LeftAfter26(d, |dts|);
    WithinMore(Frames(s, dts), Left(d, |dts|), d / 2.0);
  }

  lemma WithinMore(s: Strip, d: real, e: real)
    requires Within(s, d) && d <= e
    ensures Within(s, e)
  {
  }

  /** Whatever the frame rate and the animation profile: a strip whose values
      are within `d` of their targets has arrived after 26 * Halvings(d) + 1
      frames, with every target reached exactly. */
  lemma {:induction false} ArrivesInTime(s: Strip, dts: seq<real>, d: real)
    requires FramesOk(dts) && Within(s, d) && |dts| >= FrameBound(d)
    ensures AtRest(Frames(s, dts)) && SameTargets(s, Frames(s, dts))
    decreases Halvings(d)
  {
    FramesKeepTargets(s, dts);
    if d < ANIM_EPSILON {
      var first, rest := dts[..1], dts[1..];
      assert dts == first + rest;
      FramesConcat(s, first, rest);
      assert first[..|first| - 1] == [];
      TickShrinks(s, dts[0], d);
      assert Frames(s, first) == Tick(s, dts[0]).0;
      AtRestStays(Frames(s, first), rest);
    } else {
      var first, rest := dts[..26], dts[26..];
      assert dts == first + rest;
      FramesConcat(s, first, rest);
      HalvedAfter26(s, first, d);
      ArrivesInTime(Frames(s, first), rest, d / 2.0);
    }
  }

  /** So the tick callback is removed by one of the first FrameBound(d) + 1
      frames, and not before everything has arrived. */
  lemma TickRemovesItself(s: Strip, dts: seq<real>, dt: real, d: real)
    requires FramesOk(dts) && MIN_DT <= dt <= MAX_DT && Within(s, d) && |dts| >= FrameBound(d)
    ensures !Tick(Frames(s, dts), dt).1
    ensures forall n :: 0 <= n <= |dts| && !AtRest(Frames(s, dts[..n])) ==> Tick(Frames(s, dts[..n]), dt).1
  {
    ArrivesInTime(s, dts, d);
    TickStopsExactlyAtRest(Frames(s, dts), dt);
    forall n | 0 <= n <= |dts| && !AtRest(Frames(s, dts[..n]))
      ensures Tick(Frames(s, dts[..n]), dt).1
    {
      TickStopsExactlyAtRest(Frames(s, dts[..n]), dt);
    }
  }

  /** No frame overshoots: each value stays between where it was and its target. */
  lemma NoOvershoot(s: Strip, dt: real)
    requires MIN_DT <= dt <= MAX_DT
    ensures var s' := Tick(s, dt).0;
            && Between(s.cameraX, s'.cameraX, s.cameraTarget)
            && forall i :: 0 <= i < |s.columns| ==>
                 Between(s.columns[i].currentWidth, s'.columns[i].currentWidth, s.columns[i].targetWidth as real)
  {
    RateBounds(s.profile, dt);
    SmoothStep(s.cameraX, s.cameraTarget, CameraLambda(s.profile), dt);
    forall i | 0 <= i < |s.columns|
      ensures Between(s.columns[i].currentWidth, Tick(s, dt).0.columns[i].currentWidth, s.columns[i].targetWidth as real)
    {
      SmoothStep(s.columns[i].currentWidth, s.columns[i].targetWidth as real, WidthLambda(s.profile), dt);
    }
  }

  predicate Between(from: real, x: real, to: real) {
    (from <= x <= to || from >= x >= to) && (x == from <==> from == to)
  }
}
