/** One particle of the grid (the `Particle` class, sketch.js:44-112): its
    per-frame hover/return state machine and its damped integration step.

    The functions below say what each of the sketch's four per-frame calls
    does to a particle's state (a `State` value); the class `Particle` holds
    the same state in fields and its methods update them in place, each
    proved to agree with its function. The lemmas state what a frame and a
    run of frames do. */
module Particles {
  import opened Geometry
  import opened Trail

  /** Tunables of the sketch (sketch.js:2, 6-8). Time is in milliseconds.
      The damping factor 0.9 is a literal in `show` (sketch.js:108). */
  const InteractionRadius: real := 30.0
  const AttractionForce: real := 0.8
  const ReturnSpeed: real := 0.05
  const HoverDelay: real := 2000.0

  /** Everything about a particle that changes from frame to frame; its
      home never does. The sketch leaves `returningToHome` undefined until
      first set, which it treats as false. */
  datatype State = State(
    pos: Vec,
    vel: Vec,
    acc: Vec,
    movingToPath: bool,
    lastHoverTime: real,
    returningToHome: bool)

  /** The state the constructor gives a particle at `home` (sketch.js:45-53). */
  function Initial(home: Vec): State {
    State(home, Zero, Zero, false, 0.0, false)
  }

  /** p is strictly inside the interaction radius of q. Compared on squared
      distances (see Geometry.SquareOrder). */
  predicate Near(p: Vec, q: Vec) {
    DistSq(p, q) < InteractionRadius * InteractionRadius
  }

  /** `moveToPath` (sketch.js:55-79): find the closest trail point; if it
      exists and is near, pull toward it, mark the particle as moving to the
      path and stamp the hover time; otherwise clear the flag. */
  function MoveToPathStep(s: State, path: seq<Vec>, now: real, normalize: Vec -> Vec): State {
    var closest := Nearest(path, s.pos);
    if closest.Some? && Near(closest.value, s.pos) then
      s.(acc := Add(s.acc, Pull(closest.value, s.pos, AttractionForce, normalize)),
         movingToPath := true,
         lastHoverTime := now)
    else
      s.(movingToPath := false)
  }

  /** `checkHover` (sketch.js:81-89): start returning once the particle has
      not been near the path for more than HoverDelay. Nothing resets it. */
  function CheckHoverStep(s: State, now: real): State {
    if !s.movingToPath && now - s.lastHoverTime > HoverDelay then
      s.(returningToHome := true)
    else
      s
  }

  /** `returnToHome` (sketch.js:91-99): while returning, pull toward home. */
  function ReturnToHomeStep(s: State, home: Vec, normalize: Vec -> Vec): State {
    if s.returningToHome then
      s.(acc := Add(s.acc, Pull(home, s.pos, ReturnSpeed, normalize)))
    else
      s
  }

  /** The movement part of `show` (sketch.js:106-110). */
  function IntegrateStep(s: State): State {
    var vel := Scale(Add(s.vel, s.acc), 0.9);
    s.(vel := vel, pos := Add(s.pos, vel), acc := Scale(s.acc, 0.0))
  }

  /** One particle's part of a frame, in the order `draw` calls it
      (sketch.js:31-34). */
  function FrameStep(s: State, home: Vec, path: seq<Vec>, now: real, normalize: Vec -> Vec): State {
    IntegrateStep(
      ReturnToHomeStep(
        CheckHoverStep(MoveToPathStep(s, path, now, normalize), now),
        home, normalize))
  }

  /** What a particle sees in one frame: the trail and the clock. */
  datatype Tick = Tick(path: seq<Vec>, now: real)

  /** A particle's state after a run of frames. */
  function ParticleAfterFrames(s: State, home: Vec, ticks: seq<Tick>, normalize: Vec -> Vec): State
    decreases |ticks|
  {
    if ticks == [] then s
    else ParticleAfterFrames(FrameStep(s, home, ticks[0].path, ticks[0].now, normalize), home, ticks[1..], normalize)
  }

  class Particle {
    /** Assigned once, by the constructor (sketch.js:46). */
    const home: Vec
    var pos: Vec
    var vel: Vec
    var acc: Vec
    var movingToPath: bool
    var lastHoverTime: real
    var returningToHome: bool

    function Snapshot(): State
      reads this
    {
      State(pos, vel, acc, movingToPath, lastHoverTime, returningToHome)
    }

    constructor (x: real, y: real)
      ensures home == Vec(x, y)
      ensures Snapshot() == Initial(home)
    {
      home := Vec(x, y);
      pos := Vec(x, y);
      vel := Vec(0.0, 0.0);
      acc := Vec(0.0, 0.0);
      movingToPath := false;
      lastHoverTime := 0.0;
      returningToHome := false;
    }

    /** `now` is the host clock (`millis()`), `normalize` p5's unit-vector
        operation. */
    method MoveToPath(path: seq<Vec>, now: real, normalize: Vec -> Vec)
      modifies this
      ensures Snapshot() == MoveToPathStep(old(Snapshot()), path, now, normalize)
    {
      var closestPoint, closestDist := FindClosest(path, pos);
      // closestDist is a squared distance, so the radius is squared too
      if closestPoint.Some? && closestDist < InteractionRadius * InteractionRadius {
        var force := Pull(closestPoint.value, pos, AttractionForce, normalize);
        acc := Add(acc, force);
        movingToPath := true;
        lastHoverTime := now;
      } else {
        movingToPath := false;
      }
    }

    method CheckHover(now: real)
      modifies this
      ensures Snapshot() == CheckHoverStep(old(Snapshot()), now)
    {
      if !movingToPath {
        if now - lastHoverTime > HoverDelay {
          returningToHome := true;
        }
      }
    }

    method ReturnToHome(normalize: Vec -> Vec)
      modifies this
      ensures Snapshot() == ReturnToHomeStep(old(Snapshot()), home, normalize)
    {
      if returningToHome {
        var force := Pull(home, pos, ReturnSpeed, normalize);
        acc := Add(acc, force);
      }
    }

    /** The drawing calls of `show` are not modelled; this is its update. */
    method Show()
      modifies this
      ensures Snapshot() == IntegrateStep(old(Snapshot()))
    {
      vel := Add(vel, acc);
      vel := Scale(vel, 0.9);
      pos := Add(pos, vel);
      acc := Scale(acc, 0.0);
    }
  }

  /** `moveToPath`: the particle is marked as moving to the path, and its
      hover time stamped with the current time, exactly when some trail
      point lies strictly within the interaction radius; otherwise the flag
      is cleared and the hover time kept. Only the within-radius branch
      touches the acceleration, pulling toward the earliest closest point;
      position, velocity and the returning flag are left alone. An empty
      trail never attracts. */
  lemma MoveToPathTracksNearTrail(s: State, path: seq<Vec>, now: real, normalize: Vec -> Vec)
    ensures var r := MoveToPathStep(s, path, now, normalize);
      && (r.movingToPath <==> exists j :: 0 <= j < |path| && Near(path[j], s.pos))
      && r.lastHoverTime == (if r.movingToPath then now else s.lastHoverTime)
      && (r.movingToPath ==>
            exists k :: (IsEarliestNearest(path, s.pos, k)
              && r.acc == Add(s.acc, Pull(path[k], s.pos, AttractionForce, normalize))))
      && (!r.movingToPath ==> r.acc == s.acc)
      && r.pos == s.pos && r.vel == s.vel && r.returningToHome == s.returningToHome
      && (path == [] ==> !r.movingToPath)
  {
    NearestWithinIffAnyWithin(path, s.pos, InteractionRadius * InteractionRadius);
    if path != [] {
      NearestIndexIsEarliestNearest(path, s.pos);
    }
  }

  /** The returning flag, over a whole frame: it is set when it was set
      before, or when no trail point is within the radius and more than
      HoverDelay has passed since the last stamped hover time. */
  lemma ReturningFlagAfterFrame(s: State, home: Vec, path: seq<Vec>, now: real, normalize: Vec -> Vec)
    ensures FrameStep(s, home, path, now, normalize).returningToHome
        <==> s.returningToHome
             || (!(exists j :: 0 <= j < |path| && Near(path[j], s.pos))
                 && now - s.lastHoverTime > HoverDelay)
  {
    MoveToPathTracksNearTrail(s, path, now, normalize);
  }

  /** `checkHover` changes nothing but the returning flag, and sets it only
      when the particle is not tracking the path and strictly more than
      HoverDelay has passed; it never clears it. `returnToHome` changes
      nothing but the acceleration, and that only while returning. */
  lemma HoverAndReturnTouchOneField(s: State, home: Vec, now: real, normalize: Vec -> Vec)
    ensures var h := CheckHoverStep(s, now);
      && h.(returningToHome := s.returningToHome) == s
      && (h.returningToHome
          <==> s.returningToHome || (!s.movingToPath && now - s.lastHoverTime > HoverDelay))
    ensures var r := ReturnToHomeStep(s, home, normalize);
      && r.(acc := s.acc) == s
      && (r.acc != s.acc ==> s.returningToHome)
  {
  }

  /** No code clears the returning flag: once set it stays set for every
      later frame, whatever the trail does. */
  lemma {:induction false} ReturningIsSticky(s: State, home: Vec, ticks: seq<Tick>, normalize: Vec -> Vec)
    requires s.returningToHome
    ensures ParticleAfterFrames(s, home, ticks, normalize).returningToHome
    decreases |ticks|
  {
    if ticks != [] {
      var next := FrameStep(s, home, ticks[0].path, ticks[0].now, normalize);
      ReturningFlagAfterFrame(s, home, ticks[0].path, ticks[0].now, normalize);
      ReturningIsSticky(next, home, ticks[1..], normalize);
    }
  }

  /** A frame's motion: the velocity is the old velocity plus the
      accumulated forces (the path pull if tracking, plus the home pull if
      returning; both when both hold), damped by 0.9; the position moves by
      the new velocity; the acceleration is cleared. */
  lemma FrameMotion(s: State, home: Vec, path: seq<Vec>, now: real, normalize: Vec -> Vec)
    requires s.acc == Zero
    ensures var m := MoveToPathStep(s, path, now, normalize);
      var h := CheckHoverStep(m, now);
      var r := FrameStep(s, home, path, now, normalize);
      var pathPull := if m.movingToPath
        then Pull(Nearest(path, s.pos).value, s.pos, AttractionForce, normalize) else Zero;
      var homePull := if h.returningToHome then Pull(home, s.pos, ReturnSpeed, normalize) else Zero;
      && r.vel == Scale(Add(s.vel, Add(pathPull, homePull)), 0.9)
      && r.pos == Add(s.pos, r.vel)
      && r.acc == Zero
  {
    MoveToPathTracksNearTrail(s, path, now, normalize);
  }

  /** Degenerate forces vanish: a particle resting exactly at its home, with
      no trail point within reach in any frame, stays at rest at home for
      ever, returning or not, as long as normalize maps zero to zero. */
  lemma {:induction false} RestingAtHomeStays(s: State, home: Vec, ticks: seq<Tick>, normalize: Vec -> Vec)
    requires normalize(Zero) == Zero
    requires s.pos == home && s.vel == Zero && s.acc == Zero
    requires forall t :: 0 <= t < |ticks| ==>
      forall j :: 0 <= j < |ticks[t].path| ==> !Near(ticks[t].path[j], home)
    ensures var r := ParticleAfterFrames(s, home, ticks, normalize);
      r.pos == home && r.vel == Zero && r.acc == Zero
    decreases |ticks|
  {
    if ticks != [] {
      var tick := ticks[0];
      var next := FrameStep(s, home, tick.path, tick.now, normalize);
      MoveToPathTracksNearTrail(s, tick.path, tick.now, normalize);
      PullVanishesAtTarget(home, ReturnSpeed, normalize);
      assert next.pos == home && next.vel == Zero && next.acc == Zero;
      RestingAtHomeStays(next, home, ticks[1..], normalize);
    }
  }

  /** A trail of one point within the radius attracts toward that point. */
  lemma MoveToPathSingleNearPoint(s: State, p: Vec, now: real, normalize: Vec -> Vec)
    requires Near(p, s.pos)
    ensures MoveToPathStep(s, [p], now, normalize)
         == s.(acc := Add(s.acc, Pull(p, s.pos, AttractionForce, normalize)),
               movingToPath := true, lastHoverTime := now)
  {
    assert [p][..0] == [];
  }

  /** One frame from rest at (0, 1), one unit below the only trail point
      (0, 0) (y grows downward), not yet returning: the particle is pulled
      up with force 0.8, so after the damping its velocity is (0, -0.72) and
      it has moved by that much; the hover time is stamped, so it does not
      start returning. */
  lemma PullFromRestExample(s: State, home: Vec, now: real, normalize: Vec -> Vec)
    requires s.pos == Vec(0.0, 1.0) && s.vel == Zero && s.acc == Zero && !s.returningToHome
    requires normalize(Vec(0.0, -1.0)) == Vec(0.0, -1.0)
    ensures var r := FrameStep(s, home, [Vec(0.0, 0.0)], now, normalize);
      && r.movingToPath && r.lastHoverTime == now && !r.returningToHome
      && r.vel == Vec(0.0, -0.72)
      && r.pos == Vec(0.0, 0.28)
  {
    var target := Vec(0.0, 0.0);
    UnitBelowIsNear(normalize);
    MoveToPathSingleNearPoint(s, target, now, normalize);
    var m := MoveToPathStep(s, [target], now, normalize);
    assert ReturnToHomeStep(CheckHoverStep(m, now), home, normalize) == m;
    DampedStepFromRest(m);
  }

  lemma UnitBelowIsNear(normalize: Vec -> Vec)
    requires normalize(Vec(0.0, -1.0)) == Vec(0.0, -1.0)
    ensures Near(Vec(0.0, 0.0), Vec(0.0, 1.0))
    ensures Pull(Vec(0.0, 0.0), Vec(0.0, 1.0), AttractionForce, normalize) == Vec(0.0, -0.8)
  {
    assert DistSq(Vec(0.0, 0.0), Vec(0.0, 1.0)) == 1.0;
    assert Sub(Vec(0.0, 0.0), Vec(0.0, 1.0)) == Vec(0.0, -1.0);
  }

  lemma DampedStepFromRest(m: State)
    requires m.pos == Vec(0.0, 1.0) && m.vel == Zero && m.acc == Add(Zero, Vec(0.0, -0.8))
    ensures IntegrateStep(m).vel == Vec(0.0, -0.72)
    ensures IntegrateStep(m).pos == Vec(0.0, 0.28)
  {
    assert Add(m.vel, m.acc) == Vec(0.0, -0.8);
    DampedPull();
  }

  lemma DampedPull()
    ensures Scale(Vec(0.0, -0.8), 0.9) == Vec(0.0, -0.72)
    ensures Add(Vec(0.0, 1.0), Vec(0.0, -0.72)) == Vec(0.0, 0.28)
  {
  }

  /** Two particles of a 100 by 100 grid at spacing 50 after one frame with
      the trail [(0, 0)], at any time up to HoverDelay: the one at (0, 0)
      is on the point, tracks it, but feels no force and stays at rest; the
      one at (50, 0) is 50 away, does not track and is not yet returning. */
  lemma OneFrameScenario(now: real, normalize: Vec -> Vec)
    requires normalize(Zero) == Zero
    requires now <= HoverDelay
    ensures var r := FrameStep(Initial(Vec(0.0, 0.0)), Vec(0.0, 0.0), [Vec(0.0, 0.0)], now, normalize);
      r.movingToPath && r.pos == Vec(0.0, 0.0) && r.vel == Zero
    ensures var r := FrameStep(Initial(Vec(50.0, 0.0)), Vec(50.0, 0.0), [Vec(0.0, 0.0)], now, normalize);
      !r.movingToPath && !r.returningToHome && r.pos == Vec(50.0, 0.0) && r.vel == Zero
  {
    assert DistSq(Vec(0.0, 0.0), Vec(0.0, 0.0)) == 0.0;
    assert DistSq(Vec(0.0, 0.0), Vec(50.0, 0.0)) == 2500.0;
    PullVanishesAtTarget(Vec(0.0, 0.0), AttractionForce, normalize);
  }
}
