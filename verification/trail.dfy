/** The mouse trail `mousePath` (sketch.js:5): a sequence of pointer
    positions, appended to while the mouse is pressed and pruned from the
    front once per frame, together with the linear nearest-point scan that
    each particle runs over it (sketch.js:57-66). */
module Trail {
  import opened Geometry

  /** The trail keeps at most this many points at the end of a frame
      (the `mousePath.length > 50` test, sketch.js:38). */
  const TrailCap: nat := 50

  /** One frame's recording step: the pointer position is pushed onto the
      end of the trail only while the mouse is pressed (sketch.js:25-27). */
  function Record(path: seq<Vec>, pressed: bool, mouse: Vec): seq<Vec> {
    if pressed then path + [mouse] else path
  }

  /** One frame's pruning step: a single `if`, not a loop, so at most the one
      oldest point is shifted off the front (sketch.js:38-40). */
  function Prune(path: seq<Vec>): seq<Vec> {
    if |path| > TrailCap then path[1..] else path
  }

  /** The trail at the end of one frame. */
  function AfterFrame(path: seq<Vec>, pressed: bool, mouse: Vec): seq<Vec> {
    Prune(Record(path, pressed, mouse))
  }

  /** The (at most) n most recent elements of s, in their original order. */
  function Latest(s: seq<Vec>, n: nat): (r: seq<Vec>)
    ensures |r| == if |s| <= n then |s| else n
  {
    if |s| <= n then s else s[|s| - n..]
  }

  /** Recording appends the pointer position at the end when, and only when,
      the mouse is pressed; the points already there are untouched. */
  lemma RecordAppendsWhenPressed(path: seq<Vec>, pressed: bool, mouse: Vec)
    ensures |Record(path, pressed, mouse)| == if pressed then |path| + 1 else |path|
    ensures Record(path, pressed, mouse)[..|path|] == path
    ensures pressed ==> Record(path, pressed, mouse)[|path|] == mouse
  {
  }

  /** Pruning removes exactly the oldest point when the trail is longer than
      the cap, and nothing otherwise; what survives is a suffix, so the
      recording order is kept. */
  lemma PruneDropsAtMostOne(path: seq<Vec>)
    ensures |Prune(path)| == if |path| > TrailCap then |path| - 1 else |path|
    ensures Prune(path) == path[|path| - |Prune(path)|..]
  {
  }

  /** Because the prune is a single `if`, it cannot restore the bound on its
      own: a trail two or more points over the cap is still over it after
      pruning. The bound rests on at most one push per frame (see
      FrameKeepsTrailBounded). */
  lemma PruneAloneDoesNotRestoreBound(path: seq<Vec>)
    requires |path| > TrailCap + 1
    ensures |Prune(path)| > TrailCap
  {
  }

  /** A trail within the cap before a frame grows to at most one over the
      cap while the particles read it, and is within the cap again after the
      prune, holding exactly its most recent points. */
  lemma FrameKeepsTrailBounded(path: seq<Vec>, pressed: bool, mouse: Vec)
    requires |path| <= TrailCap
    ensures |Record(path, pressed, mouse)| <= TrailCap + 1
    ensures |AfterFrame(path, pressed, mouse)| <= TrailCap
    ensures AfterFrame(path, pressed, mouse) == Latest(Record(path, pressed, mouse), TrailCap)
  {
  }

  /** The host input for one frame that the trail depends on. */
  datatype Pointer = Pointer(pressed: bool, mouse: Vec)

  /** The positions recorded over a run of frames, oldest first. */
  function Recorded(frames: seq<Pointer>): seq<Vec> {
    if frames == [] then []
    else Record([], frames[0].pressed, frames[0].mouse) + Recorded(frames[1..])
  }

  /** The trail after running the given frames in order. */
  function TrailAfterFrames(path: seq<Vec>, frames: seq<Pointer>): seq<Vec>
    decreases |frames|
  {
    if frames == [] then path
    else TrailAfterFrames(AfterFrame(path, frames[0].pressed, frames[0].mouse), frames[1..])
  }

  /** Taking the latest n twice is taking them once. */
  lemma LatestOfLatest(a: seq<Vec>, b: seq<Vec>, n: nat)
    ensures Latest(Latest(a, n) + b, n) == Latest(a + b, n)
  {
    if |a| > n {
      var a' := a[|a| - n..];
      if |a' + b| > n {
        assert (a' + b)[|a' + b| - n..] == (a + b)[|a + b| - n..];
      } else {
        assert b == [];
        assert a + b == a;
      }
    }
  }

  /** The first frame's recording followed by the rest of the run's
      recordings is the whole run's recording. */
  lemma {:induction false} RecordThenRecorded(path: seq<Vec>, frames: seq<Pointer>)
    requires frames != []
    ensures Record(path, frames[0].pressed, frames[0].mouse) + Recorded(frames[1..])
         == path + Recorded(frames)
  {
    var f, later := frames[0], Recorded(frames[1..]);
    assert Recorded(frames) == Record([], f.pressed, f.mouse) + later;
    if f.pressed {
      assert (path + [f.mouse]) + later == path + ([f.mouse] + later);
    } else {
      assert [] + later == later;
    }
  }

  /** Over any run of frames from a trail within the cap, the trail holds
      exactly the most recent TrailCap of all the points ever in it, oldest
      first: a bounded FIFO. */
  lemma {:induction false} TrailHoldsLatestPoints(path: seq<Vec>, frames: seq<Pointer>)
    requires |path| <= TrailCap
    ensures TrailAfterFrames(path, frames) == Latest(path + Recorded(frames), TrailCap)
    ensures |TrailAfterFrames(path, frames)| <= TrailCap
    decreases |frames|
  {
    if frames == [] {
      assert path + Recorded(frames) == path;
    } else {
      var f, rest := frames[0], frames[1..];
      var recorded := Record(path, f.pressed, f.mouse);
      var next := AfterFrame(path, f.pressed, f.mouse);
      FrameKeepsTrailBounded(path, f.pressed, f.mouse);
      TrailHoldsLatestPoints(next, rest);
      LatestOfLatest(recorded, Recorded(rest), TrailCap);
      RecordThenRecorded(path, frames);
    }
  }

  /** k is the index the left-to-right scan with a strict `<` settles on: no
      earlier point is as close, and no later point is closer. */
  ghost predicate IsEarliestNearest(path: seq<Vec>, q: Vec, k: int) {
    && 0 <= k < |path|
    && (forall j :: 0 <= j < k ==> DistSq(path[j], q) > DistSq(path[k], q))
    && (forall j :: k <= j < |path| ==> DistSq(path[k], q) <= DistSq(path[j], q))
  }

  /** The index of the point the scan of sketch.js:57-66 ends on, defined
      over growing prefixes as the scan visits them: the newest point
      replaces the current best only when strictly closer. None stands for
      the scan's untouched `null`. */
  function NearestIndex(path: seq<Vec>, q: Vec): (r: Option<nat>)
    ensures r.None? <==> |path| == 0
    ensures r.Some? ==> r.value < |path|
  {
    if |path| == 0 then None
    else
      var best := NearestIndex(path[..|path| - 1], q);
      var last := |path| - 1;
      if best.None? || DistSq(path[last], q) < DistSq(path[best.value], q) then Some(last)
      else best
  }

  /** `dist` behaves as p5.Vector.dist: a non-negative length whose square
      is the squared distance. */
  ghost predicate IsEuclidean(dist: (Vec, Vec) -> real) {
    forall a, b :: 0.0 <= dist(a, b) && dist(a, b) * dist(a, b) == DistSq(a, b)
  }

  /** The scan of sketch.js:60-66 as written, comparing by `dist` rather
      than by squared distance. */
  function NearestIndexBy(path: seq<Vec>, q: Vec, dist: (Vec, Vec) -> real): (r: Option<nat>)
    ensures r.None? <==> |path| == 0
    ensures r.Some? ==> r.value < |path|
  {
    if |path| == 0 then None
    else
      var best := NearestIndexBy(path[..|path| - 1], q, dist);
      var last := |path| - 1;
      if best.None? || dist(path[last], q) < dist(path[best.value], q) then Some(last)
      else best
  }

  /** Scanning by Euclidean distance settles on the same index as scanning
      by squared distance, so the model's NearestIndex is the sketch's scan. */
  lemma {:induction false} ScanByDistAgrees(path: seq<Vec>, q: Vec, dist: (Vec, Vec) -> real)
    requires IsEuclidean(dist)
    ensures NearestIndexBy(path, q, dist) == NearestIndex(path, q)
    decreases |path|
  {
    if |path| > 0 {
      var pre := path[..|path| - 1];
      ScanByDistAgrees(pre, q, dist);
      var best := NearestIndex(pre, q);
      if best.Some? {
        EuclideanOrder(dist, path[|path| - 1], path[best.value], q);
      }
    }
  }

  /** A Euclidean `dist` orders two points by their distance to q as the
      squared distance does. */
  lemma EuclideanOrder(dist: (Vec, Vec) -> real, u: Vec, v: Vec, q: Vec)
    requires IsEuclidean(dist)
    ensures dist(u, q) < dist(v, q) <==> DistSq(u, q) < DistSq(v, q)
  {
    var a, b := dist(u, q), dist(v, q);
    SquaresOrder(a, b, DistSq(u, q), DistSq(v, q));
  }

  lemma SquaresOrder(a: real, b: real, a2: real, b2: real)
    requires 0.0 <= a && 0.0 <= b && a * a == a2 && b * b == b2
    ensures a < b <==> a2 < b2
  {
    SquareOrder(a, b);
  }

  /** The closest point itself, as the scan's `closestPoint`. */
  function Nearest(path: seq<Vec>, q: Vec): Option<Vec> {
    match NearestIndex(path, q)
    case None => None
    case Some(k) => Some(path[k])
  }

  lemma {:induction false} NearestIndexIsEarliestNearest(path: seq<Vec>, q: Vec)
    requires |path| > 0
    ensures IsEarliestNearest(path, q, NearestIndex(path, q).value)
    decreases |path|
  {
    var n := |path| - 1;
    var pre := path[..n];
    if n > 0 {
      NearestIndexIsEarliestNearest(pre, q);
      var b := NearestIndex(pre, q).value;
      assert forall j :: 0 <= j < n ==> pre[j] == path[j];
    }
  }

  lemma EarliestNearestIsUnique(path: seq<Vec>, q: Vec, k1: int, k2: int)
    requires IsEarliestNearest(path, q, k1) && IsEarliestNearest(path, q, k2)
    ensures k1 == k2
  {
    var d1, d2 := DistSq(path[k1], q), DistSq(path[k2], q);
    assert !(k1 < k2) && !(k2 < k1);
  }

  /** The scan's result, characterised without reference to the scan: it
      finds nothing exactly on an empty trail, and otherwise the index k
      holding a closest point, the lowest such index when several tie. */
  lemma NearestIndexCharacterised(path: seq<Vec>, q: Vec, k: int)
    ensures NearestIndex(path, q) == None <==> path == []
    ensures NearestIndex(path, q) == Some(k) <==> IsEarliestNearest(path, q, k)
  {
    if |path| > 0 {
      NearestIndexIsEarliestNearest(path, q);
      if IsEarliestNearest(path, q, k) {
        EarliestNearestIsUnique(path, q, k, NearestIndex(path, q).value);
      }
    }
  }

  /** The closest point lies strictly within a bound exactly when some point
      of the trail does; this is why testing only the closest point against
      the interaction radius (sketch.js:69) asks "is any trail point near". */
  lemma NearestWithinIffAnyWithin(path: seq<Vec>, q: Vec, bound: real)
    ensures (Nearest(path, q).Some? && DistSq(Nearest(path, q).value, q) < bound)
        <==> (exists j :: 0 <= j < |path| && DistSq(path[j], q) < bound)
  {
    if |path| > 0 {
      NearestIndexIsEarliestNearest(path, q);
      var k := NearestIndex(path, q).value;
      if exists j :: 0 <= j < |path| && DistSq(path[j], q) < bound {
        var j :| 0 <= j < |path| && DistSq(path[j], q) < bound;
        assert DistSq(path[k], q) <= DistSq(path[j], q);
      }
    }
  }

  /** The loop of sketch.js:57-66. `closestDist` starts as Infinity in the
      sketch; here the first point is taken unconditionally while `closest`
      is still None, which is the same test since every distance is below
      Infinity. */
  method FindClosest(path: seq<Vec>, q: Vec) returns (closest: Option<Vec>, closestDist: real)
    ensures closest == Nearest(path, q)
    ensures closest.None? <==> path == []
    ensures closest.Some? ==> closestDist == DistSq(closest.value, q)
    ensures closest.Some? ==>
      exists k :: IsEarliestNearest(path, q, k) && path[k] == closest.value
  {
    closest, closestDist := None, 0.0;
    for i := 0 to |path|
      invariant closest == Nearest(path[..i], q)
      invariant closest.Some? ==> closestDist == DistSq(closest.value, q)
    {
      var distance := DistSq(path[i], q);
      assert path[..i + 1][..i] == path[..i];
      if closest.None? || distance < closestDist {
        closestDist := distance;
        closest := Some(path[i]);
      }
    }
    assert path[..|path|] == path;
    if path != [] {
      NearestIndexIsEarliestNearest(path, q);
    }
  }
}
