/** The sketch's global state and its two entry points: `setup`, which
    fills the particle grid (sketch.js:10-19), and `draw`, one frame
    (sketch.js:21-41). The host's inputs — whether the mouse is pressed, its
    position, the clock `millis()` — and p5's vector normalisation are
    parameters. */
module Sketch {
  import opened Geometry
  import opened Trail
  import opened Grid
  import opened Particles

  class Sketch {
    /** `gridParticles` (sketch.js:4). */
    var particles: seq<Particle>
    /** `mousePath` (sketch.js:5). */
    var mousePath: seq<Vec>

    /** Distinct particles, so that updating one leaves the others alone,
        and a trail within its cap between frames. */
    ghost predicate Valid()
      reads this
    {
      && (forall i, j :: 0 <= i < j < |particles| ==> particles[i] != particles[j])
      && |mousePath| <= TrailCap
    }

    /** The sketch before `setup`: both arrays empty (sketch.js:4-5). */
    constructor ()
      ensures Valid() && particles == [] && mousePath == []
    {
      particles := [];
      mousePath := [];
    }

    /** The grid loops of `setup` (sketch.js:14-18) on a canvas of the given
        size (the sketch creates a 1000 by 1000 one): one new particle per
        lattice point, pushed in x-major order, each at rest at its home. */
    method Setup(width: nat, height: nat)
      requires Valid()
      modifies this
      ensures Valid()
      ensures mousePath == old(mousePath)
      ensures |particles| == |old(particles)| + |GridHomes(width, height, GridSize)|
      ensures particles[..|old(particles)|] == old(particles)
      ensures forall k :: 0 <= k < |GridHomes(width, height, GridSize)| ==>
        var p := particles[|old(particles)| + k];
        fresh(p) && p.home == GridHomes(width, height, GridSize)[k]
        && p.Snapshot() == Initial(p.home)
    {
      ghost var start := |particles|;
      ghost var cols, rows := Steps(width, GridSize), Steps(height, GridSize);
      var x := 0;
      ghost var i, base := 0, 0;
      while x < width
        invariant 0 <= i <= cols && x == GridSize * i && base == i * rows
        invariant Valid() && mousePath == old(mousePath)
        invariant |particles| == start + base
        invariant particles[..start] == old(particles)
        invariant forall k :: start <= k < start + base ==> fresh(particles[k])
        invariant forall k :: start <= k < start + base ==> particles[k].home == HomeAt(k - start, rows, GridSize)
        invariant forall k :: start <= k < start + base ==>
          particles[k].Snapshot() == Initial(particles[k].home)
        decreases width - x
      {
        StepsCountsMultiples(width, GridSize, i);
        var y := 0;
        ghost var j := 0;
        while y < height
          invariant 0 <= j <= rows && y == GridSize * j
          invariant Valid() && mousePath == old(mousePath)
          invariant |particles| == start + base + j
          invariant particles[..start] == old(particles)
          invariant forall k :: start <= k < start + base + j ==> fresh(particles[k])
          invariant forall k :: start <= k < start + base + j ==> particles[k].home == HomeAt(k - start, rows, GridSize)
          invariant forall k :: start <= k < start + base + j ==>
            particles[k].Snapshot() == Initial(particles[k].home)
          decreases height - y
        {
          StepsCountsMultiples(height, GridSize, j);
          HomeAtColumnRow(i, j, rows, GridSize);
          ghost var before := particles;
          var p := new Particle(x as real, y as real);
          particles := particles + [p];
          assert p.home == HomeAt(base + j, rows, GridSize);
          assert forall k :: 0 <= k < start + base + j ==> particles[k] == before[k];
          y := y + GridSize;
          j := j + 1;
        }
        StepsCountsMultiples(height, GridSize, j);
        assert (i + 1) * rows == base + rows;
        x := x + GridSize;
        i, base := i + 1, base + rows;
      }
      StepsCountsMultiples(width, GridSize, i);
      GridHomesOnLattice(width, height, GridSize, 0);
    }

    /** The body of the `forEach` callback in `draw` (sketch.js:30-35):
        the four per-frame calls on one particle, drawing left out. */
    method UpdateParticle(particle: Particle, path: seq<Vec>, now: real, normalize: Vec -> Vec)
      modifies particle
      ensures particle.Snapshot()
           == FrameStep(old(particle.Snapshot()), particle.home, path, now, normalize)
    {
      particle.MoveToPath(path, now, normalize);
      particle.CheckHover(now);
      particle.ReturnToHome(normalize);
      particle.Show();
    }

    /** One frame (sketch.js:21-41), drawing left out: record the pointer
        while pressed, run every particle's update against that trail, then
        prune the trail once. `now` is `millis()`. */
    method Draw(pressed: bool, mouse: Vec, now: real, normalize: Vec -> Vec)
      requires Valid()
      modifies this, set p | p in particles
      ensures Valid()
      ensures particles == old(particles)
      ensures mousePath == AfterFrame(old(mousePath), pressed, mouse)
      ensures forall k :: 0 <= k < |particles| ==>
        particles[k].Snapshot()
          == FrameStep(old(particles[k].Snapshot()), particles[k].home,
                       Record(old(mousePath), pressed, mouse), now, normalize)
    {
      if pressed {
        mousePath := mousePath + [mouse];
      }
      ghost var seen := mousePath;
      var i := 0;
      while i < |particles|
        invariant 0 <= i <= |particles|
        invariant particles == old(particles) && mousePath == seen
        invariant forall k :: 0 <= k < i ==>
          particles[k].Snapshot()
            == FrameStep(old(particles[k].Snapshot()), particles[k].home, seen, now, normalize)
        invariant forall k :: i <= k < |particles| ==>
          particles[k].Snapshot() == old(particles[k].Snapshot())
      {
        assert forall k :: 0 <= k < |particles| && k != i ==> particles[k] != particles[i];
        UpdateParticle(particles[i], mousePath, now, normalize);
        i := i + 1;
      }
      FrameKeepsTrailBounded(old(mousePath), pressed, mouse);
      if |mousePath| > TrailCap {
        mousePath := mousePath[1..];
      }
    }
  }
}
