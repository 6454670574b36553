# Particle grid sketch: a verified model

The sketch (`sketch.js`, a p5.js program) lays out a grid of particles,
one per lattice point of a 1000 by 1000 canvas at spacing 10. While the
mouse button is held it records the pointer's positions in a trail,
`mousePath`, and keeps only the latest points. Every frame, each particle
looks for the closest trail point. If that point lies within the
interaction radius, the particle is pulled toward it and the hover time is
stamped. Once a particle has been away from the trail for more than the
hover delay, it starts returning home for good. Its velocity and position
are then integrated with damping.

The model has five modules:

- `Geometry`: plane vectors over exact reals and squared distance. The
  steering force `Pull` takes p5's `normalize` as a function parameter,
  because that operation needs a square root.
- `Trail`: the recording and pruning of `mousePath` as functions. It also
  holds the nearest-point scan, both as the loop method `FindClosest` and
  as its specification `NearestIndex`.
- `Grid`: the homes that `setup` produces, in push order, and the lattice
  properties of that sequence.
- `Particles`: one function per per-frame call (`MoveToPathStep`,
  `CheckHoverStep`, `ReturnToHomeStep`, `IntegrateStep`). The `Particle`
  class updates its fields in place, and each of its methods is proved
  equal to the matching function. Lemmas state what a frame and a run of
  frames do.
- `Sketch`: the global state (`gridParticles` as `particles`, and
  `mousePath`) and the two host entry points `Setup` and `Draw`. The host's
  inputs are parameters: whether the mouse is pressed, its position, the
  clock `millis()` and the vector normalisation.

## Model

| member | source | states |
|---|---|---|
| Geometry.SquareOrder | sketch.js:61-62 | for non-negative lengths, a < b exactly when a*a < b*b, so comparing squared distances decides every distance comparison the same way |
| Geometry.Pull | sketch.js:70-72 | the force `sub`, `normalize`, `mult` as one value (also sketch.js:94-96); vanishes at the target by Geometry.PullVanishesAtTarget |
| Geometry.PullVanishesAtTarget | sketch.js:94-96 | a steering force toward the point the particle already stands on is zero, given that normalize maps zero to zero |
| Trail.Record | sketch.js:25-27 | the push while pressed; its properties are Trail.RecordAppendsWhenPressed |
| Trail.Prune | sketch.js:38-40 | the single shift when longer than 50; its properties are Trail.PruneDropsAtMostOne and Trail.PruneAloneDoesNotRestoreBound |
| Trail.AfterFrame | sketch.js:24-40 | push then prune, the trail at the end of `draw`; bounded and equal to the latest 50 points by Trail.FrameKeepsTrailBounded |
| Trail.RecordAppendsWhenPressed | sketch.js:25-27 | recording appends the pointer at the end exactly when pressed and leaves the earlier points as they were |
| Trail.PruneDropsAtMostOne | sketch.js:38-40 | the prune removes exactly the oldest point when the length exceeds 50 and nothing otherwise; the survivors are a suffix in recording order |
| Trail.PruneAloneDoesNotRestoreBound | sketch.js:38-40 | because the prune is a single `if`, a trail two or more points over the cap stays over it after pruning |
| Trail.FrameKeepsTrailBounded | sketch.js:24-40 | a trail of at most 50 points has at most 51 while particles read it and at most 50 after the frame, namely its 50 latest points |
| Trail.TrailHoldsLatestPoints | sketch.js:24-40 | over any run of frames the trail is exactly the latest 50 of all points recorded, oldest first, and never exceeds 50 |
| Trail.NearestIndex | sketch.js:57-66 | the scan's result is absent exactly on an empty trail, and otherwise an index into the trail |
| Trail.NearestIndexIsEarliestNearest | sketch.js:60-66 | on a non-empty trail the scan ends on a point with no closer point anywhere, strictly closer than every earlier point (strict `<` keeps the first of equals) |
| Trail.EarliestNearestIsUnique | sketch.js:60-66 | at most one index is the earliest among the nearest points |
| Trail.NearestIndexCharacterised | sketch.js:57-66 | the scan finds nothing iff the trail is empty, and finds k iff k is the earliest nearest index |
| Trail.NearestWithinIffAnyWithin | sketch.js:57-69 | the closest point exists and lies within a bound iff some trail point does |
| Trail.Nearest | sketch.js:57-66 | the scan's `closestPoint`: the point at NearestIndex, absent exactly on an empty trail (Trail.NearestIndexCharacterised) |
| Trail.NearestIndexBy | sketch.js:60-66 | the scan as written, comparing by a Euclidean `dist`: absent exactly on an empty trail, otherwise an index into it |
| Trail.EuclideanOrder | sketch.js:61-62 | for a Euclidean `dist`, comparing two points' distances to q agrees with comparing their squared distances |
| Trail.ScanByDistAgrees | sketch.js:60-66 | the scan by Euclidean distance settles on the same index as the scan by squared distance |
| Trail.FindClosest | sketch.js:57-66 | the loop returns the earliest nearest trail point with its squared distance, and null exactly on an empty trail |
| Grid.GridHomes | sketch.js:14-18 | the homes in push order; its count, lattice, coverage and order properties are the Grid lemmas below |
| Grid.StepsCountsMultiples | sketch.js:14-15 | the j-th value of `for (v = 0; v < n; v += g)` is below n iff j < ceil(n / g), so each loop runs ceil(n / g) times |
| Grid.StepsIsCeiling | sketch.js:14-15 | the iteration count is the least c with c*g >= n |
| Grid.HomeAtColumnRow | sketch.js:14-16 | the particle pushed as row j of column i has home (g*i, g*j) |
| Grid.GridHomesOnLattice | sketch.js:14-16 | the grid has ceil(w/g) * ceil(h/g) homes, each with coordinates that are multiples of g in [0,w) x [0,h) |
| Grid.GridCoversLattice | sketch.js:14-16 | every such lattice point is the home of one particle, at index (x/g)*ceil(h/g) + y/g |
| Grid.GridIsXMajor | sketch.js:14-16 | along the push order x never decreases, and y strictly increases within a column, so no two homes coincide |
| Grid.SmallGridExample | sketch.js:14-16 | a 100 by 100 canvas at spacing 50 yields (0,0), (0,50), (50,0), (50,50) in that order |
| Particles.Initial | sketch.js:45-53 | the constructor's state: at home, at rest, not tracking, hover time 0, not returning |
| Particles.MoveToPathStep | sketch.js:55-79 | `moveToPath` on a state value; its meaning is Particles.MoveToPathTracksNearTrail |
| Particles.CheckHoverStep | sketch.js:81-89 | `checkHover` on a state value; its meaning is Particles.HoverAndReturnTouchOneField |
| Particles.ReturnToHomeStep | sketch.js:91-99 | `returnToHome` on a state value; its meaning is Particles.HoverAndReturnTouchOneField |
| Particles.IntegrateStep | sketch.js:107-110 | the movement part of `show` on a state value; over a frame it is Particles.FrameMotion |
| Particles.FrameStep | sketch.js:30-35 | the four calls of the `forEach` callback in order; its effect is Particles.FrameMotion and Particles.ReturningFlagAfterFrame |
| Particles.Particle.constructor | sketch.js:45-53 | a new particle is at its home at rest, not tracking, hover time 0, not returning |
| Particles.Particle.MoveToPath | sketch.js:55-79 | the loop-based update (scan via FindClosest, squared radius test) leaves the fields equal to MoveToPathStep of the old state, whose meaning MoveToPathTracksNearTrail states |
| Particles.Particle.CheckHover | sketch.js:81-89 | the in-place update leaves the fields equal to CheckHoverStep of the old state: only the returning flag may change, as HoverAndReturnTouchOneField states |
| Particles.Particle.ReturnToHome | sketch.js:91-99 | the in-place update leaves the fields equal to ReturnToHomeStep of the old state: only acc may change, and only while returning |
| Particles.Particle.Show | sketch.js:106-110 | velocity becomes (velocity + acceleration) * 0.9, position moves by the new velocity, acceleration becomes zero |
| Particles.MoveToPathTracksNearTrail | sketch.js:55-79 | `movingToPath` is set and the hover time stamped iff some trail point is strictly within the radius; then acc gains the pull toward the earliest nearest point; otherwise acc and hover time are kept; pos, vel and the returning flag are untouched; an empty trail never attracts |
| Particles.HoverAndReturnTouchOneField | sketch.js:81-99 | `checkHover` only ever sets the returning flag, exactly when not tracking and more than 2000 ms have passed; `returnToHome` changes only acc, and only while returning |
| Particles.ReturningFlagAfterFrame | sketch.js:30-89 | after a frame the particle is returning iff it was already, or no trail point is near and more than 2000 ms have passed since the stamped hover time |
| Particles.ReturningIsSticky | sketch.js:81-89 | once returning, a particle stays returning over every later run of frames |
| Particles.FrameMotion | sketch.js:30-110 | from zero acceleration, a frame's new velocity is the damped sum of the old velocity, the pull toward the closest trail point when tracking and the pull toward home when returning; position moves by it; acceleration is reset |
| Particles.RestingAtHomeStays | sketch.js:30-110 | a particle at rest at home, with no trail point ever near, stays at rest at home for ever |
| Particles.MoveToPathSingleNearPoint | sketch.js:57-75 | a one-point trail within the radius pulls toward that point and stamps the hover time |
| Particles.PullFromRestExample | sketch.js:30-110 | one unit below the only trail point, from rest, a frame gives velocity (0, -0.72) and position (0, 0.28), with the hover time stamped and no return |
| Particles.OneFrameScenario | sketch.js:30-110 | on trail [(0,0)] before 2000 ms, the particle at (0,0) tracks but stays put, and the one at (50,0) neither tracks nor returns |
| Sketch.Sketch.constructor | sketch.js:4-5 | both arrays start empty |
| Sketch.Sketch.Setup | sketch.js:10-19 | appends one fresh particle per grid home, in x-major order, each at rest at its home; the trail is unchanged |
| Sketch.Sketch.UpdateParticle | sketch.js:30-35 | the four calls on one particle amount to FrameStep on its old state |
| Sketch.Sketch.Draw | sketch.js:21-41 | every particle takes one FrameStep against the trail with this frame's point recorded; the trail ends as Prune(Record(...)) and stays within 50; the particle list is unchanged |

## Left out

- Drawing: `createCanvas`, `background`, `noStroke`, `fill` and `ellipse`
  (sketch.js:11, 22, 102-104), and with them the particle `size` field,
  have no effect on the state.
- The canvas size is a parameter of `Setup`; the sketch always uses
  1000 by 1000.
- The p5 host loop that calls `draw` once per frame is not modelled. One
  call of `Draw` is one frame, and `Particles.ParticleAfterFrames` and `Trail.TrailAfterFrames` fold over
  given input sequences.
- `mouseIsPressed`, `mouseX`/`mouseY` and `millis()` are parameters. Time
  is a `real` number of milliseconds.
- `millis()` is read afresh in `moveToPath` (sketch.js:75) and in
  `checkHover` (sketch.js:85), for every particle. `Sketch.Sketch.Draw`
  takes one `now` for the whole frame, so the model treats the clock as
  constant during a frame.
- `p5.Vector.normalize` is the parameter `normalize`. The only property
  the lemmas assume of it is that it maps the zero vector to zero, or one
  concrete value in the example lemmas. The unit length of the force is
  therefore not modelled.
- `p5.Vector.dist` is replaced by the squared distance. The scan keeps
  squared distances and tests them against 30 squared. `Geometry.SquareOrder`
  shows that this decides every comparison as the Euclidean distance does,
  and `Trail.ScanByDistAgrees` shows that a scan by any Euclidean `dist`
  picks the same index.
- Arithmetic is exact over `real`; IEEE double rounding is not modelled.
- `Infinity` as the scan's starting distance is modelled by `None`: the
  first point is always taken, as it is below any finite bound.
- `returningToHome` is not assigned by the constructor (sketch.js:45-53).
  The sketch reads the undefined value as false, and the model starts it
  at false.
- The prune (sketch.js:38-40) is a single `if`: it removes at most one
  point per frame (`Trail.PruneAloneDoesNotRestoreBound`).
- x is the outer loop (sketch.js:14-18), so homes are pushed x-major
  (`Grid.GridIsXMajor`).
