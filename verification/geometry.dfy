/** Plane vectors with exact real coordinates, standing for the p5.Vector
    values the sketch creates with createVector. Every operation returns a new
    value: the sketch's in-place add/mult calls become reassignments. */
module Geometry {

  /** The null reference the sketch uses for "no point found". */
  datatype Option<T> = None | Some(value: T)

  datatype Vec = Vec(x: real, y: real)

  const Zero: Vec := Vec(0.0, 0.0)

  function Add(a: Vec, b: Vec): Vec {
    Vec(a.x + b.x, a.y + b.y)
  }

  function Sub(a: Vec, b: Vec): Vec {
    Vec(a.x - b.x, a.y - b.y)
  }

  function Scale(a: Vec, k: real): Vec {
    Vec(a.x * k, a.y * k)
  }

  /** Squared Euclidean distance. The sketch compares Euclidean distances
      (p5.Vector.dist); both sides of every such comparison are non-negative,
      so comparing squares decides the same way (see SquareOrder). */
  function DistSq(a: Vec, b: Vec): real {
    (a.x - b.x) * (a.x - b.x) + (a.y - b.y) * (a.y - b.y)
  }

  /** Comparing two non-negative lengths is the same as comparing their
      squares; this is what lets the model replace dist by DistSq, and the
      radius test `dist < 30` by `DistSq < 900`. */
  lemma SquareOrder(a: real, b: real)
    requires 0.0 <= a && 0.0 <= b
    ensures a < b <==> a * a < b * b
  {
    if a < b {
      assert b * b - a * a == (b - a) * (b + a);
      MulPositive(b - a, b + a);
    } else if a > b {
      assert a * a - b * b == (a - b) * (a + b);
      MulPositive(a - b, a + b);
    }
  }

  lemma MulPositive(x: real, y: real)
    requires 0.0 < x && 0.0 < y
    ensures 0.0 < x * y
  {
  }

  /** A steering force: the unit vector from `from` toward `target`, scaled
      to `magnitude` (p5's sub, normalize, mult). `normalize` stands for
      p5.Vector.normalize, whose square root the model does not compute. */
  function Pull(target: Vec, from: Vec, magnitude: real, normalize: Vec -> Vec): Vec {
    Scale(normalize(Sub(target, from)), magnitude)
  }

  /** When the particle already stands on its target the force vanishes,
      provided normalize maps the zero vector to zero, as p5's does. */
  lemma PullVanishesAtTarget(p: Vec, magnitude: real, normalize: Vec -> Vec)
    requires normalize(Zero) == Zero
    ensures Pull(p, p, magnitude, normalize) == Zero
  {
    assert Sub(p, p) == Zero;
  }
}
