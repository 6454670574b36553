/** The particle grid that `setup` lays out (sketch.js:14-18): an outer loop
    over x and an inner loop over y, both from 0 in steps of the grid size,
    pushing one particle per lattice point. This module states which home
    positions that produces and in which order; the loops themselves are
    Sketch.Sketch.Setup. */
module Grid {
  import opened Geometry

  /** Distance between neighbouring particles (sketch.js:1). */
  const GridSize: int := 10

  /** How many of 0, g, 2g, ... lie below n: the number of iterations of
      `for (v = 0; v < n; v += g)`, which is the ceiling of n / g. */
  function Steps(n: nat, g: int): nat
    requires g > 0
  {
    (n + g - 1) / g
  }

  /** The home of the k-th particle pushed when each column holds `rows`
      particles: column k / rows, row k % rows. */
  function HomeAt(k: nat, rows: nat, g: int): Vec
    requires rows > 0
  {
    Vec((g * (k / rows)) as real, (g * (k % rows)) as real)
  }

  /** The homes of the particles `setup` creates on a w by h canvas, in the
      order they are pushed. */
  function GridHomes(w: nat, h: nat, g: int): seq<Vec>
    requires g > 0
  {
    var cols, rows := Steps(w, g), Steps(h, g);
    if rows == 0 then [] else seq(cols * rows, k requires 0 <= k => HomeAt(k, rows, g))
  }

  /** v is a lattice point of the canvas: integer coordinates that are
      multiples of g, with 0 <= x < w and 0 <= y < h. */
  ghost predicate OnLattice(v: Vec, w: nat, h: nat, g: int)
    requires g > 0
  {
    && v == Vec(v.x.Floor as real, v.y.Floor as real)
    && 0 <= v.x.Floor < w && v.x.Floor % g == 0
    && 0 <= v.y.Floor < h && v.y.Floor % g == 0
  }

  lemma MulSign(x: int, d: int)
    requires d > 0
    ensures x >= 1 ==> x * d >= d
    ensures x <= -1 ==> x * d <= -d
  {
  }

  /** Euclidean division is determined by quotient and remainder. */
  lemma DivModUnique(k: int, d: int, q: int, r: int)
    requires d > 0 && 0 <= r < d && k == q * d + r
    ensures k / d == q && k % d == r
  {
    MulSign(q - k / d, d);
    assert (q - k / d) * d == k % d - r;
  }

  /** A loop `for (v = 0; v < n; v += g)` runs exactly Steps(n, g) times:
      the j-th value g * j is below n exactly when j < Steps(n, g). */
  lemma StepsCountsMultiples(n: nat, g: int, j: int)
    requires g > 0
    ensures g * j < n <==> j < Steps(n, g)
  {
    var s := Steps(n, g);
    assert n + g - 1 == s * g + (n + g - 1) % g;
    MulSign(j - s, g);
    MulSign(s - 1 - j, g);
    assert g * j - s * g == (j - s) * g;
    assert (s - 1) * g - g * j == (s - 1 - j) * g;
  }

  /** Steps(n, g) is the ceiling of n / g: the least count whose multiples
      of g reach n. */
  lemma StepsIsCeiling(n: nat, g: int)
    requires g > 0
    ensures g * Steps(n, g) >= n
    ensures Steps(n, g) > 0 ==> g * (Steps(n, g) - 1) < n
  {
    StepsCountsMultiples(n, g, Steps(n, g));
    StepsCountsMultiples(n, g, Steps(n, g) - 1);
  }

  /** The particle pushed as row j of column i is at (g * i, g * j). */
  lemma HomeAtColumnRow(i: nat, j: nat, rows: nat, g: int)
    requires j < rows
    ensures HomeAt(i * rows + j, rows, g) == Vec((g * i) as real, (g * j) as real)
  {
    DivModUnique(i * rows + j, rows, i, j);
  }

  /** An index below cols * rows names a column below cols and a row below
      rows. */
  lemma ColumnRowInRange(k: int, cols: nat, rows: nat)
    requires rows > 0 && 0 <= k < cols * rows
    ensures 0 <= k / rows < cols && 0 <= k % rows < rows
  {
    var q, r := k / rows, k % rows;
    assert k == q * rows + r;
    assert (q - cols + 1) * rows == q * rows - cols * rows + rows;
    MulSign(q - cols + 1, rows);
  }

  /** The i-th value of `for (v = 0; v < n; v += g)` is a multiple of g in
      [0, n). */
  lemma MultipleInRange(n: nat, g: int, i: int)
    requires g > 0 && 0 <= i < Steps(n, g)
    ensures 0 <= g * i < n && (g * i) % g == 0
  {
    StepsCountsMultiples(n, g, i);
    MulSign(i, g);
    DivModUnique(g * i, g, i, 0);
  }

  /** The grid has ceil(w / g) * ceil(h / g) particles, and every home is a
      lattice point of the canvas. */
  lemma GridHomesOnLattice(w: nat, h: nat, g: int, k: int)
    requires g > 0
    ensures |GridHomes(w, h, g)| == Steps(w, g) * Steps(h, g)
    ensures 0 <= k < |GridHomes(w, h, g)| ==> OnLattice(GridHomes(w, h, g)[k], w, h, g)
  {
    var cols, rows := Steps(w, g), Steps(h, g);
    if 0 <= k < |GridHomes(w, h, g)| {
      ColumnRowInRange(k, cols, rows);
      MultipleInRange(w, g, k / rows);
      MultipleInRange(h, g, k % rows);
    }
  }

  /** Conversely every lattice point of the canvas is the home of a
      particle, namely of the one pushed as row y / g of column x / g. */
  lemma GridCoversLattice(w: nat, h: nat, g: int, v: Vec)
    requires g > 0 && OnLattice(v, w, h, g)
    ensures (v.x.Floor / g) * Steps(h, g) + v.y.Floor / g < |GridHomes(w, h, g)|
    ensures GridHomes(w, h, g)[(v.x.Floor / g) * Steps(h, g) + v.y.Floor / g] == v
  {
    var x, y := v.x.Floor, v.y.Floor;
    var i, j := x / g, y / g;
    var cols, rows := Steps(w, g), Steps(h, g);
    LatticeIndex(w, g, x);
    LatticeIndex(h, g, y);
    IndexBelow(i, j, cols, rows);
    HomeAtColumnRow(i, j, rows, g);
  }

  /** A multiple x of g in [0, n) is the (x / g)-th value of the loop. */
  lemma LatticeIndex(n: nat, g: int, x: int)
    requires g > 0 && 0 <= x < n && x % g == 0
    ensures x == g * (x / g) && 0 <= x / g < Steps(n, g)
  {
    StepsCountsMultiples(n, g, x / g);
    MulSign(-(x / g), g);
  }

  lemma IndexBelow(i: int, j: int, cols: nat, rows: nat)
    requires 0 <= i < cols && 0 <= j < rows
    ensures 0 <= i * rows + j < cols * rows
  {
    MulSign(cols - 1 - i, rows);
    MulSign(i + 1, rows);
    assert (cols - 1 - i) * rows + i * rows == cols * rows - rows;
  }

  /** Later indices are in a later column, or lower in the same column. */
  lemma LaterIndexLaterPlace(k: int, l: int, rows: nat)
    requires rows > 0 && 0 <= k < l
    ensures k / rows < l / rows || (k / rows == l / rows && k % rows < l % rows)
  {
    MulSign(k / rows - l / rows, rows);
    assert (k / rows - l / rows) * rows == (k - k % rows) - (l - l % rows);
  }

  lemma ScaleStrict(g: int, a: int, b: int)
    requires g > 0 && a < b
    ensures g * a < g * b
  {
    MulSign(b - a, g);
    assert g * b - g * a == (b - a) * g;
  }

  /** Homes come in x-major order: along the sequence x never decreases, and
      within one column y strictly increases. In particular no two particles
      share a home. */
  lemma GridIsXMajor(w: nat, h: nat, g: int, k: int, l: int)
    requires g > 0 && 0 <= k < l < |GridHomes(w, h, g)|
    ensures GridHomes(w, h, g)[k].x < GridHomes(w, h, g)[l].x
         || (GridHomes(w, h, g)[k].x == GridHomes(w, h, g)[l].x
             && GridHomes(w, h, g)[k].y < GridHomes(w, h, g)[l].y)
  {
    var rows := Steps(h, g);
    LaterIndexLaterPlace(k, l, rows);
    if k / rows < l / rows {
      ScaleStrict(g, k / rows, l / rows);
    } else {
      ScaleStrict(g, k % rows, l % rows);
    }
  }

  /** A 100 by 100 canvas at spacing 50 holds four particles, pushed in
      x-major order. */
  lemma SmallGridExample()
    ensures GridHomes(100, 100, 50)
         == [Vec(0.0, 0.0), Vec(0.0, 50.0), Vec(50.0, 0.0), Vec(50.0, 50.0)]
  {
    assert Steps(100, 50) == 2;
    var homes := GridHomes(100, 100, 50);
    assert |homes| == 4;
    assert homes[1] == HomeAt(1, 2, 50);
    assert homes[2] == HomeAt(2, 2, 50);
    assert homes[3] == HomeAt(3, 2, 50);
  }
}
