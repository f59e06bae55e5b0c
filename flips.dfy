/**
 * Flipping captured discs: one direction at a time, in the order of the
 * direction numbering, exactly as the engine mutates its grid.
 */
module Flips {
  import opened Constants
  import opened Grid
  import opened Rules

  /** g with the cells 1..m steps from (x, y) in direction k turned to colour c, one cell after another. */
  function FlipPrefix(g: seq<int>, x: int, y: int, k: int, c: int, m: int): (r: seq<int>)
    requires |g| == 100 && 0 <= k < 8
    ensures |r| == 100
    decreases m
  {
    if m <= 0 then g
    else
      var prev := FlipPrefix(g, x, y, k, c, m - 1);
      var q := Ray(x, y, k, m);
      if InGrid(q.0, q.1) then prev[Idx(q.0, q.1) := c] else prev
  }

  /** A cell that none of the first m steps reaches keeps its value. */
  lemma {:induction false} FlipPrefixUntouched(g: seq<int>, x: int, y: int, k: int, c: int, m: int, p: int)
    requires |g| == 100 && 0 <= k < 8 && 0 <= p < 100
    requires forall a :: 1 <= a <= m && InGrid(Ray(x, y, k, a).0, Ray(x, y, k, a).1) ==>
               Idx(Ray(x, y, k, a).0, Ray(x, y, k, a).1) != p
    ensures FlipPrefix(g, x, y, k, c, m)[p] == g[p]
    decreases m
  {
    if m > 0 {
      FlipPrefixUntouched(g, x, y, k, c, m - 1, p);
    }
  }

  /** Two steps along one direction that land on the same grid cell are the same step. */
  lemma RayCellsDistinct(x: int, y: int, k: int, a: int, b: int)
    requires 0 <= k < 8 && a != b
    requires InGrid(Ray(x, y, k, a).0, Ray(x, y, k, a).1) && InGrid(Ray(x, y, k, b).0, Ray(x, y, k, b).1)
    ensures Idx(Ray(x, y, k, a).0, Ray(x, y, k, a).1) != Idx(Ray(x, y, k, b).0, Ray(x, y, k, b).1)
  {
    IdxDivMod(Ray(x, y, k, a).0, Ray(x, y, k, a).1);
    IdxDivMod(Ray(x, y, k, b).0, Ray(x, y, k, b).1);
  }

  /** g with the opponent run next to (x, y) in direction k turned to colour c. */
  function FlipDir(g: seq<int>, x: int, y: int, k: int, c: int): (r: seq<int>)
    requires |g| == 100 && 0 <= k < 8
    ensures |r| == 100
  {
    FlipPrefix(g, x, y, k, c, RunLen(g, x, y, k, c))
  }

  /** h differs from g only where an opponent disc of c became a disc of c. */
  predicate OnlyCaptures(g: seq<int>, h: seq<int>, c: int) {
    |g| == |h| && forall p :: 0 <= p < |g| ==> h[p] == g[p] || (g[p] == -c && h[p] == c)
  }

  lemma OnlyCapturesTrans(g: seq<int>, h: seq<int>, i: seq<int>, c: int)
    requires IsColor(c) && OnlyCaptures(g, h, c) && OnlyCaptures(h, i, c)
    ensures OnlyCaptures(g, i, c)
  {
  }

  /** Step m turns one more cell; that cell still held its original value after the first m - 1 steps. */
  lemma FlipPrefixStep(g: seq<int>, x: int, y: int, k: int, c: int, m: int)
    requires |g| == 100 && 0 <= k < 8 && m >= 1 && InGrid(Ray(x, y, k, m).0, Ray(x, y, k, m).1)
    ensures var q := Idx(Ray(x, y, k, m).0, Ray(x, y, k, m).1);
            FlipPrefix(g, x, y, k, c, m - 1)[q] == g[q] &&
            FlipPrefix(g, x, y, k, c, m) == FlipPrefix(g, x, y, k, c, m - 1)[q := c]
  {
    EarlierRayCells(x, y, k, m);
    FlipPrefixUntouched(g, x, y, k, c, m - 1, Idx(Ray(x, y, k, m).0, Ray(x, y, k, m).1));
  }

  /** The cell m steps along a ray is none of the cells before it. */
  lemma EarlierRayCells(x: int, y: int, k: int, m: int)
    requires 0 <= k < 8 && InGrid(Ray(x, y, k, m).0, Ray(x, y, k, m).1)
    ensures forall a :: 1 <= a <= m - 1 && InGrid(Ray(x, y, k, a).0, Ray(x, y, k, a).1) ==>
              Idx(Ray(x, y, k, a).0, Ray(x, y, k, a).1) != Idx(Ray(x, y, k, m).0, Ray(x, y, k, m).1)
  {
    forall a | 1 <= a <= m - 1 && InGrid(Ray(x, y, k, a).0, Ray(x, y, k, a).1)
      ensures Idx(Ray(x, y, k, a).0, Ray(x, y, k, a).1) != Idx(Ray(x, y, k, m).0, Ray(x, y, k, m).1)
    {
      RayCellsDistinct(x, y, k, a, m);
    }
  }

  /**
   * Turning the first m cells of a run changes only opponent discs into discs
   * of c, keeps the grid well formed, and moves m discs from the opponent's
   * tally to c's.
   */
  lemma {:induction false} FlipPrefixFacts(g: seq<int>, x: int, y: int, k: int, c: int, m: int)
    requires WellFormed(g) && IsColor(c) && 0 <= k < 8 && 0 <= m <= RunLen(g, x, y, k, c)
    ensures var r := FlipPrefix(g, x, y, k, c, m);
            WellFormed(r) && OnlyCaptures(g, r, c) &&
            Count(r, c) == Count(g, c) + m && Count(r, -c) == Count(g, -c) - m &&
            Count(r, EMPTY) == Count(g, EMPTY)
  {
    if m == 0 {
      assert FlipPrefix(g, x, y, k, c, 0) == g;
    } else {
      FlipPrefixFacts(g, x, y, k, c, m - 1);
      FlipPrefixExtend(g, x, y, k, c, m);
      OnlyCapturesTrans(g, FlipPrefix(g, x, y, k, c, m - 1), FlipPrefix(g, x, y, k, c, m), c);
    }
  }

  /** Extending the flipped prefix by one cell paints one more opponent disc. */
  lemma FlipPrefixExtend(g: seq<int>, x: int, y: int, k: int, c: int, m: int)
    requires WellFormed(g) && IsColor(c) && 0 <= k < 8 && 1 <= m <= RunLen(g, x, y, k, c)
    requires WellFormed(FlipPrefix(g, x, y, k, c, m - 1))
    ensures var before, r := FlipPrefix(g, x, y, k, c, m - 1), FlipPrefix(g, x, y, k, c, m);
            WellFormed(r) && OnlyCaptures(before, r, c) &&
            Count(r, c) == Count(before, c) + 1 && Count(r, -c) == Count(before, -c) - 1 &&
            Count(r, EMPTY) == Count(before, EMPTY)
  {
    var before := FlipPrefix(g, x, y, k, c, m - 1);
    var qx, qy := Ray(x, y, k, m).0, Ray(x, y, k, m).1;
    RunCells(g, x, y, k, c, 1, m);
    FlipPrefixStep(g, x, y, k, c, m);
    ColorCellIsInterior(g, qx, qy);
    PaintFacts(before, qx, qy, c);
  }

  /** Turning one opponent disc of c on a well-formed grid into a disc of c. */
  lemma PaintFacts(s: seq<int>, qx: int, qy: int, c: int)
    requires WellFormed(s) && IsColor(c) && Interior(qx, qy) && s[Idx(qx, qy)] == -c
    ensures var r := s[Idx(qx, qy) := c];
            WellFormed(r) && OnlyCaptures(s, r, c) &&
            Count(r, c) == Count(s, c) + 1 && Count(r, -c) == Count(s, -c) - 1 &&
            Count(r, EMPTY) == Count(s, EMPTY)
  {
    ColorNegation(c);
    CountUpdate(s, Idx(qx, qy), c, c);
    CountUpdate(s, Idx(qx, qy), c, -c);
    CountUpdate(s, Idx(qx, qy), c, EMPTY);
  }

  lemma FlipDirFacts(g: seq<int>, x: int, y: int, k: int, c: int)
    requires WellFormed(g) && IsColor(c) && 0 <= k < 8
    ensures var r := FlipDir(g, x, y, k, c); var n := RunLen(g, x, y, k, c);
            WellFormed(r) && OnlyCaptures(g, r, c) &&
            Count(r, c) == Count(g, c) + n && Count(r, -c) == Count(g, -c) - n &&
            Count(r, EMPTY) == Count(g, EMPTY)
  {
    FlipPrefixFacts(g, x, y, k, c, RunLen(g, x, y, k, c));
  }

  /** Flipping in direction k leaves every cell of another direction's ray alone. */
  lemma FlipDirOffRay(g: seq<int>, x: int, y: int, k: int, c: int, j: int, b: int)
    requires |g| == 100 && 0 <= k < 8 && 0 <= j < 8 && j != k && b >= 1
    requires InGrid(Ray(x, y, j, b).0, Ray(x, y, j, b).1)
    ensures var q := Idx(Ray(x, y, j, b).0, Ray(x, y, j, b).1);
            FlipDir(g, x, y, k, c)[q] == g[q]
  {
    var q := Idx(Ray(x, y, j, b).0, Ray(x, y, j, b).1);
    forall a | 1 <= a <= RunLen(g, x, y, k, c) && InGrid(Ray(x, y, k, a).0, Ray(x, y, k, a).1)
      ensures Idx(Ray(x, y, k, a).0, Ray(x, y, k, a).1) != q
    {
      RaysDisjoint(x, y, k, j, a, b);
      IdxDivMod(Ray(x, y, k, a).0, Ray(x, y, k, a).1);
      IdxDivMod(Ray(x, y, j, b).0, Ray(x, y, j, b).1);
    }
    FlipPrefixUntouched(g, x, y, k, c, RunLen(g, x, y, k, c), q);
  }

  /** The grid after flipping the runs of the directions below n whose bit is set in mask. */
  function FlipUpTo(h: seq<int>, x: int, y: int, c: int, mask: bv8, n: int): (r: seq<int>)
    requires |h| == 100 && 0 <= n <= 8
    ensures |r| == 100
  {
    if n == 0 then h
    else
      var prev := FlipUpTo(h, x, y, c, mask, n - 1);
      if mask & Flag(n - 1) != 0 then FlipDir(prev, x, y, n - 1, c) else prev
  }

  /** The grid after a disc of colour c is placed at (x, y) and the runs named in mask are flipped. */
  function FlipGrid(g: seq<int>, x: int, y: int, c: int, mask: bv8): (r: seq<int>)
    requires |g| == 100 && InGrid(x, y)
    ensures |r| == 100
  {
    FlipUpTo(g[Idx(x, y) := c], x, y, c, mask, 8)
  }

  /** Total length of the runs named in mask among the first n directions, all measured on g. */
  function StaticCount(g: seq<int>, x: int, y: int, c: int, mask: bv8, n: int): nat
    requires |g| == 100 && 0 <= n <= 8
  {
    if n == 0 then 0
    else StaticCount(g, x, y, c, mask, n - 1) + (if mask & Flag(n - 1) != 0 then RunLen(g, x, y, n - 1, c) else 0)
  }

  /** Number of discs a move of colour c at (x, y) captures. */
  function FlipCount(g: seq<int>, x: int, y: int, c: int): nat
    requires |g| == 100 && InGrid(x, y)
  {
    StaticCount(g, x, y, c, Mobility(g, x, y, c), 8)
  }

  /** Directions not yet processed still see their rays as they were. */
  lemma {:induction false} FlipUpToOffRay(h: seq<int>, x: int, y: int, c: int, mask: bv8, n: int, j: int, b: int)
    requires |h| == 100 && 0 <= n <= j < 8 && b >= 1
    requires InGrid(Ray(x, y, j, b).0, Ray(x, y, j, b).1)
    ensures var q := Idx(Ray(x, y, j, b).0, Ray(x, y, j, b).1);
            FlipUpTo(h, x, y, c, mask, n)[q] == h[q]
  {
    if n > 0 {
      FlipUpToOffRay(h, x, y, c, mask, n - 1, j, b);
      FlipDirOffRay(FlipUpTo(h, x, y, c, mask, n - 1), x, y, n - 1, c, j, b);
    }
  }

  /**
   * The run a later direction flips is the run it had on the grid before the
   * move: placing the disc and flipping earlier directions do not touch it.
   */
  lemma FlipUpToRun(g: seq<int>, x: int, y: int, c: int, mask: bv8, n: int, j: int)
    requires |g| == 100 && InGrid(x, y) && 0 <= n <= j < 8
    ensures RunLen(FlipUpTo(g[Idx(x, y) := c], x, y, c, mask, n), x, y, j, c) == RunLen(g, x, y, j, c)
  {
    var h := g[Idx(x, y) := c];
    var r := FlipUpTo(h, x, y, c, mask, n);
    forall b | 1 <= b < 10 && InGrid(Ray(x, y, j, b).0, Ray(x, y, j, b).1)
      ensures r[Idx(Ray(x, y, j, b).0, Ray(x, y, j, b).1)] == g[Idx(Ray(x, y, j, b).0, Ray(x, y, j, b).1)]
    {
      FlipUpToOffRay(h, x, y, c, mask, n, j, b);
    }
    RunFrame(r, g, x, y, j, c, 1);
  }

  lemma {:induction false} FlipUpToFacts(g: seq<int>, x: int, y: int, c: int, mask: bv8, n: int)
    requires WellFormed(g) && Interior(x, y) && IsColor(c) && 0 <= n <= 8
    ensures var h := g[Idx(x, y) := c]; var r := FlipUpTo(h, x, y, c, mask, n);
            var m := StaticCount(g, x, y, c, mask, n);
            WellFormed(r) && OnlyCaptures(h, r, c) &&
            Count(r, c) == Count(h, c) + m && Count(r, -c) == Count(h, -c) - m &&
            Count(r, EMPTY) == Count(h, EMPTY)
  {
    var h := g[Idx(x, y) := c];
    if n == 0 {
      assert WellFormed(h);
    } else {
      FlipUpToFacts(g, x, y, c, mask, n - 1);
      var prev := FlipUpTo(h, x, y, c, mask, n - 1);
      if mask & Flag(n - 1) != 0 {
        FlipDirFacts(prev, x, y, n - 1, c);
        FlipUpToRun(g, x, y, c, mask, n - 1, n - 1);
        OnlyCapturesTrans(h, prev, FlipDir(prev, x, y, n - 1, c), c);
      }
    }
  }

  /**
   * Placing a disc of c on the empty square (x, y) and flipping the runs in
   * mask: the square becomes c, every other change turns an opponent disc
   * into a disc of c, and c gains one disc plus the flipped ones, which the
   * opponent loses.
   */
  lemma FlipGridFacts(g: seq<int>, x: int, y: int, c: int, mask: bv8)
    requires WellFormed(g) && Interior(x, y) && IsColor(c) && g[Idx(x, y)] == EMPTY
    ensures var r := FlipGrid(g, x, y, c, mask); var m := StaticCount(g, x, y, c, mask, 8);
            WellFormed(r) && r[Idx(x, y)] == c &&
            (forall p :: 0 <= p < 100 && p != Idx(x, y) ==> r[p] == g[p] || (g[p] == -c && r[p] == c)) &&
            Count(r, c) == Count(g, c) + 1 + m && Count(r, -c) == Count(g, -c) - m &&
            Count(r, EMPTY) == Count(g, EMPTY) - 1
  {
    ColorNegation(c);
    FlipUpToFacts(g, x, y, c, mask, 8);
    CountUpdate(g, Idx(x, y), c, c);
    CountUpdate(g, Idx(x, y), c, -c);
    CountUpdate(g, Idx(x, y), c, EMPTY);
  }

  lemma {:induction false} StaticCountCovers(g: seq<int>, x: int, y: int, c: int, mask: bv8, n: int, j: int)
    requires |g| == 100 && 0 <= j < n <= 8 && mask & Flag(j) != 0
    ensures StaticCount(g, x, y, c, mask, n) >= RunLen(g, x, y, j, c)
  {
    if j < n - 1 {
      StaticCountCovers(g, x, y, c, mask, n - 1, j);
    }
  }

  lemma FlipUpToNext(h: seq<int>, x: int, y: int, c: int, mask: bv8, k: int)
    requires |h| == 100 && 0 <= k < 8
    ensures FlipUpTo(h, x, y, c, mask, k + 1) ==
            if mask & Flag(k) != 0 then FlipDir(FlipUpTo(h, x, y, c, mask, k), x, y, k, c)
            else FlipUpTo(h, x, y, c, mask, k)
  {
  }

  lemma StaticCountNext(g: seq<int>, x: int, y: int, c: int, mask: bv8, k: int)
    requires |g| == 100 && 0 <= k < 8
    ensures StaticCount(g, x, y, c, mask, k + 1) ==
            StaticCount(g, x, y, c, mask, k) + if mask & Flag(k) != 0 then RunLen(g, x, y, k, c) else 0
  {
  }

  /** A legal move captures at least one disc. */
  lemma LegalMoveCaptures(g: seq<int>, x: int, y: int, c: int)
    requires |g| == 100 && InGrid(x, y) && Mobility(g, x, y, c) != 0
    ensures FlipCount(g, x, y, c) >= 1
  {
    MobilityBits(g, x, y, c, 0);
    var j :| 0 <= j < 8 && Captures(g, x, y, j, c);
    MobilityBits(g, x, y, c, j);
    StaticCountCovers(g, x, y, c, Mobility(g, x, y, c), 8, j);
  }
}
