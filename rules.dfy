/**
 * The rules of the board engine as functions of a grid: directional scans,
 * the capture-direction set of a square, flipping, and the effect of a move.
 * The class in the Engine module is proved to compute exactly these.
 */
module Rules {
  import opened Constants
  import opened Grid

  /**
   * The step of direction k as (dx, dy), in the order the scans visit the
   * directions: left, upper left, upper, upper right, right, lower right,
   * lower, lower left.  x is the first (column) index, y the second (row).
   */
  function Dir(k: int): (d: (int, int))
    requires 0 <= k < 8
    ensures d != (0, 0) && -1 <= d.0 <= 1 && -1 <= d.1 <= 1
  {
    match k
    case 0 => (-1, 0)
    case 1 => (-1, -1)
    case 2 => (0, -1)
    case 3 => (1, -1)
    case 4 => (1, 0)
    case 5 => (1, 1)
    case 6 => (0, 1)
    case 7 => (-1, 1)
  }

  lemma DirsDistinct(j: int, k: int)
    requires 0 <= j < 8 && 0 <= k < 8 && j != k
    ensures Dir(j) != Dir(k)
  {
  }

  /** v moved i steps along a unit step d. */
  function Along(v: int, d: int, i: int): int {
    if d > 0 then v + i else if d < 0 then v - i else v
  }

  /** The cell i steps away from (x, y) in direction k. */
  function Ray(x: int, y: int, k: int, i: int): (int, int)
    requires 0 <= k < 8
  {
    (Along(x, Dir(k).0, i), Along(y, Dir(k).1, i))
  }

  /** Two different directions from one square never meet again. */
  lemma RaysDisjoint(x: int, y: int, j: int, k: int, a: int, b: int)
    requires 0 <= j < 8 && 0 <= k < 8 && j != k && a >= 1 && b >= 1
    ensures Ray(x, y, j, a) != Ray(x, y, k, b)
  {
    DirsDistinct(j, k);
  }

  /** Number of consecutive opponent (-c) discs met from step i on, in direction k. */
  function RunFrom(g: seq<int>, x: int, y: int, k: int, c: int, i: int): nat
    requires |g| == 100 && 0 <= k < 8 && i >= 1
    decreases 10 - i
  {
    var (qx, qy) := Ray(x, y, k, i);
    if i < 10 && InGrid(qx, qy) && g[Idx(qx, qy)] == -c then 1 + RunFrom(g, x, y, k, c, i + 1) else 0
  }

  /** Length of the run of opponent discs next to (x, y) in direction k. */
  function RunLen(g: seq<int>, x: int, y: int, k: int, c: int): nat
    requires |g| == 100 && 0 <= k < 8
  {
    RunFrom(g, x, y, k, c, 1)
  }

  /** Direction k flanks: a run of at least one opponent disc ends on a disc of colour c. */
  predicate Captures(g: seq<int>, x: int, y: int, k: int, c: int)
    requires |g| == 100 && 0 <= k < 8
  {
    var n := RunLen(g, x, y, k, c);
    var (ex, ey) := Ray(x, y, k, n + 1);
    n >= 1 && InGrid(ex, ey) && g[Idx(ex, ey)] == c
  }

  /** Every cell of a run is on the grid and holds an opponent disc. */
  lemma {:induction false} RunCells(g: seq<int>, x: int, y: int, k: int, c: int, i: int, j: int)
    requires |g| == 100 && 0 <= k < 8 && 1 <= i <= j < i + RunFrom(g, x, y, k, c, i)
    ensures j < 10 && InGrid(Ray(x, y, k, j).0, Ray(x, y, k, j).1)
    ensures g[Idx(Ray(x, y, k, j).0, Ray(x, y, k, j).1)] == -c
    decreases j - i
  {
    if j > i {
      RunCells(g, x, y, k, c, i + 1, j);
    }
  }

  /** A run is exactly as long as the opponent discs last: n of them followed by anything else. */
  lemma {:induction false} RunExact(g: seq<int>, x: int, y: int, k: int, c: int, i: int, n: nat)
    requires |g| == 100 && 0 <= k < 8 && i >= 1 && i + n <= 10
    requires forall j :: i <= j < i + n ==>
      InGrid(Ray(x, y, k, j).0, Ray(x, y, k, j).1) && g[Idx(Ray(x, y, k, j).0, Ray(x, y, k, j).1)] == -c
    requires var (ex, ey) := Ray(x, y, k, i + n); !InGrid(ex, ey) || g[Idx(ex, ey)] != -c
    ensures RunFrom(g, x, y, k, c, i) == n
    decreases n
  {
    if n > 0 {
      RunExact(g, x, y, k, c, i + 1, n - 1);
    }
  }

  /**
   * Captures holds exactly when some n >= 1 opponent discs follow (x, y) in
   * direction k and the cell after them holds colour c.
   */
  lemma CapturesIff(g: seq<int>, x: int, y: int, k: int, c: int, n: int)
    requires |g| == 100 && 0 <= k < 8 && 1 <= n <= 8 && IsColor(c)
    ensures (Captures(g, x, y, k, c) && RunLen(g, x, y, k, c) == n) <==>
      ((forall j :: 1 <= j <= n ==>
         InGrid(Ray(x, y, k, j).0, Ray(x, y, k, j).1) && g[Idx(Ray(x, y, k, j).0, Ray(x, y, k, j).1)] == -c) &&
       InGrid(Ray(x, y, k, n + 1).0, Ray(x, y, k, n + 1).1) &&
       g[Idx(Ray(x, y, k, n + 1).0, Ray(x, y, k, n + 1).1)] == c)
  {
    if Captures(g, x, y, k, c) && RunLen(g, x, y, k, c) == n {
      forall j | 1 <= j <= n
        ensures InGrid(Ray(x, y, k, j).0, Ray(x, y, k, j).1) && g[Idx(Ray(x, y, k, j).0, Ray(x, y, k, j).1)] == -c
      {
        RunCells(g, x, y, k, c, 1, j);
      }
    }
    if (forall j :: 1 <= j <= n ==>
         InGrid(Ray(x, y, k, j).0, Ray(x, y, k, j).1) && g[Idx(Ray(x, y, k, j).0, Ray(x, y, k, j).1)] == -c) &&
       InGrid(Ray(x, y, k, n + 1).0, Ray(x, y, k, n + 1).1) &&
       g[Idx(Ray(x, y, k, n + 1).0, Ray(x, y, k, n + 1).1)] == c
    {
      RunExact(g, x, y, k, c, 1, n);
    }
  }

  /** A run only depends on the cells of its own ray from step i on. */
  lemma {:induction false} RunFrame(g: seq<int>, h: seq<int>, x: int, y: int, k: int, c: int, i: int)
    requires |g| == 100 && |h| == 100 && 0 <= k < 8 && i >= 1
    requires forall j :: i <= j < 10 && InGrid(Ray(x, y, k, j).0, Ray(x, y, k, j).1) ==>
      g[Idx(Ray(x, y, k, j).0, Ray(x, y, k, j).1)] == h[Idx(Ray(x, y, k, j).0, Ray(x, y, k, j).1)]
    ensures RunFrom(g, x, y, k, c, i) == RunFrom(h, x, y, k, c, i)
    decreases 10 - i
  {
    if i < 10 {
      RunFrame(g, h, x, y, k, c, i + 1);
    }
  }

  /** The capture-direction set built from the first n directions. */
  function Mask(g: seq<int>, x: int, y: int, c: int, n: int): bv8
    requires |g| == 100 && 0 <= n <= 8
  {
    if n == 0 then NONE
    else Mask(g, x, y, c, n - 1) | (if Captures(g, x, y, n - 1, c) then Flag(n - 1) else NONE)
  }

  /** The capture-direction set of square (x, y) for a mover of colour c; empty on an occupied square. */
  function Mobility(g: seq<int>, x: int, y: int, c: int): bv8
    requires |g| == 100 && InGrid(x, y)
  {
    if g[Idx(x, y)] != EMPTY then NONE else Mask(g, x, y, c, 8)
  }

  lemma {:induction false} MaskBit(g: seq<int>, x: int, y: int, c: int, n: int, k: int)
    requires |g| == 100 && 0 <= n <= 8 && 0 <= k < 8
    ensures (Mask(g, x, y, c, n) & Flag(k) != 0) <==> (k < n && Captures(g, x, y, k, c))
  {
    if n > 0 {
      FlagsDisjoint(k, n - 1);
      MaskBit(g, x, y, c, n - 1, k);
    }
  }

  /** Some direction below n flanks. */
  predicate SomeCaptures(g: seq<int>, x: int, y: int, c: int, n: int)
    requires |g| == 100 && 0 <= n <= 8
  {
    n > 0 && (SomeCaptures(g, x, y, c, n - 1) || Captures(g, x, y, n - 1, c))
  }

  lemma {:induction false} SomeCapturesIff(g: seq<int>, x: int, y: int, c: int, n: int)
    requires |g| == 100 && 0 <= n <= 8
    ensures SomeCaptures(g, x, y, c, n) <==> exists k :: 0 <= k < n && Captures(g, x, y, k, c)
  {
    if n > 0 {
      SomeCapturesIff(g, x, y, c, n - 1);
      if Captures(g, x, y, n - 1, c) {
        assert 0 <= n - 1 < n && Captures(g, x, y, n - 1, c);
      } else if SomeCaptures(g, x, y, c, n - 1) {
        var k :| 0 <= k < n - 1 && Captures(g, x, y, k, c);
        assert 0 <= k < n && Captures(g, x, y, k, c);
      } else {
        forall k | 0 <= k < n ensures !Captures(g, x, y, k, c) {
          if k < n - 1 {
            assert !(0 <= k < n - 1 && Captures(g, x, y, k, c));
          }
        }
      }
    }
  }

  lemma {:induction false} MaskNonzero(g: seq<int>, x: int, y: int, c: int, n: int)
    requires |g| == 100 && 0 <= n <= 8
    ensures Mask(g, x, y, c, n) != 0 <==> SomeCaptures(g, x, y, c, n)
  {
    if n > 0 {
      MaskNonzero(g, x, y, c, n - 1);
      FlagsDisjoint(n - 1, n - 1);
    }
  }

  /**
   * Bit k of the capture-direction set is set exactly when the square is
   * empty and direction k flanks; the set is non-empty exactly when some
   * direction flanks.
   */
  lemma MobilityBits(g: seq<int>, x: int, y: int, c: int, k: int)
    requires |g| == 100 && InGrid(x, y) && 0 <= k < 8
    ensures (Mobility(g, x, y, c) & Flag(k) != 0) <==> (g[Idx(x, y)] == EMPTY && Captures(g, x, y, k, c))
    ensures Mobility(g, x, y, c) != 0 <==>
      (g[Idx(x, y)] == EMPTY && exists j :: 0 <= j < 8 && Captures(g, x, y, j, c))
  {
    MaskBit(g, x, y, c, 8, k);
    MaskNonzero(g, x, y, c, 8);
    SomeCapturesIff(g, x, y, c, 8);
  }

  /** (x, y) is a legal move for colour c. */
  predicate PosAt(g: seq<int>, c: int, x: int, y: int)
    requires |g| == 100
  {
    Interior(x, y) && Mobility(g, x, y, c) != 0
  }

  /** Colour c has a legal move somewhere. */
  predicate AnyMovable(g: seq<int>, c: int)
    requires |g| == 100
  {
    exists x, y :: 1 <= x <= BOARD_SIZE && 1 <= y <= BOARD_SIZE && PosAt(g, c, x, y)
  }

  /** The game is over when neither the mover c nor the opponent has a legal move. */
  predicate IsOver(g: seq<int>, c: int)
    requires |g| == 100
  {
    !AnyMovable(g, c) && !AnyMovable(g, -c)
  }
}
