/**
 * The board object: a 10x10 grid with a wall ring, the turn counter, the
 * colour to move and three cached tables (legal squares, capture directions
 * and capture counts) for that colour.  Every method is proved to compute the
 * functions of the Rules, Flips and Moves modules.
 */
module Engine {
  import opened Constants
  import opened Grid
  import opened Rules
  import opened Flips
  import opened Moves

  /** One more step along direction k adds the step of k to the current square. */
  lemma RayNext(x: int, y: int, k: int, i: int)
    requires 0 <= k < 8
    ensures Ray(x, y, k, i + 1).0 == Ray(x, y, k, i).0 + Dir(k).0
    ensures Ray(x, y, k, i + 1).1 == Ray(x, y, k, i).1 + Dir(k).1
  {
  }

  /** From an interior square, at most seven steps in one direction stay inside the playable area. */
  lemma RayStaysShort(x: int, y: int, k: int, i: int)
    requires Interior(x, y) && 0 <= k < 8 && i >= 0 && Interior(Ray(x, y, k, i).0, Ray(x, y, k, i).1)
    ensures i <= 7
  {
  }

  /**
   * A walk along direction k from the interior square (x, y) of a
   * well-formed grid, over discs of the opponent of c, that has taken n steps
   * over such discs and stands on (qx, qy), the next square.
   */
  ghost predicate WalkAt(g: seq<int>, x: int, y: int, k: int, c: int, n: int, qx: int, qy: int) {
    WellFormed(g) && Interior(x, y) && 0 <= k < 8 && IsColor(c) &&
    0 <= n <= RunLen(g, x, y, k, c) && qx == Ray(x, y, k, n + 1).0 && qy == Ray(x, y, k, n + 1).1 &&
    InGrid(qx, qy)
  }

  /** A walk starts on the neighbour of (x, y) with nothing painted. */
  lemma WalkStart(g: seq<int>, x: int, y: int, k: int, c: int)
    requires WellFormed(g) && Interior(x, y) && 0 <= k < 8 && IsColor(c)
    ensures WalkAt(g, x, y, k, c, 0, x + Dir(k).0, y + Dir(k).1)
    ensures FlipPrefix(g, x, y, k, c, 0) == g
  {
  }

  /** The square a walk stands on has not been painted yet. */
  lemma WalkAhead(g: seq<int>, x: int, y: int, k: int, c: int, n: int, qx: int, qy: int)
    requires WalkAt(g, x, y, k, c, n, qx, qy)
    ensures FlipPrefix(g, x, y, k, c, n)[Idx(qx, qy)] == g[Idx(qx, qy)]
  {
    FlipPrefixStep(g, x, y, k, c, n + 1);
  }

  /** Painting the square a walk stands on extends its trail by one step. */
  lemma WalkPaint(g: seq<int>, x: int, y: int, k: int, c: int, n: int, qx: int, qy: int)
    requires WalkAt(g, x, y, k, c, n, qx, qy)
    ensures FlipPrefix(g, x, y, k, c, n + 1) == FlipPrefix(g, x, y, k, c, n)[Idx(qx, qy) := c]
  {
    FlipPrefixStep(g, x, y, k, c, n + 1);
  }

  /**
   * A walk standing on an opponent disc steps on: that disc belongs to the
   * run and the next square is on the grid.
   */
  lemma WalkStep(g: seq<int>, x: int, y: int, k: int, c: int, n: int, qx: int, qy: int)
    requires WalkAt(g, x, y, k, c, n, qx, qy) && g[Idx(qx, qy)] == -c
    ensures WalkAt(g, x, y, k, c, n + 1, qx + Dir(k).0, qy + Dir(k).1)
  {
    ColorNegation(c);
    ColorCellIsInterior(g, qx, qy);
    RayStaysShort(x, y, k, n + 1);
    assert n + 1 < 10;
    RunSplit(g, x, y, k, c, n + 1);
    assert RunFrom(g, x, y, k, c, n + 1) == 1 + RunFrom(g, x, y, k, c, n + 2);
    assert n + 1 <= RunLen(g, x, y, k, c);
    RayNext(x, y, k, n + 1);
    assert InGrid(qx + Dir(k).0, qy + Dir(k).1);
  }

  /** Every step of a run, and the step just after it, is a point a walk reaches. */
  lemma {:induction false} WalkReach(g: seq<int>, x: int, y: int, k: int, c: int, n: int)
    requires WellFormed(g) && Interior(x, y) && 0 <= k < 8 && IsColor(c) && 0 <= n <= RunLen(g, x, y, k, c)
    ensures WalkAt(g, x, y, k, c, n, Ray(x, y, k, n + 1).0, Ray(x, y, k, n + 1).1)
    decreases n
  {
    if n == 0 {
      WalkStart(g, x, y, k, c);
    } else {
      WalkReach(g, x, y, k, c, n - 1);
      RunCells(g, x, y, k, c, 1, n);
      WalkStep(g, x, y, k, c, n - 1, Ray(x, y, k, n).0, Ray(x, y, k, n).1);
    }
  }

  /** Inside the run, the i-th point of a walk holds an unpainted opponent disc, and painting it is the next step of the trail. */
  lemma WalkInside(g: seq<int>, x: int, y: int, k: int, c: int, i: int)
    requires |g| == 100 && 0 <= k < 8 && 0 <= i < RunLen(g, x, y, k, c)
    ensures var q := Ray(x, y, k, i + 1);
      InGrid(q.0, q.1) && g[Idx(q.0, q.1)] == -c && FlipPrefix(g, x, y, k, c, i)[Idx(q.0, q.1)] == g[Idx(q.0, q.1)] &&
      Ray(x, y, k, i + 2).0 == q.0 + Dir(k).0 && Ray(x, y, k, i + 2).1 == q.1 + Dir(k).1 &&
      FlipPrefix(g, x, y, k, c, i + 1) == FlipPrefix(g, x, y, k, c, i)[Idx(q.0, q.1) := c]
  {
    RunCells(g, x, y, k, c, 1, i + 1);
    FlipPrefixStep(g, x, y, k, c, i + 1);
    RayNext(x, y, k, i + 1);
  }

  /** The stop just after the run: on the grid, unpainted, not an opponent disc, and its cells are the flipped direction. */
  lemma WalkLast(g: seq<int>, x: int, y: int, k: int, c: int) returns (h: Stop)
    requires WellFormed(g) && Interior(x, y) && 0 <= k < 8 && IsColor(c)
    ensures var r := RunLen(g, x, y, k, c);
      h == Stop(Ray(x, y, k, r + 1).0, Ray(x, y, k, r + 1).1, FlipPrefix(g, x, y, k, c, r))
    ensures InGrid(h.qx, h.qy) && g[Idx(h.qx, h.qy)] != -c && h.cells[Idx(h.qx, h.qy)] == g[Idx(h.qx, h.qy)] &&
      h.cells == FlipDir(g, x, y, k, c)
  {
    var r := RunLen(g, x, y, k, c);
    var qx, qy := Ray(x, y, k, r + 1).0, Ray(x, y, k, r + 1).1;
    WalkReach(g, x, y, k, c, r);
    RayInGridShort(x, y, k, r + 1);
    RunSplit(g, x, y, k, c, r + 1);
    assert RunFrom(g, x, y, k, c, r + 1) == 0;
    WalkAhead(g, x, y, k, c, r, qx, qy);
    WalkEnd(g, x, y, k, c, r, qx, qy);
    h := Stop(qx, qy, FlipPrefix(g, x, y, k, c, r));
  }

  /** From an interior square, at most eight steps in one direction stay on the grid. */
  lemma RayInGridShort(x: int, y: int, k: int, i: int)
    requires Interior(x, y) && 0 <= k < 8 && i >= 0 && InGrid(Ray(x, y, k, i).0, Ray(x, y, k, i).1)
    ensures i <= 8
  {
  }

  /** A square a walk stands on, with the cells as they are when it gets there. */
  datatype Stop = Stop(qx: int, qy: int, cells: seq<int>)

  /**
   * The stops of a walk over g by (dx, dy) for colour c: each stop is on the
   * grid and not yet painted; every stop but the last holds an opponent disc
   * and leads to the next square with that disc painted; the last stop holds
   * something else and its cells are last.
   */
  ghost predicate Walkable(ps: seq<Stop>, g: seq<int>, c: int, dx: int, dy: int, last: seq<int>)
    decreases |ps|
  {
    |ps| >= 1 && InGrid(ps[0].qx, ps[0].qy) && |ps[0].cells| == 100 && |g| == 100 &&
    ps[0].cells[Idx(ps[0].qx, ps[0].qy)] == g[Idx(ps[0].qx, ps[0].qy)] &&
    if |ps| == 1 then g[Idx(ps[0].qx, ps[0].qy)] != -c && ps[0].cells == last
    else
      g[Idx(ps[0].qx, ps[0].qy)] == -c &&
      ps[1] == Stop(ps[0].qx + dx, ps[0].qy + dy, ps[0].cells[Idx(ps[0].qx, ps[0].qy) := c]) &&
      Walkable(ps[1..], g, c, dx, dy, last)
  }

  /** A walk of one stop: the square ends the run. */
  lemma WalkableOne(h: Stop, g: seq<int>, c: int, dx: int, dy: int, last: seq<int>)
    requires InGrid(h.qx, h.qy) && |h.cells| == 100 && |g| == 100
    requires h.cells[Idx(h.qx, h.qy)] == g[Idx(h.qx, h.qy)] && g[Idx(h.qx, h.qy)] != -c && h.cells == last
    ensures Walkable([h], g, c, dx, dy, last)
  {
  }

  /** A walk grows at its front by a stop on an opponent disc that leads to its first stop. */
  lemma WalkableCons(h: Stop, rest: seq<Stop>, g: seq<int>, c: int, dx: int, dy: int, last: seq<int>)
    requires InGrid(h.qx, h.qy) && |h.cells| == 100 && |g| == 100
    requires h.cells[Idx(h.qx, h.qy)] == g[Idx(h.qx, h.qy)] && g[Idx(h.qx, h.qy)] == -c
    requires Walkable(rest, g, c, dx, dy, last)
    requires rest[0] == Stop(h.qx + dx, h.qy + dy, h.cells[Idx(h.qx, h.qy) := c])
    ensures Walkable([h] + rest, g, c, dx, dy, last)
  {
    assert ([h] + rest)[1..] == rest;
  }

  /** The last stop of a direction block's walk, on the square that ends the run. */
  lemma PlanLast(g: seq<int>, x: int, y: int, k: int, c: int) returns (ps: seq<Stop>)
    requires WellFormed(g) && Interior(x, y) && 0 <= k < 8 && IsColor(c)
    ensures var r := RunLen(g, x, y, k, c);
      |ps| == 1 && ps[0] == Stop(Ray(x, y, k, r + 1).0, Ray(x, y, k, r + 1).1, FlipPrefix(g, x, y, k, c, r)) &&
      Walkable(ps, g, c, Dir(k).0, Dir(k).1, FlipDir(g, x, y, k, c))
  {
    var here := WalkLast(g, x, y, k, c);
    WalkableOne(here, g, c, Dir(k).0, Dir(k).1, FlipDir(g, x, y, k, c));
    ps := [here];
  }

  /** The walk from step n of the run, for a step n inside the run: this stop, then the walk from step n + 1. */
  lemma {:induction false} PlanCons(g: seq<int>, x: int, y: int, k: int, c: int, n: int) returns (ps: seq<Stop>)
    requires WellFormed(g) && Interior(x, y) && 0 <= k < 8 && IsColor(c) && 0 <= n < RunLen(g, x, y, k, c)
    ensures |ps| == RunLen(g, x, y, k, c) - n + 1
    ensures ps[0] == Stop(Ray(x, y, k, n + 1).0, Ray(x, y, k, n + 1).1, FlipPrefix(g, x, y, k, c, n))
    ensures Walkable(ps, g, c, Dir(k).0, Dir(k).1, FlipDir(g, x, y, k, c))
    decreases RunLen(g, x, y, k, c) - n, 0
  {
    var q := Ray(x, y, k, n + 1);
    var here := Stop(q.0, q.1, FlipPrefix(g, x, y, k, c, n));
    var rest := WalkPlan(g, x, y, k, c, n + 1);
    WalkInside(g, x, y, k, c, n);
    WalkableCons(here, rest, g, c, Dir(k).0, Dir(k).1, FlipDir(g, x, y, k, c));
    ps := [here] + rest;
  }

  /** The walk of one direction block from its n-th step on, laid out in advance. */
  lemma {:induction false} WalkPlan(g: seq<int>, x: int, y: int, k: int, c: int, n: int) returns (ps: seq<Stop>)
    requires WellFormed(g) && Interior(x, y) && 0 <= k < 8 && IsColor(c) && 0 <= n <= RunLen(g, x, y, k, c)
    ensures |ps| == RunLen(g, x, y, k, c) - n + 1
    ensures ps[0] == Stop(Ray(x, y, k, n + 1).0, Ray(x, y, k, n + 1).1, FlipPrefix(g, x, y, k, c, n))
    ensures Walkable(ps, g, c, Dir(k).0, Dir(k).1, FlipDir(g, x, y, k, c))
    decreases RunLen(g, x, y, k, c) - n, 1
  {
    if n == RunLen(g, x, y, k, c) {
      ps := PlanLast(g, x, y, k, c);
    } else {
      ps := PlanCons(g, x, y, k, c, n);
    }
  }

  /** The run from step 1 is n steps plus the run from step n + 1, while the first n steps are in the run. */
  lemma {:induction false} RunSplit(g: seq<int>, x: int, y: int, k: int, c: int, i: int)
    requires |g| == 100 && 0 <= k < 8 && 1 <= i <= RunLen(g, x, y, k, c) + 1
    ensures RunLen(g, x, y, k, c) == (i - 1) + RunFrom(g, x, y, k, c, i)
    decreases i
  {
    if i > 1 {
      RunSplit(g, x, y, k, c, i - 1);
      RunCells(g, x, y, k, c, 1, i - 1);
    }
  }

  /**
   * A walk ends on a square without an opponent disc: it has counted the
   * whole run, its trail is the flipped direction, and the direction flanks
   * exactly when the run is non-empty and the square holds c.
   */
  lemma WalkEnd(g: seq<int>, x: int, y: int, k: int, c: int, n: int, qx: int, qy: int)
    requires WalkAt(g, x, y, k, c, n, qx, qy) && g[Idx(qx, qy)] != -c
    ensures n == RunLen(g, x, y, k, c)
    ensures FlipPrefix(g, x, y, k, c, n) == FlipDir(g, x, y, k, c)
    ensures Captures(g, x, y, k, c) <==> n >= 1 && g[Idx(qx, qy)] == c
  {
    RunSplit(g, x, y, k, c, n + 1);
    assert RunFrom(g, x, y, k, c, n + 1) == 0;
    assert n == RunLen(g, x, y, k, c);
  }

  /** Cells in [n, m) that hold the wall do not change a tally of a colour. */
  lemma {:induction false} CountSkipsWalls(s: seq<int>, v: int, n: int, m: int)
    requires 0 <= n <= m <= |s| && v != WALL
    requires forall p :: n <= p < m ==> s[p] == WALL
    ensures CountUpTo(s, v, m) == CountUpTo(s, v, n)
    decreases m - n
  {
    if n < m {
      CountSkipsWalls(s, v, n, m - 1);
    }
  }

  /**
   * Wall cells in [lo, hi) carry the empty table entries; dir0 is a direction
   * table that is NONE on every wall cell.
   */
  lemma BorderEntries(g: seq<int>, c: int, dir0: seq<bv8>, lo: int, hi: int)
    requires |g| == 100 && |dir0| == 100 && 0 <= lo <= hi <= 100
    requires forall p :: 0 <= p < 100 && !Interior(p / 10, p % 10) ==> dir0[p] == NONE
    requires forall p :: lo <= p < hi ==> !Interior(p / 10, p % 10)
    ensures forall p :: lo <= p < hi ==>
      !PosTable(g, c)[p] && DirTable(g, c)[p] == dir0[p] == NONE && CntTable(g, c)[p] == 0
  {
    forall p | lo <= p < hi
      ensures !PosTable(g, c)[p] && DirTable(g, c)[p] == dir0[p] == NONE && CntTable(g, c)[p] == 0
    {
      TablesUpToAt(g, c, 100, p);
    }
  }

  class Board {
    var board: array<int>
    var turn: int
    var currentColor: int
    var movablePos: array<bool>
    var movableDir: array<bv8>
    var movableCnt: array<int>

    /** The four arrays are separate objects. */
    predicate Distinct()
      reads this
    {
      board as object != movablePos && board as object != movableDir && board != movableCnt &&
      movablePos as object != movableDir && movablePos as object != movableCnt &&
      movableDir as object != movableCnt
    }

    /** Arrays of 100 cells, a well-formed grid and a colour to move. */
    ghost predicate Sized()
      reads this, board
    {
      board.Length == 100 && movablePos.Length == 100 && movableDir.Length == 100 &&
      movableCnt.Length == 100 && Distinct() &&
      WellFormed(board[..]) && IsColor(currentColor)
    }

    /** The grid invariant, without the tables: no direction is recorded for a wall cell. */
    ghost predicate Shape()
      reads this, board, movableDir
    {
      Sized() &&
      forall p :: 0 <= p < 100 && !Interior(p / 10, p % 10) ==> movableDir[p] == NONE
    }

    /** The grid invariant, with the three tables up to date for the colour to move. */
    ghost predicate Valid()
      reads this, board, movablePos, movableDir, movableCnt
    {
      Shape() &&
      movablePos[..] == PosTable(board[..], currentColor) &&
      movableDir[..] == DirTable(board[..], currentColor) &&
      movableCnt[..] == CntTable(board[..], currentColor)
    }

    ghost function State(): Game
      reads this, board
    {
      Game(board[..], turn, currentColor)
    }

    /** A fresh grid laid out as a new game starts: the wall ring and the four centre discs. */
    static method OpeningGrid() returns (b: array<int>)
      ensures fresh(b) && b[..] == InitialGrid() && WellFormed(b[..])
    {
      b := new int[100](p => EMPTY);
      forall y | 0 <= y < 10 {
        b[Idx(0, y)] := WALL;
      }
      forall x | 0 <= x < 10 {
        b[Idx(x, 0)] := WALL;
      }
      forall y | 0 <= y < 10 {
        b[Idx(9, y)] := WALL;
      }
      forall x | 0 <= x < 10 {
        b[Idx(x, 9)] := WALL;
      }
      assert forall x, y :: InGrid(x, y) ==> b[Idx(x, y)] == if Interior(x, y) then EMPTY else WALL;
      b[Idx(4, 4)] := WHITE;
      b[Idx(5, 5)] := WHITE;
      b[Idx(4, 5)] := BLACK;
      b[Idx(5, 4)] := BLACK;
      assert forall x, y :: InGrid(x, y) ==> b[Idx(x, y)] == InitialCell(x, y);
      forall p | 0 <= p < 100 ensures b[p] == InitialGrid()[p] {
        DivModIdx(p);
      }
      assert b[..] == InitialGrid();
      InitialGridShape();
    }

    /**
     * A new game: the wall ring, two discs of each colour on the centre
     * diagonals, turn 0, and startColor (drawn at random by the caller) to move.
     */
    constructor New(startColor: int)
      requires IsColor(startColor)
      ensures Valid() && State() == Game(InitialGrid(), 0, startColor)
      ensures fresh(board) && fresh(movablePos) && fresh(movableDir) && fresh(movableCnt)
    {
      var b := OpeningGrid();
      board := b;
      turn := 0;
      currentColor := startColor;
      movablePos := new bool[100](p => false);
      movableDir := new bv8[100](p => NONE);
      movableCnt := new int[100](p => 0);
      new;
      InitMovable();
    }

    /** A game restored from its snapshot: the signed bytes of the grid, the turn counter and the colour to move. */
    constructor FromSnapshot(savedTurn: int, color: int, bytes: seq<Byte>)
      requires WellFormed(DecodeGrid(bytes)) && IsColor(color)
      ensures Valid() && State() == Game(DecodeGrid(bytes), savedTurn, color)
      ensures fresh(board) && fresh(movablePos) && fresh(movableDir) && fresh(movableCnt)
    {
      var g := DecodeGrid(bytes);
      board := new int[100](p requires 0 <= p < 100 => g[p]);
      turn := savedTurn;
      currentColor := color;
      movablePos := new bool[100](p => false);
      movableDir := new bv8[100](p => NONE);
      movableCnt := new int[100](p => 0);
      new;
      assert board[..] == g;
      InitMovable();
    }

    /** A deep copy: fresh arrays holding the same grid and tables. */
    constructor Copy(other: Board)
      requires other.Valid()
      ensures Valid() && State() == other.State()
      ensures fresh(board) && fresh(movablePos) && fresh(movableDir) && fresh(movableCnt)
    {
      var g, pos, dir, cnt := other.board[..], other.movablePos[..], other.movableDir[..], other.movableCnt[..];
      board := new int[100](p requires 0 <= p < 100 => g[p]);
      turn := other.turn;
      currentColor := other.currentColor;
      movablePos := new bool[100](p requires 0 <= p < 100 => pos[p]);
      movableDir := new bv8[100](p requires 0 <= p < 100 => dir[p]);
      movableCnt := new int[100](p requires 0 <= p < 100 => cnt[p]);
      new;
      assert board[..] == g && movablePos[..] == pos && movableDir[..] == dir && movableCnt[..] == cnt;
    }

    /** Whether direction k from (x, y) flanks a run of opponent discs with a disc of color. */
    method ScanDirection(x: int, y: int, k: int, color: int) returns (flanks: bool)
      requires board.Length == 100 && WellFormed(board[..])
      requires Interior(x, y) && 0 <= k < 8 && IsColor(color)
      ensures flanks == Captures(board[..], x, y, k, color)
    {
      ghost var g := board[..];
      var d := Dir(k);
      var qx, qy := x + d.0, y + d.1;
      WalkStart(g, x, y, k, color);
      if board[Idx(qx, qy)] != -color {
        WalkEnd(g, x, y, k, color, 0, qx, qy);
        return false;
      }
      WalkStep(g, x, y, k, color, 0, qx, qy);
      qx, qy := qx + d.0, qy + d.1;
      ghost var n := 1;
      while board[Idx(qx, qy)] == -color
        invariant 0 <= n <= RunLen(g, x, y, k, color)
        invariant qx == Ray(x, y, k, n + 1).0 && qy == Ray(x, y, k, n + 1).1 && InGrid(qx, qy)
        decreases RunLen(g, x, y, k, color) - n
      {
        WalkStep(g, x, y, k, color, n, qx, qy);
        qx, qy := qx + d.0, qy + d.1;
        n := n + 1;
      }
      WalkEnd(g, x, y, k, color, n, qx, qy);
      flanks := board[Idx(qx, qy)] == color;
    }

    /** The capture-direction set of (x, y) for color, one bit per flanking direction. */
    method CheckMobility(x: int, y: int, color: int) returns (dir: bv8)
      requires board.Length == 100 && WellFormed(board[..])
      requires Interior(x, y) && IsColor(color)
      ensures dir == Mobility(board[..], x, y, color)
    {
      dir := NONE;
      if board[Idx(x, y)] != EMPTY {
        return;
      }
      for k := 0 to 8
        invariant dir == Mask(board[..], x, y, color, k)
      {
        var flanks := ScanDirection(x, y, k, color);
        if flanks {
          dir := dir | Flag(k);
        }
      }
    }

    /**
     * Walks direction k from (x, y) over the opponent's discs of the colour to
     * move, counting them and, when flip is set, turning them over.
     */
    method FlipDirection(x: int, y: int, k: int, flip: bool) returns (n: int)
      requires board.Length == 100 && WellFormed(board[..]) && IsColor(currentColor)
      requires Interior(x, y) && 0 <= k < 8
      modifies board
      ensures n == RunLen(old(board[..]), x, y, k, currentColor)
      ensures board[..] == if flip then FlipDir(old(board[..]), x, y, k, currentColor) else old(board[..])
    {
      var a, c := board, currentColor;
      ghost var g := a[..];
      var d := Dir(k);
      var qx, qy := x + d.0, y + d.1;
      n := 0;
      ghost var rest := WalkPlan(g, x, y, k, c, 0);
      ghost var total := RunLen(g, x, y, k, c);
      while a[Idx(qx, qy)] == -c
        invariant Walkable(rest, g, c, d.0, d.1, FlipDir(g, x, y, k, c))
        invariant rest[0].qx == qx && rest[0].qy == qy && n + |rest| == total + 1
        invariant flip ==> a[..] == rest[0].cells
        invariant !flip ==> a[..] == g
        decreases |rest|
      {
        if flip {
          a[Idx(qx, qy)] := c;
        }
        n := n + 1;
        qx, qy := qx + d.0, qy + d.1;
        rest := rest[1..];
      }
    }

    /**
     * Counts the discs a move of the colour to move at (x, y) captures along
     * the directions stored for that square and, when flip is set, places the
     * disc and turns the captured discs over, direction by direction.
     */
    method FlipDiscs(x: int, y: int, flip: bool) returns (count: int)
      requires board.Length == 100 && WellFormed(board[..]) && IsColor(currentColor)
      requires movableDir.Length == 100 && Interior(x, y)
      modifies board
      ensures count == StaticCount(old(board[..]), x, y, currentColor, old(movableDir[Idx(x, y)]), 8)
      ensures board[..] == if flip then FlipGrid(old(board[..]), x, y, currentColor, old(movableDir[Idx(x, y)]))
                           else old(board[..])
    {
      ghost var g := board[..];
      var c := currentColor;
      var dir := movableDir[Idx(x, y)];
      ghost var h := g[Idx(x, y) := c];
      if flip {
        board[Idx(x, y)] := c;
      }
      count := 0;
      for k := 0 to 8
        invariant board.Length == 100
        invariant board[..] == if flip then FlipUpTo(h, x, y, c, dir, k) else g
        invariant count == StaticCount(g, x, y, c, dir, k)
      {
        FlipUpToNext(h, x, y, c, dir, k);
        StaticCountNext(g, x, y, c, dir, k);
        if dir & Flag(k) != 0 {
          assert WellFormed(board[..]) && RunLen(board[..], x, y, k, c) == RunLen(g, x, y, k, c) by {
            FlipUpToFacts(g, x, y, c, dir, k);
            FlipUpToRun(g, x, y, c, dir, k, k);
          }
          var n := FlipDirection(x, y, k, flip);
          count := count + n;
        }
      }
    }

    /**
     * One square of init_movable, on tables already cleared: the directions
     * it flanks in, whether it is a legal move and how many discs it would
     * turn, for the colour to move.
     */
    method MarkSquare(x: int, y: int)
      requires Sized() && Interior(x, y)
      requires !movablePos[Idx(x, y)] && movableCnt[Idx(x, y)] == 0
      modifies board, movablePos, movableDir, movableCnt
      ensures Sized() && board[..] == old(board[..])
      ensures var p, g, c := Idx(x, y), board[..], currentColor;
        |PosTable(g, c)| == 100 && |DirTable(g, c)| == 100 && |CntTable(g, c)| == 100 &&
        movablePos[..] == old(movablePos[..])[p := PosTable(g, c)[p]] &&
        movableDir[..] == old(movableDir[..])[p := DirTable(g, c)[p]] &&
        movableCnt[..] == old(movableCnt[..])[p := CntTable(g, c)[p]]
    {
      ghost var g := board[..];
      var d := CheckMobility(x, y, currentColor);
      movableDir[Idx(x, y)] := d;
      if d != NONE {
        var n := FlipDiscs(x, y, false);
        movablePos[Idx(x, y)] := true;
        movableCnt[Idx(x, y)] := n;
      }
      TablesAt(g, currentColor, x, y);
    }

    /**
     * The tables hold the entries for grid g and colour c at every cell
     * before q, and the cleared entries (with the old directions dir0) from q on.
     */
    ghost predicate Filled(g: seq<int>, c: int, dir0: seq<bv8>, q: int)
      reads this, movablePos, movableDir, movableCnt
    {
      |g| == 100 && |dir0| == 100 &&
      movablePos.Length == 100 && movableDir.Length == 100 && movableCnt.Length == 100 &&
      forall p :: 0 <= p < 100 ==>
        if p < q then movablePos[p] == PosTable(g, c)[p] && movableDir[p] == DirTable(g, c)[p] && movableCnt[p] == CntTable(g, c)[p]
        else !movablePos[p] && movableCnt[p] == 0 && movableDir[p] == dir0[p]
    }

    /** One column of init_movable, with the wall cells that follow it. */
    method MarkColumn(ghost g: seq<int>, ghost dir0: seq<bv8>, x: int)
      requires Sized() && board[..] == g && 1 <= x <= BOARD_SIZE && Filled(g, currentColor, dir0, Idx(x, 1))
      requires forall p :: 0 <= p < 100 && !Interior(p / 10, p % 10) ==> dir0[p] == NONE
      modifies board, movablePos, movableDir, movableCnt
      ensures Sized() && board[..] == g && Filled(g, currentColor, dir0, Idx(x + 1, 1))
    {
      for y := 1 to BOARD_SIZE + 1
        invariant Sized() && board[..] == g && Filled(g, currentColor, dir0, Idx(x, y))
      {
        MarkSquare(x, y);
      }
      BorderEntries(g, currentColor, dir0, Idx(x, 9), Idx(x + 1, 1));
    }

    /** Recomputes the three tables for the colour to move. */
    method InitMovable()
      requires Shape()
      modifies board, movablePos, movableDir, movableCnt
      ensures Valid() && board[..] == old(board[..])
    {
      ghost var g, c, dir0 := board[..], currentColor, movableDir[..];
      forall p | 0 <= p < 100 {
        movablePos[p] := false;
      }
      forall p | 0 <= p < 100 {
        movableCnt[p] := 0;
      }
      BorderEntries(g, c, dir0, 0, Idx(1, 1));
      for x := 1 to BOARD_SIZE + 1
        invariant Sized() && board[..] == g && Filled(g, c, dir0, Idx(x, 1))
      {
        MarkColumn(g, dir0, x);
      }
      BorderEntries(g, c, dir0, Idx(9, 1), 100);
      forall p | 0 <= p < 100 && !Interior(p / 10, p % 10) ensures movableDir[p] == NONE {
        TablesUpToAt(g, c, 100, p);
      }
    }

    /** Whether the game is over: neither the colour to move nor the opponent has a legal move. */
    method IsEnd() returns (ended: bool)
      requires Valid()
      ensures ended == IsOver(board[..], currentColor)
    {
      ghost var g := board[..];
      assert AnyTrue(movablePos[..]) <==> AnyMovable(g, currentColor) by {
        AnyPosTable(g, currentColor);
      }
      if AnyTrue(movablePos[..]) {
        return false;
      }
      ColorNegation(currentColor);
      ended := NoMoveFor(-currentColor);
    }

    /** The scan of is_end for the opponent: true exactly when colour has no legal move. */
    method NoMoveFor(color: int) returns (none: bool)
      requires board.Length == 100 && WellFormed(board[..]) && IsColor(color)
      ensures none == !AnyMovable(board[..], color)
    {
      ghost var g := board[..];
      for x := 1 to BOARD_SIZE + 1
        invariant forall a, b :: 1 <= a < x && 1 <= b <= BOARD_SIZE ==> !PosAt(g, color, a, b)
      {
        for y := 1 to BOARD_SIZE + 1
          invariant forall a, b :: (1 <= a < x && 1 <= b <= BOARD_SIZE) || (a == x && 1 <= b < y) ==>
                      !PosAt(g, color, a, b)
        {
          var dir := CheckMobility(x, y, color);
          if dir != NONE {
            assert PosAt(g, color, x, y);
            return false;
          }
        }
      }
      return true;
    }

    /**
     * Plays (x, y) for the colour to move.  Rejected, with nothing changed,
     * off the playable area or on a square that is not a legal move;
     * otherwise the state becomes that of Put, tables included.
     */
    method PutDisc(x: int, y: int) returns (ok: bool)
      requires Valid()
      modifies this`turn, this`currentColor, board, movablePos, movableDir, movableCnt
      ensures Valid()
      ensures (ok, State()) == Put(old(State()), x, y)
      ensures !ok ==> unchanged(this, board)
    {
      if x < 1 || BOARD_SIZE < x {
        return false;
      }
      if y < 1 || BOARD_SIZE < y {
        return false;
      }
      TablesAt(board[..], currentColor, x, y);
      if !movablePos[Idx(x, y)] {
        return false;
      }
      Play(x, y);
      ok := true;
    }

    /** The accepted branch of put_disc: the disc goes down, the runs flip, the turn counter grows and the move passes on. */
    method Play(x: int, y: int)
      requires Valid() && Interior(x, y) && PosAt(board[..], currentColor, x, y)
      modifies this`turn, this`currentColor, board, movablePos, movableDir, movableCnt
      ensures Valid() && Put(old(State()), x, y) == (true, State())
    {
      ghost var s := State();
      ghost var g := Placed(s, x, y);
      TablesAt(s.grid, s.color, x, y);
      var _ := FlipDiscs(x, y, true);
      assert board[..] == g;
      turn := turn + 1;
      currentColor := -currentColor;
      InitMovable();
      PassIfStuck();
      assert State() == Advance(s, g);
      PutAccepted(s, x, y);
    }

    /**
     * The end of put_disc: when the colour to move has no legal move and the
     * game is not over, the move goes back to the other colour and the
     * tables are rebuilt for it.
     */
    method PassIfStuck()
      requires Valid()
      modifies this`currentColor, board, movablePos, movableDir, movableCnt
      ensures Valid() && board[..] == old(board[..])
      ensures currentColor == if !AnyMovable(board[..], old(currentColor)) && !IsOver(board[..], old(currentColor))
                              then -old(currentColor) else old(currentColor)
    {
      assert AnyTrue(movablePos[..]) <==> AnyMovable(board[..], currentColor) by {
        AnyPosTable(board[..], currentColor);
      }
      if !AnyTrue(movablePos[..]) {
        var ended := IsEnd();
        if !ended {
          currentColor := -currentColor;
          InitMovable();
        }
      }
    }

    /** Plays the first square of greatest capture count in scan order (the square (0, 0), rejected, when there is none). */
    method PutMaxPos()
      requires Valid()
      modifies this`turn, this`currentColor, board, movablePos, movableDir, movableCnt
      ensures Valid()
      ensures var p := ArgMax(old(movableCnt[..]));
              State() == Put(old(State()), p / 10, p % 10).1
    {
      var p := ArgMax(movableCnt[..]);
      var _ := PutDisc(p / 10, p % 10);
    }

    /** The numbers of black and white discs and the result they announce. */
    method JudgeWinner() returns (black: int, white: int, outcome: Outcome)
      requires Shape()
      ensures black == Count(board[..], BLACK) && white == Count(board[..], WHITE)
      ensures outcome == Winner(black, white)
    {
      ghost var g := board[..];
      black, white := 0, 0;
      WallCells(g, 0, Idx(1, 1));
      CountSkipsWalls(g, BLACK, 0, Idx(1, 1));
      CountSkipsWalls(g, WHITE, 0, Idx(1, 1));
      for x := 1 to BOARD_SIZE + 1
        invariant black == CountUpTo(g, BLACK, Idx(x, 1)) && white == CountUpTo(g, WHITE, Idx(x, 1))
      {
        for y := 1 to BOARD_SIZE + 1
          invariant black == CountUpTo(g, BLACK, Idx(x, y)) && white == CountUpTo(g, WHITE, Idx(x, y))
        {
          if board[Idx(x, y)] == BLACK {
            black := black + 1;
          } else if board[Idx(x, y)] == WHITE {
            white := white + 1;
          }
        }
        WallCells(g, Idx(x, 9), Idx(x + 1, 1));
        CountSkipsWalls(g, BLACK, Idx(x, 9), Idx(x + 1, 1));
        CountSkipsWalls(g, WHITE, Idx(x, 9), Idx(x + 1, 1));
      }
      WallCells(g, Idx(9, 1), 100);
      CountSkipsWalls(g, BLACK, Idx(9, 1), 100);
      CountSkipsWalls(g, WHITE, Idx(9, 1), 100);
      outcome := Winner(black, white);
    }

    /** The snapshot of the grid: one signed byte per cell, from which the grid is recovered exactly. */
    function ToBytes(): (bytes: seq<Byte>)
      requires Shape()
      reads this, board, movableDir
      ensures |bytes| == 100 && DecodeGrid(bytes) == board[..]
    {
      WellFormedFitsBytes(board[..]);
      DecodeEncode(board[..]);
      EncodeGrid(board[..])
    }
  }
}
