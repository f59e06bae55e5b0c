/**
 * A game state and the effect of one move on it: validation, placing and
 * flipping, the turn counter, the switch of mover and the automatic pass.
 */
module Moves {
  import opened Constants
  import opened Grid
  import opened Rules
  import opened Flips

  /** The observable state of a board: the grid, the number of moves played and the colour to move. */
  datatype Game = Game(grid: seq<int>, turn: int, color: int)

  predicate ValidGame(s: Game) {
    WellFormed(s.grid) && IsColor(s.color)
  }

  /** The capture-direction table for mover c over the first n flat indices; zero outside the playable area. */
  function DirUpTo(g: seq<int>, c: int, n: int): (t: seq<bv8>)
    requires |g| == 100 && 0 <= n <= 100
    ensures |t| == n
  {
    if n == 0 then []
    else
      var x, y := (n - 1) / 10, (n - 1) % 10;
      DirUpTo(g, c, n - 1) + [if Interior(x, y) then Mobility(g, x, y, c) else NONE]
  }

  /** The legal-move table for mover c over the first n flat indices. */
  function PosUpTo(g: seq<int>, c: int, n: int): (t: seq<bool>)
    requires |g| == 100 && 0 <= n <= 100
    ensures |t| == n
  {
    if n == 0 then [] else PosUpTo(g, c, n - 1) + [PosAt(g, c, (n - 1) / 10, (n - 1) % 10)]
  }

  /** The capture-count table for mover c over the first n flat indices; zero on every square that is not a legal move. */
  function CntUpTo(g: seq<int>, c: int, n: int): (t: seq<int>)
    requires |g| == 100 && 0 <= n <= 100
    ensures |t| == n
  {
    if n == 0 then []
    else
      var x, y := (n - 1) / 10, (n - 1) % 10;
      CntUpTo(g, c, n - 1) + [if PosAt(g, c, x, y) then FlipCount(g, x, y, c) else 0]
  }

  function DirTable(g: seq<int>, c: int): (t: seq<bv8>)
    requires |g| == 100
  {
    DirUpTo(g, c, 100)
  }

  function PosTable(g: seq<int>, c: int): (t: seq<bool>)
    requires |g| == 100
  {
    PosUpTo(g, c, 100)
  }

  function CntTable(g: seq<int>, c: int): (t: seq<int>)
    requires |g| == 100
  {
    CntUpTo(g, c, 100)
  }

  /** Entry p of each table is the value for the square (p / 10, p % 10). */
  lemma {:induction false} TablesUpToAt(g: seq<int>, c: int, n: int, p: int)
    requires |g| == 100 && 0 <= p < n <= 100
    ensures DirUpTo(g, c, n)[p] == if Interior(p / 10, p % 10) then Mobility(g, p / 10, p % 10, c) else NONE
    ensures PosUpTo(g, c, n)[p] == PosAt(g, c, p / 10, p % 10)
    ensures CntUpTo(g, c, n)[p] == if PosAt(g, c, p / 10, p % 10) then FlipCount(g, p / 10, p % 10, c) else 0
    decreases n
  {
    if p < n - 1 {
      TablesUpToAt(g, c, n - 1, p);
    }
  }

  lemma TablesAt(g: seq<int>, c: int, x: int, y: int)
    requires |g| == 100 && InGrid(x, y)
    ensures |DirTable(g, c)| == 100 && |PosTable(g, c)| == 100 && |CntTable(g, c)| == 100
    ensures DirTable(g, c)[Idx(x, y)] == if Interior(x, y) then Mobility(g, x, y, c) else NONE
    ensures PosTable(g, c)[Idx(x, y)] == PosAt(g, c, x, y)
    ensures CntTable(g, c)[Idx(x, y)] == if PosAt(g, c, x, y) then FlipCount(g, x, y, c) else 0
  {
    IdxDivMod(x, y);
    TablesUpToAt(g, c, 100, Idx(x, y));
  }

  /**
   * The three tables agree: a square is legal exactly when its direction set
   * is non-empty, and exactly when its capture count is positive.
   */
  lemma TablesAgree(g: seq<int>, c: int, p: int)
    requires |g| == 100 && 0 <= p < 100
    ensures PosTable(g, c)[p] <==> DirTable(g, c)[p] != 0
    ensures PosTable(g, c)[p] <==> CntTable(g, c)[p] >= 1
  {
    DivModIdx(p);
    TablesUpToAt(g, c, 100, p);
    if PosTable(g, c)[p] {
      LegalMoveCaptures(g, p / 10, p % 10, c);
    }
  }

  /** Some entry of a boolean table is set. */
  predicate AnyTrue(s: seq<bool>) {
    exists i :: 0 <= i < |s| && s[i]
  }

  /** Number of set entries of a boolean table. */
  function CountTrue(s: seq<bool>): (n: nat)
    ensures n <= |s|
  {
    if s == [] then 0 else CountTrue(s[..|s| - 1]) + (if s[|s| - 1] then 1 else 0)
  }

  lemma {:induction false} CountTruePositive(s: seq<bool>)
    ensures CountTrue(s) > 0 <==> AnyTrue(s)
  {
    if s != [] {
      CountTruePositive(s[..|s| - 1]);
      assert forall i :: 0 <= i < |s| - 1 ==> s[..|s| - 1][i] == s[i];
    }
  }

  /** The legal-move table has a set entry exactly when the mover has a legal move. */
  lemma AnyPosTable(g: seq<int>, c: int)
    requires |g| == 100
    ensures AnyTrue(PosTable(g, c)) <==> AnyMovable(g, c)
  {
    if AnyMovable(g, c) {
      var x, y :| 1 <= x <= BOARD_SIZE && 1 <= y <= BOARD_SIZE && PosAt(g, c, x, y);
      TablesAt(g, c, x, y);
    }
    if AnyTrue(PosTable(g, c)) {
      var p :| 0 <= p < 100 && PosTable(g, c)[p];
      DivModIdx(p);
      TablesUpToAt(g, c, 100, p);
    }
  }

  /** The grid after the mover of s plays the legal square (x, y): the disc placed and every flanked run turned. */
  function Placed(s: Game, x: int, y: int): (g: seq<int>)
    requires ValidGame(s) && Interior(x, y) && PosAt(s.grid, s.color, x, y)
    ensures WellFormed(g)
  {
    var mask := Mobility(s.grid, x, y, s.color);
    FlipGridFacts(s.grid, x, y, s.color, mask);
    FlipGrid(s.grid, x, y, s.color, mask)
  }

  /**
   * The state after a move of s left grid g: the turn counter grows by one
   * and the opponent is to move, unless the opponent has no legal move while
   * the game is not over, in which case the same colour moves again.
   */
  function Advance(s: Game, g: seq<int>): Game
    requires |g| == 100
  {
    var opp := -s.color;
    if !AnyMovable(g, opp) && !IsOver(g, opp) then Game(g, s.turn + 1, s.color) else Game(g, s.turn + 1, opp)
  }

  /**
   * Playing (x, y) for the mover of s: rejected, with nothing changed, when
   * a coordinate is outside 1..8 or the square is not a legal move;
   * otherwise the placed grid and the advanced turn.
   */
  function Put(s: Game, x: int, y: int): (r: (bool, Game))
    requires ValidGame(s)
    ensures ValidGame(r.1)
  {
    if x < 1 || BOARD_SIZE < x then (false, s)
    else if y < 1 || BOARD_SIZE < y then (false, s)
    else if !PosAt(s.grid, s.color, x, y) then (false, s)
    else (true, Advance(s, Placed(s, x, y)))
  }

  /** A move is accepted exactly on a legal interior square; a rejected move changes nothing. */
  lemma PutRejects(s: Game, x: int, y: int)
    requires ValidGame(s)
    ensures Put(s, x, y).0 <==> Interior(x, y) && PosAt(s.grid, s.color, x, y)
    ensures !Put(s, x, y).0 ==> Put(s, x, y).1 == s
  {
  }

  /** An accepted move, in terms of the grid it leaves and the turn that follows. */
  lemma PutAccepted(s: Game, x: int, y: int)
    requires ValidGame(s) && Interior(x, y) && PosAt(s.grid, s.color, x, y)
    ensures Put(s, x, y) == (true, Advance(s, Placed(s, x, y)))
  {
  }

  /**
   * An accepted move: the empty square takes the mover's colour, every other
   * change turns an opponent disc into a mover's disc, the wall ring stays,
   * the mover gains 1 + captures discs and the opponent loses the captures,
   * one empty square is used up, and the turn counter grows by exactly one.
   */
  lemma PutPlaces(s: Game, x: int, y: int)
    requires ValidGame(s) && Put(s, x, y).0
    ensures var g, g', c := s.grid, Put(s, x, y).1.grid, s.color;
            var n := FlipCount(g, x, y, c);
            g[Idx(x, y)] == EMPTY && g'[Idx(x, y)] == c &&
            (forall p :: 0 <= p < 100 && p != Idx(x, y) ==> g'[p] == g[p] || (g[p] == -c && g'[p] == c)) &&
            (forall a, b :: InGrid(a, b) && !Interior(a, b) ==> g'[Idx(a, b)] == WALL) &&
            Count(g', c) == Count(g, c) + 1 + n && Count(g', -c) == Count(g, -c) - n &&
            Count(g', EMPTY) == Count(g, EMPTY) - 1 &&
            Put(s, x, y).1.turn == s.turn + 1
  {
    FlipGridFacts(s.grid, x, y, s.color, Mobility(s.grid, x, y, s.color));
  }

  /**
   * After an accepted move the opponent is to move, unless the opponent is
   * stuck and the mover is not; either way the new mover can play or the
   * game is over.
   */
  lemma PutNextMover(s: Game, x: int, y: int)
    requires ValidGame(s) && Put(s, x, y).0
    ensures var g', c' := Put(s, x, y).1.grid, Put(s, x, y).1.color;
            c' == (if !AnyMovable(g', -s.color) && AnyMovable(g', s.color) then s.color else -s.color) &&
            (AnyMovable(g', c') || IsOver(g', c'))
  {
  }

  /** Whether the game is over does not depend on which colour is to move. */
  lemma IsOverSymmetric(g: seq<int>, c: int)
    requires |g| == 100 && IsColor(c)
    ensures IsOver(g, c) == IsOver(g, -c)
  {
  }

  /** Index of the first largest entry. */
  function ArgMax(s: seq<int>): (i: int)
    requires |s| > 0
    ensures 0 <= i < |s|
    ensures forall j :: 0 <= j < |s| ==> s[j] <= s[i]
    ensures forall j :: 0 <= j < i ==> s[j] < s[i]
  {
    if |s| == 1 then 0
    else
      var i := ArgMax(s[..|s| - 1]);
      if s[|s| - 1] > s[i] then |s| - 1 else i
  }

  /**
   * The greedy choice: when the mover can play, the first square of largest
   * capture count is a legal move and no legal move captures more; when the
   * mover cannot, that square is (0, 0), which Put rejects.
   */
  lemma GreedyChoice(s: Game)
    requires ValidGame(s)
    ensures var t := CntTable(s.grid, s.color); var p := ArgMax(t);
            (AnyMovable(s.grid, s.color) ==>
               PosAt(s.grid, s.color, p / 10, p % 10) &&
               forall a, b :: Interior(a, b) && PosAt(s.grid, s.color, a, b) ==>
                 FlipCount(s.grid, a, b, s.color) <= FlipCount(s.grid, p / 10, p % 10, s.color)) &&
            (!AnyMovable(s.grid, s.color) ==> p == 0 && !Put(s, p / 10, p % 10).0)
  {
    var g, c := s.grid, s.color;
    var t := CntTable(g, c);
    var p := ArgMax(t);
    TablesUpToAt(g, c, 100, p);
    if AnyMovable(g, c) {
      var x, y :| 1 <= x <= BOARD_SIZE && 1 <= y <= BOARD_SIZE && PosAt(g, c, x, y);
      TablesAt(g, c, x, y);
      LegalMoveCaptures(g, x, y, c);
      assert t[p] >= t[Idx(x, y)] >= 1;
      assert PosAt(g, c, p / 10, p % 10);
      forall a, b | Interior(a, b) && PosAt(g, c, a, b)
        ensures FlipCount(g, a, b, c) <= FlipCount(g, p / 10, p % 10, c)
      {
        TablesAt(g, c, a, b);
        assert t[Idx(a, b)] <= t[p];
      }
    } else {
      forall q | 0 <= q < 100 ensures t[q] == 0 {
        DivModIdx(q);
        TablesUpToAt(g, c, 100, q);
        assert !(1 <= q / 10 <= BOARD_SIZE && 1 <= q % 10 <= BOARD_SIZE && PosAt(g, c, q / 10, q % 10));
      }
      assert t[0] == t[p];
    }
  }

  datatype Outcome = Draw | BlackWins | WhiteWins

  /** The result announced for the given disc counts. */
  function Winner(black: int, white: int): (r: Outcome)
    ensures r == Draw <==> black == white
    ensures r == BlackWins <==> black > white
    ensures r == WhiteWins <==> black < white
  {
    if black == white then Draw else if black > white then BlackWins else WhiteWins
  }
}
