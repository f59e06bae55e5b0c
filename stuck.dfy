/**
 * A concrete position in which act_alpha_beta, as written, passes although
 * white has legal moves: every playable cell holds WHITE except (1, 1) and
 * (2, 1), which are empty, and (2, 2), which holds BLACK.  Either move flips
 * the one black disc and leaves no move for either colour.
 */
module StuckPosition {
  import opened Constants
  import opened Grid
  import opened Rules
  import opened Flips
  import opened Moves
  import opened Search

  function StuckCell(x: int, y: int): int {
    if !Interior(x, y) then WALL
    else if (x == 1 || x == 2) && y == 1 then EMPTY
    else if x == 2 && y == 2 then BLACK
    else WHITE
  }

  function StuckGrid(): seq<int> {
    seq(100, p requires 0 <= p < 100 => StuckCell(p / 10, p % 10))
  }

  /** White to move on the grid above. */
  function StuckGame(): Game {
    Game(StuckGrid(), 0, WHITE)
  }

  lemma StuckCells()
    ensures |StuckGrid()| == 100
    ensures forall x, y :: InGrid(x, y) ==> StuckGrid()[Idx(x, y)] == StuckCell(x, y)
  {
    forall x, y | InGrid(x, y) ensures StuckGrid()[Idx(x, y)] == StuckCell(x, y) {
      IdxDivMod(x, y);
    }
  }

  lemma StuckAt(x: int, y: int)
    requires InGrid(x, y)
    ensures StuckGrid()[Idx(x, y)] == StuckCell(x, y)
  {
    IdxDivMod(x, y);
  }

  lemma StuckValid()
    ensures ValidGame(StuckGame())
  {
    StuckCells();
  }

  /** The only black disc of the grid is the one at (2, 2). */
  lemma StuckOneBlack()
    ensures Count(StuckGrid(), BLACK) == 1
  {
    var g := StuckGrid();
    StuckCells();
    forall p | 0 <= p < 100 && p != Idx(2, 2) ensures g[p] != BLACK {
      DivModIdx(p);
    }
    CountSingle(g, BLACK, Idx(2, 2), 100);
  }

  /** A value held at exactly one index q is counted once among the first n cells when n passes q. */
  lemma {:induction false} CountSingle(s: seq<int>, v: int, q: int, n: int)
    requires 0 <= q < |s| && 0 <= n <= |s| && s[q] == v
    requires forall p :: 0 <= p < |s| && p != q ==> s[p] != v
    ensures CountUpTo(s, v, n) == if n > q then 1 else 0
  {
    if n > 0 {
      CountSingle(s, v, q, n - 1);
    }
  }

  /** A value counted zero times among the first n cells occurs in none of them. */
  lemma {:induction false} CountZero(s: seq<int>, v: int, n: int)
    requires 0 <= n <= |s| && CountUpTo(s, v, n) == 0
    ensures forall p :: 0 <= p < n ==> s[p] != v
  {
    if n > 0 {
      CountZero(s, v, n - 1);
    }
  }

  /** Without a black disc no direction flanks, for either colour. */
  lemma NoBlackNoCaptures(g: seq<int>, x: int, y: int, k: int, c: int)
    requires |g| == 100 && 0 <= k < 8 && IsColor(c)
    requires forall p :: 0 <= p < 100 ==> g[p] != BLACK
    ensures !Captures(g, x, y, k, c)
  {
    if c == WHITE {
      var (qx, qy) := Ray(x, y, k, 1);
      assert !(InGrid(qx, qy) && g[Idx(qx, qy)] == -c);
      assert RunLen(g, x, y, k, c) == 0;
    }
  }

  /** Without a black disc neither colour has a legal move. */
  lemma NoBlackNoMoves(g: seq<int>, c: int)
    requires |g| == 100 && IsColor(c)
    requires forall p :: 0 <= p < 100 ==> g[p] != BLACK
    ensures !AnyMovable(g, c)
  {
    forall x, y | 1 <= x <= BOARD_SIZE && 1 <= y <= BOARD_SIZE
      ensures !PosAt(g, c, x, y)
    {
      forall j | 0 <= j < 8 ensures !Captures(g, x, y, j, c) {
        NoBlackNoCaptures(g, x, y, j, c);
      }
      MobilityBits(g, x, y, c, 0);
    }
  }

  /** Every legal move of white captures the one black disc, after which the game is over. */
  lemma StuckMoveEnds(x: int, y: int)
    requires ValidGame(StuckGame()) && Interior(x, y) && PosAt(StuckGrid(), WHITE, x, y)
    ensures IsOver(Put(StuckGame(), x, y).1.grid, Put(StuckGame(), x, y).1.color)
  {
    var s := StuckGame();
    PutRejects(s, x, y);
    PutPlaces(s, x, y);
    LegalMoveCaptures(s.grid, x, y, WHITE);
    StuckOneBlack();
    var t := Put(s, x, y).1;
    assert Count(t.grid, BLACK) == 0;
    CountZero(t.grid, BLACK, 100);
    NoBlackNoMoves(t.grid, t.color);
    NoBlackNoMoves(t.grid, -t.color);
  }

  /** (1, 1) is legal for white: the lower-right diagonal flanks (2, 2) against (3, 3). */
  lemma StuckFirstLegal()
    ensures PosAt(StuckGrid(), WHITE, 1, 1)
  {
    var g := StuckGrid();
    StuckAt(1, 1);
    StuckAt(2, 2);
    StuckAt(3, 3);
    assert Ray(1, 1, 5, 1) == (2, 2) && Ray(1, 1, 5, 2) == (3, 3);
    CapturesIff(g, 1, 1, 5, WHITE, 1);
    MobilityBits(g, 1, 1, WHITE, 5);
  }

  /** (2, 1) is legal for white: the column below flanks (2, 2) against (2, 3). */
  lemma StuckSecondLegal()
    ensures PosAt(StuckGrid(), WHITE, 2, 1)
  {
    var g := StuckGrid();
    StuckAt(2, 1);
    StuckAt(2, 2);
    StuckAt(2, 3);
    assert Ray(2, 1, 6, 1) == (2, 2) && Ray(2, 1, 6, 2) == (2, 3);
    CapturesIff(g, 2, 1, 6, WHITE, 1);
    MobilityBits(g, 2, 1, WHITE, 6);
  }

  /** Two set entries make a count of at least two. */
  lemma {:induction false} CountTrueTwo(s: seq<bool>, i: int, j: int)
    requires 0 <= i < j < |s| && s[i] && s[j]
    ensures CountTrue(s) >= 2
  {
    var t := s[..|s| - 1];
    assert t[i] == s[i];
    if j == |s| - 1 {
      CountTruePositive(t);
    } else {
      assert t[j] == s[j];
      CountTrueTwo(t, i, j);
    }
  }

  /**
   * On the stuck position white has a legal move, yet act_alpha_beta as
   * written hands (-1, -1) to put_disc, which leaves the game unchanged;
   * the corrected chooser plays a move there.
   */
  lemma StuckPositionPasses()
    ensures ValidGame(StuckGame()) && AnyMovable(StuckGrid(), WHITE)
    ensures Choose(StuckGame()) == (-1, -1)
    ensures Put(StuckGame(), -1, -1) == (false, StuckGame())
    ensures Put(StuckGame(), ChooseFixed(StuckGame()).0, ChooseFixed(StuckGame()).1).0
  {
    var s := StuckGame();
    StuckValid();
    StuckFirstLegal();
    StuckSecondLegal();
    TablesAt(s.grid, WHITE, 1, 1);
    TablesAt(s.grid, WHITE, 2, 1);
    CountTrueTwo(Movable(s), Idx(1, 1), Idx(2, 1));
    forall x, y | Interior(x, y) && PosAt(s.grid, s.color, x, y)
      ensures IsOver(Put(s, x, y).1.grid, Put(s, x, y).1.color)
    {
      StuckMoveEnds(x, y);
    }
    PassesWithLegalMoves(s);
    ChooseFixedPlays(s);
  }
}
