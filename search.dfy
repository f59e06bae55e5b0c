/**
 * Move selection: a fixed-depth alpha-beta search whose leaves are scored
 * with a weight table, and the root chooser that plays the best-scoring
 * legal move.
 */
module Search {
  import opened Constants
  import opened Grid
  import opened Rules
  import opened Moves
  import opened Engine

  /** The bound both sides start from at the root; every leaf score lies strictly inside it. */
  const INIT_VALUE: int := 10000

  /** The greatest absolute leaf score: the sum of the absolute weights of the 64 squares. */
  const SCORE_LIMIT: int := 1176

  /** The leaf weight table, indexed like the grid: BOARD_POINT[x][y] is the weight of cell (x, y). */
  const BOARD_POINT: seq<seq<int>> := [
    [-120, -120, -120, -120, -120, -120, -120, -120, -120, -120],
    [-120,  120,  -20,   20,    5,    5,   20,  -20,  120, -120],
    [-120,  -20,  -40,   -5,   -5,   -5,   -5,  -40,  -20, -120],
    [-120,   20,   -5,   15,    3,    3,   15,   -5,   20, -120],
    [-120,    5,   -5,    3,    3,    3,    3,   -5,    5, -120],
    [-120,    5,   -5,    3,    3,    3,    3,   -5,    5, -120],
    [-120,   20,   -5,   15,    3,    3,   15,   -5,   20, -120],
    [-120,  -20,  -40,   -5,   -5,   -5,   -5,  -40,  -20, -120],
    [-120,  120,  -20,   20,    5,    5,   20,  -20,  120, -120],
    [-120, -120, -120, -120, -120, -120, -120, -120, -120, -120]
  ]

  /** The table is 10 by 10 and every weight fits the signed byte it is stored in. */
  lemma WeightsAreBytes()
    ensures |BOARD_POINT| == 10
    ensures forall x :: 0 <= x < 10 ==> |BOARD_POINT[x]| == 10
    ensures forall x, y :: 0 <= x < 10 && 0 <= y < 10 ==> -128 <= BOARD_POINT[x][y] <= 127
  {
  }

  /** Sum of the weights of those of the first n cells of row x that hold v. */
  function RowWeighted(g: seq<int>, v: int, x: int, n: int): int
    requires |g| == 100 && 0 <= x < 10 && 0 <= n <= 10
  {
    if n == 0 then 0
    else RowWeighted(g, v, x, n - 1) + (if g[Idx(x, n - 1)] == v then BOARD_POINT[x][n - 1] else 0)
  }

  /** Sum of the weights of the cells of the first m rows that hold v. */
  function Weighted(g: seq<int>, v: int, m: int): int
    requires |g| == 100 && 0 <= m <= 10
  {
    if m == 0 then 0 else Weighted(g, v, m - 1) + RowWeighted(g, v, m - 1, 10)
  }

  /** The leaf score for first: the weights of its discs minus the weights of its opponent's discs. */
  function Score(g: seq<int>, first: int): int
    requires |g| == 100
  {
    Weighted(g, first, 10) - Weighted(g, -first, 10)
  }

  function Abs(v: int): nat {
    if v < 0 then -v else v
  }

  /** Sum of the absolute weights of the squares among the first n cells of row x. */
  function RowLimit(x: int, n: int): int
    requires 0 <= x < 10 && 0 <= n <= 10
  {
    if n == 0 then 0 else RowLimit(x, n - 1) + (if Interior(x, n - 1) then Abs(BOARD_POINT[x][n - 1]) else 0)
  }

  /** Sum of the absolute weights of the squares of the first m rows. */
  function Limit(m: int): int
    requires 0 <= m <= 10
  {
    if m == 0 then 0 else Limit(m - 1) + RowLimit(m - 1, 10)
  }

  lemma RowLimitsLow()
    ensures RowLimit(0, 10) == 0 && RowLimit(1, 10) == 330 && RowLimit(2, 10) == 140
  {
  }

  lemma RowLimitsInner()
    ensures RowLimit(3, 10) == 86 && RowLimit(4, 10) == 32
  {
  }

  lemma RowLimitsOuter()
    ensures RowLimit(5, 10) == 32 && RowLimit(6, 10) == 86
  {
  }

  lemma RowLimitsHigh()
    ensures RowLimit(7, 10) == 140 && RowLimit(8, 10) == 330 && RowLimit(9, 10) == 0
  {
  }

  /** The squares' absolute weights add up to SCORE_LIMIT. */
  lemma LimitTotal()
    ensures Limit(10) == SCORE_LIMIT
  {
    RowLimitsLow();
    RowLimitsInner();
    RowLimitsOuter();
    RowLimitsHigh();
  }

  /** In row x, first's weights minus the opponent's stay within the row's absolute square weights. */
  lemma {:induction false} RowBound(g: seq<int>, first: int, x: int, n: int)
    requires WellFormed(g) && IsColor(first) && 0 <= x < 10 && 0 <= n <= 10
    ensures -RowLimit(x, n) <= RowWeighted(g, first, x, n) - RowWeighted(g, -first, x, n) <= RowLimit(x, n)
  {
    if n > 0 {
      RowBound(g, first, x, n - 1);
      if !Interior(x, n - 1) {
        assert g[Idx(x, n - 1)] == WALL;
      }
    }
  }

  /** Over the first m rows, first's weights minus the opponent's stay within the absolute square weights. */
  lemma {:induction false} WeightedBound(g: seq<int>, first: int, m: int)
    requires WellFormed(g) && IsColor(first) && 0 <= m <= 10
    ensures -Limit(m) <= Weighted(g, first, m) - Weighted(g, -first, m) <= Limit(m)
  {
    if m > 0 {
      WeightedBound(g, first, m - 1);
      RowBound(g, first, m - 1, 10);
      assert Weighted(g, first, m) == Weighted(g, first, m - 1) + RowWeighted(g, first, m - 1, 10);
      assert Weighted(g, -first, m) == Weighted(g, -first, m - 1) + RowWeighted(g, -first, m - 1, 10);
      assert Limit(m) == Limit(m - 1) + RowLimit(m - 1, 10);
    }
  }

  /**
   * A leaf score lies within SCORE_LIMIT, far inside the root bounds, and
   * scoring for the opponent negates it.
   */
  lemma ScoreBound(g: seq<int>, first: int)
    requires WellFormed(g) && IsColor(first)
    ensures -SCORE_LIMIT <= Score(g, first) <= SCORE_LIMIT < INIT_VALUE
    ensures Score(g, -first) == -Score(g, first)
  {
    WeightedBound(g, first, 10);
    LimitTotal();
  }

  /** The legal-move table of the mover of t, as init_movable leaves it. */
  function Movable(t: Game): (m: seq<bool>)
    requires |t.grid| == 100
    ensures |m| == 100
  {
    PosTable(t.grid, t.color)
  }

  /** The recursion measure of the search: the remaining depth, a leaf below 1. */
  function Height(depth: int): nat {
    if depth <= 0 then 0 else depth
  }

  /**
   * The bounds after a child's score: alpha rises at a node of first's
   * colour, beta falls at a node of the opponent's colour.
   */
  function Tighten(color: int, first: int, score: int, alpha: int, beta: int): (int, int) {
    if color == first && score > alpha then (score, beta)
    else if color == -first && score < beta then (alpha, score)
    else (alpha, beta)
  }

  /**
   * alpha_beta: plays (x, y) on a copy of s; at depth 0 or below returns the
   * leaf score for first, otherwise searches the replies of the copy's mover
   * and returns alpha at a node of first's colour and beta at any other.
   */
  function AlphaBetaSpec(s: Game, x: int, y: int, color: int, first: int, depth: int, alpha: int, beta: int): int
    requires ValidGame(s)
    decreases Height(depth), 1, 0, 0, 0
  {
    var t := Put(s, x, y).1;
    if depth <= 0 then Score(t.grid, first)
    else
      var r := Children(t, color, first, depth, alpha, beta, 1, 1);
      if color == first then r.0 else r.1
  }

  /**
   * The child loop of a node at state t from square (i, j) on, in column-then-row
   * order: each legal reply is searched one level deeper with the current
   * bounds, which it may tighten, and the loop stops as soon as alpha >= beta.
   * The result is the final pair of bounds.
   */
  function Children(t: Game, color: int, first: int, depth: int, alpha: int, beta: int, i: int, j: int): (int, int)
    requires ValidGame(t) && depth >= 1 && 1 <= i <= BOARD_SIZE + 1 && 1 <= j <= BOARD_SIZE + 1
    decreases Height(depth), 0, BOARD_SIZE + 1 - i, BOARD_SIZE + 1 - j, 1
  {
    if i > BOARD_SIZE then (alpha, beta)
    else if j > BOARD_SIZE then Children(t, color, first, depth, alpha, beta, i + 1, 1)
    else if !Movable(t)[Idx(i, j)] then Children(t, color, first, depth, alpha, beta, i, j + 1)
    else
      var ab := Child(t, color, first, depth, alpha, beta, i, j);
      if ab.0 >= ab.1 then ab else Children(t, color, first, depth, ab.0, ab.1, i, j + 1)
  }

  /** The bounds after the child loop searches the legal reply (i, j) one level deeper. */
  function Child(t: Game, color: int, first: int, depth: int, alpha: int, beta: int, i: int, j: int): (int, int)
    requires ValidGame(t) && depth >= 1 && 1 <= i <= BOARD_SIZE && 1 <= j <= BOARD_SIZE
    decreases Height(depth), 0, BOARD_SIZE + 1 - i, BOARD_SIZE + 1 - j, 0
  {
    Tighten(color, first, AlphaBetaSpec(t, i, j, t.color, first, depth - 1, alpha, beta), alpha, beta)
  }

  /** The child loop only raises alpha and only lowers beta, each only at a node of the matching colour. */
  lemma {:induction false} ChildrenMonotone(t: Game, color: int, first: int, depth: int, alpha: int, beta: int, i: int, j: int)
    requires ValidGame(t) && depth >= 1 && 1 <= i <= BOARD_SIZE + 1 && 1 <= j <= BOARD_SIZE + 1
    ensures var r := Children(t, color, first, depth, alpha, beta, i, j);
            alpha <= r.0 && r.1 <= beta && (color != first ==> r.0 == alpha) && (color != -first ==> r.1 == beta)
    decreases BOARD_SIZE + 1 - i, BOARD_SIZE + 1 - j
  {
    if i > BOARD_SIZE {
    } else if j > BOARD_SIZE {
      ChildrenMonotone(t, color, first, depth, alpha, beta, i + 1, 1);
    } else if !Movable(t)[Idx(i, j)] {
      ChildrenMonotone(t, color, first, depth, alpha, beta, i, j + 1);
    } else {
      var ab := Child(t, color, first, depth, alpha, beta, i, j);
      if ab.0 < ab.1 {
        ChildrenMonotone(t, color, first, depth, ab.0, ab.1, i, j + 1);
      }
    }
  }

  /**
   * Above the leaves a node of first's colour never returns less than its
   * incoming alpha, and any other node never more than its incoming beta.
   */
  lemma AlphaBetaBound(s: Game, x: int, y: int, color: int, first: int, depth: int, alpha: int, beta: int)
    requires ValidGame(s) && depth >= 1
    ensures var r := AlphaBetaSpec(s, x, y, color, first, depth, alpha, beta);
            (color == first ==> r >= alpha) && (color != first ==> r <= beta)
  {
    ChildrenMonotone(Put(s, x, y).1, color, first, depth, alpha, beta, 1, 1);
  }

  /** With no legal reply left from (i, j) on, the child loop keeps both bounds. */
  lemma {:induction false} ChildrenNone(t: Game, color: int, first: int, depth: int, alpha: int, beta: int, i: int, j: int)
    requires ValidGame(t) && depth >= 1 && 1 <= i <= BOARD_SIZE + 1 && 1 <= j <= BOARD_SIZE + 1
    requires !AnyTrue(Movable(t))
    ensures Children(t, color, first, depth, alpha, beta, i, j) == (alpha, beta)
    decreases BOARD_SIZE + 1 - i, BOARD_SIZE + 1 - j
  {
    if i > BOARD_SIZE {
    } else if j > BOARD_SIZE {
      ChildrenNone(t, color, first, depth, alpha, beta, i + 1, 1);
    } else {
      assert !Movable(t)[Idx(i, j)];
      ChildrenNone(t, color, first, depth, alpha, beta, i, j + 1);
    }
  }

  /**
   * A node above the leaves whose move leaves the next mover without a legal
   * reply returns its inherited bound, not an evaluation.
   */
  lemma AlphaBetaNoReply(s: Game, x: int, y: int, color: int, first: int, depth: int, alpha: int, beta: int)
    requires ValidGame(s) && depth >= 1
    requires !AnyMovable(Put(s, x, y).1.grid, Put(s, x, y).1.color)
    ensures AlphaBetaSpec(s, x, y, color, first, depth, alpha, beta) == if color == first then alpha else beta
  {
    var t := Put(s, x, y).1;
    AnyPosTable(t.grid, t.color);
    ChildrenNone(t, color, first, depth, alpha, beta, 1, 1);
  }

  /** v is one of the two bounds or a score a leaf can produce. */
  predicate Within(v: int, alpha: int, beta: int) {
    v == alpha || v == beta || -SCORE_LIMIT <= v <= SCORE_LIMIT
  }

  /** Every search result is one of its incoming bounds or a leaf-range score. */
  lemma {:induction false} AlphaBetaRange(s: Game, x: int, y: int, color: int, first: int, depth: int, alpha: int, beta: int)
    requires ValidGame(s) && IsColor(first)
    ensures Within(AlphaBetaSpec(s, x, y, color, first, depth, alpha, beta), alpha, beta)
    decreases Height(depth), 1, 0, 0, 0
  {
    var t := Put(s, x, y).1;
    if depth <= 0 {
      ScoreBound(t.grid, first);
    } else {
      ChildrenRange(t, color, first, depth, alpha, beta, 1, 1);
    }
  }

  /** Both bounds the child loop ends with are incoming bounds or leaf-range scores. */
  lemma {:induction false} ChildrenRange(t: Game, color: int, first: int, depth: int, alpha: int, beta: int, i: int, j: int)
    requires ValidGame(t) && IsColor(first) && depth >= 1 && 1 <= i <= BOARD_SIZE + 1 && 1 <= j <= BOARD_SIZE + 1
    ensures var r := Children(t, color, first, depth, alpha, beta, i, j);
            Within(r.0, alpha, beta) && Within(r.1, alpha, beta)
    decreases Height(depth), 0, BOARD_SIZE + 1 - i, BOARD_SIZE + 1 - j, 2
  {
    if i > BOARD_SIZE {
    } else if j > BOARD_SIZE {
      ChildrenRange(t, color, first, depth, alpha, beta, i + 1, 1);
    } else if !Movable(t)[Idx(i, j)] {
      ChildrenRange(t, color, first, depth, alpha, beta, i, j + 1);
    } else {
      ChildRange(t, color, first, depth, alpha, beta, i, j);
    }
  }

  /** ChildrenRange at a legal square: the child's score, then the rest of the loop with the tightened bounds. */
  lemma {:induction false} ChildRange(t: Game, color: int, first: int, depth: int, alpha: int, beta: int, i: int, j: int)
    requires ValidGame(t) && IsColor(first) && depth >= 1 && 1 <= i <= BOARD_SIZE && 1 <= j <= BOARD_SIZE
    requires Movable(t)[Idx(i, j)]
    ensures var r := Children(t, color, first, depth, alpha, beta, i, j);
            Within(r.0, alpha, beta) && Within(r.1, alpha, beta)
    decreases Height(depth), 0, BOARD_SIZE + 1 - i, BOARD_SIZE + 1 - j, 1
  {
    ChildWithin(t, color, first, depth, alpha, beta, i, j);
    var ab := Child(t, color, first, depth, alpha, beta, i, j);
    if ab.0 < ab.1 {
      ChildrenRange(t, color, first, depth, ab.0, ab.1, i, j + 1);
    }
  }

  /** The bounds after one legal reply are incoming bounds or leaf-range scores. */
  lemma {:induction false} ChildWithin(t: Game, color: int, first: int, depth: int, alpha: int, beta: int, i: int, j: int)
    requires ValidGame(t) && IsColor(first) && depth >= 1 && 1 <= i <= BOARD_SIZE && 1 <= j <= BOARD_SIZE
    ensures Within(Child(t, color, first, depth, alpha, beta, i, j).0, alpha, beta)
    ensures Within(Child(t, color, first, depth, alpha, beta, i, j).1, alpha, beta)
    decreases Height(depth), 0, BOARD_SIZE + 1 - i, BOARD_SIZE + 1 - j, 0
  {
    var score := AlphaBetaSpec(t, i, j, t.color, first, depth - 1, alpha, beta);
    AlphaBetaRange(t, i, j, t.color, first, depth - 1, alpha, beta);
    TightenWithin(color, first, score, alpha, beta);
  }

  /** Tightening with a score in range keeps both bounds in range. */
  lemma TightenWithin(color: int, first: int, score: int, alpha: int, beta: int)
    requires Within(score, alpha, beta)
    ensures Within(Tighten(color, first, score, alpha, beta).0, alpha, beta)
    ensures Within(Tighten(color, first, score, alpha, beta).1, alpha, beta)
  {
  }

  /** The depth act_alpha_beta searches to: one less than the number of legal moves, at most 3. */
  function SearchDepth(s: Game): int
    requires |s.grid| == 100
  {
    var n := CountTrue(Movable(s));
    if n - 1 < 3 then n - 1 else 3
  }

  /** The score act_alpha_beta gives the root move (x, y). */
  function RootScore(s: Game, x: int, y: int): int
    requires ValidGame(s)
  {
    AlphaBetaSpec(s, x, y, s.color, s.color, SearchDepth(s), -INIT_VALUE, INIT_VALUE)
  }

  /** The scores act_alpha_beta would give each square of the grid as its root move. */
  function RootScores(s: Game): (sc: seq<int>)
    requires ValidGame(s)
    ensures |sc| == 100
  {
    seq(100, p requires 0 <= p < 100 => RootScore(s, p / 10, p % 10))
  }

  /** (a, b) comes strictly before (i, j) in column-then-row order. */
  predicate Before(a: int, b: int, i: int, j: int) {
    a < i || (a == i && b < j)
  }

  /**
   * The root loop from square (i, j) on, over the legal-move table mv and
   * the move scores sc: a legal move replaces the best so far only when its
   * score is strictly greater.
   */
  function PickBest(mv: seq<bool>, sc: seq<int>, best: int, pos: (int, int), i: int, j: int): (int, (int, int))
    requires |mv| == 100 && |sc| == 100 && 1 <= i <= BOARD_SIZE + 1 && 1 <= j <= BOARD_SIZE + 1
    decreases BOARD_SIZE + 1 - i, BOARD_SIZE + 1 - j
  {
    if i > BOARD_SIZE then (best, pos)
    else if j > BOARD_SIZE then PickBest(mv, sc, best, pos, i + 1, 1)
    else if !mv[Idx(i, j)] then PickBest(mv, sc, best, pos, i, j + 1)
    else if sc[Idx(i, j)] > best then PickBest(mv, sc, sc[Idx(i, j)], (i, j), i, j + 1)
    else PickBest(mv, sc, best, pos, i, j + 1)
  }

  /** The square the root loop settles on when its best score starts at floor. */
  function ChooseFrom(s: Game, floor: int): (int, int)
    requires ValidGame(s)
  {
    PickBest(Movable(s), RootScores(s), floor, (-1, -1), 1, 1).1
  }

  /** The square act_alpha_beta plays: the first best-scoring legal move, or (-1, -1) when no score beats -INIT_VALUE. */
  function Choose(s: Game): (int, int)
    requires ValidGame(s)
  {
    ChooseFrom(s, -INIT_VALUE)
  }

  /** The corrected choice: the best score starts strictly below every score the search can return. */
  function ChooseFixed(s: Game): (int, int)
    requires ValidGame(s)
  {
    ChooseFrom(s, -INIT_VALUE - 1)
  }

  /**
   * r is a correct outcome of the root loop from (i, j) on, started with
   * best score best at pos: the score is no lower than best; either the
   * square is kept or it is a legal square at or after (i, j) whose score is
   * r's; no legal square at or after (i, j) scores more, and none of them
   * before the chosen square scores as much.
   */
  ghost predicate Picked(mv: seq<bool>, sc: seq<int>, best: int, pos: (int, int), i: int, j: int, r: (int, (int, int)))
    requires |mv| == 100 && |sc| == 100
  {
    best <= r.0 &&
    ((r.0 == best && r.1 == pos) ||
     (r.0 > best && Interior(r.1.0, r.1.1) && !Before(r.1.0, r.1.1, i, j) &&
      mv[Idx(r.1.0, r.1.1)] && r.0 == sc[Idx(r.1.0, r.1.1)])) &&
    (forall x, y :: Interior(x, y) && !Before(x, y, i, j) && mv[Idx(x, y)] ==> sc[Idx(x, y)] <= r.0) &&
    (forall x, y :: Interior(x, y) && !Before(x, y, i, j) && Before(x, y, r.1.0, r.1.1) && mv[Idx(x, y)] ==>
       sc[Idx(x, y)] < r.0)
  }

  /** The root loop does what Picked says, from any square after the square it holds. */
  lemma {:induction false} PickBestSpec(mv: seq<bool>, sc: seq<int>, best: int, pos: (int, int), i: int, j: int)
    requires |mv| == 100 && |sc| == 100 && 1 <= i <= BOARD_SIZE + 1 && 1 <= j <= BOARD_SIZE + 1
    requires Before(pos.0, pos.1, i, j)
    ensures Picked(mv, sc, best, pos, i, j, PickBest(mv, sc, best, pos, i, j))
    decreases BOARD_SIZE + 1 - i, BOARD_SIZE + 1 - j
  {
    var r := PickBest(mv, sc, best, pos, i, j);
    if i > BOARD_SIZE {
      assert r == (best, pos);
    } else if j > BOARD_SIZE {
      PickBestSpec(mv, sc, best, pos, i + 1, 1);
      PickedRow(mv, sc, best, pos, i, j, r);
    } else if !mv[Idx(i, j)] {
      PickBestSpec(mv, sc, best, pos, i, j + 1);
      PickedSkip(mv, sc, best, pos, i, j, r);
    } else if sc[Idx(i, j)] > best {
      PickBestSpec(mv, sc, sc[Idx(i, j)], (i, j), i, j + 1);
      PickedTake(mv, sc, best, pos, i, j, r);
    } else {
      PickBestSpec(mv, sc, best, pos, i, j + 1);
      PickedSkip(mv, sc, best, pos, i, j, r);
    }
  }

  /** Past the last square of a column, the loop goes on from the top of the next. */
  lemma PickedRow(mv: seq<bool>, sc: seq<int>, best: int, pos: (int, int), i: int, j: int, r: (int, (int, int)))
    requires |mv| == 100 && |sc| == 100 && j > BOARD_SIZE
    requires Picked(mv, sc, best, pos, i + 1, 1, r)
    ensures Picked(mv, sc, best, pos, i, j, r)
  {
  }

  /** A square that is illegal, or that does not beat the best score, changes nothing. */
  lemma PickedSkip(mv: seq<bool>, sc: seq<int>, best: int, pos: (int, int), i: int, j: int, r: (int, (int, int)))
    requires |mv| == 100 && |sc| == 100 && Interior(i, j) && (!mv[Idx(i, j)] || sc[Idx(i, j)] <= best)
    requires Before(pos.0, pos.1, i, j)
    requires Picked(mv, sc, best, pos, i, j + 1, r)
    ensures Picked(mv, sc, best, pos, i, j, r)
  {
  }

  /** A legal square that beats the best score becomes the held square. */
  lemma PickedTake(mv: seq<bool>, sc: seq<int>, best: int, pos: (int, int), i: int, j: int, r: (int, (int, int)))
    requires |mv| == 100 && |sc| == 100 && Interior(i, j) && mv[Idx(i, j)] && sc[Idx(i, j)] > best
    requires Picked(mv, sc, sc[Idx(i, j)], (i, j), i, j + 1, r)
    ensures Picked(mv, sc, best, pos, i, j, r)
  {
  }

  /**
   * act_alpha_beta's choice: (-1, -1), which put_disc rejects, exactly when
   * no legal move scores above -INIT_VALUE; otherwise a legal move that no
   * legal move outscores and that every legal move before it in
   * column-then-row order scores strictly below.
   */
  lemma ChooseBest(s: Game)
    requires ValidGame(s)
    ensures var c := Choose(s);
            (c == (-1, -1) <==>
               forall x, y :: Interior(x, y) && PosAt(s.grid, s.color, x, y) ==> RootScore(s, x, y) <= -INIT_VALUE) &&
            (Put(s, c.0, c.1).0 <==> c != (-1, -1)) &&
            (c != (-1, -1) ==>
               (forall x, y :: Interior(x, y) && PosAt(s.grid, s.color, x, y) ==> RootScore(s, x, y) <= RootScore(s, c.0, c.1)) &&
               (forall x, y :: Interior(x, y) && PosAt(s.grid, s.color, x, y) && Before(x, y, c.0, c.1) ==>
                  RootScore(s, x, y) < RootScore(s, c.0, c.1)))
  {
    var mv, sc := Movable(s), RootScores(s);
    forall x, y | Interior(x, y)
      ensures mv[Idx(x, y)] == PosAt(s.grid, s.color, x, y) && sc[Idx(x, y)] == RootScore(s, x, y)
    {
      TablesAt(s.grid, s.color, x, y);
      IdxDivMod(x, y);
    }
    PickBestSpec(mv, sc, -INIT_VALUE, (-1, -1), 1, 1);
    var c := Choose(s);
    if c != (-1, -1) {
      PutRejects(s, c.0, c.1);
    }
  }

  /** Every root score is at least -INIT_VALUE. */
  lemma RootScoreFloor(s: Game, x: int, y: int)
    requires ValidGame(s)
    ensures RootScore(s, x, y) >= -INIT_VALUE
  {
    AlphaBetaRange(s, x, y, s.color, s.color, SearchDepth(s), -INIT_VALUE, INIT_VALUE);
  }

  /**
   * As written, act_alpha_beta can pass while it has legal moves: with two
   * or more legal moves, each of which ends the game at once, every root
   * score is -INIT_VALUE, no score beats the initial best, and the square
   * handed to put_disc is (-1, -1), which leaves the state unchanged.
   */
  lemma PassesWithLegalMoves(s: Game)
    requires ValidGame(s) && CountTrue(Movable(s)) >= 2
    requires forall x, y :: Interior(x, y) && PosAt(s.grid, s.color, x, y) ==> IsOver(Put(s, x, y).1.grid, Put(s, x, y).1.color)
    ensures AnyMovable(s.grid, s.color)
    ensures Choose(s) == (-1, -1) && Put(s, Choose(s).0, Choose(s).1) == (false, s)
  {
    CountTruePositive(Movable(s));
    AnyPosTable(s.grid, s.color);
    forall x, y | Interior(x, y) && PosAt(s.grid, s.color, x, y)
      ensures RootScore(s, x, y) <= -INIT_VALUE
    {
      AlphaBetaNoReply(s, x, y, s.color, s.color, SearchDepth(s), -INIT_VALUE, INIT_VALUE);
    }
    ChooseBest(s);
    PutRejects(s, -1, -1);
  }

  /**
   * The pass above needs two or more legal moves: with exactly one, the
   * search depth is 0, the move is scored by the weight table, which stays
   * above -INIT_VALUE, and it is played even when it ends the game.
   */
  lemma OneMovePlays(s: Game)
    requires ValidGame(s) && CountTrue(Movable(s)) == 1
    ensures SearchDepth(s) == 0
    ensures Choose(s) != (-1, -1) && Put(s, Choose(s).0, Choose(s).1).0
  {
    CountTruePositive(Movable(s));
    AnyPosTable(s.grid, s.color);
    var x, y :| 1 <= x <= BOARD_SIZE && 1 <= y <= BOARD_SIZE && PosAt(s.grid, s.color, x, y);
    ScoreBound(Put(s, x, y).1.grid, s.color);
    assert RootScore(s, x, y) == Score(Put(s, x, y).1.grid, s.color);
    ChooseBest(s);
  }

  /**
   * The corrected choice plays whenever it can: its square is accepted by
   * Put exactly when the mover has a legal move, and it is then a legal move
   * that no legal move outscores and that every legal move before it scores
   * strictly below.
   */
  lemma ChooseFixedPlays(s: Game)
    requires ValidGame(s)
    ensures var c := ChooseFixed(s);
            (Put(s, c.0, c.1).0 <==> AnyMovable(s.grid, s.color)) &&
            (Put(s, c.0, c.1).0 ==>
               (forall x, y :: Interior(x, y) && PosAt(s.grid, s.color, x, y) ==> RootScore(s, x, y) <= RootScore(s, c.0, c.1)) &&
               (forall x, y :: Interior(x, y) && PosAt(s.grid, s.color, x, y) && Before(x, y, c.0, c.1) ==>
                  RootScore(s, x, y) < RootScore(s, c.0, c.1)))
  {
    var mv, sc := Movable(s), RootScores(s);
    forall x, y | Interior(x, y)
      ensures mv[Idx(x, y)] == PosAt(s.grid, s.color, x, y) && sc[Idx(x, y)] == RootScore(s, x, y)
    {
      TablesAt(s.grid, s.color, x, y);
      IdxDivMod(x, y);
    }
    PickBestSpec(mv, sc, -INIT_VALUE - 1, (-1, -1), 1, 1);
    var c := ChooseFixed(s);
    PutRejects(s, c.0, c.1);
    if AnyMovable(s.grid, s.color) {
      var x, y :| 1 <= x <= BOARD_SIZE && 1 <= y <= BOARD_SIZE && PosAt(s.grid, s.color, x, y);
      RootScoreFloor(s, x, y);
    }
  }

  /** The position alpha_beta searches from: a deep copy of the board with (x, y) played on it. */
  method PlayOnCopy(board: Board, x: int, y: int) returns (copy: Board)
    requires board.Valid()
    ensures fresh(copy) && fresh(copy.board) && fresh(copy.movablePos) && fresh(copy.movableDir) && fresh(copy.movableCnt)
    ensures copy.Valid() && copy.State() == Put(board.State(), x, y).1
  {
    copy := new Board.Copy(board);
    copy.InitMovable();
    var _ := copy.PutDisc(x, y);
  }

  /**
   * alpha_beta: scores the move (x, y) from the board's position by searching
   * depth plies more, without changing the board.
   */
  method AlphaBeta(board: Board, x: int, y: int, color: int, first: int, depth: int, alpha: int, beta: int)
    returns (score: int)
    requires board.Valid()
    ensures score == AlphaBetaSpec(board.State(), x, y, color, first, depth, alpha, beta)
    decreases Height(depth), 1
  {
    var copy := PlayOnCopy(board, x, y);
    if depth <= 0 {
      return Score(copy.board[..], first);
    }
    copy.InitMovable();
    var a, b := SearchChildren(copy, color, first, depth, alpha, beta);
    return if color == first then a else b;
  }

  /**
   * The child loop of alpha_beta over the copy's legal moves, in
   * column-then-row order, stopping at the first cutoff; returns the final
   * bounds.
   */
  method SearchChildren(copy: Board, color: int, first: int, depth: int, alpha: int, beta: int) returns (a: int, b: int)
    requires copy.Valid() && depth >= 1
    ensures (a, b) == Children(copy.State(), color, first, depth, alpha, beta, 1, 1)
    decreases Height(depth), 0
  {
    ghost var t := copy.State();
    a, b := alpha, beta;
    for i := 1 to BOARD_SIZE + 1
      invariant Children(t, color, first, depth, alpha, beta, 1, 1) == Children(t, color, first, depth, a, b, i, 1)
    {
      for j := 1 to BOARD_SIZE + 1
        invariant Children(t, color, first, depth, alpha, beta, 1, 1) == Children(t, color, first, depth, a, b, i, j)
      {
        if copy.movablePos[Idx(i, j)] {
          var sc := AlphaBeta(copy, i, j, copy.currentColor, first, depth - 1, a, b);
          if color == first && sc > a {
            a := sc;
          } else if color == -first && sc < b {
            b := sc;
          }
          if a >= b {
            return;
          }
        }
      }
    }
  }

  /** The score of root move (x, y) is the entry of RootScores at its cell. */
  lemma RootScoreAt(s: Game, x: int, y: int)
    requires ValidGame(s) && Interior(x, y)
    ensures RootScores(s)[Idx(x, y)] == RootScore(s, x, y)
  {
    var p := Idx(x, y);
    IdxDivMod(x, y);
    assert p / 10 == x && p % 10 == y;
    assert RootScores(s)[p] == RootScore(s, p / 10, p % 10);
  }

  /** The root loop of act_alpha_beta with the best score starting at floor: the square it settles on, without changing the board. */
  method BestMove(board: Board, floor: int) returns (bestPos: (int, int))
    requires board.Valid()
    ensures bestPos == ChooseFrom(board.State(), floor)
  {
    ghost var s := board.State();
    ghost var mv, sc := Movable(s), RootScores(s);
    var bestScore := floor;
    bestPos := (-1, -1);
    var searchable: int := CountTrue(board.movablePos[..]);
    var depth := if searchable - 1 < 3 then searchable - 1 else 3;
    assert depth == SearchDepth(s);
    for x := 1 to BOARD_SIZE + 1
      invariant PickBest(mv, sc, floor, (-1, -1), 1, 1) == PickBest(mv, sc, bestScore, bestPos, x, 1)
    {
      for y := 1 to BOARD_SIZE + 1
        invariant PickBest(mv, sc, floor, (-1, -1), 1, 1) == PickBest(mv, sc, bestScore, bestPos, x, y)
      {
        if board.movablePos[Idx(x, y)] {
          var score := AlphaBeta(board, x, y, board.currentColor, board.currentColor, depth, -INIT_VALUE, INIT_VALUE);
          RootScoreAt(s, x, y);
          if score > bestScore {
            bestScore := score;
            bestPos := (x, y);
          }
        }
      }
    }
  }

  /** act_alpha_beta: plays the first of the best-scoring legal moves with put_disc. */
  method ActAlphaBeta(board: Board)
    requires board.Valid()
    modifies board`turn, board`currentColor, board.board, board.movablePos, board.movableDir, board.movableCnt
    ensures board.Valid()
    ensures board.State() == Put(old(board.State()), Choose(old(board.State())).0, Choose(old(board.State())).1).1
  {
    var pos := BestMove(board, -INIT_VALUE);
    var _ := board.PutDisc(pos.0, pos.1);
  }

  /** act_alpha_beta with the corrected initial best score: whenever the mover has a legal move, one is played. */
  method ActAlphaBetaFixed(board: Board)
    requires board.Valid()
    modifies board`turn, board`currentColor, board.board, board.movablePos, board.movableDir, board.movableCnt
    ensures board.Valid()
    ensures board.State() == Put(old(board.State()), ChooseFixed(old(board.State())).0, ChooseFixed(old(board.State())).1).1
    ensures AnyMovable(old(board.board[..]), old(board.currentColor)) <==> board.turn == old(board.turn) + 1
  {
    ghost var s := board.State();
    ChooseFixedPlays(s);
    var pos := BestMove(board, -INIT_VALUE - 1);
    var ok := board.PutDisc(pos.0, pos.1);
  }
}
