# othello-kun: the Othello engine and its alpha-beta player, in Dafny

This project models the game core of othello-kun, a chat bot that plays
Othello. The bot always plays white and the user always plays black. Four
parts of the Python code are modelled.

- **The board** (`board.py`, class `Board`). The grid is 10 by 10, with a
  wall ring around the 8 by 8 playable area. The board keeps a turn counter
  and the colour to move. It also caches three tables for the mover: which
  squares are legal, which directions each square flanks, and how many discs
  it would capture.
- **The search** (`alpha_beta.py`). A fixed-depth alpha-beta search scores
  the leaves with a weight table. A root loop then plays the first
  best-scoring legal move.
- **The constants** (`constant.py`).
- **The move parser** `pos2xy` (`index.py`). It turns texts such as "3c" or
  "C3" into coordinates.

The model has two layers.

- **The rules as functions of a grid**, in modules `Grid`, `Rules`, `Flips`
  and `Moves`:
  - a run of opponent discs along a direction (`RunLen`);
  - whether that run is flanked (`Captures`);
  - the capture-direction set of a square (`Mobility`);
  - the grid after a move (`FlipGrid`);
  - the effect of `put_disc` on a game state (`Put`).
- **The board as a class** (`Engine.Board`). It has the source's arrays and
  fields and the source's loops. Each method is proved to compute the
  functions above, for example `CheckMobility` computes `Mobility` and
  `PutDisc` computes `Put`.

The search (`Search`) is specified the same way. `AlphaBetaSpec`,
`Children` and `Choose` mirror the recursion and the loops exactly as
written. This includes the search's own cut-off rule, which is not negamax:
alpha is raised only at a node of the first colour and beta is lowered only
at a node of the other colour. The methods `AlphaBeta`, `SearchChildren`,
`BestMove` and `ActAlphaBeta` run over copies of `Engine.Board` and are
proved to compute those functions.

The module `StuckPosition` builds the concrete position of the finding
below and proves what the root chooser does on it.

Coordinates follow the source.

- `x` is the column (the letter) and `y` is the row (the digit).
- Cell `(x, y)` of the numpy grid is flat index `10 * x + y`. This is also
  the byte order of `to_bytes`.
- The eight unrolled direction blocks of `check_mobility` and `flip_discs`
  become one loop over a direction index `k = 0..7`, in the source's order:
  left, upper left, upper, upper right, right, lower right, lower, lower
  left.

Two facts about the behaviour as written are proved rather than smoothed
over.

- **A node with no legal reply returns its bound.** A search node above the
  leaves whose move leaves the next mover without a legal reply returns its
  inherited bound, not an evaluation (`AlphaBetaNoReply`). A node of the
  first colour returns alpha and any other node returns beta. The root
  search always runs as the first colour with alpha `-INIT_VALUE`.
  - When the player has two or more legal moves, the search depth
    `min(n - 1, 3)` is at least 1. A root move that ends the game then
    scores exactly `-INIT_VALUE`, the worst possible score, whoever wins.
    This leads to the finding below.
  - With exactly one legal move the depth is 0. That move is scored by the
    weight table, which stays above `-INIT_VALUE`, so it is played even when
    it ends the game (`OneMovePlays`).
  - Deeper down, a node of the opponent's colour with no reply returns its
    beta. That bound is `INIT_VALUE` while untouched, so a move after which
    an opponent reply ends the game can score as the best possible move.
- **Occupied cells grow by one, not by one plus the captures.** An accepted
  move adds `1 + captures` discs to the mover and takes `captures` discs
  from the opponent. The number of occupied cells therefore grows by exactly
  one (`PutPlaces`).

## Model

| member | source | states |
|---|---|---|
| Constants.Flag | constant.py:10-18 | the flag of the k-th scanned direction is the single bit `1 << k` |
| Constants.FlagsDisjoint | constant.py:11-18 | every direction flag is non-zero and two different directions share no bit |
| Constants.ColorNegation | constant.py:5-8 | negating a colour gives the other colour, which is never EMPTY or WALL |
| Constants.CodesDistinct | constant.py:5-8 | BLACK is -WHITE, the four cell codes are pairwise distinct, and WALL is neither colour nor a negated colour |
| Grid.InitialGridShape | board.py:22-32 | the opening grid is well formed, has WHITE at (4,4) and (5,5), BLACK at (4,5) and (5,4), and every other playable cell empty |
| Grid.CountUpdate | board.py:275-281 | overwriting one cell moves it from the tally of its old code to the tally of its new code |
| Grid.DecodeEncode | board.py:290-291 | decoding the signed-byte snapshot of a grid whose codes fit in int8 gives the grid back |
| Grid.EncodeDecode | board.py:38-39 | encoding a decoded buffer gives the buffer back |
| Grid.WellFormedFitsBytes | board.py:22-32 | every cell code of a well-formed grid fits the int8 the grid is stored in |
| Rules.CapturesIff | board.py:68-76 | direction k flanks with a run of length n exactly when n opponent discs follow the square and the next cell holds the mover's colour |
| Rules.MobilityBits | board.py:59-145 | bit k of the direction set is set exactly when the square is empty and direction k flanks; the set is non-empty exactly when some direction flanks |
| Flips.FlipDirFacts | board.py:176-185 | flipping one direction turns exactly its run from opponent to mover, keeps the grid well formed, and moves the run's length from one tally to the other |
| Flips.FlipGridFacts | board.py:165-258 | placing on an empty square and flipping: the square becomes the mover's, every other change turns an opponent disc, the mover gains 1 + captures, the opponent loses the captures, one empty cell fewer |
| Flips.LegalMoveCaptures | board.py:55-57 | a square with a non-empty direction set captures at least one disc |
| Moves.TablesAgree | board.py:53-57 | in the cached tables a square is legal exactly when its direction set is non-empty, and exactly when its capture count is at least one |
| Moves.AnyPosTable | board.py:266-267 | the legal-move table has a set entry exactly when the mover has a legal move |
| Moves.CountTruePositive | alpha_beta.py:60 | the number of legal squares is positive exactly when some square is legal |
| Moves.PutRejects | board.py:147-154 | a move is accepted exactly on a playable square that is legal for the mover; a rejected move leaves the state unchanged |
| Moves.PutPlaces | board.py:156-157 | an accepted move places the disc, only turns opponent discs, keeps the wall ring, changes the tallies by 1 + captures / -captures / -1 empty, and adds exactly one to the turn counter |
| Moves.PutNextMover | board.py:158-163 | after an accepted move the opponent moves unless it is stuck and the mover is not; the new mover can then play, or the game is over |
| Moves.IsOverSymmetric | board.py:265-272 | whether the game is over does not depend on which colour is to move |
| Moves.ArgMax | board.py:261 | the chosen index holds a largest entry and every earlier entry is strictly smaller (first maximum in flat order) |
| Moves.GreedyChoice | board.py:260-263 | if the mover can play, the greedy square is legal and no legal square captures more; otherwise it is (0, 0), which is rejected |
| Moves.Winner | board.py:283-288 | a draw exactly when the counts are equal, a black win exactly when black has more, a white win exactly when white has more |
| Engine.Board.OpeningGrid | board.py:22-32 | builds a fresh array holding the opening grid |
| Engine.Board.New | board.py:21-46 | a new game has the opening grid, turn 0, the given first mover and tables valid for it |
| Engine.Board.FromSnapshot | board.py:37-46 | a restored game holds the decoded grid, the saved turn and colour, and tables valid for that colour |
| Engine.Board.Copy | alpha_beta.py:14 | a deep copy has fresh arrays and the same state and tables |
| Engine.Board.ScanDirection | board.py:67-76 | one direction block of check_mobility answers exactly whether that direction flanks |
| Engine.Board.CheckMobility | board.py:59-145 | returns exactly the capture-direction set of the square for the given colour |
| Engine.Board.FlipDirection | board.py:175-185 | one direction block of flip_discs returns the run length and, when flipping, leaves the grid with exactly that run turned |
| Engine.Board.FlipDiscs | board.py:165-258 | returns the summed run lengths of the stored directions; the grid is unchanged without flip and the placed-and-flipped grid with it |
| Engine.Board.MarkSquare | board.py:53-57 | one square of init_movable sets its three table entries to the grid's values and leaves all other entries alone |
| Engine.Board.InitMovable | board.py:48-57 | rebuilds all three tables for the colour to move without changing the grid |
| Engine.Board.NoMoveFor | board.py:268-272 | the scan of is_end returns true exactly when the colour has no legal move |
| Engine.Board.IsEnd | board.py:265-272 | true exactly when neither the colour to move nor its opponent has a legal move |
| Engine.Board.PutDisc | board.py:147-163 | the outcome and the new state are exactly those of Put, tables included; a rejected move changes nothing |
| Engine.Board.Play | board.py:156-163 | the accepted branch of put_disc ends in the state Put describes |
| Engine.Board.PassIfStuck | board.py:160-162 | the move goes back to the other colour exactly when the new mover is stuck and the game is not over; the grid is untouched |
| Engine.Board.PutMaxPos | board.py:260-263 | plays the first square of largest cached capture count, with the effect of Put |
| Engine.Board.JudgeWinner | board.py:274-288 | the black and white counts are the tallies of the grid and the outcome follows Winner |
| Engine.Board.ToBytes | board.py:290-291 | the snapshot has 100 bytes and decodes back to the grid |
| Search.WeightsAreBytes | alpha_beta.py:19-30 | the weight table is 10 by 10 and every weight fits int8 |
| Search.LimitTotal | alpha_beta.py:19-30 | the absolute weights of the 64 playable squares add up to 1176 |
| Search.WeightedBound | alpha_beta.py:31 | over any number of rows, the mover's weights minus the opponent's stay within the rows' absolute playable weights |
| Search.ScoreBound | alpha_beta.py:31 | a leaf score lies in [-1176, 1176], strictly inside the ±10000 bounds, and scoring for the other colour negates it |
| Search.ChildrenMonotone | alpha_beta.py:39-51 | the child loop never lowers alpha or raises beta; it moves alpha only at a first-colour node and beta only at an opponent node |
| Search.AlphaBetaBound | alpha_beta.py:44-53 | above the leaves, a first-colour node returns at least its alpha and any other node at most its beta |
| Search.ChildrenNone | alpha_beta.py:39-53 | with no legal reply the child loop returns the bounds unchanged |
| Search.AlphaBetaNoReply | alpha_beta.py:36-53 | a node above the leaves whose move leaves the next mover stuck returns its inherited bound |
| Search.AlphaBetaRange | alpha_beta.py:13-53 | every search result is one of its incoming bounds or a score within ±1176 |
| Search.ChildrenRange | alpha_beta.py:39-53 | both bounds the child loop ends with are incoming bounds or scores within ±1176 |
| Search.PickBestSpec | alpha_beta.py:62-68 | the root loop ends with the first legal square of highest score after the held one, or keeps the held square when none beats the best score |
| Search.ChooseBest | alpha_beta.py:56-69 | the choice is (-1, -1), which put_disc rejects, exactly when no legal move scores above -10000; otherwise it is a legal move no legal move outscores, and every earlier legal move scores strictly less |
| Search.RootScoreFloor | alpha_beta.py:65 | no root move scores below -10000 |
| Search.PassesWithLegalMoves | alpha_beta.py:58-69 | with two or more legal moves that each end the game at once, the choice is (-1, -1) and the state is left unchanged |
| Search.OneMovePlays | alpha_beta.py:60-69 | with exactly one legal move the search depth is 0, and the choice is a square put_disc accepts |
| StuckPosition.StuckPositionPasses | alpha_beta.py:58-69 | on a concrete position where white has two legal moves that each end the game, the choice as written is (-1, -1) and put_disc leaves the game unchanged, while the corrected choice is accepted |
| Search.ChooseFixedPlays | alpha_beta.py:58-69 | with the corrected initial best score, the chosen square is accepted exactly when the mover has a legal move, and it is a first best legal move |
| Search.PlayOnCopy | alpha_beta.py:14-16 | the copy is fresh and holds the given position with (x, y) played |
| Search.AlphaBeta | alpha_beta.py:13-53 | returns AlphaBetaSpec of the board's state and changes nothing |
| Search.SearchChildren | alpha_beta.py:36-53 | the loop over the copy's legal replies returns exactly the bounds of Children |
| Search.BestMove | alpha_beta.py:57-68 | the root loop returns the square PickBest settles on, without changing the board |
| Search.ActAlphaBeta | alpha_beta.py:56-69 | the board ends in the state Put gives for the chosen square |
| Search.ActAlphaBetaFixed | alpha_beta.py:56-69 | the corrected root plays Put on its choice and adds one to the turn counter exactly when the mover had a legal move |
| Coords.LetterColumn | index.py:45-48 | a letter a..h or A..H gives column 1..8; every other character gives none |
| Coords.Pos2Xy | index.py:40-55 | texts not two characters long give (None, None); every coordinate given lies in 1..8; an x is only given with a y |
| Coords.ParseSpell | index.py:43-54 | each of the four spellings of a square (digit or letter first, either case) parses to that square |
| Coords.ParseOnlySpellings | index.py:43-54 | a text that yields both coordinates is one of the four spellings of that square |
| Coords.CaseInsensitive | index.py:45-54 | upper- and lower-case letters give the same result in both orders |
| Coords.DigitFirstWins | index.py:43-48 | a leading row digit always fixes y; x is set exactly when the second character is a column letter |
| Coords.OutOfBoardDigits | index.py:43-54 | a two-character text made only of the digits 0 and 9 gives (None, None) |

## Left out

- Logging (`logging.basicConfig` and `logging.debug`) is not modelled: it writes to a log file and has no effect on the game.
- The random first mover of a new game (board.py:35) is the constructor parameter `startColor`.
- Engine.Board.FromSnapshot: requires the buffer to decode to a well-formed grid (wall ring and cell codes) and the saved colour to be WHITE or BLACK. The source checks none of these and only ever restores buffers it saved itself.
- Engine.Board.JudgeWinner: returns the two counts and an `Outcome` instead of the Japanese result text built from them.
- `to_image`, `to_string` and `to_string_all` are not modelled: they are image file output and display text.
- numpy is modelled as plain arrays: the `int8` grid becomes `int` cells with a proved int8 bound, and `deepcopy` becomes the `Copy` constructor. `np.argmax` is modelled as `ArgMax`, the first maximum in flat order.
- The `uint8` capture-count table becomes `int`. A count of captured discs on a 64-square board never reaches the 256 where a `uint8` would wrap.
- The weight table is `int8` in the source. numpy sums it in the platform integer, so the leaf score is modelled as an exact integer sum.
- The `__main__` block of alpha_beta.py is not modelled: it is a manual demonstration.
- index.py apart from `pos2xy` is not modelled. The Flask route, the chat API requests, `make_response`, `make_video`, `reset_board`, `show_history`, `move_forward`, `act_enemy` and `finalize` are network, database and file I/O.
- database.py and make_board_image.py are not part of this model: they are database queries and an image drawing script.

## Findings

| source | as written | input that shows it | evidently intended | confidence | as-written member | corrected member |
|---|---|---|---|---|---|---|
| alpha_beta.py:58-69 | `best_score` starts at `-INIT_VALUE` and changes only on a strictly greater score. When white has two or more legal moves, the search depth `min(n - 1, 3)` is at least 1. A root move that ends the game at once then scores exactly `-INIT_VALUE`: its node has no legal reply, so it returns its inherited alpha. When there are two or more legal moves and every one of them ends the game, `best_pos` stays `(-1, -1)`, `put_disc` rejects it, and white is still to move with legal moves left. The caller's loop at index.py:175 then never ends. | White to move. Every playable cell holds WHITE except (1,1) and (2,1), which are empty, and (2,2), which holds BLACK. Both empty squares are legal for white, and each flips (2,2). Afterwards neither colour has a legal move. The search depth is 1, both moves score -10000, and nothing is played. | The bot plays one of its legal moves whenever it has one. | not executed; high: the lemma covers every such position, and the example position is proved to be one (StuckPosition.StuckPositionPasses) | Search.PassesWithLegalMoves | Search.ChooseFixedPlays (used by Search.ActAlphaBetaFixed) |
