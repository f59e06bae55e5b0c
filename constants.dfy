/** Cell codes and capture-direction flags shared by the rules engine and the search. */
module Constants {

  /** Side of the playable area; the grid adds a one-cell wall ring on each side. */
  const BOARD_SIZE: int := 8

  const EMPTY: int := 0
  const WHITE: int := 1
  const BLACK: int := -WHITE
  const WALL: int := 2

  /** Direction flags of the 8-bit capture-direction set, one bit per compass direction. */
  const NONE: bv8 := 0
  const LEFT: bv8 := 1
  const UPPER_LEFT: bv8 := 2
  const UPPER: bv8 := 4
  const UPPER_RIGHT: bv8 := 8
  const RIGHT: bv8 := 16
  const LOWER_RIGHT: bv8 := 32
  const LOWER: bv8 := 64
  const LOWER_LEFT: bv8 := 128

  /** A disc colour: the two players. */
  predicate IsColor(c: int) {
    c == WHITE || c == BLACK
  }

  /** The flag of direction k, directions numbered in the order the scans visit them. */
  function Flag(k: int): (f: bv8)
    requires 0 <= k < 8
    ensures f == (1 as bv8) << k
  {
    match k
    case 0 => LEFT
    case 1 => UPPER_LEFT
    case 2 => UPPER
    case 3 => UPPER_RIGHT
    case 4 => RIGHT
    case 5 => LOWER_RIGHT
    case 6 => LOWER
    case 7 => LOWER_LEFT
  }

  /** Negating a colour gives the opponent; no colour is a wall or an empty cell. */
  lemma ColorNegation(c: int)
    requires IsColor(c)
    ensures IsColor(-c) && -c != c && -(-c) == c
    ensures c != EMPTY && c != WALL && -c != WALL
  {
  }

  /** The four cell codes are pairwise distinct and the wall is neither colour. */
  lemma CodesDistinct()
    ensures BLACK == -WHITE
    ensures EMPTY != WHITE && EMPTY != BLACK && EMPTY != WALL
    ensures WHITE != BLACK && WHITE != WALL && BLACK != WALL
    ensures WALL != -WHITE && WALL != -BLACK
  {
  }

  /** Two different directions have flags with no bit in common. */
  lemma FlagsDisjoint(j: int, k: int)
    requires 0 <= j < 8 && 0 <= k < 8
    ensures Flag(k) != 0
    ensures j != k ==> Flag(j) & Flag(k) == 0
  {
  }
}
