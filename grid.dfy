/**
 * The 10x10 grid: an 8x8 playable area inside a ring of wall cells.
 * Cell (x, y) lives at flat index 10 * x + y, the row-major order of the
 * two-dimensional grid, which is also the order of its byte snapshot.
 */
module Grid {
  import opened Constants

  /** Flat index of cell (x, y); 10 is BOARD_SIZE + 2. */
  function Idx(x: int, y: int): int {
    10 * x + y
  }

  predicate InGrid(x: int, y: int) {
    0 <= x < 10 && 0 <= y < 10
  }

  predicate Interior(x: int, y: int) {
    1 <= x <= BOARD_SIZE && 1 <= y <= BOARD_SIZE
  }

  /** A disc or an empty square: the codes an interior cell may hold. */
  predicate IsSquare(v: int) {
    v == EMPTY || v == WHITE || v == BLACK
  }

  /** The grid invariant: 100 cells, wall exactly on the border ring, squares inside. */
  predicate WellFormed(g: seq<int>) {
    |g| == 100 &&
    forall x, y :: 0 <= x < 10 && 0 <= y < 10 ==>
      if Interior(x, y) then IsSquare(g[Idx(x, y)]) else g[Idx(x, y)] == WALL
  }

  lemma IdxDivMod(x: int, y: int)
    requires 0 <= y < 10
    ensures Idx(x, y) / 10 == x && Idx(x, y) % 10 == y
  {
  }

  lemma DivModIdx(p: int)
    requires 0 <= p < 100
    ensures InGrid(p / 10, p % 10) && Idx(p / 10, p % 10) == p
  {
  }

  /** A cell of a well-formed grid that holds a colour is an interior cell. */
  lemma ColorCellIsInterior(g: seq<int>, x: int, y: int)
    requires WellFormed(g) && InGrid(x, y) && IsColor(g[Idx(x, y)])
    ensures Interior(x, y)
  {
  }

  /** The cells of a well-formed grid whose flat indices in [lo, hi) lie off the playable area hold the wall. */
  lemma WallCells(g: seq<int>, lo: int, hi: int)
    requires WellFormed(g) && 0 <= lo <= hi <= 100
    requires forall p :: lo <= p < hi ==> !Interior(p / 10, p % 10)
    ensures forall p :: lo <= p < hi ==> g[p] == WALL
  {
    forall p | lo <= p < hi ensures g[p] == WALL {
      DivModIdx(p);
    }
  }

  /** Number of cells among the first n that hold v. */
  function CountUpTo(s: seq<int>, v: int, n: int): (r: nat)
    requires 0 <= n <= |s|
    ensures r <= n
  {
    if n == 0 then 0 else CountUpTo(s, v, n - 1) + (if s[n - 1] == v then 1 else 0)
  }

  /** Number of cells that hold v. */
  function Count(s: seq<int>, v: int): nat {
    CountUpTo(s, v, |s|)
  }

  /** Overwriting one cell moves that cell from the tally of its old value to that of its new one. */
  lemma {:induction false} CountUpToUpdate(s: seq<int>, p: int, w: int, v: int, n: int)
    requires 0 <= p < |s| && 0 <= n <= |s|
    ensures CountUpTo(s[p := w], v, n)
         == CountUpTo(s, v, n) - (if p < n && s[p] == v then 1 else 0) + (if p < n && w == v then 1 else 0)
  {
    if n > 0 {
      CountUpToUpdate(s, p, w, v, n - 1);
    }
  }

  lemma CountUpdate(s: seq<int>, p: int, w: int, v: int)
    requires 0 <= p < |s|
    ensures Count(s[p := w], v) == Count(s, v) - (if s[p] == v then 1 else 0) + (if w == v then 1 else 0)
  {
    CountUpToUpdate(s, p, w, v, |s|);
  }

  /** An unsigned byte of the snapshot buffer. */
  newtype Byte = b: int | 0 <= b < 256

  /** A cell code as the signed 8-bit value the snapshot stores. */
  predicate IsInt8(v: int) {
    -128 <= v < 128
  }

  function EncodeCell(v: int): (b: Byte)
    requires IsInt8(v)
    ensures (b < 128) == (v >= 0)
  {
    if v < 0 then (v + 256) as Byte else v as Byte
  }

  function DecodeCell(b: Byte): (v: int)
    ensures IsInt8(v)
  {
    if b >= 128 then b as int - 256 else b as int
  }

  /** The byte snapshot of a grid, one signed byte per cell in flat-index order. */
  function EncodeGrid(g: seq<int>): (bytes: seq<Byte>)
    requires forall p :: 0 <= p < |g| ==> IsInt8(g[p])
    ensures |bytes| == |g|
  {
    seq(|g|, p requires 0 <= p < |g| => EncodeCell(g[p]))
  }

  function DecodeGrid(bytes: seq<Byte>): (g: seq<int>)
    ensures |g| == |bytes|
    ensures forall p :: 0 <= p < |g| ==> IsInt8(g[p])
  {
    seq(|bytes|, p requires 0 <= p < |bytes| => DecodeCell(bytes[p]))
  }

  /** Every cell code survives the snapshot: decoding the encoding gives the grid back. */
  lemma DecodeEncode(g: seq<int>)
    requires forall p :: 0 <= p < |g| ==> IsInt8(g[p])
    ensures DecodeGrid(EncodeGrid(g)) == g
  {
  }

  /** And every buffer survives a load followed by a save. */
  lemma EncodeDecode(bytes: seq<Byte>)
    ensures EncodeGrid(DecodeGrid(bytes)) == bytes
  {
  }

  /** A well-formed grid holds only codes that fit a signed byte. */
  lemma WellFormedFitsBytes(g: seq<int>)
    requires WellFormed(g)
    ensures forall p :: 0 <= p < |g| ==> IsInt8(g[p])
  {
    forall p | 0 <= p < |g| ensures IsInt8(g[p]) {
      DivModIdx(p);
    }
  }

  /** The cell a new game starts with at (x, y). */
  function InitialCell(x: int, y: int): int {
    if !Interior(x, y) then WALL
    else if (x == 4 && y == 4) || (x == 5 && y == 5) then WHITE
    else if (x == 4 && y == 5) || (x == 5 && y == 4) then BLACK
    else EMPTY
  }

  function InitialGrid(): seq<int> {
    seq(100, p requires 0 <= p < 100 => InitialCell(p / 10, p % 10))
  }

  /** The opening grid is well formed, with two discs of each colour on the centre diagonals. */
  lemma InitialGridShape()
    ensures WellFormed(InitialGrid())
    ensures InitialGrid()[Idx(4, 4)] == WHITE && InitialGrid()[Idx(5, 5)] == WHITE
    ensures InitialGrid()[Idx(4, 5)] == BLACK && InitialGrid()[Idx(5, 4)] == BLACK
    ensures forall x, y :: Interior(x, y) && !(4 <= x <= 5 && 4 <= y <= 5) ==> InitialGrid()[Idx(x, y)] == EMPTY
  {
    var g := InitialGrid();
    forall x, y | InGrid(x, y) ensures g[Idx(x, y)] == InitialCell(x, y) {
      IdxDivMod(x, y);
    }
  }
}
