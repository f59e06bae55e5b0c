/** Parsing of a two-character move such as "3c" or "C3" into grid coordinates. */
module Coords {
  import opened Constants

  datatype Option<T> = None | Some(value: T)

  /** A row digit '1'..'8'. */
  predicate IsRowDigit(ch: char) {
    '1' <= ch <= '8'
  }

  /** The column named by a letter a..h or A..H, counted from 1. */
  function LetterColumn(ch: char): (x: Option<int>)
    ensures x.Some? <==> ('a' <= ch <= 'h' || 'A' <= ch <= 'H')
    ensures x.Some? ==> 1 <= x.value <= BOARD_SIZE
  {
    if 'a' <= ch <= 'h' then Some(ch as int - 'a' as int + 1)
    else if 'A' <= ch <= 'H' then Some(ch as int - 'A' as int + 1)
    else None
  }

  /**
   * The (x, y) pair of a move text: y from the digit, x from the letter.
   * The digit-first form is tried first; the letter-first form only when
   * the first character is not a row digit.
   */
  function Pos2Xy(pos: string): (r: (Option<int>, Option<int>))
    ensures |pos| != 2 ==> r == (None, None)
    ensures r.0.Some? ==> 1 <= r.0.value <= BOARD_SIZE
    ensures r.1.Some? ==> 1 <= r.1.value <= BOARD_SIZE
    ensures r.0.Some? ==> r.1.Some?
  {
    if |pos| != 2 then (None, None)
    else if IsRowDigit(pos[0]) then (LetterColumn(pos[1]), Some(pos[0] as int - '0' as int))
    else if IsRowDigit(pos[1]) then (LetterColumn(pos[0]), Some(pos[1] as int - '0' as int))
    else (None, None)
  }

  /** The text a user may type for column x and row y, in either order and either case. */
  function Spell(x: int, y: int, digitFirst: bool, upper: bool): (s: string)
    requires 1 <= x <= BOARD_SIZE && 1 <= y <= BOARD_SIZE
    ensures |s| == 2
  {
    var letter := ((if upper then 'A' else 'a') as int + x - 1) as char;
    var digit := ('0' as int + y) as char;
    if digitFirst then [digit, letter] else [letter, digit]
  }

  /** Every spelling of a square parses back to that square. */
  lemma ParseSpell(x: int, y: int, digitFirst: bool, upper: bool)
    requires 1 <= x <= BOARD_SIZE && 1 <= y <= BOARD_SIZE
    ensures Pos2Xy(Spell(x, y, digitFirst, upper)) == (Some(x), Some(y))
  {
  }

  /** Conversely, a text that yields both coordinates is one of the four spellings of that square. */
  lemma ParseOnlySpellings(pos: string)
    requires Pos2Xy(pos).0.Some? && Pos2Xy(pos).1.Some?
    ensures exists digitFirst: bool, upper: bool ::
              pos == Spell(Pos2Xy(pos).0.value, Pos2Xy(pos).1.value, digitFirst, upper)
  {
    var x, y := Pos2Xy(pos).0.value, Pos2Xy(pos).1.value;
    var digitFirst := IsRowDigit(pos[0]);
    var letter := if digitFirst then pos[1] else pos[0];
    var upper := 'A' <= letter <= 'H';
    assert pos == Spell(x, y, digitFirst, upper);
  }

  /** Upper- and lower-case letters name the same column, in both forms. */
  lemma CaseInsensitive(d: char, ch: char)
    requires IsRowDigit(d) && 'a' <= ch <= 'h'
    ensures var up := (ch as int - 'a' as int + 'A' as int) as char;
            Pos2Xy([d, ch]) == Pos2Xy([d, up]) && Pos2Xy([ch, d]) == Pos2Xy([up, d])
  {
  }

  /** A leading row digit always fixes y, whatever follows ("3z" gives y but no x; "11" reads as row 1). */
  lemma DigitFirstWins(pos: string)
    requires |pos| == 2 && IsRowDigit(pos[0])
    ensures Pos2Xy(pos).1 == Some(pos[0] as int - '0' as int)
    ensures Pos2Xy(pos).0.Some? <==> ('a' <= pos[1] <= 'h' || 'A' <= pos[1] <= 'H')
  {
  }

  /** Digits '0' and '9' never give a coordinate. */
  lemma OutOfBoardDigits(pos: string)
    requires |pos| == 2 && (pos[0] == '0' || pos[0] == '9') && (pos[1] == '0' || pos[1] == '9')
    ensures Pos2Xy(pos) == (None, None)
  {
  }
}
