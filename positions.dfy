/** The position resolver of src/utils.ts: a reference token such as `A`, `12`
    or `B3` becomes a partial, zero-based (row, column) coordinate. */
module Positions {
  import opened Wrappers
  import opened JsText
  import opened JsNumber

  /** A coordinate as JavaScript computes it: an integer, or `Unparsed` for
      the NaN a token that does not parse gives. */
  datatype Coord = Unparsed | Int(value: int)

  /** `{ row?, col? }`: an absent field is `None`. */
  datatype Position = Position(row: Option<Coord>, col: Option<Coord>)

  /** `ch.charCodeAt(0) - 'A'.charCodeAt(0)`. */
  function ColumnOf(ch: char): int {
    ch as int - 'A' as int
  }

  /** `parseInt(t) - 1`, where NaN stays NaN. */
  function RowOf(t: string): Coord {
    match ParseInt(t)
    case None => Unparsed
    case Some(n) => Int(n - 1)
  }

  /** `parsePosition(pos)`: a token `parseInt` accepts is a row; otherwise a
      one-character token is a column; otherwise the first character is the
      column and the rest the one-based row. Nothing is rejected: the empty
      token gives NaN for both. */
  function ParsePosition(pos: string): (p: Position)
    ensures p.row.Some? || p.col.Some?
    ensures p.col.None? <==> ParseInt(pos).Some?
    ensures p.row.None? <==> ParseInt(pos).None? && |pos| == 1
  {
    if ParseInt(pos).Some? then Position(Some(RowOf(pos)), None)
    else if |pos| == 1 then Position(None, Some(Int(ColumnOf(pos[0]))))
    else if pos == [] then Position(Some(Unparsed), Some(Unparsed))
    else Position(Some(RowOf(pos[1..])), Some(Int(ColumnOf(pos[0]))))
  }

  predicate IsAsciiLetter(c: char) {
    ('A' <= c <= 'Z') || ('a' <= c <= 'z')
  }

  /** A token of decimal digits `n` is the row `n - 1`, with no column. */
  lemma {:induction false} PositionOfDigits(s: string)
    requires s != [] && AllDigits(s)
    ensures ParsePosition(s) == Position(Some(Int(DigitsValue(s) - 1)), None)
  {
    ParseIntDigits(s);
    assert RowOf(s) == Int(DigitsValue(s) - 1);
  }

  /** A one-character token that is not a digit is a column, with no row. */
  lemma {:induction false} PositionOfOneChar(ch: char)
    requires !IsDigit(ch)
    ensures ParsePosition([ch]) == Position(None, Some(Int(ColumnOf(ch))))
  {
    var s := [ch];
    assert s[0] == ch;
    ParseIntNoDigits(s);
    assert ParseInt(s).None? && |s| == 1;
  }

  /** A longer token that starts with a letter is a cell: the letter gives the
      column, `parseInt` of the rest minus one the row. */
  lemma {:induction false} PositionOfCell(s: string)
    requires |s| >= 2 && IsAsciiLetter(s[0])
    ensures ParsePosition(s) == Position(Some(RowOf(s[1..])), Some(Int(ColumnOf(s[0]))))
  {
    ParseIntNaN(s);
  }

  /** The reference naming column `c` (0 for `A`) and zero-based row `r`. */
  function CellName(c: nat, r: nat): string
    requires c < 26
  {
    [('A' as int + c) as char] + NatToString(r + 1)
  }

  /** Reading back the name of column `c`, row `r` gives exactly (r, c). */
  lemma {:induction false} CellNameRoundTrip(c: nat, r: nat)
    requires c < 26
    ensures ParsePosition(CellName(c, r)) == Position(Some(Int(r)), Some(Int(c)))
  {
    var ch := ('A' as int + c) as char;
    var digits := NatToString(r + 1);
    var s := CellName(c, r);
    assert s == [ch] + digits;
    assert s[0] == ch && ColumnOf(ch) == c;
    assert s[1..] == digits;
    ParseIntDigits(digits);
    assert RowOf(digits) == Int(r);
    PositionOfCell(s);
  }

  /** Reading back a one-based row number gives just that row. */
  lemma {:induction false} RowNameRoundTrip(r: nat)
    ensures ParsePosition(NatToString(r + 1)) == Position(Some(Int(r)), None)
  {
    PositionOfDigits(NatToString(r + 1));
  }

  /** Reading back a column letter gives just that column. */
  lemma {:induction false} ColumnNameRoundTrip(c: nat)
    requires c < 26
    ensures ParsePosition([('A' as int + c) as char]) == Position(None, Some(Int(c)))
  {
    var ch := ('A' as int + c) as char;
    assert ch as int == 'A' as int + c;
    assert ColumnOf(ch) == c;
    PositionOfOneChar(ch);
  }
}
