/** What the formula engine receives from the host editor: table cells (objects
    with identity, so that sets of cells and highlight records refer to the
    same cell) and the table handed to the engine. */
module Host {
  import opened Wrappers

  /** A table cell. Its coordinates and text are fixed while the engine works
      on it; `dirty` is the flag the recalculation pass sets. */
  class TableCell {
    const row: nat
    const col: nat
    const text: string
    var dirty: bool

    constructor (row: nat, col: nat, text: string)
      ensures this.row == row && this.col == col && this.text == text && !dirty
    {
      this.row, this.col, this.text := row, col, text;
      dirty := false;
    }
  }

  /** The table the engine evaluates over: rows of slots, where `None` is an
      `undefined` entry (the rebuilt table can have them). */
  type Grid = seq<seq<Option<TableCell>>>

  /** `table[r] && table[r][c]`: the cell at (r, c) if the row exists and has
      an entry there. */
  function CellAt(table: Grid, r: int, c: int): (s: Option<TableCell>)
    ensures s.Some? ==> 0 <= r < |table| && 0 <= c < |table[r]| && table[r][c] == s
  {
    if 0 <= r < |table| && 0 <= c < |table[r]| then table[r][c] else None
  }

  /** The message of the TypeError the host engine (V8) throws when a property
      `key` is read from `undefined`. */
  function ReadingUndefined(key: string): string {
    "Cannot read properties of undefined (reading '" + key + "')"
  }
}
