/** The range resolver of src/utils.ts (`getRange`, `getBorderRange`): two
    reference tokens become a rectangle of the table, whose missing sides
    default to the table's edges, and the cells that exist inside it are
    enumerated in row-major order. */
module Ranges {
  import opened Wrappers
  import opened Host
  import JsNumber
  import opened Positions

  /** The error thrown when the end column defaults to `table[0].length - 1`
      and the table has no first row. */
  const NoFirstRow: string := ReadingUndefined("length")

  /** The four loop bounds, each an integer or NaN. */
  datatype Bounds = Bounds(startRow: Coord, endRow: Coord, startCol: Coord, endCol: Coord)

  /** The bounds of the rectangle: a missing start row or column is 0, a
      missing end row the last row and a missing end column the last column of
      the first row, which fails on an empty table. A NaN coordinate is kept. */
  function Resolve(table: Grid, start: Position, end: Position): (r: Result<Bounds>)
    ensures r.Err? <==> end.col.None? && table == []
    ensures r.Err? ==> r.msg == NoFirstRow
    ensures r.Ok? ==> r.value.startRow == (if start.row.None? then Int(0) else start.row.value)
    ensures r.Ok? ==> r.value.endRow == (if end.row.None? then Int(|table| - 1) else end.row.value)
    ensures r.Ok? ==> r.value.startCol == (if start.col.None? then Int(0) else start.col.value)
    ensures r.Ok? ==> r.value.endCol == (if end.col.None? then Int(|table[0]| - 1) else end.col.value)
  {
    var startRow := if start.row.Some? then start.row.value else Int(0);
    var endRow := if end.row.Some? then end.row.value else Int(|table| - 1);
    var startCol := if start.col.Some? then start.col.value else Int(0);
    if end.col.None? && table == [] then Err(NoFirstRow)
    else
      var endCol := if end.col.Some? then end.col.value else Int(|table[0]| - 1);
      Ok(Bounds(startRow, endRow, startCol, endCol))
  }

  /** Whether (r, c) lies in the rectangle. A NaN bound makes every loop test
      false, so such a rectangle holds nothing. */
  predicate Within(b: Bounds, r: int, c: int) {
    b.startRow.Int? && b.endRow.Int? && b.startCol.Int? && b.endCol.Int? &&
    b.startRow.value <= r <= b.endRow.value && b.startCol.value <= c <= b.endCol.value
  }

  /** An existing cell of the table met by the enumeration, with its coordinates. */
  datatype Hit = Hit(row: int, col: int, cell: TableCell)

  /** Whether the enumeration keeps the slot (r, c): it is not in the ignored
      column and `table[r] && table[r][c]` holds. */
  predicate Kept(table: Grid, r: int, c: int, ignore: Option<int>) {
    ignore != Some(c) && CellAt(table, r, c).Some?
  }

  /** The kept slots of row `r` in columns `c0..c1`, left to right. */
  function RowHits(table: Grid, r: int, c0: int, c1: int, ignore: Option<int>): seq<Hit>
    decreases c1 - c0
  {
    if c1 < c0 then []
    else
      var last := if Kept(table, r, c1, ignore) then [Hit(r, c1, CellAt(table, r, c1).value)] else [];
      RowHits(table, r, c0, c1 - 1, ignore) + last
  }

  /** The kept slots of rows `r0..r1` and columns `c0..c1`, row by row. */
  function GridHits(table: Grid, r0: int, r1: int, c0: int, c1: int, ignore: Option<int>): seq<Hit>
    decreases r1 - r0
  {
    if r1 < r0 then []
    else GridHits(table, r0, r1 - 1, c0, c1, ignore) + RowHits(table, r1, c0, c1, ignore)
  }

  /** The kept slots of the rectangle `b`. */
  function Hits(table: Grid, b: Bounds, ignore: Option<int>): seq<Hit> {
    if b.startRow.Int? && b.endRow.Int? && b.startCol.Int? && b.endCol.Int? then
      GridHits(table, b.startRow.value, b.endRow.value, b.startCol.value, b.endCol.value, ignore)
    else []
  }

  /** The texts of the hits, in their order. */
  function Texts(hits: seq<Hit>): (t: seq<string>)
    ensures |t| == |hits|
  {
    if hits == [] then [] else Texts(hits[..|hits| - 1]) + [hits[|hits| - 1].cell.text]
  }

  lemma TextsPush(hits: seq<Hit>, h: Hit)
    ensures Texts(hits + [h]) == Texts(hits) + [h.cell.text]
  {
    assert (hits + [h])[..|hits|] == hits;
  }

  /** One more column of row `row` after the hits `done`. */
  lemma {:induction false} RowStep(table: Grid, done: seq<Hit>, row: int, c0: int, col: int, ignore: Option<int>)
    requires c0 <= col
    ensures Kept(table, row, col, ignore) ==>
              done + RowHits(table, row, c0, col, ignore) ==
              done + RowHits(table, row, c0, col - 1, ignore) + [Hit(row, col, CellAt(table, row, col).value)]
    ensures !Kept(table, row, col, ignore) ==>
              done + RowHits(table, row, c0, col, ignore) == done + RowHits(table, row, c0, col - 1, ignore)
  {
    if !Kept(table, row, col, ignore) {
      assert RowHits(table, row, c0, col, ignore) == RowHits(table, row, c0, col - 1, ignore) + [];
    }
  }

  /** One more column of the text loop: a kept cell adds its hit and its
      text, any other slot adds nothing. */
  lemma TextsStep(table: Grid, done: seq<Hit>, hits: seq<Hit>, values: seq<string>, row: int, c0: int, col: int, ignore: Option<int>)
    requires c0 <= col && hits == done + RowHits(table, row, c0, col - 1, ignore) && values == Texts(hits)
    ensures Kept(table, row, col, ignore) ==>
      var h := Hit(row, col, CellAt(table, row, col).value);
      hits + [h] == done + RowHits(table, row, c0, col, ignore) && values + [h.cell.text] == Texts(hits + [h])
    ensures !Kept(table, row, col, ignore) ==> hits == done + RowHits(table, row, c0, col, ignore)
  {
    RowStep(table, done, row, c0, col, ignore);
    if Kept(table, row, col, ignore) {
      TextsPush(hits, Hit(row, col, CellAt(table, row, col).value));
    }
  }

  /** The column loop has run to its end. */
  lemma {:induction false} RowDone(table: Grid, row: int, c0: int, c1: int, col: int, ignore: Option<int>)
    requires c0 <= col && (col <= c1 + 1 || col == c0) && col > c1
    ensures RowHits(table, row, c0, col - 1, ignore) == RowHits(table, row, c0, c1, ignore)
  {
  }

  /** The row loop has run to its end. */
  lemma {:induction false} GridDone(table: Grid, r0: int, r1: int, c0: int, c1: int, row: int, ignore: Option<int>)
    requires r0 <= row && (row <= r1 + 1 || row == r0) && row > r1
    ensures GridHits(table, r0, row - 1, c0, c1, ignore) == GridHits(table, r0, r1, c0, c1, ignore)
  {
  }

  /** One more row of the rectangle. */
  lemma {:induction false} GridStep(table: Grid, r0: int, row: int, c0: int, c1: int, ignore: Option<int>)
    requires r0 <= row
    ensures GridHits(table, r0, row, c0, c1, ignore) ==
      GridHits(table, r0, row - 1, c0, c1, ignore) + RowHits(table, row, c0, c1, ignore)
  {
  }

  /** What `getRange(table, startPos, endPos, ignoreCol)` returns: the texts of
      the cells in the rectangle outside column `ignoreCol`, or the error the
      bounds throw. */
  function RangeTexts(table: Grid, startPos: string, endPos: string, ignoreCol: int): Result<seq<string>> {
    match Resolve(table, ParsePosition(startPos), ParsePosition(endPos))
    case Err(m) => Err(m)
    case Ok(b) => Ok(Texts(Hits(table, b, Some(ignoreCol))))
  }

  /** A rectangle with integer bounds: rows `r0..r1`, columns `c0..c1`. */
  datatype Rect = Rect(r0: int, r1: int, c0: int, c1: int)

  /** The rectangle of bounds that are all integers. */
  function RectOf(b: Bounds): Rect
    requires b.startRow.Int? && b.endRow.Int? && b.startCol.Int? && b.endCol.Int?
  {
    Rect(b.startRow.value, b.endRow.value, b.startCol.value, b.endCol.value)
  }

  /** `getRange`: the bounds, then the nested loops over the rectangle. */
  method GetRange(table: Grid, startPos: string, endPos: string, ignoreCol: int) returns (r: Result<seq<string>>)
    ensures r == RangeTexts(table, startPos, endPos, ignoreCol)
  {
    var bounds := Resolve(table, ParsePosition(startPos), ParsePosition(endPos));
    if bounds.Err? {
      return Err(bounds.msg);
    }
    var b := bounds.value;
    if b.startRow.Int? && b.endRow.Int? && b.startCol.Int? && b.endCol.Int? {
      var values := CollectTexts(table, RectOf(b), ignoreCol);
      return Ok(values);
    }
    // A NaN bound fails the first loop test, so no loop runs.
    return Ok([]);
  }

  /** The nested loops of `getRange`, pushing the text of every existing cell
      of the rectangle outside column `ignoreCol`. */
  method CollectTexts(table: Grid, q: Rect, ignoreCol: int) returns (values: seq<string>)
    ensures values == Texts(GridHits(table, q.r0, q.r1, q.c0, q.c1, Some(ignoreCol)))
  {
    values := [];
    var row := q.r0;
    ghost var hits: seq<Hit> := [];
    while row <= q.r1
      invariant q.r0 <= row && (row <= q.r1 + 1 || row == q.r0)
      invariant hits == GridHits(table, q.r0, row - 1, q.c0, q.c1, Some(ignoreCol))
      invariant values == Texts(hits)
      decreases q.r1 - row
    {
      values, hits := ScanRowTexts(table, row, q.c0, q.c1, ignoreCol, values, hits);
      GridStep(table, q.r0, row, q.c0, q.c1, Some(ignoreCol));
      row := row + 1;
    }
    GridDone(table, q.r0, q.r1, q.c0, q.c1, row, Some(ignoreCol));
  }

  /** The column loop of `getRange` for row `row`: it pushes the text of every
      existing cell of columns `c0..c1` outside `ignoreCol` after `values0`,
      the texts of the hits `done` met so far. */
  method ScanRowTexts(table: Grid, row: int, c0: int, c1: int, ignoreCol: int,
                      values0: seq<string>, ghost done: seq<Hit>)
    returns (values: seq<string>, ghost hits: seq<Hit>)
    requires values0 == Texts(done)
    ensures hits == done + RowHits(table, row, c0, c1, Some(ignoreCol))
    ensures values == Texts(hits)
  {
    var ignore := Some(ignoreCol);
    values, hits := values0, done;
    assert done + RowHits(table, row, c0, c0 - 1, ignore) == done;
    var col := c0;
    while col <= c1
      invariant c0 <= col && (col <= c1 + 1 || col == c0)
      invariant hits == done + RowHits(table, row, c0, col - 1, ignore)
      invariant values == Texts(hits)
      decreases c1 - col
    {
      TextsStep(table, done, hits, values, row, c0, col, ignore);
      if col != ignoreCol && CellAt(table, row, col).Some? {
        hits := hits + [Hit(row, col, CellAt(table, row, col).value)];
        values := values + [CellAt(table, row, col).value.text];
      }
      col := col + 1;
    }
    RowDone(table, row, c0, c1, col, ignore);
  }


  /** The border edges `getBorderRange` tags a cell with. */
  datatype Side = Top | Bottom | Left | Right

  /** The class name of each edge. */
  function SideName(s: Side): string {
    match s
    case Top => "top"
    case Bottom => "bottom"
    case Left => "left"
    case Right => "right"
  }

  /** A cell of the bordered enumeration, with the edges it lies on. */
  datatype BorderCell = BorderCell(cell: TableCell, row: int, col: int, border: seq<Side>)

  /** The edges of the rectangle that (r, c) lies on, in the order top,
      bottom, left, right. */
  function Sides(q: Rect, r: int, c: int): seq<Side> {
    (if r == q.r0 then [Top] else []) + (if r == q.r1 then [Bottom] else []) +
    (if c == q.c0 then [Left] else []) + (if c == q.c1 then [Right] else [])
  }


  /** Each edge is among the tags exactly when (r, c) lies on it. */
  lemma SidesExact(q: Rect, r: int, c: int)
    ensures Top in Sides(q, r, c) <==> r == q.r0
    ensures Bottom in Sides(q, r, c) <==> r == q.r1
    ensures Left in Sides(q, r, c) <==> c == q.c0
    ensures Right in Sides(q, r, c) <==> c == q.c1
  {
  }

  /** A hit tagged with its edges. */
  function Tag(q: Rect, h: Hit): BorderCell {
    BorderCell(h.cell, h.row, h.col, Sides(q, h.row, h.col))
  }

  /** The hits tagged with their edges. */
  function Tagged(q: Rect, hits: seq<Hit>): (t: seq<BorderCell>)
    ensures |t| == |hits|
  {
    if hits == [] then [] else Tagged(q, hits[..|hits| - 1]) + [Tag(q, hits[|hits| - 1])]
  }

  /** The cell object of one hit: its `border` list starts empty and gets one
      push per edge the cell lies on. */
  method CellObject(q: Rect, h: Hit) returns (obj: BorderCell)
    ensures obj == Tag(q, h)
  {
    var border: seq<Side> := [];
    if h.row == q.r0 { border := border + [Top]; }
    if h.row == q.r1 { border := border + [Bottom]; }
    if h.col == q.c0 { border := border + [Left]; }
    if h.col == q.c1 { border := border + [Right]; }
    obj := BorderCell(h.cell, h.row, h.col, border);
  }

  lemma TaggedPush(q: Rect, hits: seq<Hit>, h: Hit)
    ensures Tagged(q, hits + [h]) == Tagged(q, hits) + [Tag(q, h)]
  {
    assert (hits + [h])[..|hits|] == hits;
  }

  /** Element `k` of the tagged hits is hit `k` with its edges. */
  lemma {:induction false} TaggedAt(q: Rect, hits: seq<Hit>, k: nat)
    requires k < |hits|
    ensures Tagged(q, hits)[k] == Tag(q, hits[k])
    decreases |hits|
  {
    if k < |hits| - 1 {
      TaggedAt(q, hits[..|hits| - 1], k);
    }
  }

  /** What `getBorderRange(table, startPos, endPos)` returns: every existing
      cell of the rectangle (no column is ignored) with its edges, or the error
      the bounds throw. */
  function BorderRange(table: Grid, startPos: string, endPos: string): Result<seq<BorderCell>> {
    match Resolve(table, ParsePosition(startPos), ParsePosition(endPos))
    case Err(m) => Err(m)
    case Ok(b) =>
      if b.startRow.Int? && b.endRow.Int? && b.startCol.Int? && b.endCol.Int? then
        Ok(Tagged(RectOf(b), Hits(table, b, None)))
      else Ok([])
  }

  /** `getBorderRange`: the bounds, then the nested loops over the rectangle. */
  method GetBorderRange(table: Grid, startPos: string, endPos: string) returns (r: Result<seq<BorderCell>>)
    ensures r == BorderRange(table, startPos, endPos)
  {
    var bounds := Resolve(table, ParsePosition(startPos), ParsePosition(endPos));
    if bounds.Err? {
      return Err(bounds.msg);
    }
    var b := bounds.value;
    if b.startRow.Int? && b.endRow.Int? && b.startCol.Int? && b.endCol.Int? {
      var selected := CollectBorder(table, RectOf(b));
      return Ok(selected);
    }
    // A NaN bound fails the first loop test, so no loop runs.
    return Ok([]);
  }

  /** The nested loops of `getBorderRange`: every existing cell of the
      rectangle becomes a cell object whose edges are pushed before it is. */
  method CollectBorder(table: Grid, q: Rect) returns (selected: seq<BorderCell>)
    ensures selected == Tagged(q, GridHits(table, q.r0, q.r1, q.c0, q.c1, None))
  {
    selected := [];
    var row := q.r0;
    ghost var hits: seq<Hit> := [];
    while row <= q.r1
      invariant q.r0 <= row && (row <= q.r1 + 1 || row == q.r0)
      invariant hits == GridHits(table, q.r0, row - 1, q.c0, q.c1, None)
      invariant selected == Tagged(q, hits)
      decreases q.r1 - row
    {
      selected, hits := ScanRowBorder(table, q, row, selected, hits);
      GridStep(table, q.r0, row, q.c0, q.c1, None);
      row := row + 1;
    }
    GridDone(table, q.r0, q.r1, q.c0, q.c1, row, None);
  }

  /** The column loop of `getBorderRange` for row `row`: it pushes a cell
      object for every existing cell of the rectangle's columns after
      `selected0`, the objects of the hits `done` met so far. */
  method ScanRowBorder(table: Grid, q: Rect, row: int, selected0: seq<BorderCell>, ghost done: seq<Hit>)
    returns (selected: seq<BorderCell>, ghost hits: seq<Hit>)
    requires selected0 == Tagged(q, done)
    ensures hits == done + RowHits(table, row, q.c0, q.c1, None)
    ensures selected == Tagged(q, hits)
  {
    selected, hits := selected0, done;
    assert done + RowHits(table, row, q.c0, q.c0 - 1, None) == done;
    var col := q.c0;
    while col <= q.c1
      invariant q.c0 <= col && (col <= q.c1 + 1 || col == q.c0)
      invariant hits == done + RowHits(table, row, q.c0, col - 1, None)
      invariant selected == Tagged(q, hits)
      decreases q.c1 - col
    {
      RowStep(table, done, row, q.c0, col, None);
      if CellAt(table, row, col).Some? {
        var h := Hit(row, col, CellAt(table, row, col).value);
        var obj := CellObject(q, h);
        TaggedPush(q, hits, h);
        assert hits + [h] == done + RowHits(table, row, q.c0, col, None);
        hits := hits + [h];
        selected := selected + [obj];
      }
      col := col + 1;
    }
    RowDone(table, row, q.c0, q.c1, col, None);
  }



  /** `a` comes before `b` in row-major order. */
  predicate Before(a: Hit, b: Hit) {
    a.row < b.row || (a.row == b.row && a.col < b.col)
  }

  /** The hits are in strictly increasing row-major order, so no slot appears twice. */
  predicate RowMajor(hits: seq<Hit>) {
    forall i, j :: 0 <= i < j < |hits| ==> Before(hits[i], hits[j])
  }

  /** The hits of one row are exactly its kept slots in the column span. */
  lemma {:induction false} RowHitsMembers(table: Grid, r: int, c0: int, c1: int, ignore: Option<int>, h: Hit)
    ensures h in RowHits(table, r, c0, c1, ignore) <==>
      h.row == r && c0 <= h.col <= c1 && ignore != Some(h.col) && CellAt(table, r, h.col) == Some(h.cell)
    decreases c1 - c0
  {
    if c1 >= c0 {
      RowHitsMembers(table, r, c0, c1 - 1, ignore, h);
    }
  }

  /** The hits of a block of rows are exactly its kept slots. */
  lemma {:induction false} GridHitsMembers(table: Grid, r0: int, r1: int, c0: int, c1: int, ignore: Option<int>, h: Hit)
    ensures h in GridHits(table, r0, r1, c0, c1, ignore) <==>
      r0 <= h.row <= r1 && c0 <= h.col <= c1 && ignore != Some(h.col) && CellAt(table, h.row, h.col) == Some(h.cell)
    decreases r1 - r0
  {
    if r1 >= r0 {
      GridHitsMembers(table, r0, r1 - 1, c0, c1, ignore, h);
      RowHitsMembers(table, r1, c0, c1, ignore, h);
    }
  }

  /** One row's hits run left to right. */
  lemma {:induction false} RowHitsOrdered(table: Grid, r: int, c0: int, c1: int, ignore: Option<int>)
    ensures RowMajor(RowHits(table, r, c0, c1, ignore))
    decreases c1 - c0
  {
    if c1 >= c0 {
      var prefix := RowHits(table, r, c0, c1 - 1, ignore);
      RowHitsOrdered(table, r, c0, c1 - 1, ignore);
      forall i | 0 <= i < |prefix|
        ensures prefix[i].row == r && prefix[i].col < c1
      {
        RowHitsMembers(table, r, c0, c1 - 1, ignore, prefix[i]);
      }
    }
  }

  /** A block of rows' hits run row by row, each row left to right. */
  lemma {:induction false} GridHitsOrdered(table: Grid, r0: int, r1: int, c0: int, c1: int, ignore: Option<int>)
    ensures RowMajor(GridHits(table, r0, r1, c0, c1, ignore))
    decreases r1 - r0
  {
    if r1 >= r0 {
      var prefix := GridHits(table, r0, r1 - 1, c0, c1, ignore);
      var last := RowHits(table, r1, c0, c1, ignore);
      GridHitsOrdered(table, r0, r1 - 1, c0, c1, ignore);
      RowHitsOrdered(table, r1, c0, c1, ignore);
      forall i | 0 <= i < |prefix|
        ensures prefix[i].row < r1
      {
        GridHitsMembers(table, r0, r1 - 1, c0, c1, ignore, prefix[i]);
      }
      forall j | 0 <= j < |last|
        ensures last[j].row == r1
      {
        RowHitsMembers(table, r1, c0, c1, ignore, last[j]);
      }
    }
  }

  /** The enumeration of a rectangle holds exactly the existing cells inside
      it that are outside the ignored column. */
  lemma HitsExactly(table: Grid, b: Bounds, ignore: Option<int>, h: Hit)
    ensures h in Hits(table, b, ignore) <==>
      Within(b, h.row, h.col) && ignore != Some(h.col) && CellAt(table, h.row, h.col) == Some(h.cell)
  {
    if b.startRow.Int? && b.endRow.Int? && b.startCol.Int? && b.endCol.Int? {
      GridHitsMembers(table, b.startRow.value, b.endRow.value, b.startCol.value, b.endCol.value, ignore, h);
    }
  }

  /** The enumeration of a rectangle is in row-major order. */
  lemma HitsRowMajor(table: Grid, b: Bounds, ignore: Option<int>)
    ensures RowMajor(Hits(table, b, ignore))
  {
    if b.startRow.Int? && b.endRow.Int? && b.startCol.Int? && b.endCol.Int? {
      GridHitsOrdered(table, b.startRow.value, b.endRow.value, b.startCol.value, b.endCol.value, ignore);
    }
  }

  /** Text `k` is the text of hit `k`. */
  lemma {:induction false} TextsAt(hits: seq<Hit>, k: nat)
    requires k < |hits|
    ensures Texts(hits)[k] == hits[k].cell.text
    decreases |hits|
  {
    if k < |hits| - 1 {
      TextsAt(hits[..|hits| - 1], k);
    }
  }

  /** `getRange` succeeds with the texts of the enumeration of its rectangle:
      row-major, and a slot is there exactly when it lies in the rectangle,
      is outside column `ignoreCol` and holds a cell. */
  lemma RangeTextsMeaning(table: Grid, startPos: string, endPos: string, ignoreCol: int)
    requires RangeTexts(table, startPos, endPos, ignoreCol).Ok?
    ensures var b := Resolve(table, ParsePosition(startPos), ParsePosition(endPos)).value;
      var hits := Hits(table, b, Some(ignoreCol));
      var texts := RangeTexts(table, startPos, endPos, ignoreCol).value;
      RowMajor(hits) && |texts| == |hits| &&
      (forall k :: 0 <= k < |hits| ==> texts[k] == hits[k].cell.text && hits[k].col != ignoreCol) &&
      (forall h :: h in hits <==> Within(b, h.row, h.col) && h.col != ignoreCol && CellAt(table, h.row, h.col) == Some(h.cell))
  {
    var b := Resolve(table, ParsePosition(startPos), ParsePosition(endPos)).value;
    var hits := Hits(table, b, Some(ignoreCol));
    HitsRowMajor(table, b, Some(ignoreCol));
    forall k | 0 <= k < |hits|
      ensures Texts(hits)[k] == hits[k].cell.text && hits[k].col != ignoreCol
    {
      TextsAt(hits, k);
      HitsExactly(table, b, Some(ignoreCol), hits[k]);
    }
    forall h
      ensures h in hits <==> Within(b, h.row, h.col) && h.col != ignoreCol && CellAt(table, h.row, h.col) == Some(h.cell)
    {
      HitsExactly(table, b, Some(ignoreCol), h);
    }
  }

  /** `getRange` fails only when its end token gives no column and the table
      has no rows. */
  lemma RangeTextsFails(table: Grid, startPos: string, endPos: string, ignoreCol: int)
    ensures RangeTexts(table, startPos, endPos, ignoreCol).Err? <==> ParsePosition(endPos).col.None? && table == []
    ensures RangeTexts(table, startPos, endPos, ignoreCol).Err? ==> RangeTexts(table, startPos, endPos, ignoreCol).msg == NoFirstRow
  {
  }

  /** Every entry of `getBorderRange` is an existing cell of the rectangle,
      tagged top exactly when it is in the start row, bottom exactly when in
      the end row, left exactly when in the start column and right exactly
      when in the end column; and the entries are in row-major order. */
  lemma {:induction false} BorderRangeTags(table: Grid, startPos: string, endPos: string, k: nat)
    requires BorderRange(table, startPos, endPos).Ok? && k < |BorderRange(table, startPos, endPos).value|
    ensures var b := Resolve(table, ParsePosition(startPos), ParsePosition(endPos)).value;
      var o := BorderRange(table, startPos, endPos).value[k];
      Within(b, o.row, o.col) && CellAt(table, o.row, o.col) == Some(o.cell) &&
      (Top in o.border <==> o.row == b.startRow.value) &&
      (Bottom in o.border <==> o.row == b.endRow.value) &&
      (Left in o.border <==> o.col == b.startCol.value) &&
      (Right in o.border <==> o.col == b.endCol.value)
  {
    var b := Resolve(table, ParsePosition(startPos), ParsePosition(endPos)).value;
    var hits := Hits(table, b, None);
    assert b.startRow.Int? && b.endRow.Int? && b.startCol.Int? && b.endCol.Int?;
    assert BorderRange(table, startPos, endPos).value == Tagged(RectOf(b), hits);
    TaggedAt(RectOf(b), hits, k);
    HitsExactly(table, b, None, hits[k]);
    SidesExact(RectOf(b), hits[k].row, hits[k].col);
  }

  /** Every existing cell of the rectangle is an entry of `getBorderRange`
      (no column is ignored), in row-major order. */
  lemma {:induction false} BorderRangeComplete(table: Grid, startPos: string, endPos: string, r: int, c: int)
    requires BorderRange(table, startPos, endPos).Ok?
    requires Within(Resolve(table, ParsePosition(startPos), ParsePosition(endPos)).value, r, c)
    requires CellAt(table, r, c).Some?
    ensures var cells := BorderRange(table, startPos, endPos).value;
      exists k :: 0 <= k < |cells| && cells[k].row == r && cells[k].col == c && Some(cells[k].cell) == CellAt(table, r, c)
  {
    var b := Resolve(table, ParsePosition(startPos), ParsePosition(endPos)).value;
    var hits := Hits(table, b, None);
    var h := Hit(r, c, CellAt(table, r, c).value);
    HitsExactly(table, b, None, h);
    var k :| 0 <= k < |hits| && hits[k] == h;
    TaggedAt(RectOf(b), hits, k);
  }

  /** The entries of `getBorderRange` are in row-major order. */
  lemma {:induction false} BorderRangeRowMajor(table: Grid, startPos: string, endPos: string, i: nat, j: nat)
    requires BorderRange(table, startPos, endPos).Ok?
    requires i < j < |BorderRange(table, startPos, endPos).value|
    ensures var cells := BorderRange(table, startPos, endPos).value;
      cells[i].row < cells[j].row || (cells[i].row == cells[j].row && cells[i].col < cells[j].col)
  {
    var b := Resolve(table, ParsePosition(startPos), ParsePosition(endPos)).value;
    var hits := Hits(table, b, None);
    HitsRowMajor(table, b, None);
    TaggedAt(RectOf(b), hits, i);
    TaggedAt(RectOf(b), hits, j);
  }

  /** A column reference on both sides, such as `B:B`, spans every row of the
      table in that one column, and never fails. */
  lemma {:induction false} ColumnReference(table: Grid, c: nat)
    requires c < 26
    ensures var t := [('A' as int + c) as char];
      Resolve(table, ParsePosition(t), ParsePosition(t)) == Ok(Bounds(Int(0), Int(|table| - 1), Int(c), Int(c)))
  {
    ColumnNameRoundTrip(c);
  }

  /** A row reference on both sides, such as `2:2`, spans every column of the
      first row in that one row; it fails on a table with no rows. */
  lemma {:induction false} RowReference(table: Grid, r: nat)
    ensures var t := JsNumber.NatToString(r + 1);
      Resolve(table, ParsePosition(t), ParsePosition(t)) ==
        if table == [] then Err(NoFirstRow) else Ok(Bounds(Int(r), Int(r), Int(0), Int(|table[0]| - 1)))
  {
    RowNameRoundTrip(r);
  }

  /** Two cell references, such as `A1:C1`, span exactly the rows and columns
      they name. */
  lemma {:induction false} CellReferences(table: Grid, c0: nat, r0: nat, c1: nat, r1: nat)
    requires c0 < 26 && c1 < 26
    ensures Resolve(table, ParsePosition(CellName(c0, r0)), ParsePosition(CellName(c1, r1))) ==
      Ok(Bounds(Int(r0), Int(r1), Int(c0), Int(c1)))
  {
    CellNameRoundTrip(c0, r0);
    CellNameRoundTrip(c1, r1);
  }
}
