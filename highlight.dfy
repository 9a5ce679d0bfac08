/** The hover bookkeeping of one rendered formula cell in src/table.ts
    (`highlightCells`, `clearHighlight` and the `isMouseOver` flag): the
    cells of the formula's range are highlighted after the pointer rests on
    the cell and exactly those styles are removed when it leaves. */
module Highlight {
  import opened Wrappers
  import opened Host
  import opened Positions
  import opened Formulas
  import opened Ranges

  const Selected: string := "is-selected"

  /** A record `{el, cls}`: the cell whose element got the classes `cls`. */
  datatype Mark = Mark(cell: TableCell, cls: seq<string>)

  /** `['is-selected', ...border]`. */
  function Classes(border: seq<Side>): (cls: seq<string>)
    ensures |cls| == |border| + 1 && cls[0] == Selected
    ensures forall i :: 0 <= i < |border| ==> cls[i + 1] == SideName(border[i])
  {
    [Selected] + seq(|border|, i requires 0 <= i < |border| => SideName(border[i]))
  }

  /** One record per entry of the bordered range, in its order. */
  function Marks(range: seq<BorderCell>): seq<Mark> {
    seq(|range|, i requires 0 <= i < |range| => Mark(range[i].cell, Classes(range[i].border)))
  }

  /** What `highlightCells(table, formula)` records, or `None` when it leaves
      the records alone: the formula does not parse (it returns early) or the
      range lookup throws. */
  function Highlighted(table: Grid, formula: string): Option<seq<Mark>> {
    match GetStartAndEndPos(formula)
    case Err(_) => None
    case Ok(p) =>
      match BorderRange(table, p.startPos, p.endPos)
      case Err(_) => None
      case Ok(range) => Some(Marks(range))
  }

  /** An edge class is recorded exactly when the entry lies on that edge. */
  lemma ClassesOfSides(border: seq<Side>, s: Side)
    ensures SideName(s) in Classes(border) <==> s in border
  {
    var cls := Classes(border);
    if SideName(s) in cls {
      var i :| 0 <= i < |cls| && cls[i] == SideName(s);
      assert i != 0;
      assert border[i - 1] == s;
    }
    if s in border {
      var i :| 0 <= i < |border| && border[i] == s;
      assert cls[i + 1] == SideName(s);
    }
  }

  /** Each record of a highlight is a cell of the formula's range, classed
      `is-selected` and `top`, `bottom`, `left`, `right` exactly when it lies
      in the range's first row, last row, first column, last column. */
  lemma HighlightedTags(table: Grid, formula: string, k: nat)
    requires Highlighted(table, formula).Some? && k < |Highlighted(table, formula).value|
    ensures var p := GetStartAndEndPos(formula).value;
      var b := Resolve(table, ParsePosition(p.startPos), ParsePosition(p.endPos)).value;
      var o := BorderRange(table, p.startPos, p.endPos).value[k];
      var m := Highlighted(table, formula).value[k];
      m.cell == o.cell && CellAt(table, o.row, o.col) == Some(m.cell) && Within(b, o.row, o.col) &&
      m.cls[0] == Selected &&
      (SideName(Top) in m.cls <==> o.row == b.startRow.value) &&
      (SideName(Bottom) in m.cls <==> o.row == b.endRow.value) &&
      (SideName(Left) in m.cls <==> o.col == b.startCol.value) &&
      (SideName(Right) in m.cls <==> o.col == b.endCol.value)
  {
    var p := GetStartAndEndPos(formula).value;
    var range := BorderRange(table, p.startPos, p.endPos).value;
    assert Highlighted(table, formula).value == Marks(range);
    var o := range[k];
    BorderRangeTags(table, p.startPos, p.endPos, k);
    ClassesOfSides(o.border, Top);
    ClassesOfSides(o.border, Bottom);
    ClassesOfSides(o.border, Left);
    ClassesOfSides(o.border, Right);
  }

  /** The loop of `highlightCells`: `highlightedCells` is emptied and gets one
      record per entry of the range. */
  method RecordMarks(cells: seq<BorderCell>) returns (marks: seq<Mark>)
    ensures marks == Marks(cells)
  {
    marks := [];
    var i := 0;
    while i < |cells|
      invariant 0 <= i <= |cells|
      invariant marks == Marks(cells[..i])
    {
      marks := marks + [Mark(cells[i].cell, Classes(cells[i].border))];
      i := i + 1;
    }
    assert cells[..i] == cells;
  }

  /** The closure state `handleRenderMethod` creates for one formula cell:
      the table and formula it was rendered with, `isMouseOver`, whether a
      hover timer is pending, and `highlightedCells`. */
  class HoverState {
    const table: Grid
    const formula: string
    var isMouseOver: bool
    var armed: bool
    var highlighted: seq<Mark>

    /** A timer is pending only while the pointer is over the cell and
        nothing is highlighted yet, and nothing stays highlighted once the
        pointer has left: a hover never stacks on an earlier one. */
    ghost predicate Valid()
      reads this
    {
      (armed ==> isMouseOver && highlighted == []) && (!isMouseOver ==> highlighted == [])
    }

    constructor (table: Grid, formula: string)
      ensures this.table == table && this.formula == formula
      ensures !isMouseOver && !armed && highlighted == [] && Valid()
    {
      this.table, this.formula := table, formula;
      isMouseOver, armed, highlighted := false, false, [];
    }

    /** `onmouseover`: the first one arms the timer; later ones, while the
        pointer stays, change nothing. */
    method MouseOver()
      requires Valid()
      modifies this
      ensures Valid()
      ensures old(isMouseOver) ==> isMouseOver && armed == old(armed) && highlighted == old(highlighted)
      ensures !old(isMouseOver) ==> isMouseOver && armed && highlighted == []
    {
      if !isMouseOver {
        isMouseOver := true;
        armed := true;
      }
    }

    /** `highlightCells(table, formula)`: an unparsable formula or a failing
        range lookup leaves the records as they were; otherwise they are
        replaced by one record per cell of the bordered range. */
    method HighlightCells()
      modifies this
      ensures isMouseOver == old(isMouseOver) && armed == old(armed)
      ensures highlighted == match Highlighted(table, formula)
        case None => old(highlighted)
        case Some(marks) => marks
    {
      var pos := GetStartAndEndPos(formula);
      if pos.Err? {
        return;
      }
      var range := GetBorderRange(table, pos.value.startPos, pos.value.endPos);
      if range.Err? {
        return;
      }
      highlighted := RecordMarks(range.value);
    }

    /** The hover timer fires: it is no longer pending and the cells are
        highlighted. */
    method TimerFires()
      requires Valid() && armed
      modifies this
      ensures Valid() && isMouseOver && !armed
      ensures highlighted == match Highlighted(table, formula)
        case None => []
        case Some(marks) => marks
    {
      armed := false;
      HighlightCells();
    }

    /** `onmouseout`: the pending timer is cancelled, the flag reset and every
        recorded style removed. */
    method MouseOut()
      modifies this
      ensures Valid() && !isMouseOver && !armed && highlighted == []
    {
      armed := false;
      isMouseOver := false;
      highlighted := [];
    }
  }
}
