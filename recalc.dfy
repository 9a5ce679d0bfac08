/** The recalculation bookkeeping of src/table.ts: which cells are formulas
    (`getFormulaCellSet`), the registry of one recalculation callback per table
    (`getOrCreateDebounceFunction`), the callback's body, and the two tests in
    `handleRenderMethod` that decide when to recalculate and when to evaluate. */
module Recalc {
  import opened Wrappers
  import opened JsText
  import opened JsNumber
  import opened Host
  import Formulas
  import Dispatch

  /** `text?.trim()?.startsWith('=')`. */
  predicate IsFormulaText(text: string) {
    StartsWith(Trim(text), "=")
  }

  /** `set.add(c)` on a set kept in insertion order. */
  function Add(s: seq<TableCell>, c: TableCell): seq<TableCell> {
    if c in s then s else s + [c]
  }

  /** The formula cells of `cells` added, in order, to `acc`. */
  function AddFormulas(acc: seq<TableCell>, cells: seq<TableCell>): seq<TableCell>
    decreases |cells|
  {
    if cells == [] then acc
    else
      var prev := AddFormulas(acc, cells[..|cells| - 1]);
      var c := cells[|cells| - 1];
      if IsFormulaText(c.text) then Add(prev, c) else prev
  }

  /** The cells of `rows`, row by row. */
  function Flatten(rows: seq<seq<TableCell>>): seq<TableCell>
    decreases |rows|
  {
    if rows == [] then [] else Flatten(rows[..|rows| - 1]) + rows[|rows| - 1]
  }

  /** The set `getFormulaCellSet` builds, in the order it adds the cells. */
  function FormulaCellSet(rows: seq<seq<TableCell>>): seq<TableCell> {
    AddFormulas([], Flatten(rows))
  }

  lemma {:induction false} AddFormulasConcat(acc: seq<TableCell>, a: seq<TableCell>, b: seq<TableCell>)
    ensures AddFormulas(acc, a + b) == AddFormulas(AddFormulas(acc, a), b)
    decreases |b|
  {
    if b == [] {
      assert a + b == a;
    } else {
      assert (a + b)[..|a + b| - 1] == a + b[..|b| - 1];
      assert (a + b)[|a + b| - 1] == b[|b| - 1];
      AddFormulasConcat(acc, a, b[..|b| - 1]);
    }
  }

  /** The inner loop: the formula cells of one row added to `acc0`. */
  method ScanRow(row: seq<TableCell>, acc0: seq<TableCell>) returns (acc: seq<TableCell>)
    ensures acc == AddFormulas(acc0, row)
  {
    acc := acc0;
    var j := 0;
    while j < |row|
      invariant 0 <= j <= |row|
      invariant acc == AddFormulas(acc0, row[..j])
    {
      assert row[..j + 1][..j] == row[..j];
      if StartsWith(Trim(row[j].text), "=") && row[j] !in acc {
        acc := acc + [row[j]];
      }
      j := j + 1;
    }
    assert row[..j] == row;
  }

  /** `getFormulaCellSet(data)` over the declared rows. */
  method GetFormulaCellSet(rows: seq<seq<TableCell>>) returns (s: seq<TableCell>)
    ensures s == FormulaCellSet(rows)
  {
    s := [];
    var i := 0;
    while i < |rows|
      invariant 0 <= i <= |rows|
      invariant s == AddFormulas([], Flatten(rows[..i]))
    {
      assert rows[..i + 1][..i] == rows[..i];
      AddFormulasConcat([], Flatten(rows[..i]), rows[i]);
      s := ScanRow(rows[i], s);
      i := i + 1;
    }
    assert rows[..i] == rows;
  }

  /** Adding keeps what was there and takes exactly the formula cells. */
  lemma {:induction false} AddFormulasMembers(acc: seq<TableCell>, cells: seq<TableCell>, c: TableCell)
    ensures c in AddFormulas(acc, cells) <==> c in acc || (c in cells && IsFormulaText(c.text))
    decreases |cells|
  {
    if cells != [] {
      AddFormulasMembers(acc, cells[..|cells| - 1], c);
      assert cells == cells[..|cells| - 1] + [cells[|cells| - 1]];
    }
  }

  predicate Distinct(s: seq<TableCell>) {
    forall i, j :: 0 <= i < j < |s| ==> s[i] != s[j]
  }

  /** No cell is added twice. */
  lemma {:induction false} AddFormulasDistinct(acc: seq<TableCell>, cells: seq<TableCell>)
    requires Distinct(acc)
    ensures Distinct(AddFormulas(acc, cells))
    decreases |cells|
  {
    if cells != [] {
      AddFormulasDistinct(acc, cells[..|cells| - 1]);
    }
  }

  lemma {:induction false} FlattenMembers(rows: seq<seq<TableCell>>, c: TableCell)
    ensures c in Flatten(rows) <==> exists i, j :: 0 <= i < |rows| && 0 <= j < |rows[i]| && rows[i][j] == c
    decreases |rows|
  {
    if rows != [] {
      var init := rows[..|rows| - 1];
      var last := rows[|rows| - 1];
      FlattenMembers(init, c);
      if c in last {
        var j :| 0 <= j < |last| && last[j] == c;
        assert rows[|rows| - 1][j] == c;
      }
      if exists i, j :: 0 <= i < |rows| && 0 <= j < |rows[i]| && rows[i][j] == c {
        var i, j :| 0 <= i < |rows| && 0 <= j < |rows[i]| && rows[i][j] == c;
        if i < |rows| - 1 {
          assert init[i][j] == c;
        } else {
          assert last[j] == c;
        }
      }
    }
  }

  /** The set holds exactly the cells of the rows whose trimmed text starts
      with `=`, each once. */
  lemma FormulaCellSetExact(rows: seq<seq<TableCell>>, c: TableCell)
    ensures c in FormulaCellSet(rows) <==>
      IsFormulaText(c.text) && exists i, j :: 0 <= i < |rows| && 0 <= j < |rows[i]| && rows[i][j] == c
    ensures Distinct(FormulaCellSet(rows))
  {
    AddFormulasMembers([], Flatten(rows), c);
    FlattenMembers(rows, c);
    AddFormulasDistinct([], Flatten(rows));
  }

  /** A cell escaped with `==` is still a formula cell of the set. */
  lemma EscapedIsCollected(text: string)
    requires StartsWith(Trim(text), "==")
    ensures IsFormulaText(text)
  {
    assert Trim(text)[..1] == Trim(text)[..2][..1];
  }

  /** `table.start + '-' + table.end`: the registry key of a table spanning
      document lines `start` to `end`. */
  function TableKey(start: nat, end: nat): string {
    NatToString(start) + "-" + NatToString(end)
  }

  /** The first `-` of `x + "-" + y`, where `x` has none, is at `|x|`. */
  lemma FirstDash(x: string, y: string, x': string, y': string)
    requires '-' !in x'
    ensures x + "-" + y == x' + "-" + y' ==> |x| >= |x'|
  {
    var s := x + "-" + y;
    assert s[|x|] == '-';
    if s == x' + "-" + y' {
      assert forall k :: 0 <= k < |x'| ==> s[k] == x'[k];
    }
  }

  lemma SplitAtDash(x: string, y: string, x': string, y': string)
    requires '-' !in x && '-' !in x'
    requires x + "-" + y == x' + "-" + y'
    ensures x == x' && y == y'
  {
    var s := x + "-" + y;
    FirstDash(x, y, x', y');
    FirstDash(x', y', x, y);
    assert x == s[..|x|] == x';
    assert y == s[|x| + 1..] == y';
  }

  /** Different tables get different keys, so each has its own entry. */
  lemma TableKeyInjective(start: nat, end: nat, start': nat, end': nat)
    ensures TableKey(start, end) == TableKey(start', end') <==> start == start' && end == end'
  {
    if TableKey(start, end) == TableKey(start', end') {
      var x, x' := NatToString(start), NatToString(start');
      assert '-' !in x && '-' !in x' by {
        assert forall k :: 0 <= k < |x| ==> IsDigit(x[k]);
        assert forall k :: 0 <= k < |x'| ==> IsDigit(x'[k]);
      }
      SplitAtDash(x, NatToString(end), x', NatToString(end'));
      NatToStringInjective(start, start');
      NatToStringInjective(end, end');
    }
  }

  /** The registered recalculation callback of one table. The debounce timing
      around it is not modelled: calling it runs its body. */
  class Recalculation {
    constructor () {
    }

    /** The body: every cell of the set is marked dirty and a re-render is
        requested for it; the requests are returned, one per cell, in the
        set's order. */
    method Run(cells: seq<TableCell>) returns (rerendered: seq<TableCell>)
      modifies set c | c in cells
      ensures forall c :: c in cells ==> c.dirty
      ensures rerendered == cells
    {
      rerendered := [];
      var k := 0;
      while k < |cells|
        invariant 0 <= k <= |cells|
        invariant forall i :: 0 <= i < k ==> cells[i].dirty
        invariant rerendered == cells[..k]
      {
        cells[k].dirty := true;
        rerendered := rerendered + [cells[k]];
        k := k + 1;
      }
      assert cells[..k] == cells;
    }
  }

  /** The process-wide `debounceMap`. */
  class Registry {
    var entries: map<string, Recalculation>

    constructor ()
      ensures entries == map[]
    {
      entries := map[];
    }

    /** `getOrCreateDebounceFunction(table)`: the entry for the table's key,
        created on the first call and returned unchanged on every later one;
        no other entry changes and none is ever removed. */
    method GetOrCreate(start: nat, end: nat) returns (f: Recalculation)
      modifies this
      ensures TableKey(start, end) in entries && entries[TableKey(start, end)] == f
      ensures TableKey(start, end) in old(entries) ==> entries == old(entries)
      ensures TableKey(start, end) !in old(entries) ==>
        fresh(f) && entries == old(entries)[TableKey(start, end) := f]
    {
      var key := NatToString(start) + "-" + NatToString(end);
      if key !in entries {
        var created := new Recalculation();
        entries := entries[key := created];
      }
      f := entries[key];
    }
  }

  /** The recalculation test: the table has one or two rows fewer than the
      document has lines, and the edited cell is not itself a formula. */
  predicate ShouldRecalculate(rowCount: nat, docLength: int, text: string) {
    (rowCount == docLength - 2 || rowCount == docLength - 1) && !StartsWith(Trim(text), "=")
  }

  /** The evaluation test: the text is not empty, has no `<br>`, and trimmed
      starts with `=` but not with `==`. */
  predicate ShouldEvaluate(text: string) {
    text != [] && !Contains(text, "<br>") && StartsWith(Trim(text), "=") && !StartsWith(Trim(text), "==")
  }

  /** `dataText.trim().slice(1)`: the formula after its `=`. */
  function FormulaOf(text: string): (f: string)
    requires IsFormulaText(text)
    ensures "=" + f == Trim(text)
  {
    Trim(text)[1..]
  }

  /** The evaluation step: when the text passes the evaluation test, the
      cell shows what `parseAndCompute` gives for the formula after its `=`,
      with the cell's own column ignored; otherwise nothing is evaluated.
      `table` is what `Reconcile.GetTable` gives for the rendered table: the
      render passes `getTable(data)` here. */
  function Evaluated(table: Grid, col: nat, text: string): (o: Option<Dispatch.Output>)
    ensures o.Some? <==> ShouldEvaluate(text)
    ensures o.Some? ==> !StartsWith(FormulaOf(text), "=")
    ensures o.Some? ==> o.value == Dispatch.ParseAndCompute(table, FormulaOf(text), col)
    ensures o.Some? && o.value.Text? ==> StartsWith(o.value.s, Formulas.ErrorPrefix)
  {
    if ShouldEvaluate(text) then
      EvaluatedFormulaPlain(text);
      Some(Dispatch.ParseAndCompute(table, FormulaOf(text), col))
    else None
  }

  /** The formula handed to the engine never starts with a further `=`. */
  lemma EvaluatedFormulaPlain(text: string)
    requires ShouldEvaluate(text)
    ensures !StartsWith(FormulaOf(text), "=")
  {
  }

  /** An edit that triggers recalculation is never to a formula cell, and a
      cell that is evaluated never triggers recalculation. */
  lemma GatesExclusive(rowCount: nat, docLength: int, text: string)
    ensures ShouldRecalculate(rowCount, docLength, text) ==> !IsFormulaText(text)
    ensures ShouldEvaluate(text) ==> IsFormulaText(text) && !ShouldRecalculate(rowCount, docLength, text)
  {
  }

  /** A text written `==...` is never evaluated. */
  lemma EscapedNotEvaluated(text: string)
    requires StartsWith(Trim(text), "==")
    ensures !ShouldEvaluate(text)
  {
  }
}
