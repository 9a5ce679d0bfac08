/** The grid snapshot of src/table.ts (`getTable`): the host's cells sorted by
    position and, when there are more of them than the declared rows can hold,
    sliced into a new matrix as wide as the first declared row. */
module Reconcile {
  import opened Wrappers
  import opened Host

  /** The order of the comparator `a.row - b.row || a.col - b.col`: by row,
      then by column. */
  predicate NotAfter(a: TableCell, b: TableCell) {
    a.row < b.row || (a.row == b.row && a.col <= b.col)
  }

  /** The comparator is negative: `a` sorts strictly before `b`. */
  predicate Before(a: TableCell, b: TableCell) {
    a.row < b.row || (a.row == b.row && a.col < b.col)
  }

  predicate RowMajorSorted(s: seq<TableCell>) {
    forall i, j :: 0 <= i < j < |s| ==> NotAfter(s[i], s[j])
  }

  /** `s[..i + 1]` is in order except possibly for the cell at `j`. */
  predicate SortedExcept(s: seq<TableCell>, j: nat, i: nat)
    requires i < |s|
  {
    forall p, q :: 0 <= p < q <= i && p != j && q != j ==> NotAfter(s[p], s[q])
  }

  /** The cell at `j` sorts no later than every cell after it up to `i`. */
  predicate LeadsRest(s: seq<TableCell>, j: nat, i: nat)
    requires j <= i < |s|
  {
    forall q :: j < q <= i ==> NotAfter(s[j], s[q])
  }

  /** Swapping a cell that sorts strictly before its left neighbour moves
      the one cell out of place one slot to the left. */
  lemma SwapStep(s: seq<TableCell>, j: nat, i: nat)
    requires 0 < j <= i < |s|
    requires SortedExcept(s, j, i) && LeadsRest(s, j, i) && Before(s[j], s[j - 1])
    ensures var t := s[j - 1 := s[j]][j := s[j - 1]];
      SortedExcept(t, j - 1, i) && LeadsRest(t, j - 1, i)
  {
  }

  /** The cell out of place has stopped behind a cell not after it: all of
      `s[..i + 1]` is in order. */
  lemma StopStep(s: seq<TableCell>, j: nat, i: nat)
    requires j <= i < |s|
    requires SortedExcept(s, j, i) && LeadsRest(s, j, i)
    requires j == 0 || !Before(s[j], s[j - 1])
    ensures RowMajorSorted(s[..i + 1])
  {
    forall p | 0 <= p < j
      ensures NotAfter(s[p], s[j])
    {
      if p < j - 1 {
        assert NotAfter(s[p], s[j - 1]);
      }
    }
  }

  /** One step of the sort: `a[..i]` is sorted and `a[i]` sinks past the cells
      that sort strictly after it, so equal positions keep their order. */
  method InsertCell(a: array<TableCell>, i: nat)
    requires 0 < i < a.Length && RowMajorSorted(a[..i])
    modifies a
    ensures RowMajorSorted(a[..i + 1])
    ensures multiset(a[..]) == multiset(old(a[..]))
    ensures a[i + 1..] == old(a[i + 1..])
  {
    var j := i;
    assert SortedExcept(a[..], j, i);
    while j > 0 && Before(a[j], a[j - 1])
      invariant 0 <= j <= i
      invariant SortedExcept(a[..], j, i) && LeadsRest(a[..], j, i)
      invariant multiset(a[..]) == multiset(old(a[..]))
      invariant a[i + 1..] == old(a[i + 1..])
    {
      ghost var s := a[..];
      SwapStep(s, j, i);
      a[j - 1], a[j] := a[j], a[j - 1];
      assert a[..] == s[j - 1 := s[j]][j := s[j - 1]];
      j := j - 1;
    }
    StopStep(a[..], j, i);
  }

  /** `childArray.sort(...)`: afterwards the array is in row-major order and
      holds the same cells. */
  method SortCells(a: array<TableCell>)
    modifies a
    ensures RowMajorSorted(a[..])
    ensures multiset(a[..]) == multiset(old(a[..]))
  {
    if a.Length == 0 {
      return;
    }
    var i := 1;
    while i < a.Length
      invariant 1 <= i <= a.Length
      invariant RowMajorSorted(a[..i])
      invariant multiset(a[..]) == multiset(old(a[..]))
    {
      InsertCell(a, i);
      i := i + 1;
    }
    assert a[..i] == a[..];
  }

  /** The declared rows as the engine sees them: every entry is a cell. */
  function Declared(rows: seq<seq<TableCell>>): (g: Grid)
    ensures |g| == |rows|
    ensures forall i :: 0 <= i < |rows| ==> |g[i]| == |rows[i]|
    ensures forall i, j :: 0 <= i < |rows| && 0 <= j < |rows[i]| ==> g[i][j] == Some(rows[i][j])
  {
    seq(|rows|, i requires 0 <= i < |rows| => seq(|rows[i]|, j requires 0 <= j < |rows[i]| => Some(rows[i][j])))
  }

  /** `childArray.length > rows.length * rows[0].length`. With no rows,
      `rows[0].length` is `undefined`, the product NaN and the test false. */
  predicate Overfull(rows: seq<seq<TableCell>>, count: nat) {
    rows != [] && count > |rows| * |rows[0]|
  }

  /** `childArray[k]`: `undefined` past the end. */
  function Slot(cells: seq<TableCell>, k: int): Option<TableCell> {
    if 0 <= k < |cells| then Some(cells[k]) else None
  }

  /** `n` rows of width `w`, row `i` holding the cells `i * w` to `i * w + w - 1`. */
  function Rebuilt(cells: seq<TableCell>, n: nat, w: nat): Grid {
    seq(n, i => seq(w, j => Slot(cells, i * w + j)))
  }

  /** The loop count `doc.text.length - 1`, which runs no iteration when it is
      not positive. */
  function RowCount(docLength: int): nat {
    if docLength - 1 > 0 then docLength - 1 else 0
  }

  /** The inner loop: row `i` of the rebuilt matrix. */
  method BuildRow(cells: seq<TableCell>, i: nat, w: nat) returns (row: seq<Option<TableCell>>)
    ensures row == seq(w, j => Slot(cells, i * w + j))
  {
    row := [];
    var j := 0;
    while j < w
      invariant 0 <= j <= w
      invariant row == seq(j, k => Slot(cells, i * w + k))
    {
      var k := i * w + j;
      row := row + [if k < |cells| then Some(cells[k]) else None];
      assert row[j] == Slot(cells, i * w + j);
      j := j + 1;
    }
  }

  /** The outer loop: `doc.text.length - 1` rows of width `w`. */
  method Rebuild(cells: seq<TableCell>, docLength: int, w: nat) returns (g: Grid)
    ensures g == Rebuilt(cells, RowCount(docLength), w)
  {
    g := [];
    var i := 0;
    while i < docLength - 1
      invariant 0 <= i <= RowCount(docLength)
      invariant g == Rebuilt(cells, i, w)
    {
      var row := BuildRow(cells, i, w);
      g := g + [row];
      i := i + 1;
    }
  }

  /** `getTable(data)`, given the declared rows, the keys of the host's cell
      map and the document's length: the keys are sorted by position; if there
      are more of them than the declared rows hold, the result is the sorted
      keys sliced into `doc.text.length - 1` rows as wide as the first declared
      row, else the declared rows. `sorted` is the sorted key list. */
  method GetTable(rows: seq<seq<TableCell>>, keys: seq<TableCell>, docLength: int)
    returns (g: Grid, ghost sorted: seq<TableCell>)
    ensures RowMajorSorted(sorted) && multiset(sorted) == multiset(keys)
    ensures Overfull(rows, |keys|) ==> g == Rebuilt(sorted, RowCount(docLength), |rows[0]|)
    ensures !Overfull(rows, |keys|) ==> g == Declared(rows)
  {
    var a := new TableCell[|keys|](k requires 0 <= k < |keys| => keys[k]);
    assert a[..] == keys;
    SortCells(a);
    sorted := a[..];
    if Overfull(rows, a.Length) {
      g := Rebuild(a[..], docLength, |rows[0]|);
    } else {
      g := Declared(rows);
    }
  }

  /** Slot (i, j) of a matrix of width `w` and the slot (i', j') of a later row
      or a later column of the same row are in flat order. */
  lemma {:induction false} FlatOrder(i: nat, j: nat, i': nat, j': nat, w: nat)
    requires j < w && j' < w && (i < i' || (i == i' && j < j'))
    ensures i * w + j < i' * w + j'
  {
    if i < i' {
      assert (i + 1) * w <= i' * w by {
        assert (i' - (i + 1)) * w >= 0;
      }
    }
  }

  /** Flat index `k` of a matrix of width `w` sits at row `k / w`, column `k % w`. */
  lemma {:induction false} FlatPlace(k: nat, n: nat, w: nat)
    requires w > 0 && k < n * w
    ensures k / w < n && (k / w) * w + k % w == k
  {
    var i, j := k / w, k % w;
    assert k == i * w + j && 0 <= j < w;
    assert (n - i) * w == n * w - i * w;
    assert (n - i) * w > 0;
  }

  /** When the matrix has room for every cell (`n * w` slots or more), each
      cell `k` is at row `k / w`, column `k % w`: nothing is lost. */
  lemma RebuiltKeepsAll(cells: seq<TableCell>, n: nat, w: nat, k: nat)
    requires w > 0 && |cells| <= n * w && k < |cells|
    ensures k / w < n && k % w < w && Rebuilt(cells, n, w)[k / w][k % w] == Some(cells[k])
  {
    FlatPlace(k, n, w);
    var i, j := k / w, k % w;
    assert i < n && j < w && i * w + j == k;
    assert Rebuilt(cells, n, w)[i][j] == Slot(cells, i * w + j);
  }

  /** Only the first `n * w` cells are placed; any entry is one of them. */
  lemma RebuiltEntries(cells: seq<TableCell>, n: nat, w: nat, i: nat, j: nat)
    requires i < n && j < w
    ensures var e := Rebuilt(cells, n, w)[i][j];
      e.Some? ==> exists k :: 0 <= k < |cells| && k < n * w && e == Some(cells[k])
  {
    var g: Grid := Rebuilt(cells, n, w);
    if g[i][j].Some? {
      FlatOrder(i, j, n, 0, w);
      var k := i * w + j;
      assert g[i][j] == Slot(cells, k);
      assert 0 <= k < |cells| && k < n * w && g[i][j] == Some(cells[k]);
    }
  }

  /** Read in row-major order, the cells of the rebuilt matrix come in the
      order of the sorted keys. */
  lemma RebuiltRowMajor(cells: seq<TableCell>, n: nat, w: nat, i: nat, j: nat, i': nat, j': nat)
    requires RowMajorSorted(cells)
    requires i < n && j < w && i' < n && j' < w && (i < i' || (i == i' && j < j'))
    requires Rebuilt(cells, n, w)[i][j].Some? && Rebuilt(cells, n, w)[i'][j'].Some?
    ensures NotAfter(Rebuilt(cells, n, w)[i][j].value, Rebuilt(cells, n, w)[i'][j'].value)
  {
    var g: Grid := Rebuilt(cells, n, w);
    FlatOrder(i, j, i', j', w);
    var k, k' := i * w + j, i' * w + j';
    assert g[i][j] == Slot(cells, k) && g[i'][j'] == Slot(cells, k');
    assert 0 <= k < k' < |cells|;
  }

  /** Twelve cells against a declared 3 by 3 table in a document of length 5
      give 4 rows of width 3, every slot filled. */
  lemma TwelveCellsFourRows(rows: seq<seq<TableCell>>, cells: seq<TableCell>)
    requires |rows| == 3 && |rows[0]| == 3 && |cells| == 12
    ensures Overfull(rows, |cells|)
    ensures var g := Rebuilt(cells, RowCount(5), |rows[0]|);
      |g| == 4 && (forall i :: 0 <= i < 4 ==> |g[i]| == 3) &&
      forall i, j :: 0 <= i < 4 && 0 <= j < 3 ==> g[i][j] == Some(cells[3 * i + j])
  {
    assert RowCount(5) == 4;
    var g: Grid := Rebuilt(cells, 4, 3);
    forall i, j | 0 <= i < 4 && 0 <= j < 3
      ensures g[i][j] == Some(cells[3 * i + j])
    {
      var k := i * 3 + j;
      assert k == 3 * i + j && 0 <= k < 12;
      assert g[i][j] == Slot(cells, k);
    }
  }
}
