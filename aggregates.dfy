/** The function library of src/utils.ts: `toNumbers` and the aggregates
    `sum`, `max`, `min`, `ifFunction` and `sumIf` over a range of the table. */
module Aggregates {
  import opened Wrappers
  import opened JsNumber
  import opened Host
  import opened Positions
  import opened Conditions
  import opened Ranges

  /** `toNumbers(values)`: each text through `parseFloat`, the NaNs dropped. */
  function ToNumbers(values: seq<string>): seq<real> {
    if values == [] then []
    else
      var kept := ToNumbers(values[..|values| - 1]);
      match ParseFloat(values[|values| - 1])
      case None => kept
      case Some(x) => kept + [x]
  }

  /** `toNumbers` works text by text. */
  lemma {:induction false} ToNumbersConcat(a: seq<string>, b: seq<string>)
    ensures ToNumbers(a + b) == ToNumbers(a) + ToNumbers(b)
    decreases |b|
  {
    if b == [] {
      assert a + b == a;
    } else {
      var b' := b[..|b| - 1];
      var last := b[|b| - 1];
      assert a + b == (a + b') + [last];
      assert b == b' + [last];
      ToNumbersPush(a + b', last);
      ToNumbersPush(b', last);
      ToNumbersConcat(a, b');
    }
  }

  /** One more text adds its number, if it has one. */
  lemma ToNumbersPush(values: seq<string>, v: string)
    ensures ToNumbers(values + [v]) == ToNumbers(values) + (if ParseFloat(v).Some? then [ParseFloat(v).value] else [])
  {
    assert (values + [v])[..|values|] == values;
  }

  /** Every kept number is what some text parses to. */
  lemma {:induction false} ToNumbersSound(values: seq<string>, x: real)
    requires x in ToNumbers(values)
    ensures exists k :: 0 <= k < |values| && ParseFloat(values[k]) == Some(x)
    decreases |values|
  {
    var init := values[..|values| - 1];
    var k := |values| - 1;
    assert values == init + [values[k]];
    ToNumbersPush(init, values[k]);
    if x in ToNumbers(init) {
      ToNumbersSound(init, x);
      var j :| 0 <= j < |init| && ParseFloat(init[j]) == Some(x);
      assert values[j] == init[j];
    } else {
      assert ParseFloat(values[k]).Some? && ParseFloat(values[k]).value == x;
    }
  }

  /** Every number some text parses to is kept. */
  lemma {:induction false} ToNumbersComplete(values: seq<string>, k: nat)
    requires k < |values| && ParseFloat(values[k]).Some?
    ensures ParseFloat(values[k]).value in ToNumbers(values)
    decreases |values|
  {
    var init := values[..|values| - 1];
    var last := values[|values| - 1];
    assert values == init + [last];
    ToNumbersPush(init, last);
    if k < |init| {
      assert init[k] == values[k];
      ToNumbersComplete(init, k);
    }
  }

  /** A number is kept exactly when some text parses to it: unparseable texts
      are dropped, never read as 0. */
  lemma ToNumbersMembers(values: seq<string>, x: real)
    ensures x in ToNumbers(values) <==> exists k :: 0 <= k < |values| && ParseFloat(values[k]) == Some(x)
  {
    if x in ToNumbers(values) {
      ToNumbersSound(values, x);
    }
    if exists k :: 0 <= k < |values| && ParseFloat(values[k]) == Some(x) {
      var k :| 0 <= k < |values| && ParseFloat(values[k]) == Some(x);
      ToNumbersComplete(values, k);
    }
  }

  /** The fold `values.reduce((acc, val) => acc + val, 0)`. */
  function Total(xs: seq<real>): real {
    if xs == [] then 0.0 else Total(xs[..|xs| - 1]) + xs[|xs| - 1]
  }

  /** The fold adds up piece by piece. */
  lemma {:induction false} TotalConcat(a: seq<real>, b: seq<real>)
    ensures Total(a + b) == Total(a) + Total(b)
    decreases |b|
  {
    if b == [] {
      assert a + b == a;
    } else {
      var b' := b[..|b| - 1];
      assert (a + b)[..|a + b| - 1] == a + b';
      assert (a + b)[|a + b| - 1] == b[|b| - 1];
      TotalConcat(a, b');
    }
  }

  /** Summing the numbers of texts `a + b` is summing those of `a` and those of
      `b`: each text adds its number if it has one, and nothing otherwise. */
  lemma TotalNumbersConcat(a: seq<string>, b: seq<string>)
    ensures Total(ToNumbers(a + b)) == Total(ToNumbers(a)) + Total(ToNumbers(b))
  {
    ToNumbersConcat(a, b);
    TotalConcat(ToNumbers(a), ToNumbers(b));
  }

  /** One more text adds its number to the sum, or 0 when it has none. */
  lemma TotalNumbersPush(values: seq<string>, v: string)
    ensures Total(ToNumbers(values + [v])) ==
      Total(ToNumbers(values)) + (if ParseFloat(v).Some? then ParseFloat(v).value else 0.0)
  {
    ToNumbersPush(values, v);
    var tail := if ParseFloat(v).Some? then [ParseFloat(v).value] else [];
    TotalConcat(ToNumbers(values), tail);
    if ParseFloat(v).Some? {
      assert tail[..0] == [];
    }
  }

  /** `Math.max(...xs)`: `-Infinity` for no numbers, else the largest. */
  function MaxOf(xs: seq<real>): (m: Num)
    ensures m == NegInf <==> xs == []
    ensures m.Finite? || m == NegInf
    ensures m.Finite? ==> m.value in xs && forall x :: x in xs ==> x <= m.value
  {
    if xs == [] then NegInf
    else
      var last := xs[|xs| - 1];
      var m := MaxOf(xs[..|xs| - 1]);
      assert xs == xs[..|xs| - 1] + [last];
      if m.Finite? && m.value >= last then m else Finite(last)
  }

  /** `Math.min(...xs)`: `Infinity` for no numbers, else the smallest. */
  function MinOf(xs: seq<real>): (m: Num)
    ensures m == PosInf <==> xs == []
    ensures m.Finite? || m == PosInf
    ensures m.Finite? ==> m.value in xs && forall x :: x in xs ==> m.value <= x
  {
    if xs == [] then PosInf
    else
      var last := xs[|xs| - 1];
      var m := MinOf(xs[..|xs| - 1]);
      assert xs == xs[..|xs| - 1] + [last];
      if m.Finite? && m.value <= last then m else Finite(last)
  }

  /** The numbers of a range: `toNumbers(getRange(...))`, or the error the
      range throws. */
  function RangeNumbers(table: Grid, startPos: string, endPos: string, ignoreCol: int): (r: Result<seq<real>>)
    ensures r.Err? <==> RangeTexts(table, startPos, endPos, ignoreCol).Err?
  {
    match RangeTexts(table, startPos, endPos, ignoreCol)
    case Err(m) => Err(m)
    case Ok(texts) => Ok(ToNumbers(texts))
  }

  /** The number `x` comes from the cell (r, c) of the rectangle `b`: the cell
      exists, is outside column `ignoreCol`, and its text parses to `x`. */
  predicate Counted(table: Grid, b: Bounds, ignoreCol: int, r: int, c: int, x: real) {
    Within(b, r, c) && c != ignoreCol && CellAt(table, r, c).Some? &&
    ParseFloat(CellAt(table, r, c).value.text) == Some(x)
  }

  /** The numbers of the enumeration of a rectangle are exactly those of its
      cells that parse. */
  lemma HitsNumbers(table: Grid, b: Bounds, ignoreCol: int, x: real)
    ensures x in ToNumbers(Texts(Hits(table, b, Some(ignoreCol)))) <==>
      exists r, c :: Counted(table, b, ignoreCol, r, c, x)
  {
    var hits := Hits(table, b, Some(ignoreCol));
    var texts := Texts(hits);
    ToNumbersMembers(texts, x);
    if x in ToNumbers(texts) {
      var k :| 0 <= k < |texts| && ParseFloat(texts[k]) == Some(x);
      TextsAt(hits, k);
      HitsExactly(table, b, Some(ignoreCol), hits[k]);
      assert Counted(table, b, ignoreCol, hits[k].row, hits[k].col, x);
    }
    if exists r, c :: Counted(table, b, ignoreCol, r, c, x) {
      var r, c :| Counted(table, b, ignoreCol, r, c, x);
      var h := Hit(r, c, CellAt(table, r, c).value);
      HitsExactly(table, b, Some(ignoreCol), h);
      var k :| 0 <= k < |hits| && hits[k] == h;
      TextsAt(hits, k);
    }
  }

  /** The numbers of a range are exactly those of its cells that parse. */
  lemma RangeNumbersMembers(table: Grid, startPos: string, endPos: string, ignoreCol: int, x: real)
    requires RangeTexts(table, startPos, endPos, ignoreCol).Ok?
    ensures var b := Resolve(table, ParsePosition(startPos), ParsePosition(endPos)).value;
      x in RangeNumbers(table, startPos, endPos, ignoreCol).value <==>
      exists r, c :: Counted(table, b, ignoreCol, r, c, x)
  {
    var b := Resolve(table, ParsePosition(startPos), ParsePosition(endPos)).value;
    HitsNumbers(table, b, ignoreCol, x);
  }

  /** `sum`. */
  function Sum(table: Grid, startPos: string, endPos: string, ignoreCol: int): (r: Result<Num>)
    ensures r.Err? <==> RangeTexts(table, startPos, endPos, ignoreCol).Err?
    ensures r.Ok? ==> r.value.Finite?
  {
    match RangeNumbers(table, startPos, endPos, ignoreCol)
    case Err(m) => Err(m)
    case Ok(xs) => Ok(Finite(Total(xs)))
  }

  /** A range none of whose cells parses sums to 0. */
  lemma SumEmpty(table: Grid, startPos: string, endPos: string, ignoreCol: int)
    requires RangeTexts(table, startPos, endPos, ignoreCol).Ok?
    requires var b := Resolve(table, ParsePosition(startPos), ParsePosition(endPos)).value;
      forall r, c, x :: !Counted(table, b, ignoreCol, r, c, x)
    ensures Sum(table, startPos, endPos, ignoreCol) == Ok(Finite(0.0))
  {
    var xs := RangeNumbers(table, startPos, endPos, ignoreCol).value;
    if xs != [] {
      RangeNumbersMembers(table, startPos, endPos, ignoreCol, xs[0]);
    }
  }

  /** `max`. */
  function Max(table: Grid, startPos: string, endPos: string, ignoreCol: int): (r: Result<Num>)
    ensures r.Err? <==> RangeTexts(table, startPos, endPos, ignoreCol).Err?
  {
    match RangeNumbers(table, startPos, endPos, ignoreCol)
    case Err(m) => Err(m)
    case Ok(xs) => Ok(MaxOf(xs))
  }

  /** `max` of a range: `-Infinity` exactly when none of its cells parses,
      else the number of one of its cells and no smaller than any other. */
  lemma MaxMeaning(table: Grid, startPos: string, endPos: string, ignoreCol: int)
    requires Max(table, startPos, endPos, ignoreCol).Ok?
    ensures var m := Max(table, startPos, endPos, ignoreCol).value;
      m.Finite? || m == NegInf
    ensures var b := Resolve(table, ParsePosition(startPos), ParsePosition(endPos)).value;
      Max(table, startPos, endPos, ignoreCol).value == NegInf <==>
      forall r, c, x :: !Counted(table, b, ignoreCol, r, c, x)
    ensures var b := Resolve(table, ParsePosition(startPos), ParsePosition(endPos)).value;
      var m := Max(table, startPos, endPos, ignoreCol).value;
      m.Finite? ==> exists r, c :: Counted(table, b, ignoreCol, r, c, m.value)
    ensures var b := Resolve(table, ParsePosition(startPos), ParsePosition(endPos)).value;
      var m := Max(table, startPos, endPos, ignoreCol).value;
      m.Finite? ==> forall r, c, x :: Counted(table, b, ignoreCol, r, c, x) ==> x <= m.value
  {
    var b := Resolve(table, ParsePosition(startPos), ParsePosition(endPos)).value;
    var xs := RangeNumbers(table, startPos, endPos, ignoreCol).value;
    var m := MaxOf(xs);
    assert Max(table, startPos, endPos, ignoreCol).value == m;
    if m == NegInf {
      forall r, c, x | Counted(table, b, ignoreCol, r, c, x)
        ensures false
      {
        RangeNumbersMembers(table, startPos, endPos, ignoreCol, x);
      }
    } else {
      RangeNumbersMembers(table, startPos, endPos, ignoreCol, m.value);
      forall r, c, x | Counted(table, b, ignoreCol, r, c, x)
        ensures x <= m.value
      {
        RangeNumbersMembers(table, startPos, endPos, ignoreCol, x);
      }
    }
  }

  /** `min`. */
  function Min(table: Grid, startPos: string, endPos: string, ignoreCol: int): (r: Result<Num>)
    ensures r.Err? <==> RangeTexts(table, startPos, endPos, ignoreCol).Err?
  {
    match RangeNumbers(table, startPos, endPos, ignoreCol)
    case Err(m) => Err(m)
    case Ok(xs) => Ok(MinOf(xs))
  }

  /** `min` of a range: `Infinity` exactly when none of its cells parses,
      else the number of one of its cells and no larger than any other. */
  lemma MinMeaning(table: Grid, startPos: string, endPos: string, ignoreCol: int)
    requires Min(table, startPos, endPos, ignoreCol).Ok?
    ensures var m := Min(table, startPos, endPos, ignoreCol).value;
      m.Finite? || m == PosInf
    ensures var b := Resolve(table, ParsePosition(startPos), ParsePosition(endPos)).value;
      Min(table, startPos, endPos, ignoreCol).value == PosInf <==>
      forall r, c, x :: !Counted(table, b, ignoreCol, r, c, x)
    ensures var b := Resolve(table, ParsePosition(startPos), ParsePosition(endPos)).value;
      var m := Min(table, startPos, endPos, ignoreCol).value;
      m.Finite? ==> exists r, c :: Counted(table, b, ignoreCol, r, c, m.value)
    ensures var b := Resolve(table, ParsePosition(startPos), ParsePosition(endPos)).value;
      var m := Min(table, startPos, endPos, ignoreCol).value;
      m.Finite? ==> forall r, c, x :: Counted(table, b, ignoreCol, r, c, x) ==> m.value <= x
  {
    var b := Resolve(table, ParsePosition(startPos), ParsePosition(endPos)).value;
    var xs := RangeNumbers(table, startPos, endPos, ignoreCol).value;
    var m := MinOf(xs);
    assert Min(table, startPos, endPos, ignoreCol).value == m;
    if m == PosInf {
      forall r, c, x | Counted(table, b, ignoreCol, r, c, x)
        ensures false
      {
        RangeNumbersMembers(table, startPos, endPos, ignoreCol, x);
      }
    } else {
      RangeNumbersMembers(table, startPos, endPos, ignoreCol, m.value);
      forall r, c, x | Counted(table, b, ignoreCol, r, c, x)
        ensures m.value <= x
      {
        RangeNumbersMembers(table, startPos, endPos, ignoreCol, x);
      }
    }
  }

  /** The numbers that pass the condition, in order. */
  function Satisfying(cond: Condition, xs: seq<real>): (ys: seq<real>)
    ensures |ys| <= |xs|
    ensures forall y :: y in ys ==> y in xs && Holds(cond, Finite(y))
    ensures forall y :: y in xs && Holds(cond, Finite(y)) ==> y in ys
  {
    if xs == [] then []
    else
      var kept := Satisfying(cond, xs[..|xs| - 1]);
      var last := xs[|xs| - 1];
      if Holds(cond, Finite(last)) then kept + [last] else kept
  }

  /** The always-true condition keeps every number. */
  lemma {:induction false} SatisfyingAlways(xs: seq<real>)
    ensures Satisfying(Always, xs) == xs
    decreases |xs|
  {
    if xs != [] {
      SatisfyingAlways(xs[..|xs| - 1]);
      assert xs == xs[..|xs| - 1] + [xs[|xs| - 1]];
    }
  }

  /** The condition is applied number by number. */
  lemma {:induction false} SatisfyingConcat(cond: Condition, a: seq<real>, b: seq<real>)
    ensures Satisfying(cond, a + b) == Satisfying(cond, a) + Satisfying(cond, b)
    decreases |b|
  {
    if b == [] {
      assert a + b == a;
    } else {
      var b' := b[..|b| - 1];
      assert (a + b)[..|a + b| - 1] == a + b';
      assert (a + b)[|a + b| - 1] == b[|b| - 1];
      SatisfyingConcat(cond, a, b');
    }
  }

  /** `sumIf` over texts `a + b` is `sumIf` over `a` plus `sumIf` over `b`. */
  lemma SumIfConcat(cond: Condition, a: seq<string>, b: seq<string>)
    ensures Total(Satisfying(cond, ToNumbers(a + b))) ==
      Total(Satisfying(cond, ToNumbers(a))) + Total(Satisfying(cond, ToNumbers(b)))
  {
    ToNumbersConcat(a, b);
    SatisfyingConcat(cond, ToNumbers(a), ToNumbers(b));
    TotalConcat(Satisfying(cond, ToNumbers(a)), Satisfying(cond, ToNumbers(b)));
  }

  /** `sumIf`: the parsed texts that are numbers and pass the condition,
      summed. */
  function SumIf(table: Grid, startPos: string, endPos: string, ignoreCol: int, cond: Condition): (r: Result<Num>)
    ensures r.Err? <==> RangeTexts(table, startPos, endPos, ignoreCol).Err?
    ensures r.Ok? ==> r.value.Finite?
  {
    match RangeNumbers(table, startPos, endPos, ignoreCol)
    case Err(m) => Err(m)
    case Ok(xs) => Ok(Finite(Total(Satisfying(cond, xs))))
  }

  /** The numbers `sumIf` adds up are exactly those of the range's cells that
      parse and pass the condition. */
  lemma SumIfMembers(table: Grid, startPos: string, endPos: string, ignoreCol: int, cond: Condition, y: real)
    requires RangeTexts(table, startPos, endPos, ignoreCol).Ok?
    ensures var b := Resolve(table, ParsePosition(startPos), ParsePosition(endPos)).value;
      y in Satisfying(cond, RangeNumbers(table, startPos, endPos, ignoreCol).value) <==>
      Holds(cond, Finite(y)) && exists r, c :: Counted(table, b, ignoreCol, r, c, y)
  {
    RangeNumbersMembers(table, startPos, endPos, ignoreCol, y);
  }

  /** A range none of whose numbers passes the condition gives `sumIf` 0. */
  lemma SumIfEmpty(table: Grid, startPos: string, endPos: string, ignoreCol: int, cond: Condition)
    requires RangeTexts(table, startPos, endPos, ignoreCol).Ok?
    requires var b := Resolve(table, ParsePosition(startPos), ParsePosition(endPos)).value;
      forall r, c, x :: Counted(table, b, ignoreCol, r, c, x) ==> !Holds(cond, Finite(x))
    ensures SumIf(table, startPos, endPos, ignoreCol, cond) == Ok(Finite(0.0))
  {
    var ys := Satisfying(cond, RangeNumbers(table, startPos, endPos, ignoreCol).value);
    if ys != [] {
      SumIfMembers(table, startPos, endPos, ignoreCol, cond, ys[0]);
    }
  }

  /** With the always-true condition `sumIf` is `sum`. */
  lemma SumIfAlways(table: Grid, startPos: string, endPos: string, ignoreCol: int)
    ensures SumIf(table, startPos, endPos, ignoreCol, Always) == Sum(table, startPos, endPos, ignoreCol)
  {
    if RangeNumbers(table, startPos, endPos, ignoreCol).Ok? {
      SatisfyingAlways(RangeNumbers(table, startPos, endPos, ignoreCol).value);
    }
  }

  /** The property key `String(c)` that a failing read of `table[r][c]` names. */
  function KeyText(c: Coord): string {
    match c
    case Unparsed => "NaN"
    case Int(v) => IntToString(v)
  }

  /** `parseFloat(table[r][c].text)`: when row `r` does not exist, reading `c`
      of it throws; when the row has no cell at `c`, reading `text` throws. */
  function ReadCell(table: Grid, r: Coord, c: Coord): (res: Result<Num>)
    ensures res.Ok? <==> r.Int? && c.Int? && CellAt(table, r.value, c.value).Some?
    ensures res.Err? && r.Int? && 0 <= r.value < |table| ==> res.msg == ReadingUndefined("text")
    ensures res.Err? && !(r.Int? && 0 <= r.value < |table|) ==> res.msg == ReadingUndefined(KeyText(c))
  {
    if !(r.Int? && 0 <= r.value < |table|) then Err(ReadingUndefined(KeyText(c)))
    else if !(c.Int? && CellAt(table, r.value, c.value).Some?) then Err(ReadingUndefined("text"))
    else Ok(ParseNumber(CellAt(table, r.value, c.value).value.text))
  }

  /** The value `ifFunction` takes for one reference: a reference with both a
      row and a column reads that cell's text; any other reads the largest
      number of the range from the reference to itself. */
  function Anchor(table: Grid, token: string, ignoreCol: int): Result<Num> {
    var p := ParsePosition(token);
    if p.row.Some? && p.col.Some? then ReadCell(table, p.row.value, p.col.value)
    else
      match RangeNumbers(table, token, token, ignoreCol)
      case Err(m) => Err(m)
      case Ok(xs) => Ok(MaxOf(xs))
  }

  /** A cell reference such as `B3` reads that cell's number; it fails when
      the cell does not exist. */
  lemma AnchorOfCell(table: Grid, c: nat, r: nat, ignoreCol: int)
    requires c < 26
    ensures var a := Anchor(table, CellName(c, r), ignoreCol);
      (a.Ok? <==> CellAt(table, r, c).Some?) &&
      (a.Ok? ==> a.value == ParseNumber(CellAt(table, r, c).value.text))
  {
    CellNameRoundTrip(c, r);
  }

  /** A column reference such as `B` is the largest number of that column,
      spanning every row, and never fails. */
  lemma AnchorOfColumn(table: Grid, c: nat, ignoreCol: int)
    requires c < 26
    ensures var t := [('A' as int + c) as char];
      Anchor(table, t, ignoreCol) == Max(table, t, t, ignoreCol) &&
      Anchor(table, t, ignoreCol).Ok? &&
      Resolve(table, ParsePosition(t), ParsePosition(t)) == Ok(Bounds(Int(0), Int(|table| - 1), Int(c), Int(c)))
  {
    ColumnNameRoundTrip(c);
    ColumnReference(table, c);
  }

  /** A row reference such as `2` is the largest number of that row, spanning
      the columns of the first row; it fails on a table with no rows. */
  lemma AnchorOfRow(table: Grid, r: nat, ignoreCol: int)
    ensures var t := JsNumber.NatToString(r + 1);
      Anchor(table, t, ignoreCol) == Max(table, t, t, ignoreCol) &&
      (Anchor(table, t, ignoreCol).Err? <==> table == []) &&
      (table != [] ==> Resolve(table, ParsePosition(t), ParsePosition(t)) == Ok(Bounds(Int(r), Int(r), Int(0), Int(|table[0]| - 1))))
  {
    RowNameRoundTrip(r);
    RowReference(table, r);
  }

  /** `ifFunction`: 1 when the condition holds for both the start and the end
      value, else 0; the start value is computed (and may throw) first. */
  function IfFunction(table: Grid, startPos: string, endPos: string, ignoreCol: int, cond: Condition): (r: Result<Num>)
    ensures r.Ok? ==> r.value == Finite(1.0) || r.value == Finite(0.0)
    ensures r.Err? <==> Anchor(table, startPos, ignoreCol).Err? || Anchor(table, endPos, ignoreCol).Err?
  {
    match Anchor(table, startPos, ignoreCol)
    case Err(m) => Err(m)
    case Ok(s) =>
      match Anchor(table, endPos, ignoreCol)
      case Err(m) => Err(m)
      case Ok(e) => Ok(Finite(if Holds(cond, s) && Holds(cond, e) then 1.0 else 0.0))
  }

  /** `ifFunction` from the two values it computes. */
  lemma IfOfAnchors(table: Grid, startPos: string, endPos: string, ignoreCol: int, cond: Condition, s: Num, e: Num)
    requires Anchor(table, startPos, ignoreCol) == Ok(s) && Anchor(table, endPos, ignoreCol) == Ok(e)
    ensures IfFunction(table, startPos, endPos, ignoreCol, cond) ==
      Ok(Finite(if Holds(cond, s) && Holds(cond, e) then 1.0 else 0.0))
  {
  }

  /** `ifFunction` gives 1 exactly when both values pass the condition. */
  lemma IfFunctionMeaning(table: Grid, startPos: string, endPos: string, ignoreCol: int, cond: Condition)
    requires IfFunction(table, startPos, endPos, ignoreCol, cond).Ok?
    ensures IfFunction(table, startPos, endPos, ignoreCol, cond).value == Finite(1.0) <==>
      Holds(cond, Anchor(table, startPos, ignoreCol).value) && Holds(cond, Anchor(table, endPos, ignoreCol).value)
  {
  }

  /** With the always-true condition `ifFunction` gives 1 whenever it gives a number. */
  lemma IfFunctionAlways(table: Grid, startPos: string, endPos: string, ignoreCol: int)
    requires IfFunction(table, startPos, endPos, ignoreCol, Always).Ok?
    ensures IfFunction(table, startPos, endPos, ignoreCol, Always).value == Finite(1.0)
  {
  }
}
