/** Whole formulas evaluated against small tables: `SUM`, `MIN`, `SUMIF` and
    `IF` over three cells, a spaced condition and an unknown name. */
module WorkedCases {
  import opened Wrappers
  import opened JsNumber
  import opened Host
  import opened Positions
  import opened Conditions
  import opened Formulas
  import opened Ranges
  import opened Aggregates
  import opened Dispatch

  /** A table of one column holding the three given cells. */
  function Column(a1: TableCell, a2: TableCell, a3: TableCell): Grid {
    [[Some(a1)], [Some(a2)], [Some(a3)]]
  }

  /** `A1:A3` spans rows 0 to 2 of column 0. */
  lemma ColumnBounds(table: Grid)
    ensures Resolve(table, ParsePosition("A1"), ParsePosition("A3")) == Ok(Bounds(Int(0), Int(2), Int(0), Int(0)))
  {
    assert "A1" == CellName(0, 0) && "A3" == CellName(0, 2);
    CellReferences(table, 0, 0, 0, 2);
  }

  /** Each row of the column holds one kept cell. */
  lemma ColumnRow(table: Grid, r: nat, ign: Option<int>)
    requires r < |table| && |table[r]| == 1 && table[r][0].Some? && ign != Some(0)
    ensures RowHits(table, r, 0, 0, ign) == [Hit(r, 0, table[r][0].value)]
  {
    assert RowHits(table, r, 0, -1, ign) == [];
  }

  /** The column's kept cells, top down. */
  lemma ColumnHits(a1: TableCell, a2: TableCell, a3: TableCell, ign: Option<int>)
    requires ign != Some(0)
    ensures GridHits(Column(a1, a2, a3), 0, 2, 0, 0, ign) == [Hit(0, 0, a1), Hit(1, 0, a2), Hit(2, 0, a3)]
  {
    var table := Column(a1, a2, a3);
    ColumnRow(table, 0, ign);
    ColumnRow(table, 1, ign);
    ColumnRow(table, 2, ign);
    assert GridHits(table, 0, -1, 0, 0, ign) == [];
    assert GridHits(table, 0, 0, 0, 0, ign) == [Hit(0, 0, a1)];
    assert GridHits(table, 0, 1, 0, 0, ign) == [Hit(0, 0, a1)] + [Hit(1, 0, a2)];
  }

  /** The texts of three hits. */
  lemma ThreeTexts(h1: Hit, h2: Hit, h3: Hit)
    ensures Texts([h1, h2, h3]) == [h1.cell.text, h2.cell.text, h3.cell.text]
  {
    TextsPush([], h1);
    assert [] + [h1] == [h1];
    TextsPush([h1], h2);
    assert [h1] + [h2] == [h1, h2];
    TextsPush([h1, h2], h3);
    assert [h1, h2] + [h3] == [h1, h2, h3];
  }

  /** `A1:A3`, seen from any other column, reads the three texts top down. */
  lemma ColumnTexts(a1: TableCell, a2: TableCell, a3: TableCell, currentCol: int)
    requires currentCol != 0
    ensures RangeTexts(Column(a1, a2, a3), "A1", "A3", currentCol) == Ok([a1.text, a2.text, a3.text])
  {
    var table := Column(a1, a2, a3);
    var hits := [Hit(0, 0, a1), Hit(1, 0, a2), Hit(2, 0, a3)];
    ColumnBounds(table);
    ColumnHits(a1, a2, a3, Some(currentCol));
    assert Hits(table, Bounds(Int(0), Int(2), Int(0), Int(0)), Some(currentCol)) == hits;
    ThreeTexts(Hit(0, 0, a1), Hit(1, 0, a2), Hit(2, 0, a3));
  }

  /** The numbers of `A1:A3`, seen from any other column. */
  lemma ColumnNumbers(a1: TableCell, a2: TableCell, a3: TableCell, currentCol: int)
    requires currentCol != 0
    ensures RangeNumbers(Column(a1, a2, a3), "A1", "A3", currentCol) == Ok(ToNumbers([a1.text, a2.text, a3.text]))
  {
    ColumnTexts(a1, a2, a3, currentCol);
  }

  /** The number of one text that parses. */
  lemma OneNumber(a: string, x: real)
    requires ParseFloat(a) == Some(x)
    ensures ToNumbers([a]) == [x]
  {
    ToNumbersPush([], a);
    assert [] + [a] == [a];
  }

  /** The numbers of two texts that parse. */
  lemma TwoNumbers(a: string, b: string, x: real, y: real)
    requires ParseFloat(a) == Some(x) && ParseFloat(b) == Some(y)
    ensures ToNumbers([a, b]) == [x, y]
  {
    OneNumber(a, x);
    ToNumbersPush([a], b);
    assert [a] + [b] == [a, b];
  }

  /** The numbers of two texts that parse and one that does not. */
  lemma TwoOfThree(a: string, b: string, c: string, x: real, y: real)
    requires ParseFloat(a) == Some(x) && ParseFloat(b) == Some(y) && ParseFloat(c) == None
    ensures ToNumbers([a, b, c]) == [x, y]
  {
    TwoNumbers(a, b, x, y);
    ToNumbersPush([a, b], c);
    assert [a, b] + [c] == [a, b, c];
  }

  /** The digits of `n` read back as `n`. */
  lemma ReadsAsNat(n: nat, s: string)
    requires s == NatToString(n)
    ensures ParseFloat(s) == Some(n as real)
  {
    ParseFloatNat(n);
  }

  /** The texts `10`, `20`, `x` read as the numbers 10 and 20: `x` is dropped. */
  lemma NumbersOfTenTwentyX(a: string, b: string, c: string)
    requires a == "10" && b == "20" && c == "x"
    ensures ToNumbers([a, b, c]) == [10.0, 20.0]
  {
    ReadsAsNat(10, a);
    ReadsAsNat(20, b);
    ParseFloatNaN(c);
    TwoOfThree(a, b, c, 10.0, 20.0);
  }

  lemma SumParses()
    ensures GetStartAndEndPos("SUM(A1:A3)") == Ok(Parsed("SUM", "A1", "A3", Always))
  {
    assert "SUM(A1:A3)" == PlainFormula("SUM", "A1", "A3");
    assert IsName("SUM") && IsToken("A1") && IsToken("A3");
    PlainFormulaParses("SUM", "A1", "A3");
  }

  lemma SumOfColumn(a1: TableCell, a2: TableCell, a3: TableCell, currentCol: int)
    requires a1.text == "10" && a2.text == "20" && a3.text == "x" && currentCol != 0
    ensures Sum(Column(a1, a2, a3), "A1", "A3", currentCol) == Ok(Finite(30.0))
  {
    ColumnNumbers(a1, a2, a3, currentCol);
    NumbersOfTenTwentyX(a1.text, a2.text, a3.text);
    TotalOfTwo(10.0, 20.0);
  }

  /** `SUM(A1:A3)` over `10`, `20`, `x` is 30: the text that is not a number
      is left out, not counted as zero. */
  lemma SumSkipsText(a1: TableCell, a2: TableCell, a3: TableCell, currentCol: int)
    requires a1.text == "10" && a2.text == "20" && a3.text == "x" && currentCol != 0
    ensures ParseAndCompute(Column(a1, a2, a3), "SUM(A1:A3)", currentCol) == Number(Finite(30.0))
  {
    SumParses();
    SumOfColumn(a1, a2, a3, currentCol);
    Dispatched(Column(a1, a2, a3), "SUM(A1:A3)", Parsed("SUM", "A1", "A3", Always), currentCol);
  }

  lemma MinParses()
    ensures GetStartAndEndPos("MIN(A1:A3)") == Ok(Parsed("MIN", "A1", "A3", Always))
  {
    assert "MIN(A1:A3)" == PlainFormula("MIN", "A1", "A3");
    assert IsName("MIN") && IsToken("A1") && IsToken("A3");
    PlainFormulaParses("MIN", "A1", "A3");
  }

  lemma MinOfTenTwenty()
    ensures MinOf([10.0, 20.0]) == Finite(10.0)
  {
    assert [10.0, 20.0][..1] == [10.0] && [10.0][..0] == [];
  }

  lemma MinOfColumn(a1: TableCell, a2: TableCell, a3: TableCell, currentCol: int)
    requires a1.text == "10" && a2.text == "20" && a3.text == "x" && currentCol != 0
    ensures Min(Column(a1, a2, a3), "A1", "A3", currentCol) == Ok(Finite(10.0))
  {
    ColumnNumbers(a1, a2, a3, currentCol);
    NumbersOfTenTwentyX(a1.text, a2.text, a3.text);
    MinOfTenTwenty();
  }

  /** `MIN(A1:A3)` over `10`, `20`, `x` is 10, not 0. */
  lemma MinSkipsText(a1: TableCell, a2: TableCell, a3: TableCell, currentCol: int)
    requires a1.text == "10" && a2.text == "20" && a3.text == "x" && currentCol != 0
    ensures ParseAndCompute(Column(a1, a2, a3), "MIN(A1:A3)", currentCol) == Number(Finite(10.0))
  {
    MinParses();
    MinOfColumn(a1, a2, a3, currentCol);
    Dispatched(Column(a1, a2, a3), "MIN(A1:A3)", Parsed("MIN", "A1", "A3", Always), currentCol);
  }

  lemma SumIfParses()
    ensures GetStartAndEndPos("SUMIF(A1:A3,\">10\")") == Ok(Parsed("SUMIF", "A1", "A3", Compare(Gt, 10)))
  {
    assert "SUMIF(A1:A3,\">10\")" == ConditionalFormula("SUMIF", "A1", "A3", "", OpText(Gt) + NatToString(10));
    assert IsName("SUMIF") && IsToken("A1") && IsToken("A3");
    ConditionalFormulaRoundTrip("SUMIF", "A1", "A3", "", Gt, 10);
  }

  /** The numbers of three texts that parse. */
  lemma ThreeNumbers(a: string, b: string, c: string, x: real, y: real, z: real)
    requires ParseFloat(a) == Some(x) && ParseFloat(b) == Some(y) && ParseFloat(c) == Some(z)
    ensures ToNumbers([a, b, c]) == [x, y, z]
  {
    TwoNumbers(a, b, x, y);
    ToNumbersPush([a, b], c);
    assert [a, b] + [c] == [a, b, c];
  }

  /** The texts `5`, `15`, `25` read as three numbers. */
  lemma NumbersOfFiveFifteenTwentyFive(a: string, b: string, c: string)
    requires a == "5" && b == "15" && c == "25"
    ensures ToNumbers([a, b, c]) == [5.0, 15.0, 25.0]
  {
    ReadsAsNat(5, a);
    ReadsAsNat(15, b);
    ReadsAsNat(25, c);
    ThreeNumbers(a, b, c, 5.0, 15.0, 25.0);
  }

  lemma TotalOfTwo(x: real, y: real)
    ensures Total([x, y]) == x + y
  {
    assert [x, y][..1] == [x] && [x][..0] == [];
    assert Total([x]) == x;
  }

  /** Of 5, 15 and 25, the numbers above 10 are 15 and 25. */
  lemma AboveTen()
    ensures Satisfying(Compare(Gt, 10), [5.0, 15.0, 25.0]) == [15.0, 25.0]
  {
    var xs := [5.0, 15.0, 25.0];
    assert xs[..2] == [5.0, 15.0] && xs[..2][..1] == [5.0] && xs[..2][..1][..0] == [];
  }

  lemma SumIfOfColumn(a1: TableCell, a2: TableCell, a3: TableCell, currentCol: int)
    requires a1.text == "5" && a2.text == "15" && a3.text == "25" && currentCol != 0
    ensures SumIf(Column(a1, a2, a3), "A1", "A3", currentCol, Compare(Gt, 10)) == Ok(Finite(40.0))
  {
    ColumnNumbers(a1, a2, a3, currentCol);
    NumbersOfFiveFifteenTwentyFive(a1.text, a2.text, a3.text);
    AboveTen();
    TotalOfTwo(15.0, 25.0);
  }

  /** `SUMIF(A1:A3,">10")` over `5`, `15`, `25` is 40. */
  lemma SumIfAboveTen(a1: TableCell, a2: TableCell, a3: TableCell, currentCol: int)
    requires a1.text == "5" && a2.text == "15" && a3.text == "25" && currentCol != 0
    ensures ParseAndCompute(Column(a1, a2, a3), "SUMIF(A1:A3,\">10\")", currentCol) == Number(Finite(40.0))
  {
    SumIfParses();
    SumIfOfColumn(a1, a2, a3, currentCol);
    Dispatched(Column(a1, a2, a3), "SUMIF(A1:A3,\">10\")", Parsed("SUMIF", "A1", "A3", Compare(Gt, 10)), currentCol);
  }

  /** With a space after the operator, as in `SUMIF(A1:A3,"> 10")`, the
      condition is rejected and the result is the error text, whatever the
      table. */
  lemma SumIfSpacedCondition(table: Grid, currentCol: int)
    ensures ParseAndCompute(table, "SUMIF(A1:A3,\"> 10\")", currentCol) ==
      Text(ErrorPrefix + InvalidCondition)
  {
    SpacedConditionFormula();
  }

  lemma IfParses()
    ensures GetStartAndEndPos("IF(A1:B1,\">5\")") == Ok(Parsed("IF", "A1", "B1", Compare(Gt, 5)))
  {
    assert "IF(A1:B1,\">5\")" == ConditionalFormula("IF", "A1", "B1", "", OpText(Gt) + NatToString(5));
    assert IsName("IF") && IsToken("A1") && IsToken("B1");
    ConditionalFormulaRoundTrip("IF", "A1", "B1", "", Gt, 5);
  }

  /** A cell reference reads the number of that cell's text. */
  lemma CellAnchor(table: Grid, c: nat, r: nat, n: nat, currentCol: int)
    requires c < 26 && r < |table| && c < |table[r]| && table[r][c].Some?
    requires table[r][c].value.text == NatToString(n)
    ensures Anchor(table, CellName(c, r), currentCol) == Ok(Finite(n as real))
  {
    CellNameRoundTrip(c, r);
    ParseFloatNat(n);
  }

  lemma StartAnchor(a1: TableCell, b1: TableCell, currentCol: int)
    requires a1.text == "10"
    ensures Anchor([[Some(a1), Some(b1)]], "A1", currentCol) == Ok(Finite(10.0))
  {
    assert "A1" == CellName(0, 0) && NatToString(10) == "10";
    CellAnchor([[Some(a1), Some(b1)]], 0, 0, 10, currentCol);
  }

  lemma EndAnchor(a1: TableCell, b1: TableCell, currentCol: int)
    requires b1.text == "3"
    ensures Anchor([[Some(a1), Some(b1)]], "B1", currentCol) == Ok(Finite(3.0))
  {
    assert "B1" == CellName(1, 0) && NatToString(3) == "3";
    CellAnchor([[Some(a1), Some(b1)]], 1, 0, 3, currentCol);
  }

  lemma IfOfRow(a1: TableCell, b1: TableCell, currentCol: int)
    requires a1.text == "10" && b1.text == "3"
    ensures IfFunction([[Some(a1), Some(b1)]], "A1", "B1", currentCol, Compare(Gt, 5)) == Ok(Finite(0.0))
  {
    StartAnchor(a1, b1, currentCol);
    EndAnchor(a1, b1, currentCol);
    IfOfAnchors([[Some(a1), Some(b1)]], "A1", "B1", currentCol, Compare(Gt, 5), Finite(10.0), Finite(3.0));
  }

  /** `IF(A1:B1,">5")` with A1 = `10` and B1 = `3` is 0: the end value fails
      the condition. */
  lemma IfFormulaOfRow(a1: TableCell, b1: TableCell, currentCol: int)
    requires a1.text == "10" && b1.text == "3"
    ensures ParseAndCompute([[Some(a1), Some(b1)]], "IF(A1:B1,\">5\")", currentCol) == Number(Finite(0.0))
  {
    IfParses();
    IfOfRow(a1, b1, currentCol);
    Dispatched([[Some(a1), Some(b1)]], "IF(A1:B1,\">5\")", Parsed("IF", "A1", "B1", Compare(Gt, 5)), currentCol);
  }

  /** `FOO(A1:B1)` names no function of the table. */
  lemma UnknownFunction(table: Grid, currentCol: int)
    ensures ParseAndCompute(table, "FOO(A1:B1)", currentCol) == Text(UnsupportedFunction)
  {
    assert "FOO(A1:B1)" == PlainFormula("FOO", "A1", "B1");
    assert IsName("FOO") && IsToken("A1") && IsToken("B1");
    UnsupportedName(table, "FOO", "A1", "B1", currentCol);
  }

  /** The conditional form `FOO(A1:B1,">5")` names no function of the table
      either. */
  lemma UnknownConditionalFunction(table: Grid, currentCol: int)
    ensures ParseAndCompute(table, "FOO(A1:B1,\">5\")", currentCol) == Text(UnsupportedFunction)
  {
    assert "FOO(A1:B1,\">5\")" == ConditionalFormula("FOO", "A1", "B1", "", OpText(Gt) + NatToString(5));
    assert IsName("FOO") && IsToken("A1") && IsToken("B1");
    ConditionalFormulaRoundTrip("FOO", "A1", "B1", "", Gt, 5);
  }
}
