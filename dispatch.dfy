/** The dispatcher of src/utils.ts (`parseAndCompute`): the parsed formula is
    sent to the function its name selects, and every failure becomes a string
    beginning `error: ` instead of an exception. */
module Dispatch {
  import opened Wrappers
  import opened JsText
  import opened JsNumber
  import opened Host
  import opened Conditions
  import opened Formulas
  import opened Aggregates

  /** What `parseAndCompute` returns: a number or a string. */
  datatype Output = Number(n: Num) | Text(s: string)

  const UnsupportedFunction: string := "error: unsupported function"

  /** The names of the function table. */
  predicate Supported(name: string) {
    name == "SUM" || name == "MAX" || name == "MIN" || name == "IF" || name == "SUMIF"
  }

  /** The `try`/`catch` around a call: a thrown message `m` becomes `error: m`. */
  function Caught(r: Result<Num>): (o: Output)
    ensures o.Text? <==> r.Err?
    ensures r.Err? ==> o.s == ErrorPrefix + r.msg
  {
    match r
    case Err(m) => Text(ErrorPrefix + m)
    case Ok(n) => Number(n)
  }

  /** The function table applied to a parsed formula; `IF` and `SUMIF` carry
      the parsed condition. */
  function Apply(table: Grid, p: Parsed, currentCol: int): Result<Num>
    requires Supported(p.funcName)
  {
    if p.funcName == "SUM" then Sum(table, p.startPos, p.endPos, currentCol)
    else if p.funcName == "MAX" then Max(table, p.startPos, p.endPos, currentCol)
    else if p.funcName == "MIN" then Min(table, p.startPos, p.endPos, currentCol)
    else if p.funcName == "IF" then IfFunction(table, p.startPos, p.endPos, currentCol, p.condition)
    else SumIf(table, p.startPos, p.endPos, currentCol, p.condition)
  }

  /** `parseAndCompute(table, formula, currentCol)`: a format error is returned
      as it is; an unknown name gives `error: unsupported function`, wherever
      the formula sits in the text and in either form; otherwise the function
      runs with `currentCol` as the ignored column. It never throws: every
      string it returns starts with `error: `. */
  function ParseAndCompute(table: Grid, formula: string, currentCol: int): (o: Output)
    ensures o.Text? ==> StartsWith(o.s, ErrorPrefix)
    ensures GetStartAndEndPos(formula).Err? ==> o == Text(GetStartAndEndPos(formula).msg)
    ensures GetStartAndEndPos(formula).Ok? && !Supported(GetStartAndEndPos(formula).value.funcName) ==>
      o == Text(UnsupportedFunction)
  {
    match GetStartAndEndPos(formula)
    case Err(m) =>
      assert StartsWith(InvalidFormatError, ErrorPrefix);
      Text(m)
    case Ok(p) =>
      if !Supported(p.funcName) then
        assert StartsWith(UnsupportedFunction, ErrorPrefix);
        Text(UnsupportedFunction)
      else
        var o := Caught(Apply(table, p, currentCol));
        assert o.Text? ==> o.s[..|ErrorPrefix|] == ErrorPrefix;
        o
  }

  /** A formula that parses to a name of the table is that function's value,
      or its caught error. */
  lemma Dispatched(table: Grid, formula: string, p: Parsed, currentCol: int)
    requires GetStartAndEndPos(formula) == Ok(p) && Supported(p.funcName)
    ensures ParseAndCompute(table, formula, currentCol) == Caught(Apply(table, p, currentCol))
  {
  }

  /** `name(a:b)` with a name outside the function table gives
      `error: unsupported function`, whatever the table. */
  lemma UnsupportedName(table: Grid, name: string, a: string, b: string, currentCol: int)
    requires IsName(name) && IsToken(a) && IsToken(b) && !Supported(name)
    ensures ParseAndCompute(table, PlainFormula(name, a, b), currentCol) == Text(UnsupportedFunction)
  {
    PlainFormulaParses(name, a, b);
  }

  /** Wherever the condition-free pattern matches first, its condition is
      the always-true one. */
  lemma PlainMatchIsAlways(formula: string)
    requires FindPlain(formula).Some?
    ensures var g := FindPlain(formula).value;
      GetStartAndEndPos(formula) == Ok(Parsed(g.name, g.start, g.end, Always))
  {
  }

  /** `IF` found by the condition-free pattern, anywhere in the formula, is
      always true: it gives 1 or an error. */
  lemma PlainIfIsOne(table: Grid, formula: string, currentCol: int)
    requires FindPlain(formula).Some? && FindPlain(formula).value.name == "IF"
    ensures var o := ParseAndCompute(table, formula, currentCol);
      o == Number(Finite(1.0)) || (o.Text? && StartsWith(o.s, ErrorPrefix))
  {
    var g := FindPlain(formula).value;
    PlainMatchIsAlways(formula);
    var r := IfFunction(table, g.start, g.end, currentCol, Always);
    if r.Ok? {
      IfFunctionAlways(table, g.start, g.end, currentCol);
    }
  }

  /** `SUM(a:b)` written out is `sum` over the two references. */
  lemma SumText(table: Grid, a: string, b: string, currentCol: int)
    requires IsToken(a) && IsToken(b)
    ensures ParseAndCompute(table, PlainFormula("SUM", a, b), currentCol) == Caught(Sum(table, a, b, currentCol))
  {
    assert IsName("SUM");
    PlainFormulaParses("SUM", a, b);
  }

  /** `SUMIF` found by the condition-free pattern, anywhere in the formula, is
      `SUM` over the same references. */
  lemma PlainSumIfIsSum(table: Grid, formula: string, currentCol: int)
    requires FindPlain(formula).Some? && FindPlain(formula).value.name == "SUMIF"
    ensures var g := FindPlain(formula).value;
      ParseAndCompute(table, formula, currentCol) ==
      ParseAndCompute(table, PlainFormula("SUM", g.start, g.end), currentCol)
  {
    var g := FindPlain(formula).value;
    PlainMatchIsAlways(formula);
    Dispatched(table, formula, Parsed("SUMIF", g.start, g.end, Always), currentCol);
    SumText(table, g.start, g.end, currentCol);
    SumIfAlways(table, g.start, g.end, currentCol);
  }

  /** Two formulas that parse to the same `SUM`, `MAX` or `MIN` and differ
      only in their conditions compute the same output. */
  lemma SameAggregate(table: Grid, f: string, g: string, p: Parsed, q: Parsed, currentCol: int)
    requires GetStartAndEndPos(f) == Ok(p) && GetStartAndEndPos(g) == Ok(q)
    requires p.funcName == "SUM" || p.funcName == "MAX" || p.funcName == "MIN"
    requires q == p.(condition := q.condition)
    ensures ParseAndCompute(table, f, currentCol) == ParseAndCompute(table, g, currentCol)
  {
    Dispatched(table, f, p, currentCol);
    Dispatched(table, g, q, currentCol);
  }

  /** `SUM`, `MAX` and `MIN` accept the conditional form too and ignore its
      condition, as long as the condition parses. */
  lemma ConditionIgnored(table: Grid, name: string, a: string, b: string, w: string, c: string, currentCol: int)
    requires name == "SUM" || name == "MAX" || name == "MIN"
    requires IsToken(a) && IsToken(b) && AllWhite(w)
    requires c != [] && '"' !in c && '(' !in c && ParseCondition(c).Ok?
    ensures ParseAndCompute(table, ConditionalFormula(name, a, b, w, c), currentCol) ==
      ParseAndCompute(table, PlainFormula(name, a, b), currentCol)
  {
    assert IsName(name);
    ConditionalParsed(name, a, b, w, c);
    PlainFormulaParses(name, a, b);
    SameAggregate(table, ConditionalFormula(name, a, b, w, c), PlainFormula(name, a, b),
      Parsed(name, a, b, ParseCondition(c).value), Parsed(name, a, b, Always), currentCol);
  }

  /** The conditional form with a condition that parses. */
  lemma ConditionalParsed(name: string, a: string, b: string, w: string, c: string)
    requires IsName(name) && IsToken(a) && IsToken(b) && AllWhite(w)
    requires c != [] && '"' !in c && '(' !in c && ParseCondition(c).Ok?
    ensures GetStartAndEndPos(ConditionalFormula(name, a, b, w, c)) == Ok(Parsed(name, a, b, ParseCondition(c).value))
  {
    ConditionalFormulaParses(name, a, b, w, c);
  }

  /** A formula where neither pattern matches gives
      `error: invalid formula format`; one with no `(` at all is such a formula. */
  lemma NoParenthesis(table: Grid, formula: string, currentCol: int)
    requires '(' !in formula
    ensures ParseAndCompute(table, formula, currentCol) == Text(InvalidFormatError)
  {
    NoFormulaWithoutParenthesis(formula);
  }
}
