/** The formula parser of src/utils.ts (`getStartAndEndPos`): it finds the
    function name, the two range references and the optional condition in a
    formula such as `SUM(A1:A3)` or `SUMIF(A:A, ">10")`. */
module Formulas {
  import opened Wrappers
  import opened JsText
  import opened JsNumber
  import opened Conditions

  predicate IsUpper(c: char) { 'A' <= c <= 'Z' }

  /** The class `\w`. */
  predicate IsWordChar(c: char) {
    IsUpper(c) || ('a' <= c <= 'z') || IsDigit(c) || c == '_'
  }

  predicate NotQuote(c: char) { c != '"' }

  /** What `[A-Z]+` matches. */
  predicate IsName(s: string) {
    s != [] && forall i :: 0 <= i < |s| ==> IsUpper(s[i])
  }

  /** What `\w+` matches. */
  predicate IsToken(s: string) {
    s != [] && forall i :: 0 <= i < |s| ==> IsWordChar(s[i])
  }

  predicate CharAt(t: string, k: nat, c: char) {
    k < |t| && t[k] == c
  }

  /** What every error string of the engine starts with. */
  const ErrorPrefix: string := "error: "

  /** The result when neither formula pattern matches. */
  const InvalidFormatError: string := "error: invalid formula format"

  /** The groups of a match: name, start and end reference, condition text. */
  datatype Groups = Groups(name: string, start: string, end: string, cond: string)

  /** One step of a match: a greedy run of `p` characters at the start of `t`
      (at least one when `nonEmpty`) and then the literal `delim`; the run and
      what follows `delim`, when that succeeds. */
  function Step(t: string, p: char -> bool, delim: char, nonEmpty: bool): (r: Option<(string, string)>)
    ensures r.Some? ==> t == r.value.0 + [delim] + r.value.1
    ensures r.Some? ==> (forall j :: 0 <= j < |r.value.0| ==> p(r.value.0[j])) && (nonEmpty ==> r.value.0 != [])
  {
    var n := RunLength(t, p);
    if (nonEmpty && n == 0) || n >= |t| || t[n] != delim then None
    else
      assert t == t[..n] + [delim] + t[n + 1..];
      Some((t[..n], t[n + 1..]))
  }

  /** A run of `p` characters followed by `delim`, which is not a `p`
      character, is exactly what the step takes. */
  lemma {:induction false} StepExact(x: string, rest: string, p: char -> bool, delim: char, nonEmpty: bool)
    requires forall j :: 0 <= j < |x| ==> p(x[j])
    requires !p(delim) && (nonEmpty ==> x != [])
    ensures Step(x + [delim] + rest, p, delim, nonEmpty) == Some((x, rest))
  {
    var t := x + [delim] + rest;
    assert t[..|x|] == x && t[|x|] == delim && t[|x| + 1..] == rest;
    RunLengthExact(t, x, p);
  }

  /** A run of `p` characters followed by a character `c` outside the class
      other than `delim`: the step fails. */
  lemma {:induction false} StepStops(x: string, c: char, rest: string, p: char -> bool, delim: char, nonEmpty: bool)
    requires forall j :: 0 <= j < |x| ==> p(x[j])
    requires !p(c) && c != delim
    ensures Step(x + [c] + rest, p, delim, nonEmpty).None?
  {
    var t := x + [c] + rest;
    assert t[..|x|] == x && t[|x|] == c;
    RunLengthExact(t, x, p);
  }

  /** `/([A-Z]+)\((\w+):(\w+)\)/` at the start of `t`. Every quantifier in it
      is followed by a character outside its class, so the greedy run is the
      only one that can succeed and no backtracking is needed. */
  function PlainPrefix(t: string): (r: Option<Groups>)
    ensures r.Some? ==> IsName(r.value.name) && IsToken(r.value.start) && IsToken(r.value.end)
  {
    match Step(t, IsUpper, '(', true)
    case None => None
    case Some((name, r1)) =>
      match Step(r1, IsWordChar, ':', true)
      case None => None
      case Some((a, r2)) =>
        match Step(r2, IsWordChar, ')', true)
        case None => None
        case Some((b, _)) => Some(Groups(name, a, b, []))
  }

  /** `/([A-Z]+)\((\w+):(\w+),\s*"([^"]+)"\)/` at the start of `t`; as for
      the plain form, greedy runs are exact. */
  function ConditionalPrefix(t: string): (r: Option<Groups>)
    ensures r.Some? ==> IsName(r.value.name) && IsToken(r.value.start) && IsToken(r.value.end)
    ensures r.Some? ==> r.value.cond != [] && '"' !in r.value.cond
  {
    match Step(t, IsUpper, '(', true)
    case None => None
    case Some((name, r1)) =>
      match Step(r1, IsWordChar, ':', true)
      case None => None
      case Some((a, r2)) =>
        match Step(r2, IsWordChar, ',', true)
        case None => None
        case Some((b, r3)) =>
          match Step(r3, IsWhite, '"', false)
          case None => None
          case Some((_, r4)) =>
            match Step(r4, NotQuote, '"', true)
            case None => None
            case Some((c, r5)) =>
              if r5 == [] || r5[0] != ')' then None
              else
                assert forall j :: 0 <= j < |c| ==> NotQuote(c[j]);
                Some(Groups(name, a, b, c))
  }

  /** The plain pattern tried at position `i` of `s`. */
  function PlainMatchAt(s: string, i: nat): (r: Option<Groups>)
    ensures r.Some? ==> IsName(r.value.name) && IsToken(r.value.start) && IsToken(r.value.end)
  {
    if i > |s| then None else PlainPrefix(s[i..])
  }

  /** The conditional pattern tried at position `i` of `s`. */
  function ConditionalMatchAt(s: string, i: nat): (r: Option<Groups>)
    ensures r.Some? ==> IsName(r.value.name) && IsToken(r.value.start) && IsToken(r.value.end)
    ensures r.Some? ==> r.value.cond != [] && '"' !in r.value.cond
  {
    if i > |s| then None else ConditionalPrefix(s[i..])
  }

  /** The plain form `name(a:b)` followed by `rest`. */
  function PlainText(name: string, a: string, b: string, rest: string): string {
    name + ['('] + (a + [':'] + (b + [')'] + rest))
  }

  /** The text of the plain form. */
  function PlainFormula(name: string, a: string, b: string): string {
    PlainText(name, a, b, [])
  }

  /** The conditional form `name(a:b,w"c")` followed by `rest`, `w` being the
      whitespace after the comma. */
  function ConditionalText(name: string, a: string, b: string, w: string, c: string, rest: string): string {
    name + ['('] + (a + [':'] + (b + [','] + (w + ['"'] + (c + ['"'] + ([')'] + rest)))))
  }

  /** The text of the conditional form. */
  function ConditionalFormula(name: string, a: string, b: string, w: string, c: string): string {
    ConditionalText(name, a, b, w, c, [])
  }

  lemma HeadSplit(t: string)
    requires t != []
    ensures t == [t[0]] + t[1..]
  {
  }

  /** Appending to a text built around a literal character. */
  lemma AppendAround(x: string, d: char, y: string, rest: string)
    ensures (x + [d] + y) + rest == x + [d] + (y + rest)
  {
  }

  lemma {:induction false} PlainTextAppend(name: string, a: string, b: string, rest: string)
    ensures PlainFormula(name, a, b) + rest == PlainText(name, a, b, rest)
  {
    AppendAround(b, ')', [], rest);
    AppendAround(a, ':', b + [')'] + [], rest);
    AppendAround(name, '(', a + [':'] + (b + [')'] + []), rest);
  }

  lemma {:induction false} ConditionalTextAppend(name: string, a: string, b: string, w: string, c: string, rest: string)
    ensures ConditionalFormula(name, a, b, w, c) + rest == ConditionalText(name, a, b, w, c, rest)
  {
    var y5 := [')'] + [];
    var y4 := c + ['"'] + y5;
    var y3 := w + ['"'] + y4;
    var y2 := b + [','] + y3;
    var y1 := a + [':'] + y2;
    assert y5 + rest == [')'] + rest;
    AppendAround(c, '"', y5, rest);
    AppendAround(w, '"', y4, rest);
    AppendAround(b, ',', y3, rest);
    AppendAround(a, ':', y2, rest);
    AppendAround(name, '(', y1, rest);
  }

  /** The plain pattern's meaning at position `i`. */
  predicate PlainAt(s: string, i: nat, name: string, a: string, b: string) {
    i <= |s| && IsName(name) && IsToken(a) && IsToken(b) &&
    StartsWith(s[i..], PlainFormula(name, a, b))
  }

  /** The conditional pattern's meaning at position `i`, with `w` the
      whitespace `\s*` takes. */
  predicate ConditionalAt(s: string, i: nat, name: string, a: string, b: string, w: string, c: string) {
    i <= |s| && IsName(name) && IsToken(a) && IsToken(b) && AllWhite(w) &&
    c != [] && '"' !in c &&
    StartsWith(s[i..], ConditionalFormula(name, a, b, w, c))
  }

  /** The parsed formula: function name, the two references, the condition
      (the always-true one for the plain form). */
  datatype Parsed = Parsed(funcName: string, startPos: string, endPos: string, condition: Condition)

  /** `formula.match(plain)`: the groups of the leftmost plain match; `None`
      exactly when the pattern matches at no position. */
  function FindPlain(formula: string): (r: Option<Groups>)
    ensures r.Some? ==> IsName(r.value.name) && IsToken(r.value.start) && IsToken(r.value.end)
    ensures r.None? <==> forall i :: 0 <= i <= |formula| ==> PlainMatchAt(formula, i).None?
    ensures r.Some? ==> exists k :: (0 <= k <= |formula| && PlainMatchAt(formula, k) == r &&
      forall j :: 0 <= j < k ==> PlainMatchAt(formula, j).None?)
  {
    var at := (i: nat) => PlainMatchAt(formula, i);
    match FirstMatch(|formula|, at, 0)
    case Some((k, g)) =>
      assert forall i :: 0 <= i <= |formula| ==> at(i) == PlainMatchAt(formula, i);
      assert PlainMatchAt(formula, k) == Some(g);
      Some(g)
    case None =>
      assert forall i :: 0 <= i <= |formula| ==> at(i) == PlainMatchAt(formula, i);
      None
  }

  /** `formula.match(conditional)`: the groups of the leftmost conditional
      match; `None` exactly when the pattern matches at no position. */
  function FindConditional(formula: string): (r: Option<Groups>)
    ensures r.Some? ==> IsName(r.value.name) && IsToken(r.value.start) && IsToken(r.value.end)
    ensures r.Some? ==> r.value.cond != [] && '"' !in r.value.cond
    ensures r.None? <==> forall i :: 0 <= i <= |formula| ==> ConditionalMatchAt(formula, i).None?
    ensures r.Some? ==> exists k :: (0 <= k <= |formula| && ConditionalMatchAt(formula, k) == r &&
      forall j :: 0 <= j < k ==> ConditionalMatchAt(formula, j).None?)
  {
    var at := (i: nat) => ConditionalMatchAt(formula, i);
    match FirstMatch(|formula|, at, 0)
    case Some((k, g)) =>
      assert forall i :: 0 <= i <= |formula| ==> at(i) == ConditionalMatchAt(formula, i);
      assert ConditionalMatchAt(formula, k) == Some(g);
      Some(g)
    case None =>
      assert forall i :: 0 <= i <= |formula| ==> at(i) == ConditionalMatchAt(formula, i);
      None
  }

  /** `getStartAndEndPos(formula)`: the plain form is searched first and, when
      found anywhere, wins with the always-true condition; otherwise the
      conditional form, whose condition text is parsed; otherwise the error
      string. The `Err` text is the string the source returns. */
  function GetStartAndEndPos(formula: string): (r: Result<Parsed>)
    ensures r.Ok? ==> IsName(r.value.funcName) && IsToken(r.value.startPos) && IsToken(r.value.endPos)
    ensures r.Err? ==> r.msg == InvalidFormatError || r.msg == ErrorPrefix + InvalidCondition
    ensures r == Err(InvalidFormatError) <==>
      (forall i :: 0 <= i <= |formula| ==> PlainMatchAt(formula, i).None?) &&
      (forall i :: 0 <= i <= |formula| ==> ConditionalMatchAt(formula, i).None?)
  {
    match FindPlain(formula)
    case Some(g) => Ok(Parsed(g.name, g.start, g.end, Always))
    case None =>
      match FindConditional(formula)
      case None => Err(InvalidFormatError)
      case Some(g) =>
        match ParseCondition(g.cond)
        case Err(m) => Err(ErrorPrefix + m)
        case Ok(c) => Ok(Parsed(g.name, g.start, g.end, c))
  }


  /** The plain form at the start of a text is matched with exactly its groups. */
  lemma {:induction false} PlainPrefixComplete(name: string, a: string, b: string, rest: string)
    requires IsName(name) && IsToken(a) && IsToken(b)
    ensures PlainPrefix(PlainText(name, a, b, rest)) == Some(Groups(name, a, b, []))
  {
    var r2 := b + [')'] + rest;
    var r1 := a + [':'] + r2;
    StepExact(name, r1, IsUpper, '(', true);
    StepExact(a, r2, IsWordChar, ':', true);
    StepExact(b, rest, IsWordChar, ')', true);
  }

  /** What the plain matcher returns is laid out as the pattern says. */
  lemma {:induction false} PlainPrefixSound(t: string)
    requires PlainPrefix(t).Some?
    ensures var g := PlainPrefix(t).value; StartsWith(t, PlainFormula(g.name, g.start, g.end))
  {
    var (name, r1) := Step(t, IsUpper, '(', true).value;
    var (a, r2) := Step(r1, IsWordChar, ':', true).value;
    var (b, r3) := Step(r2, IsWordChar, ')', true).value;
    assert t == PlainText(name, a, b, r3);
    PlainTextAppend(name, a, b, r3);
  }

  /** The plain matcher at position `i` succeeds with groups (name, a, b)
      exactly when the pattern holds there with those groups. */
  lemma {:induction false} PlainMatchExact(s: string, i: nat, name: string, a: string, b: string)
    ensures PlainMatchAt(s, i) == Some(Groups(name, a, b, [])) <==> PlainAt(s, i, name, a, b)
  {
    if PlainAt(s, i, name, a, b) {
      var f := PlainFormula(name, a, b);
      var rest := s[i..][|f|..];
      assert s[i..] == f + rest;
      PlainTextAppend(name, a, b, rest);
      PlainPrefixComplete(name, a, b, rest);
    }
    if PlainMatchAt(s, i) == Some(Groups(name, a, b, [])) {
      PlainPrefixSound(s[i..]);
    }
  }

  /** The conditional form at the start of a text is matched with exactly its groups. */
  lemma {:induction false} ConditionalPrefixComplete(name: string, a: string, b: string, w: string, c: string, rest: string)
    requires IsName(name) && IsToken(a) && IsToken(b) && AllWhite(w) && c != [] && '"' !in c
    ensures ConditionalPrefix(ConditionalText(name, a, b, w, c, rest)) == Some(Groups(name, a, b, c))
  {
    var r5 := [')'] + rest;
    var r4 := c + ['"'] + r5;
    var r3 := w + ['"'] + r4;
    var r2 := b + [','] + r3;
    var r1 := a + [':'] + r2;
    StepExact(name, r1, IsUpper, '(', true);
    StepExact(a, r2, IsWordChar, ':', true);
    StepExact(b, r3, IsWordChar, ',', true);
    StepExact(w, r4, IsWhite, '"', false);
    assert forall j :: 0 <= j < |c| ==> NotQuote(c[j]);
    StepExact(c, r5, NotQuote, '"', true);
  }

  /** What the conditional matcher returns is laid out as the pattern says,
      for some whitespace after the comma. */
  lemma {:induction false} ConditionalPrefixSound(t: string)
    requires ConditionalPrefix(t).Some?
    ensures var g := ConditionalPrefix(t).value;
      exists w :: AllWhite(w) && StartsWith(t, ConditionalFormula(g.name, g.start, g.end, w, g.cond))
  {
    var s1 := Step(t, IsUpper, '(', true);
    var s2 := Step(s1.value.1, IsWordChar, ':', true);
    var s3 := Step(s2.value.1, IsWordChar, ',', true);
    var s4 := Step(s3.value.1, IsWhite, '"', false);
    var s5 := Step(s4.value.1, NotQuote, '"', true);
    var w, r5 := s4.value.0, s5.value.1;
    assert s1.Some?;
    assert s2.Some?;
    assert s3.Some?;
    assert s4.Some?;
    assert s5.Some?;
    var g := ConditionalPrefix(t).value;
    assert g == Groups(s1.value.0, s2.value.0, s3.value.0, s5.value.0);
    HeadSplit(r5);
    assert t == ConditionalText(g.name, g.start, g.end, w, g.cond, r5[1..]);
    ConditionalTextAppend(g.name, g.start, g.end, w, g.cond, r5[1..]);
    assert AllWhite(w) && StartsWith(t, ConditionalFormula(g.name, g.start, g.end, w, g.cond));
  }

  /** The conditional matcher at position `i` succeeds with groups
      (name, a, b, c) exactly when the pattern holds there with those groups. */
  lemma {:induction false} ConditionalMatchExact(s: string, i: nat, name: string, a: string, b: string, c: string)
    ensures ConditionalMatchAt(s, i) == Some(Groups(name, a, b, c)) <==>
      exists w :: ConditionalAt(s, i, name, a, b, w, c)
  {
    if w :| ConditionalAt(s, i, name, a, b, w, c) {
      var f := ConditionalFormula(name, a, b, w, c);
      var rest := s[i..][|f|..];
      assert s[i..] == f + rest;
      ConditionalTextAppend(name, a, b, w, c, rest);
      ConditionalPrefixComplete(name, a, b, w, c, rest);
    }
    if ConditionalMatchAt(s, i) == Some(Groups(name, a, b, c)) {
      ConditionalPrefixSound(s[i..]);
      var w :| AllWhite(w) && StartsWith(s[i..], ConditionalFormula(name, a, b, w, c));
      assert ConditionalAt(s, i, name, a, b, w, c);
    }
  }

  /** The plain pattern matches nowhere in the conditional form: the only `(`
      is the one after the name, and its second reference is followed by `,`
      rather than `)`. */
  lemma {:induction false} NoPlainMatchInConditional(name: string, a: string, b: string, w: string, c: string, i: nat)
    requires IsName(name) && IsToken(a) && IsToken(b) && AllWhite(w) && '(' !in c
    ensures PlainMatchAt(ConditionalFormula(name, a, b, w, c), i).None?
  {
    var f := ConditionalFormula(name, a, b, w, c);
    var x := w + ['"'] + (c + ['"'] + ([')'] + []));
    var r2 := b + [','] + x;
    var r1 := a + [':'] + r2;
    assert f == name + ['('] + r1;
    if i < |name| {
      assert f[i..] == name[i..] + ['('] + r1;
      StepExact(name[i..], r1, IsUpper, '(', true);
      StepExact(a, r2, IsWordChar, ':', true);
      StepStops(b, ',', x, IsWordChar, ')', true);
    } else if i == |name| {
      assert f[i..] == ['('] + r1;
      RunLengthExact(f[i..], [], IsUpper);
    } else if i <= |f| {
      assert '(' !in r1 by {
        assert '(' !in a && '(' !in b && '(' !in w;
      }
      assert f[i..] == r1[i - |name| - 1..];
      assert '(' !in f[i..];
    }
  }

  /** The plain form parses to its own name and references with the
      always-true condition. */
  lemma {:induction false} PlainFormulaParses(name: string, a: string, b: string)
    requires IsName(name) && IsToken(a) && IsToken(b)
    ensures GetStartAndEndPos(PlainFormula(name, a, b)) == Ok(Parsed(name, a, b, Always))
  {
    var f := PlainFormula(name, a, b);
    assert f[0..] == f;
    PlainPrefixComplete(name, a, b, []);
  }

  /** The conditional form parses to its name and references, with its
      condition text handed to the condition parser: a condition error becomes
      `error: <message>`. */
  lemma {:induction false} ConditionalFormulaParses(name: string, a: string, b: string, w: string, c: string)
    requires IsName(name) && IsToken(a) && IsToken(b) && AllWhite(w)
    requires c != [] && '"' !in c && '(' !in c
    ensures GetStartAndEndPos(ConditionalFormula(name, a, b, w, c)) ==
      match ParseCondition(c)
      case Err(m) => Err(ErrorPrefix + m)
      case Ok(cond) => Ok(Parsed(name, a, b, cond))
  {
    var f := ConditionalFormula(name, a, b, w, c);
    var r := FirstMatch(|f|, (i: nat) => PlainMatchAt(f, i), 0);
    if r.Some? {
      NoPlainMatchInConditional(name, a, b, w, c, r.value.0);
    }
    assert f[0..] == f;
    ConditionalPrefixComplete(name, a, b, w, c, []);
  }

  /** A conditional formula whose condition is an operator and a decimal
      threshold parses to that comparison. */
  lemma {:induction false} ConditionalFormulaRoundTrip(name: string, a: string, b: string, w: string, op: Op, n: nat)
    requires IsName(name) && IsToken(a) && IsToken(b) && AllWhite(w)
    ensures GetStartAndEndPos(ConditionalFormula(name, a, b, w, OpText(op) + NatToString(n))) ==
      Ok(Parsed(name, a, b, Compare(op, n)))
  {
    var c := OpText(op) + NatToString(n);
    var d := NatToString(n);
    assert forall k :: 0 <= k < |c| ==> c[k] in "<>=" || IsDigit(c[k]) by {
      forall k | 0 <= k < |c|
        ensures c[k] in "<>=" || IsDigit(c[k])
      {
        if k >= |OpText(op)| {
          assert c[k] == d[k - |OpText(op)|];
        }
      }
    }
    assert '"' !in c && '(' !in c;
    ConditionalFormulaParses(name, a, b, w, c);
    ConditionRoundTrip(op, n);
  }

  /** A space between the operator and the number makes the whole formula an
      error: `SUMIF(A1:A3,"> 10")` gives `error: Invalid condition format`. */
  lemma SpacedConditionFormula()
    ensures GetStartAndEndPos("SUMIF(A1:A3,\"> 10\")") == Err(ErrorPrefix + InvalidCondition)
  {
    assert "SUMIF(A1:A3,\"> 10\")" == ConditionalFormula("SUMIF", "A1", "A3", "", "> 10");
    assert IsName("SUMIF") && IsToken("A1") && IsToken("A3");
    ConditionalFormulaParses("SUMIF", "A1", "A3", "", "> 10");
    SpacedClauseRejected();
  }

  /** A step towards `delim` succeeds only on a text that contains it. */
  lemma StepNeedsDelimiter(t: string, p: char -> bool, delim: char, nonEmpty: bool)
    ensures Step(t, p, delim, nonEmpty).Some? ==> delim in t
  {
    if Step(t, p, delim, nonEmpty).Some? {
      var (x, rest) := Step(t, p, delim, nonEmpty).value;
      assert t[|x|] == delim;
    }
  }

  /** Neither pattern matches a text without `(`: the result is the format error. */
  lemma NoFormulaWithoutParenthesis(formula: string)
    requires '(' !in formula
    ensures GetStartAndEndPos(formula) == Err(InvalidFormatError)
  {
    var plain := FirstMatch(|formula|, (i: nat) => PlainMatchAt(formula, i), 0);
    if plain.Some? {
      var i := plain.value.0;
      assert '(' !in formula[i..];
      StepNeedsDelimiter(formula[i..], IsUpper, '(', true);
    }
    var cond := FirstMatch(|formula|, (i: nat) => ConditionalMatchAt(formula, i), 0);
    if cond.Some? {
      var i := cond.value.0;
      assert '(' !in formula[i..];
      StepNeedsDelimiter(formula[i..], IsUpper, '(', true);
    }
  }
}
