/** The condition parser of src/utils.ts: a clause such as `>=10` becomes a
    predicate comparing a number with an integer threshold. */
module Conditions {
  import opened Wrappers
  import opened JsText
  import opened JsNumber

  datatype Op = Lt | Le | Gt | Ge | Eq

  function OpText(op: Op): string {
    match op
    case Lt => "<"
    case Le => "<="
    case Gt => ">"
    case Ge => ">="
    case Eq => "=="
  }

  /** A formula's condition: `Always` for the condition-free form, otherwise an
      operator and the threshold the clause's digits spell. */
  datatype Condition = Always | Compare(op: Op, threshold: nat)

  /** Whether the predicate built for `c` accepts the JavaScript number `x`:
      every comparison with NaN is false, and the infinities compare as the
      largest and smallest numbers. */
  predicate Holds(c: Condition, x: Num) {
    match c
    case Always => true
    case Compare(op, n) =>
      match x
      case NaN => false
      case PosInf => op == Gt || op == Ge
      case NegInf => op == Lt || op == Le
      case Finite(v) =>
        match op
        case Lt => v < n as real
        case Le => v <= n as real
        case Gt => v > n as real
        case Ge => v >= n as real
        case Eq => v == n as real
  }

  predicate DigitAt(t: string, k: nat) {
    k < |t| && IsDigit(t[k])
  }

  /** The digits `\d+` takes at `t[k..]`. */
  function DigitsFrom(t: string, k: nat): (d: string)
    requires DigitAt(t, k)
    ensures d != [] && AllDigits(d) && StartsWith(t[k..], d)
    ensures k + |d| < |t| ==> !IsDigit(t[k + |d|])
  {
    t[k..k + RunLength(t[k..], IsDigit)]
  }

  /** The alternation `(<=|>=|<|>|==)` followed by `\d`, tried in order at the
      start of `t`: the first operator whose text is there with a digit after it. */
  function OperatorAt(t: string): Option<Op> {
    if StartsWith(t, "<=") && DigitAt(t, 2) then Some(Le)
    else if StartsWith(t, ">=") && DigitAt(t, 2) then Some(Ge)
    else if StartsWith(t, "<") && DigitAt(t, 1) then Some(Lt)
    else if StartsWith(t, ">") && DigitAt(t, 1) then Some(Gt)
    else if StartsWith(t, "==") && DigitAt(t, 2) then Some(Eq)
    else None
  }

  /** At most one operator fits, so trying them in order finds exactly it. */
  lemma {:induction false} OperatorAtExact(t: string, op: Op)
    ensures OperatorAt(t) == Some(op) <==> StartsWith(t, OpText(op)) && DigitAt(t, |OpText(op)|)
  {
    if StartsWith(t, OpText(op)) && DigitAt(t, |OpText(op)|) {
      match op
      case Lt => assert t[1] != '=';
      case Gt => assert t[0] == '>' && t[1] != '=';
      case Le => assert t[0] == '<';
      case Ge => assert t[0] == '>';
      case Eq => assert t[0] == '=';
    }
  }

  /** The regular expression `(<=|>=|<|>|==)(\d+)` tried at position `i`: its
      groups, operator and digits, when it matches there. */
  function ConditionMatchAt(s: string, i: nat): (r: Option<(Op, string)>)
    ensures r.Some? ==> r.value.1 != [] && AllDigits(r.value.1)
  {
    if i > |s| then None
    else
      var t := s[i..];
      match OperatorAt(t)
      case None => None
      case Some(op) =>
        OperatorAtExact(t, op);
        Some((op, DigitsFrom(t, |OpText(op)|)))
  }

  /** What the regular expression means at position `i`: the operator's text,
      then a maximal run of one or more digits. */
  predicate ConditionAt(s: string, i: nat, op: Op, d: string) {
    i <= |s| && d != [] && AllDigits(d) && StartsWith(s[i..], OpText(op) + d) &&
    (i + |OpText(op)| + |d| < |s| ==> !IsDigit(s[i + |OpText(op)| + |d|]))
  }

  /** A maximal run of digits `d` at `t[k..]` is what `\d+` takes there. */
  lemma DigitsFromExact(t: string, k: nat, d: string)
    requires k <= |t| && d != [] && AllDigits(d) && StartsWith(t[k..], d)
    requires k + |d| < |t| ==> !IsDigit(t[k + |d|])
    ensures DigitAt(t, k) && DigitsFrom(t, k) == d
  {
    assert t[k..][0] == d[0];
    RunLengthExact(t[k..], d, IsDigit);
    assert t[k..k + |d|] == t[k..][..|d|];
  }

  lemma {:induction false} ConditionMatchComplete(s: string, i: nat, op: Op, d: string)
    requires ConditionAt(s, i, op, d)
    ensures ConditionMatchAt(s, i) == Some((op, d))
  {
    var t := s[i..];
    var w := OpText(op);
    var k := |w|;
    assert t[..k + |d|] == w + d;
    assert t[..k] == (w + d)[..k] == w;
    assert t[k..][..|d|] == (w + d)[k..] == d;
    DigitsFromExact(t, k, d);
    OperatorAtExact(t, op);
  }

  lemma {:induction false} ConditionMatchSound(s: string, i: nat, op: Op, d: string)
    requires ConditionMatchAt(s, i) == Some((op, d))
    ensures ConditionAt(s, i, op, d)
  {
    var t := s[i..];
    var w := OpText(op);
    var k := |w|;
    OperatorAtExact(t, op);
    assert StartsWith(t, w) && DigitAt(t, k);
    assert DigitsFrom(t, k) == d;
    assert t[..k] == w;
    assert t[k..][..|d|] == d;
    assert t[..k + |d|] == t[..k] + t[k..][..|d|];
  }

  /** The matcher finds exactly the operator and digits the pattern describes. */
  lemma ConditionMatchExact(s: string, i: nat, op: Op, d: string)
    ensures ConditionMatchAt(s, i) == Some((op, d)) <==> ConditionAt(s, i, op, d)
  {
    if ConditionAt(s, i, op, d) { ConditionMatchComplete(s, i, op, d); }
    if ConditionMatchAt(s, i) == Some((op, d)) { ConditionMatchSound(s, i, op, d); }
  }

  /** The message `parseCondition` throws when nothing matches. */
  const InvalidCondition: string := "Invalid condition format"

  /** `parseCondition(conditionStr)`: the leftmost match of the condition
      pattern gives the operator and the threshold; no match throws
      "Invalid condition format". (Its "Invalid operator" branch cannot be
      reached: every match carries one of the five operators.) */
  function ParseCondition(s: string): (r: Result<Condition>)
    ensures r.Err? ==> r.msg == InvalidCondition
    ensures r.Err? <==> forall i :: 0 <= i <= |s| ==> ConditionMatchAt(s, i).None?
    ensures r.Ok? ==> exists k, op, d :: (0 <= k <= |s| && ConditionMatchAt(s, k) == Some((op, d)) &&
      (forall j :: 0 <= j < k ==> ConditionMatchAt(s, j).None?) &&
      r.value == Compare(op, DigitsValue(d)))
  {
    var at := (i: nat) => ConditionMatchAt(s, i);
    match FirstMatch(|s|, at, 0)
    case None =>
      assert forall i :: 0 <= i <= |s| ==> at(i) == ConditionMatchAt(s, i);
      Err(InvalidCondition)
    case Some((k, (op, d))) =>
      assert forall i :: 0 <= i <= |s| ==> at(i) == ConditionMatchAt(s, i);
      assert ConditionMatchAt(s, k) == Some((op, d));
      Ok(Compare(op, DigitsValue(d)))
  }

  /** The leftmost match decides: when the pattern first matches at `k`, the
      condition is that match's operator and threshold. */
  lemma ParseConditionAt(s: string, k: nat, op: Op, d: string)
    requires ConditionMatchAt(s, k) == Some((op, d))
    requires forall j :: 0 <= j < k ==> ConditionMatchAt(s, j).None?
    ensures ParseCondition(s) == Ok(Compare(op, DigitsValue(d)))
  {
    var r := ParseCondition(s);
    if r.Ok? {
      var k', op', d' :| 0 <= k' <= |s| && ConditionMatchAt(s, k') == Some((op', d')) &&
        (forall j :: 0 <= j < k' ==> ConditionMatchAt(s, j).None?) && r.value == Compare(op', DigitsValue(d'));
      assert k' == k;
    }
  }

  /** The search is unanchored: text without `<`, `>` or `=` before the
      clause and anything but a digit after it are ignored, so `x>10y`
      reads as `> 10`. */
  lemma {:induction false} ConditionInsideText(p: string, op: Op, n: nat, q: string)
    requires forall j :: 0 <= j < |p| ==> p[j] !in "<>="
    requires q == [] || !IsDigit(q[0])
    ensures ParseCondition(p + OpText(op) + NatToString(n) + q) == Ok(Compare(op, n))
  {
    var d := NatToString(n);
    var s := p + OpText(op) + d + q;
    var k := |p|;
    forall j | 0 <= j < k
      ensures ConditionMatchAt(s, j).None?
    {
      var t := s[j..];
      assert t[0] == p[j];
      OperatorFirstChar(t);
    }
    assert s[k..] == OpText(op) + d + q;
    assert StartsWith(s[k..], OpText(op) + d);
    if k + |OpText(op)| + |d| < |s| {
      assert s[k + |OpText(op)| + |d|] == q[0];
    }
    ConditionMatchComplete(s, k, op, d);
    ParseConditionAt(s, k, op, d);
  }

  /** An operator is only found at `<`, `>` or `=`. */
  lemma OperatorFirstChar(t: string)
    requires t != [] && t[0] !in "<>="
    ensures OperatorAt(t).None?
  {
  }

  /** A clause written as an operator followed by a number parses back to that
      comparison. */
  lemma {:induction false} ConditionRoundTrip(op: Op, n: nat)
    ensures ParseCondition(OpText(op) + NatToString(n)) == Ok(Compare(op, n))
  {
    var s := OpText(op) + NatToString(n);
    assert s[0..] == s;
    assert StartsWith(s[0..], OpText(op) + NatToString(n));
    assert ConditionAt(s, 0, op, NatToString(n));
    ConditionMatchExact(s, 0, op, NatToString(n));
  }

  /** An operator's last character is `<`, `>` or `=`. */
  lemma OpTextEnds(op: Op)
    ensures var c := OpText(op)[|OpText(op)| - 1]; c == '<' || c == '>' || c == '='
  {
  }

  predicate NoDigitAfterOperator(s: string) {
    forall k :: 0 < k < |s| && IsDigit(s[k]) ==> s[k - 1] != '<' && s[k - 1] != '>' && s[k - 1] != '='
  }

  lemma {:induction false} NoConditionMatchAt(s: string, i: nat)
    requires NoDigitAfterOperator(s)
    ensures ConditionMatchAt(s, i).None?
  {
    if ConditionMatchAt(s, i).Some? {
      var (op, d) := ConditionMatchAt(s, i).value;
      ConditionMatchSound(s, i, op, d);
      var w := OpText(op);
      var k := i + |w|;
      assert s[i..][..|w| + |d|] == w + d;
      assert s[k] == (w + d)[|w|] == d[0];
      assert s[k - 1] == (w + d)[|w| - 1] == w[|w| - 1];
      assert IsDigit(s[k]);
      OpTextEnds(op);
    }
  }

  /** If no digit directly follows `<`, `>` or `=`, the clause is rejected: the
      operator must be immediately followed by the digits. */
  lemma {:induction false} ConditionNeedsAdjacentDigits(s: string)
    requires NoDigitAfterOperator(s)
    ensures ParseCondition(s) == Err(InvalidCondition)
  {
    var at := (i: nat) => ConditionMatchAt(s, i);
    var r := FirstMatch(|s|, at, 0);
    if r.Some? {
      NoConditionMatchAt(s, r.value.0);
    }
  }

  /** The clause `> 10` (a space after the operator) is rejected. */
  lemma SpacedClauseRejected()
    ensures ParseCondition("> 10") == Err(InvalidCondition)
  {
    var s := "> 10";
    assert forall k :: 0 < k < |s| && IsDigit(s[k]) ==> k == 2 || k == 3;
    ConditionNeedsAdjacentDigits(s);
  }
}
