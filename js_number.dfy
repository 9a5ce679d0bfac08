/** JavaScript numbers as the formula engine sees them, and the two parsers it
    calls: `parseInt(s)` (no radix) and `parseFloat(s)`. Finite values are exact
    reals: binary64 rounding is not modelled. */
module JsNumber {
  import opened Wrappers
  import opened JsText

  /** A JavaScript number: finite, one of the two infinities, or NaN. */
  datatype Num = Finite(value: real) | PosInf | NegInf | NaN

  predicate IsDigit(c: char) { '0' <= c <= '9' }

  predicate IsHexDigit(c: char) {
    IsDigit(c) || ('a' <= c <= 'f') || ('A' <= c <= 'F')
  }

  predicate AllDigits(s: string) {
    forall i :: 0 <= i < |s| ==> IsDigit(s[i])
  }

  predicate AllHexDigits(s: string) {
    forall i :: 0 <= i < |s| ==> IsHexDigit(s[i])
  }

  function DigitValue(c: char): (d: nat)
    requires IsDigit(c)
    ensures d < 10
  {
    c as int - '0' as int
  }

  function HexDigitValue(c: char): (d: nat)
    requires IsHexDigit(c)
    ensures d < 16
  {
    if IsDigit(c) then DigitValue(c)
    else if 'a' <= c <= 'f' then c as int - 'a' as int + 10
    else c as int - 'A' as int + 10
  }

  /** The value of a string of decimal digits, most significant first. */
  function DigitsValue(s: string): nat
    requires AllDigits(s)
    decreases |s|
  {
    if s == [] then 0 else 10 * DigitsValue(s[..|s| - 1]) + DigitValue(s[|s| - 1])
  }

  function HexDigitsValue(s: string): nat
    requires AllHexDigits(s)
    decreases |s|
  {
    if s == [] then 0 else 16 * HexDigitsValue(s[..|s| - 1]) + HexDigitValue(s[|s| - 1])
  }

  function DigitChar(d: nat): (c: char)
    requires d < 10
    ensures IsDigit(c) && DigitValue(c) == d
  {
    ('0' as int + d) as char
  }

  /** `String(n)` for a non-negative integer: its decimal digits, without
      leading zeros, and reading them back gives `n`. */
  function NatToString(n: nat): (r: string)
    ensures |r| >= 1 && AllDigits(r) && DigitsValue(r) == n
    ensures r[0] == '0' ==> n == 0
    decreases n
  {
    if n < 10 then [DigitChar(n)]
    else
      var r := NatToString(n / 10) + [DigitChar(n % 10)];
      assert r[..|r| - 1] == NatToString(n / 10);
      r
  }

  /** `String(i)` for an integer. */
  function IntToString(i: int): string {
    if i < 0 then "-" + NatToString(-i) else NatToString(i)
  }

  /** Different naturals print differently. */
  lemma NatToStringInjective(m: nat, n: nat)
    ensures NatToString(m) == NatToString(n) ==> m == n
  {
  }

  /** An optional leading sign: whether it was `-`, and what follows it. */
  function SplitSign(t: string): (bool, string) {
    if t != [] && t[0] == '-' then (true, t[1..])
    else if t != [] && t[0] == '+' then (false, t[1..])
    else (false, t)
  }

  /** `parseInt(s)` with no radix: skip leading whitespace, take an optional
      sign, a `0x`/`0X` prefix switches to base 16, then the longest run of
      digits of that base; no digits is NaN (`None`). */
  function ParseInt(s: string): Option<int> {
    var (negative, u) := SplitSign(TrimStart(s));
    var magnitude :=
      if |u| >= 2 && u[0] == '0' && (u[1] == 'x' || u[1] == 'X') then
        var h := u[2..];
        var n := RunLength(h, IsHexDigit);
        if n == 0 then None else Some(HexDigitsValue(h[..n]))
      else
        var n := RunLength(u, IsDigit);
        if n == 0 then None else Some(DigitsValue(u[..n]));
    match magnitude
    case None => None
    case Some(m) => Some(if negative then -(m as int) else m)
  }

  function Pow10Nat(e: nat): (p: real)
    ensures p >= 1.0
  {
    if e == 0 then 1.0 else 10.0 * Pow10Nat(e - 1)
  }

  function Pow10(e: int): real {
    if e >= 0 then Pow10Nat(e) else 1.0 / Pow10Nat(-e)
  }

  /** The decimal mantissa at the start of `u` (`12`, `12.`, `12.5`, `.5`): its
      value and how many characters it takes. */
  function Mantissa(u: string): Option<(real, nat)> {
    var i := RunLength(u, IsDigit);
    if i < |u| && u[i] == '.' then
      var f := RunLength(u[i + 1..], IsDigit);
      if i + f == 0 then None
      else Some((DigitsValue(u[..i]) as real + DigitsValue(u[i + 1..i + 1 + f]) as real / Pow10Nat(f), i + 1 + f))
    else if i == 0 then None
    else Some((DigitsValue(u[..i]) as real, i))
  }

  /** The exponent part `e12`, `E-3`, `e+4` at the start of `w`, 0 when there is
      none (an `e` not followed by digits is not part of the number). */
  function Exponent(w: string): int {
    if w != [] && (w[0] == 'e' || w[0] == 'E') then
      var (negative, rest) := SplitSign(w[1..]);
      var d := RunLength(rest, IsDigit);
      if d == 0 then 0
      else if negative then -(DigitsValue(rest[..d]) as int) else DigitsValue(rest[..d])
    else 0
  }

  /** `parseFloat(s)`: skip leading whitespace, take the longest prefix that is
      a signed decimal literal; `None` stands for NaN. */
  function ParseFloat(s: string): Option<real> {
    var (negative, u) := SplitSign(TrimStart(s));
    match Mantissa(u)
    case None => None
    case Some((v, len)) =>
      var x := v * Pow10(Exponent(u[len..]));
      Some(if negative then -x else x)
  }

  /** `parseFloat(s)` as a JavaScript number. */
  function ParseNumber(s: string): Num {
    match ParseFloat(s)
    case None => NaN
    case Some(v) => Finite(v)
  }

  lemma DigitsNotWhite(s: string)
    requires s != [] && IsDigit(s[0])
    ensures TrimStart(s) == s
  {
  }

  /** A whole string of decimal digits is read by `parseInt` as its value. */
  lemma {:induction false} ParseIntDigits(s: string)
    requires s != [] && AllDigits(s)
    ensures ParseInt(s) == Some(DigitsValue(s))
  {
    DigitsNotWhite(s);
    assert SplitSign(s) == (false, s);
    var n := RunLength(s, IsDigit);
    RunLengthWhole(s, IsDigit);
    assert s[..n] == s;
  }

  /** A string without a decimal digit is NaN for `parseInt`. */
  lemma {:induction false} ParseIntNoDigits(s: string)
    requires forall i :: 0 <= i < |s| ==> !IsDigit(s[i])
    ensures ParseInt(s) == None
  {
    var t := TrimStart(s);
    TrimStartSuffix(s);
    var u := SplitSign(t).1;
    assert u == t || u == t[1..];
    assert forall i :: 0 <= i < |u| ==> u[i] == s[|s| - |u| + i];
    assert u != [] ==> !IsDigit(u[0]);
  }

  /** A string that starts with something other than whitespace, a sign or a
      digit is NaN for `parseInt`. */
  lemma ParseIntNaN(s: string)
    requires s != [] && !IsWhite(s[0]) && !IsDigit(s[0]) && s[0] != '-' && s[0] != '+'
    ensures ParseInt(s) == None
  {
    assert SplitSign(TrimStart(s)) == (false, s);
  }

  /** `parseFloat` reads back what `String` prints for a natural number. */
  lemma {:induction false} ParseFloatNat(n: nat)
    ensures ParseFloat(NatToString(n)) == Some(n as real)
  {
    var s := NatToString(n);
    DigitsNotWhite(s);
    assert SplitSign(s) == (false, s);
    var i := RunLength(s, IsDigit);
    RunLengthWhole(s, IsDigit);
    assert s[..i] == s;
    assert Mantissa(s) == Some((n as real, |s|));
    assert s[|s|..] == [];
  }

  /** A string that starts with something other than whitespace, a sign, a
      digit or a point is NaN for `parseFloat`. */
  lemma ParseFloatNaN(s: string)
    requires s != [] && !IsWhite(s[0]) && !IsDigit(s[0]) && s[0] != '-' && s[0] != '+' && s[0] != '.'
    ensures ParseFloat(s) == None
  {
    assert SplitSign(TrimStart(s)) == (false, s);
    assert RunLength(s, IsDigit) == 0;
  }
}
