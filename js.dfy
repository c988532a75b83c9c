/**
 * The fragments of JavaScript semantics the server's handlers rely on: what Express hands over
 * as a body value, truthiness and `||`, the `Array.isArray(x) ? x : [x]` coercion, `String.trim`,
 * the decimal printing of numbers in template strings, `RegExp.test` on a fixed alternative of
 * words, and `replace(/[^...]/g, "_")`.
 *
 * A JavaScript string is a `seq<char>` here.
 */
module Js {
  import opened Wrappers

  /** A request-body value: `None` is `undefined` (the key was not sent). */
  type Field = Option<string>

  /** A form key as `express.urlencoded({ extended: true })` parses it: absent, sent once, or repeated. */
  datatype FormValue = Absent | One(s: string) | Many(ss: seq<string>)

  /** JavaScript truthiness of a body value: `undefined` and `""` are the only falsy strings. */
  predicate Truthy(f: Field)
    ensures Truthy(f) <==> f != None && f != Some("")
  {
    f.Some? && f.value != ""
  }

  /** Truthiness of a raw form value: an array is truthy even when empty. */
  predicate FormTruthy(v: FormValue) {
    match v
    case Absent => false
    case One(s) => s != ""
    case Many(_) => true
  }

  /** `a || b` on body values: the first operand when it is truthy, the second otherwise. */
  function Or(a: Field, b: Field): (r: Field)
    ensures r == a || r == b
    ensures Truthy(a) ==> r == a
    ensures !Truthy(a) ==> r == b
    ensures Truthy(r) <==> Truthy(a) || Truthy(b)
  {
    if Truthy(a) then a else b
  }

  /** `a || d` where `d` is a string literal: `Or` with a defined second operand. */
  function OrDefault(a: Field, d: string): (r: string)
    ensures Some(r) == Or(a, Some(d))
    ensures r != "" <==> Truthy(a) || d != ""
  {
    if Truthy(a) then a.value else d
  }

  /** `Array.isArray(v) ? v : [v]`: an absent key becomes `[undefined]`, a single value a one-element list. */
  function AsList(v: FormValue): (r: seq<Field>)
    ensures |r| == if v.Many? then |v.ss| else 1
    ensures v.Many? ==> forall i :: 0 <= i < |r| ==> r[i] == Some(v.ss[i])
    ensures v.One? ==> r == [Some(v.s)]
    ensures v.Absent? ==> r == [None]
  {
    match v
    case Absent => [None]
    case One(s) => [Some(s)]
    case Many(ss) => seq(|ss|, i requires 0 <= i < |ss| => Some(ss[i]))
  }

  /** `xs[i]`, which is `undefined` past the end of the array. */
  function At(xs: seq<Field>, i: nat): Field {
    if i < |xs| then xs[i] else None
  }

  // ---------------------------------------------------------------------------------------------
  // String.prototype.trim

  /** The WhiteSpace and LineTerminator code points that `trim` removes (ECMA-262, section 22.1.3.32). */
  predicate IsSpace(c: char) {
    c == '\t' || c == '\n' || c == '\U{000B}' || c == '\U{000C}' || c == '\r' || c == ' '
    || c == '\U{00A0}' || c == '\U{1680}' || ('\U{2000}' <= c <= '\U{200A}')
    || c == '\U{2028}' || c == '\U{2029}' || c == '\U{202F}' || c == '\U{205F}'
    || c == '\U{3000}' || c == '\U{FEFF}'
  }

  function TrimStart(s: string): (r: string)
    ensures |r| <= |s| && r == s[|s| - |r|..]
    ensures forall i :: 0 <= i < |s| - |r| ==> IsSpace(s[i])
    ensures r == [] || !IsSpace(r[0])
  {
    if s != [] && IsSpace(s[0]) then TrimStart(s[1..]) else s
  }

  function TrimEnd(s: string): (r: string)
    ensures |r| <= |s| && r == s[..|r|]
    ensures forall i :: |r| <= i < |s| ==> IsSpace(s[i])
    ensures r == [] || !IsSpace(r[|r| - 1])
  {
    if s != [] && IsSpace(s[|s| - 1]) then TrimEnd(s[..|s| - 1]) else s
  }

  /** `s.trim()`: the infix of `s` left after removing leading and trailing white space. */
  function Trim(s: string): (r: string)
    ensures IsTrimOf(s, r)
  {
    TrimBothEnds(s);
    TrimEnd(TrimStart(s))
  }

  lemma TrimBothEnds(s: string)
    ensures IsTrimOf(s, TrimEnd(TrimStart(s)))
  {
    var t := TrimStart(s);
    var r := TrimEnd(t);
    var i := |s| - |t|;
    assert t == s[i..] && r == t[..|r|];
    forall k | i + |r| <= k < |s| ensures IsSpace(s[k]) {
      assert s[k] == t[k - i];
    }
    assert TrimmedAt(s, r, i);
  }

  /**
   * `r` is what trimming `s` must give: it neither starts nor ends with white space, and it sits in
   * `s` with nothing but white space around it. Exactly one string has these properties.
   */
  ghost predicate IsTrimOf(s: string, r: string) {
    && (r == [] || (!IsSpace(r[0]) && !IsSpace(r[|r| - 1])))
    && exists i :: TrimmedAt(s, r, i)
  }

  /** `r` sits at offset `i` of `s`, and everything of `s` around it is white space. */
  predicate TrimmedAt(s: string, r: string, i: int) {
    && 0 <= i <= |s| - |r| && r == s[i..i + |r|]
    && (forall k :: 0 <= k < i ==> IsSpace(s[k]))
    && (forall k :: i + |r| <= k < |s| ==> IsSpace(s[k]))
  }

  /** A string without white space at either end is its own trim; hence trimming twice is trimming once. */
  lemma TrimTrimmed(s: string)
    requires s == [] || (!IsSpace(s[0]) && !IsSpace(s[|s| - 1]))
    ensures Trim(s) == s
  {
  }

  lemma TrimIdempotent(s: string)
    ensures Trim(Trim(s)) == Trim(s)
  {
    TrimTrimmed(Trim(s));
  }

  // ---------------------------------------------------------------------------------------------
  // Decimal printing of a non-negative integer (`${n}` for integers below 10^21)

  predicate IsDigit(c: char) {
    '0' <= c <= '9'
  }

  function Digit(d: nat): (c: char)
    requires d < 10
    ensures IsDigit(c) && c as int - '0' as int == d
  {
    ('0' as int + d) as char
  }

  /** `String(n)` for a non-negative integer: its decimal digits, without leading zeros. */
  function NumberToString(n: nat): (r: string)
    ensures |r| >= 1
    ensures forall i :: 0 <= i < |r| ==> IsDigit(r[i])
    ensures r[0] == '0' ==> n == 0
    ensures n < 10 <==> |r| == 1
  {
    if n < 10 then [Digit(n)] else NumberToString(n / 10) + [Digit(n % 10)]
  }

  /** The value of a string of decimal digits. */
  function ParseDecimal(s: string): nat
    requires forall i :: 0 <= i < |s| ==> IsDigit(s[i])
  {
    if s == [] then 0 else ParseDecimal(s[..|s| - 1]) * 10 + DigitValue(s[|s| - 1])
  }

  function DigitValue(c: char): nat
    requires IsDigit(c)
  {
    c as int - '0' as int
  }

  /** Printing a number and reading it back gives the number. */
  lemma {:induction false} DecimalRoundTrip(n: nat)
    ensures ParseDecimal(NumberToString(n)) == n
  {
    if n >= 10 {
      var p := NumberToString(n / 10);
      assert (p + [Digit(n % 10)])[..|p|] == p;
      DecimalRoundTrip(n / 10);
    }
  }

  /** Distinct numbers print as distinct strings. */
  lemma NumberToStringInjective(m: nat, n: nat)
    requires m != n
    ensures NumberToString(m) != NumberToString(n)
  {
    DecimalRoundTrip(m);
    DecimalRoundTrip(n);
  }

  // ---------------------------------------------------------------------------------------------
  // Substring tests and character replacement

  /** `s.includes(t)`, which is what `/t/.test(s)` decides for a literal `t`. */
  function HasInfix(s: string, t: string): (r: bool)
    ensures r <==> exists i :: InfixAt(s, t, i)
    decreases |s|
  {
    if |t| > |s| then false
    else if s[..|t|] == t then assert InfixAt(s, t, 0); true
    else
      var rest := HasInfix(s[1..], t);
      InfixShift(s, t);
      assert !InfixAt(s, t, 0);
      assert forall i :: InfixAt(s, t, i) ==> InfixAt(s[1..], t, i - 1);
      rest
  }

  lemma InfixShift(s: string, t: string)
    requires s != []
    ensures forall i :: 0 <= i ==> (InfixAt(s[1..], t, i) <==> InfixAt(s, t, i + 1))
  {
    forall i | 0 <= i ensures InfixAt(s[1..], t, i) <==> InfixAt(s, t, i + 1) {
      if 0 <= i <= |s| - 1 - |t| {
        assert s[1..][i..i + |t|] == s[i + 1..i + 1 + |t|];
      }
    }
  }

  /** `t` cannot occur in `s` when one of its characters is missing from `s`. */
  lemma NoInfixWithout(s: string, t: string, k: nat)
    requires k < |t| && t[k] !in s
    ensures !HasInfix(s, t)
  {
  }

  /** `t` occurs in `s` at offset `i`. */
  predicate InfixAt(s: string, t: string, i: int) {
    0 <= i <= |s| - |t| && s[i..i + |t|] == t
  }

  /** `s.toLowerCase()` on the ASCII letters. */
  function AsciiLower(s: string): (r: string)
    ensures |r| == |s|
    ensures forall i :: 0 <= i < |s| ==> r[i] == if 'A' <= s[i] <= 'Z' then (s[i] as int + 32) as char else s[i]
  {
    seq(|s|, i requires 0 <= i < |s| => if 'A' <= s[i] <= 'Z' then (s[i] as int + 32) as char else s[i])
  }

  /** `s.replace(/[^<class>]/g, "_")`: every character outside the class becomes an underscore. */
  function ReplaceOutside(s: string, allowed: char -> bool): (r: string)
  {
    seq(|s|, i requires 0 <= i < |s| => if allowed(s[i]) then s[i] else '_')
  }

  /**
   * The result has the input's length, keeps allowed characters in place, puts `_` in place of every
   * other character and so holds nothing else but allowed characters and `_`.
   */
  lemma ReplaceOutsideShape(s: string, allowed: char -> bool)
    ensures |ReplaceOutside(s, allowed)| == |s|
    ensures forall i :: 0 <= i < |s| && allowed(s[i]) ==> ReplaceOutside(s, allowed)[i] == s[i]
    ensures forall i :: 0 <= i < |s| && !allowed(s[i]) ==> ReplaceOutside(s, allowed)[i] == '_'
    ensures forall c :: c in ReplaceOutside(s, allowed) ==> allowed(c) || c == '_'
  {
  }

  /** Replacing twice is replacing once, and a string of allowed characters is left as it is. */
  lemma ReplaceOutsideIdempotent(s: string, allowed: char -> bool)
    ensures ReplaceOutside(ReplaceOutside(s, allowed), allowed) == ReplaceOutside(s, allowed)
    ensures (forall i :: 0 <= i < |s| ==> allowed(s[i])) ==> ReplaceOutside(s, allowed) == s
  {
  }
}
