/**
 * JavaScript's conversion of a string to a number (`Number(s)`, which `isNaN(s)` applies first), following the
 * StringNumericLiteral grammar of ECMAScript: surrounding whitespace, an empty string meaning 0, signed decimal
 * literals with an optional fraction and exponent, `Infinity`, and unsigned `0x`/`0o`/`0b` integers.
 * Values are exact reals; IEEE-754 rounding is not modelled.
 */
module JsNumber {
  import opened Wrappers
  import opened Text

  datatype Num = NaN | Infinity(negative: bool) | Finite(value: real)

  /** The value of `c` as a digit in base `radix`, if it is one. */
  function DigitValue(c: char, radix: nat): (d: Option<nat>)
    ensures d.Some? ==> d.value < radix
  {
    var v: int :=
      if '0' <= c <= '9' then c as int - '0' as int
      else if 'a' <= c <= 'f' then c as int - 'a' as int + 10
      else if 'A' <= c <= 'F' then c as int - 'A' as int + 10
      else 16;
    if 0 <= v < radix then Some(v) else None
  }

  /** The value of a string of base-`radix` digits, or None if some character is not such a digit. */
  function DigitsValue(s: string, radix: nat): Option<nat>
    decreases |s|
  {
    if s == [] then Some(0)
    else match (DigitsValue(s[..|s| - 1], radix), DigitValue(s[|s| - 1], radix))
      case (Some(high), Some(low)) => Some(high * radix + low)
      case _ => None
  }

  function Pow10(n: nat): (p: nat)
    ensures p >= 1
  {
    if n == 0 then 1 else 10 * Pow10(n - 1)
  }

  /** The first position of a character of `cs` in `s`. */
  function IndexOfAny(s: string, cs: set<char>): (r: Option<nat>)
    ensures r.Some? ==> r.value < |s| && s[r.value] in cs && forall j :: 0 <= j < r.value ==> s[j] !in cs
    ensures r.None? ==> forall j :: 0 <= j < |s| ==> s[j] !in cs
  {
    if s == [] then None
    else if s[0] in cs then Some(0)
    else match IndexOfAny(s[1..], cs)
      case None => None
      case Some(k) => Some(k + 1)
  }

  /** ExponentPart after its `e`: an optional sign and at least one decimal digit. */
  function Exponent(s: string): Option<int> {
    var negative := s != [] && s[0] == '-';
    var digits := if s != [] && (s[0] == '+' || s[0] == '-') then s[1..] else s;
    if digits == [] then None
    else match DigitsValue(digits, 10)
      case None => None
      case Some(n) =>
        var magnitude: int := n;
        Some(if negative then -magnitude else magnitude)
  }

  /**
   * StrUnsignedDecimalLiteral other than `Infinity`: digits with an optional `.` and fraction (at least one digit
   * in all), then an optional exponent.
   */
  function UnsignedDecimal(u: string): Option<real> {
    var ePos := IndexOfAny(u, {'e', 'E'});
    var mantissa := if ePos.Some? then u[..ePos.value] else u;
    var exponent := if ePos.Some? then Exponent(u[ePos.value + 1..]) else Some(0);
    var dot := IndexOfAny(mantissa, {'.'});
    var whole := if dot.Some? then mantissa[..dot.value] else mantissa;
    var fraction := if dot.Some? then mantissa[dot.value + 1..] else "";
    if |whole| + |fraction| == 0 then None
    else match (DigitsValue(whole + fraction, 10), exponent)
      case (Some(m), Some(e)) =>
        var scaled := (m as real) / (Pow10(|fraction|) as real);
        Some(if e >= 0 then scaled * (Pow10(e) as real) else scaled / (Pow10(-e) as real))
      case _ => None
  }

  function Negate(n: Num): Num {
    match n
    case NaN => NaN
    case Infinity(neg) => Infinity(!neg)
    case Finite(v) => Finite(-v)
  }

  function UnsignedLiteral(u: string): Num {
    if u == "Infinity" then Infinity(false)
    else match UnsignedDecimal(u)
      case None => NaN
      case Some(v) => Finite(v)
  }

  /** StrNumericLiteral, for a string with no surrounding whitespace. */
  function NumericLiteral(t: string): Num {
    if |t| >= 2 && t[0] == '0' && t[1] in {'x', 'X', 'o', 'O', 'b', 'B'} then
      var radix := if t[1] in {'x', 'X'} then 16 else if t[1] in {'o', 'O'} then 8 else 2;
      if |t| == 2 then NaN
      else match DigitsValue(t[2..], radix)
        case None => NaN
        case Some(n) => Finite(n as real)
    else if t != [] && t[0] == '+' then UnsignedLiteral(t[1..])
    else if t != [] && t[0] == '-' then Negate(UnsignedLiteral(t[1..]))
    else UnsignedLiteral(t)
  }

  /** `Number(s)` for a string `s`. */
  function ToNumber(s: string): Num {
    var t := Trim(s);
    if t == "" then Finite(0.0) else NumericLiteral(t)
  }

  /** `isNaN(s)`: JavaScript's global isNaN converts its argument with `Number` first. */
  predicate IsNaN(s: string) {
    ToNumber(s).NaN?
  }

  /** A string of decimal digits is a number whose value those digits spell. */
  lemma DecimalDigitsAreNumeric(s: string, n: nat)
    requires s != [] && '0' <= s[0] <= '9'
    requires DigitsValue(s, 10) == Some(n)
    ensures ToNumber(s) == Finite(n as real)
  {
    DigitsAreTrimmed(s);
    assert ToNumber(s) == NumericLiteral(s);
    if |s| >= 2 {
      DigitsAreDigits(s, 1);
      assert s[1] !in {'x', 'X', 'o', 'O', 'b', 'B'};
    }
    assert NumericLiteral(s) == UnsignedLiteral(s);
    assert s != "Infinity" by {
      assert "Infinity"[0] == 'I';
    }
    DigitsAreUnsignedDecimal(s, n);
  }

  /** Decimal digits have no whitespace to trim. */
  lemma DigitsAreTrimmed(s: string)
    requires s != [] && DigitsValue(s, 10).Some?
    ensures Trim(s) == s
  {
    DigitsAreDigits(s, 0);
    DigitsAreDigits(s, |s| - 1);
    TrimTrimmed(s);
  }

  /** Decimal digits, with neither fraction nor exponent, are an unsigned decimal literal. */
  lemma DigitsAreUnsignedDecimal(s: string, n: nat)
    requires s != [] && DigitsValue(s, 10) == Some(n)
    ensures UnsignedDecimal(s) == Some(n as real)
  {
    forall j | 0 <= j < |s| ensures s[j] !in {'e', 'E'} && s[j] !in {'.'} {
      DigitsAreDigits(s, j);
    }
    assert IndexOfAny(s, {'e', 'E'}).None?;
    assert IndexOfAny(s, {'.'}).None?;
    assert s + "" == s;
    assert (n as real) / (Pow10(0) as real) == n as real;
  }

  /** Every character of a string with a decimal value is a decimal digit. */
  lemma {:induction false} DigitsAreDigits(s: string, j: nat)
    requires DigitsValue(s, 10).Some?
    requires j < |s|
    ensures '0' <= s[j] <= '9'
    decreases |s|
  {
    if j < |s| - 1 {
      DigitsAreDigits(s[..|s| - 1], j);
    } else {
      assert DigitValue(s[|s| - 1], 10).Some?;
    }
  }
}
