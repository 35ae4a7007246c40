/**
 * The three `str::parse` targets the type guesser tries: `bool`, `u64` and
 * `f32`. Boolean and unsigned parsing are modelled exactly; float parsing is
 * modelled by the grammar of literals Rust's `f32::from_str` accepts (the
 * numeric value itself, a rounding to 32 bits, is not modelled).
 */
module Literals {
  import opened Wrappers
  import Strings

  /** `bool::from_str`: exactly "true" or "false". */
  const TrueText := "true"
  const FalseText := "false"
  const InfText := "inf"
  const InfinityText := "infinity"
  const NanText := "nan"

  function ParseBool(s: string): (r: Option<bool>)
    ensures r.Some? <==> s == TrueText || s == FalseText
    ensures r.Some? ==> (r.value <==> s == TrueText)
  {
    if s == TrueText then Some(true)
    else if s == FalseText then Some(false)
    else None
  }

  const U64Max: nat := 0xFFFF_FFFF_FFFF_FFFF

  predicate IsDigit(c: char) {
    '0' <= c <= '9'
  }

  predicate AllDigits(s: string) {
    forall i :: 0 <= i < |s| ==> IsDigit(s[i])
  }

  /** The number a string of decimal digits denotes (leading zeros allowed). */
  function DecimalValue(s: string): nat
    requires AllDigits(s)
  {
    if s == [] then 0 else DecimalValue(s[..|s| - 1]) * 10 + (s[|s| - 1] as int - '0' as int)
  }

  /** The shortest decimal spelling of `n`. */
  function Decimal(n: nat): (s: string)
    ensures s != [] && AllDigits(s)
  {
    var d := ['0' + (n % 10) as char];
    if n < 10 then d else Decimal(n / 10) + d
  }

  /**
   * `u64::from_str`: an optional `+`, then at least one ASCII digit, and a
   * value that fits in 64 bits. A `-` sign is rejected, even on zero.
   */
  function ParseU64(s: string): (r: Option<nat>)
    ensures r.Some? ==> r.value <= U64Max
    ensures r.Some? ==> s != [] && s[0] != '-'
  {
    var digits := if |s| > 0 && s[0] == '+' then s[1..] else s;
    if digits != [] && AllDigits(digits) && DecimalValue(digits) <= U64Max
    then Some(DecimalValue(digits))
    else None
  }

  lemma {:induction false} DecimalRoundTrip(n: nat)
    ensures DecimalValue(Decimal(n)) == n
  {
    var d := ['0' + (n % 10) as char];
    if n >= 10 {
      var s := Decimal(n / 10) + d;
      assert s[..|s| - 1] == Decimal(n / 10);
      DecimalRoundTrip(n / 10);
    }
  }

  /** Every value of the type is parsed back from its decimal spelling, with or without `+`. */
  lemma ParseU64OfDecimal(n: nat)
    requires n <= U64Max
    ensures ParseU64(Decimal(n)) == Some(n)
    ensures ParseU64("+" + Decimal(n)) == Some(n)
  {
    DecimalRoundTrip(n);
    assert ("+" + Decimal(n))[1..] == Decimal(n);
  }

  /** A number too large for 64 bits is rejected, however it is spelt. */
  lemma ParseU64Overflow(n: nat)
    requires n > U64Max
    ensures ParseU64(Decimal(n)) == None
    ensures ParseU64("+" + Decimal(n)) == None
  {
    DecimalRoundTrip(n);
    ParseU64OfDigits(Decimal(n));
  }

  /**
   * What `u64::from_str` accepts, read backwards from its result: the text is
   * a non-empty run of ASCII digits, possibly after a `+`, whose decimal value
   * is the result. Anything else (a letter, a `-`, a space, the empty text)
   * is rejected.
   */
  lemma ParseU64Accepted(s: string)
    requires ParseU64(s).Some?
    ensures exists d :: (s == d || s == "+" + d) && d != [] && AllDigits(d) && DecimalValue(d) == ParseU64(s).value
  {
    var d := if |s| > 0 && s[0] == '+' then s[1..] else s;
    if |s| > 0 && s[0] == '+' {
      assert s == "+" + d;
    }
  }

  /**
   * Every non-empty digit string, leading zeros included, with or without a
   * `+`, parses to its decimal value when that fits in 64 bits and is
   * rejected when it does not.
   */
  lemma ParseU64OfDigits(d: string)
    requires d != [] && AllDigits(d)
    ensures ParseU64(d) == ParseU64("+" + d)
    ensures ParseU64(d) == if DecimalValue(d) <= U64Max then Some(DecimalValue(d)) else None
  {
    assert ("+" + d)[1..] == d;
  }

  /** Leading zeros are read as the number they pad; a sign on zero is only accepted as `+`. */
  lemma ParseU64Examples()
    ensures ParseU64("007") == Some(7)
    ensures ParseU64("+0") == Some(0)
    ensures ParseU64("-0") == None
    ensures ParseU64("abc") == None
    ensures ParseU64("") == None
  {
    ParseU64OfDigits("007");
    assert DecimalValue("007") == 7 by {
      assert "007"[..2] == "00";
      assert "00"[..1] == "0";
      assert "0"[..0] == "";
    }
    ParseU64OfDigits("0");
    assert DecimalValue("0") == 0 by {
      assert "0"[..0] == "";
    }
    assert "+" + "0" == "+0";
    assert !IsDigit("abc"[0]);
  }

  /**
   * The states of a recogniser for Rust's float-number grammar
   * `Number ::= (Digit+ | Digit+ '.' Digit* | Digit* '.' Digit+) Exp?`,
   * `Exp ::= 'e' Sign? Digit+`: before anything, in the whole part, after a
   * point with no whole part, in the fraction, after the exponent mark,
   * after the exponent sign, in the exponent digits.
   */
  datatype NumberState = Begin | Whole | BarePoint | Fraction | ExpMark | ExpSign | ExpDigits

  /** One transition of the recogniser; `None` rejects. The letter `e` may be upper case. */
  function Step(st: NumberState, c: char): Option<NumberState> {
    match st
    case Begin =>
      if IsDigit(c) then Some(Whole) else if c == '.' then Some(BarePoint) else None
    case Whole =>
      if IsDigit(c) then Some(Whole) else if c == '.' then Some(Fraction)
      else if c == 'e' || c == 'E' then Some(ExpMark) else None
    case BarePoint =>
      if IsDigit(c) then Some(Fraction) else None
    case Fraction =>
      if IsDigit(c) then Some(Fraction) else if c == 'e' || c == 'E' then Some(ExpMark) else None
    case ExpMark =>
      if IsDigit(c) then Some(ExpDigits) else if c == '+' || c == '-' then Some(ExpSign) else None
    case ExpSign =>
      if IsDigit(c) then Some(ExpDigits) else None
    case ExpDigits =>
      if IsDigit(c) then Some(ExpDigits) else None
  }

  /** The state reached after reading all of `s` from `st`, if no character is rejected. */
  function Run(st: NumberState, s: string): Option<NumberState>
    decreases |s|
  {
    if s == [] then Some(st)
    else
      match Step(st, s[0])
      case None => None
      case Some(next) => Run(next, s[1..])
  }

  /** The states in which a complete number has been read. */
  predicate IsAccepting(st: NumberState) {
    st == Whole || st == Fraction || st == ExpDigits
  }

  predicate IsNumber(u: string) {
    var r := Run(Begin, u);
    r.Some? && IsAccepting(r.value)
  }

  /** `u` equals the lower-case word `w` up to ASCII case. */
  predicate SameIgnoringCase(u: string, w: string) {
    |u| == |w| && (u == [] || (Strings.LowerChar(u[0]) == w[0] && SameIgnoringCase(u[1..], w[1..])))
  }

  /**
   * Whether `f32::from_str` accepts `s`: an optional sign followed by `inf`,
   * `infinity` or `nan` in any ASCII case, or by a decimal number with an
   * optional exponent. Overflowing literals are accepted (as infinities);
   * surrounding whitespace is not.
   */
  predicate IsFloatLiteral(s: string) {
    var u := if |s| > 0 && (s[0] == '+' || s[0] == '-') then s[1..] else s;
    SameIgnoringCase(u, InfText) || SameIgnoringCase(u, InfinityText) || SameIgnoringCase(u, NanText)
    || IsNumber(u)
  }

  lemma {:induction false} DigitsStayWhole(d: string)
    requires AllDigits(d)
    ensures Run(Whole, d) == Some(Whole)
  {
    if d != [] {
      DigitsStayWhole(d[1..]);
    }
  }

  /** Every literal `u64::from_str` accepts is also a float literal. */
  lemma U64IsFloat(s: string)
    requires ParseU64(s).Some?
    ensures IsFloatLiteral(s)
  {
    var digits := if |s| > 0 && s[0] == '+' then s[1..] else s;
    DigitsStayWhole(digits[1..]);
  }
}
