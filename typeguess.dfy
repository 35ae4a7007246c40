/**
 * The structured values the serialiser hands to its serde sink, and the two
 * type-guessing rules of `src/element.rs`: `type_guess`, which produces the
 * map entries for one attribute (possibly splitting off a unit), and
 * `type_guess_val`, which produces a single value for a lone text.
 */
module TypeGuessing {
  import opened Wrappers
  import opened Strings
  import opened Literals

  /**
   * What the serialiser emits into a serde sink. A float is kept as the
   * literal it was parsed from: its 32-bit value is not modelled.
   * `Map` entries appear in emission order; keys may repeat.
   */
  datatype Value =
    | Unit
    | Bool(b: bool)
    | U64(n: nat)
    | F32(literal: string)
    | Str(s: string)
    | Seq(items: seq<Value>)
    | Map(entries: seq<(string, Value)>)

  /** The key under which the unit of a "number unit" value is emitted. */
  const UnitSuffix := "_unit"

  function UnitKey(key: string): string {
    key + UnitSuffix
  }

  /** Whether `val` is two whitespace-separated tokens of which the first is a float literal. */
  predicate IsNumberWithUnit(val: string) {
    var parts := SplitWhitespace(val);
    |parts| == 2 && IsFloatLiteral(parts[0])
  }

  /** `type_guess_val`: u64, then bool, then f32, else the text unchanged. */
  function TypeGuessVal(val: string): Value {
    match ParseU64(val)
    case Some(n) => U64(n)
    case None =>
      match ParseBool(val)
      case Some(b) => Bool(b)
      case None =>
        if IsFloatLiteral(val) then F32(val) else Str(val)
  }

  /**
   * `type_guess`: the entries one attribute contributes to the element's map.
   * bool, then u64, then f32 give one entry; otherwise a "number unit" pair
   * gives the number under `key` and the lower-cased unit under `key_unit`;
   * otherwise the text is emitted unchanged.
   */
  function TypeGuess(key: string, val: string): seq<(string, Value)> {
    match ParseBool(val)
    case Some(b) => [(key, Bool(b))]
    case None =>
      match ParseU64(val)
      case Some(n) => [(key, U64(n))]
      case None =>
        if IsFloatLiteral(val) then [(key, F32(val))]
        else
          var parts := SplitWhitespace(val);
          if |parts| == 2 && IsFloatLiteral(parts[0]) then
            [(key, F32(parts[0])), (UnitKey(key), Str(ToLower(parts[1])))]
          else
            [(key, Str(val))]
  }

  /**
   * `type_guess_val` tries the parsers in the order u64, bool, f32 and
   * falls back to the text itself; the first parser that accepts decides.
   */
  lemma TypeGuessValSpec(val: string)
    ensures var v := TypeGuessVal(val);
      && (v.U64? <==> ParseU64(val).Some?)
      && (v.U64? ==> ParseU64(val) == Some(v.n))
      && (v.Bool? <==> ParseU64(val).None? && ParseBool(val).Some?)
      && (v.Bool? ==> ParseBool(val) == Some(v.b))
      && (v.F32? <==> ParseU64(val).None? && ParseBool(val).None? && IsFloatLiteral(val))
      && (v.F32? ==> v.literal == val)
      && (v.Str? <==> ParseU64(val).None? && ParseBool(val).None? && !IsFloatLiteral(val))
      && (v.Str? ==> v.s == val)
  {
  }

  /**
   * `type_guess` emits one entry under `key` carrying the same value
   * `type_guess_val` would give, except for text that no parser accepts and
   * that is a float literal followed by one more token: that gives the
   * number under `key` and the lower-cased unit under `key_unit`.
   */
  lemma TypeGuessSpec(key: string, val: string)
    ensures var entries := TypeGuess(key, val);
      && 1 <= |entries| <= 2 && entries[0].0 == key
      && (|entries| == 2 <==> TypeGuessVal(val).Str? && IsNumberWithUnit(val))
      && (|entries| == 2 ==>
            var parts := SplitWhitespace(val);
            entries == [(key, F32(parts[0])), (UnitKey(key), Str(ToLower(parts[1])))])
      && (|entries| == 1 ==> entries[0].1 == TypeGuessVal(val))
  {
  }

  /**
   * A number and a unit, with any whitespace between them and any whitespace
   * (or none) around them, always split into the number and the lower-cased
   * unit: `"200 MG"`, `"200  MG"`, `"200\tMG"` and `" 200 MG "` alike.
   */
  lemma NumberWithUnitSplits(key: string, lead: string, number: string, sep: string, unit: string, trail: string)
    requires AllWhitespace(lead) && AllWhitespace(sep) && sep != [] && AllWhitespace(trail)
    requires IsFloatLiteral(number) && number != [] && NoWhitespace(number)
    requires unit != [] && NoWhitespace(unit)
    ensures TypeGuess(key, lead + number + sep + unit + trail)
         == [(key, F32(number)), (UnitKey(key), Str(ToLower(unit)))]
  {
    var val := lead + number + sep + unit + trail;
    SplitTwoWords(lead, number, sep, unit, trail);
    assert val[|lead| + |number|] == sep[0];
    SpacedTextIsPlain(val, |lead| + |number|);
  }

  /** Two whitespace-free words of which the first is not a number, however separated: never split. */
  lemma WordWithUnitStaysText(key: string, lead: string, word: string, sep: string, unit: string, trail: string)
    requires AllWhitespace(lead) && AllWhitespace(sep) && sep != [] && AllWhitespace(trail)
    requires !IsFloatLiteral(word) && word != [] && NoWhitespace(word)
    requires unit != [] && NoWhitespace(unit)
    ensures TypeGuess(key, lead + word + sep + unit + trail) == [(key, Str(lead + word + sep + unit + trail))]
  {
    var val := lead + word + sep + unit + trail;
    SplitTwoWords(lead, word, sep, unit, trail);
    assert val[|lead| + |word|] == sep[0];
    SpacedTextIsPlain(val, |lead| + |word|);
  }

  /** Text holding whitespace is neither a bool, a u64 nor a float. */
  lemma SpacedTextIsPlain(val: string, i: nat)
    requires i < |val| && IsWhitespace(val[i])
    ensures TypeGuessVal(val) == Str(val)
  {
    U64HasNoSpace(val, i);
    FloatLiteralHasNoSpace(val, i);
  }

  lemma U64HasNoSpace(s: string, i: nat)
    requires i < |s| && IsWhitespace(s[i])
    ensures ParseU64(s).None?
  {
    var digits := if |s| > 0 && s[0] == '+' then s[1..] else s;
    var j := if |s| > 0 && s[0] == '+' then i - 1 else i;
    assert digits[j] == s[i];
  }

  lemma {:induction false} RunRejectsSpace(st: NumberState, u: string, j: nat)
    requires j < |u| && IsWhitespace(u[j])
    ensures Run(st, u).None?
    decreases j
  {
    if j > 0 {
      match Step(st, u[0])
      case None =>
      case Some(next) => RunRejectsSpace(next, u[1..], j - 1);
    }
  }

  lemma {:induction false} SpaceNotIgnoringCase(u: string, w: string, j: nat)
    requires j < |u| && IsWhitespace(u[j]) && NoWhitespace(w)
    ensures !SameIgnoringCase(u, w)
  {
    if SameIgnoringCase(u, w) && j > 0 {
      SpaceNotIgnoringCase(u[1..], w[1..], j - 1);
    }
  }

  /** A float literal never holds whitespace. */
  lemma FloatLiteralHasNoSpace(s: string, i: nat)
    requires i < |s| && IsWhitespace(s[i])
    ensures !IsFloatLiteral(s)
  {
    var signed := |s| > 0 && (s[0] == '+' || s[0] == '-');
    var u := if signed then s[1..] else s;
    var j := if signed then i - 1 else i;
    assert u[j] == s[i];
    assert NoWhitespace(InfText) && NoWhitespace(InfinityText) && NoWhitespace(NanText);
    SpaceNotIgnoringCase(u, InfText, j);
    SpaceNotIgnoringCase(u, InfinityText, j);
    SpaceNotIgnoringCase(u, NanText, j);
    RunRejectsSpace(Begin, u, j);
  }

  /**
   * The two guessing rules agree: `type_guess` gives the single entry that
   * `type_guess_val` would, except when it splits off a unit, which happens
   * only to text `type_guess_val` keeps as a string.
   */
  lemma TypeGuessAgreesWithVal(key: string, val: string)
    ensures TypeGuess(key, val) == [(key, TypeGuessVal(val))]
         || (|TypeGuess(key, val)| == 2 && TypeGuessVal(val) == Str(val))
  {
  }

  /** `"42.5"` is a float, emitted as one entry. */
  lemma TypeGuessFloatExample()
    ensures TypeGuess("dose", "42.5") == [("dose", F32("42.5"))]
  {
    assert IsNumber("42.5");
    assert ParseU64("42.5").None? by { assert !IsDigit("42.5"[2]); }
  }

  /** `"200 MG"`, under any key, splits into the number 200 and the lower-cased unit `"mg"`. */
  lemma TypeGuessUnitExample(key: string, val: string)
    requires val == "200 MG"
    ensures TypeGuess(key, val) == [(key, F32("200")), (UnitKey(key), Str("mg"))]
  {
    FloatDigits("200");
    LowerUnit();
    assert [] + "200" + " " + "MG" + [] == val;
    NumberWithUnitSplits(key, [], "200", " ", "MG", []);
  }

  /** Two spaces, or a tab, between number and unit: still the number 200 and the unit `"mg"`. */
  lemma TypeGuessWideSeparatorExample(key: string)
    ensures TypeGuess(key, "200  MG") == [(key, F32("200")), (UnitKey(key), Str("mg"))]
    ensures TypeGuess(key, "200\tMG") == [(key, F32("200")), (UnitKey(key), Str("mg"))]
  {
    FloatDigits("200");
    LowerUnit();
    assert [] + "200" + "  " + "MG" + [] == "200  MG";
    NumberWithUnitSplits(key, [], "200", "  ", "MG", []);
    assert [] + "200" + "\t" + "MG" + [] == "200\tMG";
    NumberWithUnitSplits(key, [], "200", "\t", "MG", []);
  }

  /** Whitespace around the pair: still the number 200 and the unit `"mg"`. */
  lemma TypeGuessPaddedExample(key: string)
    ensures TypeGuess(key, " 200 MG ") == [(key, F32("200")), (UnitKey(key), Str("mg"))]
  {
    FloatDigits("200");
    LowerUnit();
    assert " " + "200" + " " + "MG" + " " == " 200 MG ";
    NumberWithUnitSplits(key, " ", "200", " ", "MG", " ");
  }

  lemma LowerUnit()
    ensures ToLower("MG") == "mg" && NoWhitespace("200") && NoWhitespace("MG")
  {
    assert "MG"[1..] == "G";
  }

  /** Attribute values are not trimmed: `" 42"` stays the string `" 42"`, not the number 42. */
  lemma UntrimmedValueExample(key: string)
    ensures TypeGuess(key, " 42") == [(key, Str(" 42"))]
  {
    SpacedTextIsPlain(" 42", 0);
    assert NoWhitespace("42");
    SplitJoin(" ", ["42"], [[]]);
    assert " " + Separated(["42"], [[]]) == " 42" by {
      SeparatedCons("42", [], [], []);
      assert ["42"] + [] == ["42"] && [""] + [] == [""];
    }
  }

  /** `"Aspirin"` stays a string, under any key. */
  lemma TypeGuessStringExample(key: string, val: string)
    requires val == "Aspirin"
    ensures TypeGuess(key, val) == [(key, Str(val))]
  {
    assert ParseU64(val).None? by { assert !IsDigit(val[0]); }
    assert !IsFloatLiteral(val);
    assert SplitWhitespace(val) == [val] by {
      SplitJoin([], [val], [[]]);
      assert [] + Separated([val], [[]]) == val;
    }
  }

  /** `"abc MG"` has two tokens but no number: under any key it stays one string entry. */
  lemma TypeGuessRejectedUnitExample(key: string, val: string)
    requires val == "abc MG"
    ensures TypeGuess(key, val) == [(key, Str(val))]
  {
    assert !IsFloatLiteral("abc") by {
      assert Run(Begin, "abc").None?;
    }
    assert [] + "abc" + " " + "MG" + [] == val;
    WordWithUnitStaysText(key, [], "abc", " ", "MG", []);
  }

  /** Every non-empty digit string is a float literal, however large its value. */
  lemma FloatDigits(s: string)
    requires s != [] && AllDigits(s)
    ensures IsFloatLiteral(s)
  {
    DigitsStayWhole(s[1..]);
  }
}
