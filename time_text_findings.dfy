/** Two places where the code of utils/TimeText.cs does not do what it
    evidently means to do. For each, the behaviour as written and a
    corrected definition with the intended property. */
module TimeTextFindings {
  import opened Common
  import opened Decimal
  import opened TimeText
  import opened TimeTextProperties

  // ---------------------------------------------------------------------
  // 1. The unit notation only accepts a single token.

  /** "1분 20초", the last example of the hint, and what it normalises to. */
  const HintMinutes: string := "1" + [MinuteKo]
  const HintSeconds: string := "20" + [SecondKo]
  const HintMinutesSeconds: string := HintMinutes + " " + HintSeconds
  const NormalizedHint: string := HintMinutes + HintSeconds

  lemma NormalizeHint(u: UnicodeTables)
    requires Conforms(u)
    ensures Normalize(u, "1h30m") == "1h30m"
    ensures Normalize(u, HintMinutesSeconds) == NormalizedHint
  {
    NormalizeHintLatin(u);
    NormalizeHintKorean(u);
  }

  lemma NormalizeHintLatin(u: UnicodeTables)
    requires Conforms(u)
    ensures Normalize(u, "1h30m") == "1h30m"
  {
    NormalizeFixesAlphabet(u, "1h30m");
  }

  lemma NormalizeHintKorean(u: UnicodeTables)
    requires Conforms(u)
    ensures Normalize(u, HintMinutesSeconds) == NormalizedHint
  {
    NormalizeConcat(u, HintMinutes + " ", HintSeconds);
    NormalizeHintMinutes(u);
    NormalizeFixesAlphabet(u, HintSeconds);
  }

  lemma NormalizeHintMinutes(u: UnicodeTables)
    requires Conforms(u)
    ensures Normalize(u, HintMinutes + " ") == HintMinutes
  {
    NormalizeConcat(u, HintMinutes, " ");
    NormalizeFixesAlphabet(u, HintMinutes);
    NormalizeDropsSpace(u);
  }

  lemma NormalizeDropsSpace(u: UnicodeTables)
    requires Conforms(u)
    ensures Normalize(u, " ") == []
  {
    assert ' ' < 128 as char;
    assert " "[..0] == [];
  }

  /** As written: the two unit-suffixed examples of the hint the user is
      shown are rejected, because \b cannot hold between two word
      characters and the plain-digit loop then meets a unit character. */
  lemma HintExamplesRejected(u: UnicodeTables)
    requires Conforms(u)
    ensures Parse(u, "1h30m") == Rejected
    ensures Parse(u, HintMinutesSeconds) == Rejected
  {
    NormalizeHint(u);
    ValueExamples();
    StopsAtSecondCharacter("1h30m");
    StopsAtSecondCharacter(NormalizedHint);
  }

  /** A normalised string that starts with one digit and then a unit is
      neither a single token nor a digit string. */
  lemma StopsAtSecondCharacter(s: seq<char>)
    requires 3 <= |s| && IsDigit(s[0]) && IsUnitChar(s[1]) && ':' !in s
    ensures ParseNormalized(s) == Rejected
  {
    assert !AllDigits(s[..|s| - 1]) by { assert !IsDigit(s[..|s| - 1][1]); }
    assert s[..1] == [s[0]] && [s[0]][..0] == [];
    assert Value(s[..1]) == DigitValue(s[0]);
    LeadingDigitsOfPrefix(s, 1);
  }

  /** The notation the hint describes: one or more digit runs, each followed
      by a unit, back to back (the white space between them is gone after
      normalisation); the value is the sum of value times multiplier. */
  function UnitTokensTotal(s: seq<char>): (r: Option<nat>)
    decreases |s|
    ensures r.Some? ==> 2 <= |s| && IsDigit(s[0]) && IsUnitChar(s[|s| - 1]) && ':' !in s
  {
    var k := LeadingDigitCount(s);
    if k == 0 || k == |s| || !IsUnitChar(s[k]) then None
    else
      var here := Value(s[..k]) * Multiplier(s[k]);
      if k + 1 == |s| then Some(here)
      else match UnitTokensTotal(s[k + 1..])
        case None => None
        case Some(rest) => Some(here + rest)
  }

  /** Reading one token off the front. */
  lemma TokensCons(digits: seq<char>, unit: char, rest: seq<char>)
    requires 0 < |digits| && AllDigits(digits) && IsUnitChar(unit)
    ensures UnitTokensTotal(digits + [unit] + rest) ==
      if rest == [] then Some(Value(digits) * Multiplier(unit))
      else match UnitTokensTotal(rest)
        case None => None
        case Some(t) => Some(Value(digits) * Multiplier(unit) + t)
  {
    if rest == [] {
      TokenLast(digits, unit);
    } else {
      TokenNext(digits, unit, rest);
    }
  }

  lemma TokenLast(digits: seq<char>, unit: char)
    requires 0 < |digits| && AllDigits(digits) && IsUnitChar(unit)
    ensures UnitTokensTotal(digits + [unit] + []) == Some(Value(digits) * Multiplier(unit))
  {
    TokenHead(digits, unit, []);
  }

  lemma TokenNext(digits: seq<char>, unit: char, rest: seq<char>)
    requires 0 < |digits| && AllDigits(digits) && IsUnitChar(unit) && rest != []
    ensures UnitTokensTotal(digits + [unit] + rest) ==
      match UnitTokensTotal(rest)
        case None => None
        case Some(t) => Some(Value(digits) * Multiplier(unit) + t)
  {
    TokenHead(digits, unit, rest);
  }

  /** Where the first token of digits + [unit] + rest ends. */
  lemma TokenHead(digits: seq<char>, unit: char, rest: seq<char>)
    requires 0 < |digits| && AllDigits(digits) && IsUnitChar(unit)
    ensures var s := digits + [unit] + rest;
      LeadingDigitCount(s) == |digits| && s[..|digits|] == digits &&
      s[|digits|] == unit && s[|digits| + 1..] == rest
  {
    var s, k := digits + [unit] + rest, |digits|;
    assert s[..k] == digits;
    assert s[k + 1..] == rest;
    assert s[k] == unit && !IsDigit(unit);
    LeadingDigitsOfPrefix(s, k);
  }

  /** Corrected: Parse with the unit notation read as the hint describes,
      saturating instead of throwing. */
  function ParseAsHinted(u: UnicodeTables, input: string): (r: ParseOutcome)
    ensures r.Returned?
    ensures !r.ok ==> r.secs == 0
    ensures r.ok ==> 0 <= r.secs <= Int32Max
  {
    ParseNormalizedAsHinted(Normalize(u, input))
  }

  function ParseNormalizedAsHinted(s: seq<char>): (r: ParseOutcome)
    ensures r.Returned?
    ensures !r.ok ==> r.secs == 0
    ensures r.ok ==> 0 <= r.secs <= Int32Max
  {
    if s == [] then Rejected
    else if ':' in s then ColonForm(s)
    else match UnitTokensTotal(s)
      case Some(t) => Returned(true, Min(t, Int32Max))
      case None => PlainForm(s)
  }

  lemma HintExamplesAccepted(u: UnicodeTables)
    requires Conforms(u)
    ensures ParseAsHinted(u, "1h30m") == Returned(true, 5400)
    ensures ParseAsHinted(u, HintMinutesSeconds) == Returned(true, 80)
  {
    NormalizeHint(u);
    HintedTexts();
  }

  lemma HintedTexts()
    ensures ParseNormalizedAsHinted("1h30m") == Returned(true, 5400)
    ensures ParseNormalizedAsHinted(NormalizedHint) == Returned(true, 80)
  {
    HoursMinutesTokens();
    MinutesSecondsTokens();
    assert ':' !in "1h30m" && ':' !in NormalizedHint;
  }

  lemma HoursMinutesTokens()
    ensures UnitTokensTotal("1h30m") == Some(5400)
  {
    ValueExamples();
    assert "1h30m" == "1" + ['h'] + ("30" + ['m']);
    TokensCons("30", 'm', []);
    assert "30" + ['m'] + [] == "30" + ['m'];
    TokensCons("1", 'h', "30" + ['m']);
  }

  lemma MinutesSecondsTokens()
    ensures UnitTokensTotal(NormalizedHint) == Some(80)
  {
    ValueExamples();
    TokensCons("20", SecondKo, []);
    assert HintSeconds + [] == HintSeconds;
    TokensCons("1", MinuteKo, HintSeconds);
  }

  /** The correction changes the outcome only of inputs that normalise to a
      colon-free sequence of unit tokens. */
  lemma HintedDiffersOnlyOnUnitTokens(u: UnicodeTables, input: string)
    requires ParseAsHinted(u, input) != Parse(u, input)
    ensures var s := Normalize(u, input); ':' !in s && UnitTokensTotal(s).Some?
  {
    HintedDiffersOnTokens(Normalize(u, input));
  }

  lemma HintedDiffersOnTokens(s: seq<char>)
    requires ParseNormalizedAsHinted(s) != ParseNormalized(s)
    ensures ':' !in s && UnitTokensTotal(s).Some?
  {
    if UnitMatch(s).Some? && ':' !in s && s != [] {
      var digits, unit := s[..|s| - 1], s[|s| - 1];
      TokensCons(digits, unit, []);
      assert s == digits + [unit] + [];
    } else if s != [] && ':' !in s {
      assert ParseNormalized(s) == PlainForm(s);
    }
  }

  /** On the single token the code does accept, the correction agrees with it
      (short of the long.Parse overflow, which it saturates instead). */
  lemma HintedAgreesOnSingleToken(u: UnicodeTables, digits: seq<char>, unit: char)
    requires Conforms(u) && 0 < |digits| && AllDigits(digits) && IsUnitChar(unit)
    requires Value(digits) <= Int64Max
    ensures ParseAsHinted(u, digits + [unit]) == Parse(u, digits + [unit])
  {
    var s := digits + [unit];
    forall i | 0 <= i < |s| ensures InNormalAlphabet(s[i]) {
      if i < |digits| { assert s[i] == digits[i]; }
    }
    NormalizeFixesAlphabet(u, s);
    HintedAgreesOnToken(digits, unit);
  }

  lemma HintedAgreesOnToken(digits: seq<char>, unit: char)
    requires 0 < |digits| && AllDigits(digits) && IsUnitChar(unit)
    requires Value(digits) <= Int64Max
    ensures ParseNormalizedAsHinted(digits + [unit]) == ParseNormalized(digits + [unit])
  {
    var s := digits + [unit];
    assert ':' !in s by {
      forall i | 0 <= i < |s| ensures s[i] != ':' {
        if i < |digits| { assert s[i] == digits[i]; }
      }
    }
    assert s[..|s| - 1] == digits;
    TokensCons(digits, unit, []);
    assert s + [] == s;
  }

  // ---------------------------------------------------------------------
  // 2. The unit product wraps around in 64-bit arithmetic.

  const Two32: int := 0x1_0000_0000
  const Two64: int := 0x1_0000_0000_0000_0000

  /** Two's-complement reduction to a signed 64-bit integer: what unchecked
      long arithmetic does with a result out of range. */
  function WrapInt64(x: int): (r: int)
    ensures -Two64 / 2 <= r < Two64 / 2
    ensures -Two64 / 2 <= x < Two64 / 2 ==> r == x
    ensures (x - r) % Two64 == 0
  {
    var m := x % Two64;
    if m >= Two64 / 2 then m - Two64 else m
  }

  /** The unchecked (int) cast of a long. */
  function WrapInt32(x: int): (r: int)
    ensures -Two32 / 2 <= r < Two32 / 2
    ensures -Two32 / 2 <= x < Two32 / 2 ==> r == x
    ensures (x - r) % Two32 == 0
  {
    var m := x % Two32;
    if m >= Two32 / 2 then m - Two32 else m
  }

  /** As written: total += v * multiplier in long, then the Int32Max test and
      the (int) cast. v is what long.Parse returned. */
  function UnitTotalAsWritten(v: nat, unit: char): (r: int)
    requires v <= Int64Max
    ensures -Two32 / 2 <= r <= Int32Max
  {
    var total := WrapInt64(0 + WrapInt64(v * Multiplier(unit)));
    if total > Int32Max then Int32Max else WrapInt32(total)
  }

  /** Below the wrap the code saturates as intended, agreeing with UnitForm. */
  lemma UnitTotalAsWrittenBelowWrap(v: nat, unit: char)
    requires v * Multiplier(unit) <= Int64Max
    ensures UnitTotalAsWritten(v, unit) == Min(v * Multiplier(unit), Int32Max)
  {
  }

  /** An hour count of sixteen digits whose product with 3600 passes Int64Max
      comes back as a negative number of seconds, reported as a success;
      UnitForm saturates it at Int32Max. */
  lemma UnitTotalWrapsNegative(digits: seq<char>)
    requires AllDigits(digits) && Value(digits) == 2562047788611740
    ensures UnitTotalAsWritten(Value(digits), 'h') == -2147479104
    ensures UnitForm(digits, 'h') == Returned(true, Int32Max)
  {
    WrappedHours();
  }

  lemma WrappedHours()
    ensures UnitTotalAsWritten(2562047788611740, 'h') == -2147479104
  {
    var p := 2562047788611740 * 3600;
    assert p == 9223372039002264000;
    assert WrapInt64(p) == -9223372034707287616 by {
      assert p % Two64 == p;
    }
    assert WrapInt64(0 + WrapInt64(p)) == -9223372034707287616;
    assert WrapInt32(-9223372034707287616) == -2147479104 by {
      assert -9223372034707287616 % Two32 == 2147488192;
    }
  }
}
