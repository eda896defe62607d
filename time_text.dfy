/** The duration formatter and parser of utils/TimeText.cs: FormatHms renders a
    second count as HH:MM:SS, TryParseFlexible reads free text typed by the
    user (colon, unit-suffixed or plain-digit notation) after
    NormalizeForParse has folded it onto a small alphabet. */
module TimeText {
  import opened Common
  import opened Decimal

  const HourKo: char := '\U{C2DC}'      // the Korean unit "si" (hour)
  const MinuteKo: char := '\U{BD84}'    // the Korean unit "bun" (minute)
  const SecondKo: char := '\U{CD08}'    // the Korean unit "cho" (second)
  const Ratio: char := '\U{2236}'       // RATIO, folded to ':'
  const FullwidthColon: char := '\U{FF1A}'

  function Min(a: int, b: int): int { if a <= b then a else b }

  // ---------------------------------------------------------------------
  // Formatting

  /** The C# custom format "00": at least two digits, zero-padded, never
      truncated; from 10 on there is no leading zero, so the text is the
      shortest spelling of n. */
  function Pad2(n: nat): (r: seq<char>)
    ensures 2 <= |r| && AllDigits(r) && Value(r) == n
    ensures n < 100 ==> |r| == 2
    ensures 100 <= n ==> 3 <= |r|
    ensures 10 <= n ==> r[0] != '0'
  {
    if n < 10 then
      ValueLeadingZero(Spell(n));
      ['0'] + Spell(n)
    else Spell(n)
  }

  /** HH:MM:SS of max(total, 0): eight characters below 100 hours, and
      longer from there on, since the hour field is never truncated. */
  function FormatHms(total: int): (r: string)
    ensures 8 <= |r|
    ensures |r| == 8 <==> total < 360000
  {
    var t := if total < 0 then 0 else total;
    Pad2(t / 3600) + [':'] + Pad2(t % 3600 / 60) + [':'] + Pad2(t % 60)
  }

  // ---------------------------------------------------------------------
  // Normalisation

  type DecimalDigitValue = d: int | -1 <= d <= 9

  /** The three .NET character tables NormalizeForParse consults:
      char.IsWhiteSpace, CharUnicodeInfo.GetDecimalDigitValue (-1 for a
      character that is not a decimal digit) and char.ToLowerInvariant. They
      cover all of Unicode; the model pins them down only where Conforms
      says. */
  datatype UnicodeTables = UnicodeTables(
    isWhiteSpace: char -> bool,
    decimalDigitValue: char -> DecimalDigitValue,
    toLowerInvariant: char -> char)

  predicate IsAsciiWhiteSpace(c: char) { c == ' ' || '\t' <= c <= '\r' }

  predicate IsAsciiUpper(c: char) { 'A' <= c <= 'Z' }

  function AsciiLower(c: char): char
  {
    if IsAsciiUpper(c) then (c as int + 32) as char else c
  }

  predicate IsColonVariant(c: char) { c == ':' || c == Ratio || c == FullwidthColon }

  predicate IsKoreanUnit(c: char) { c == HourKo || c == MinuteKo || c == SecondKo }

  predicate IsUnitChar(c: char) { c == 'h' || c == 'm' || c == 's' || IsKoreanUnit(c) }

  /** The characters NormalizeForParse can emit. */
  predicate InNormalAlphabet(c: char) { IsDigit(c) || c == ':' || IsUnitChar(c) }

  /** What the .NET tables are known to do on ASCII and on the colon variants
      and Korean units the parser recognises. */
  predicate Conforms(u: UnicodeTables)
  {
    (forall c: char :: c < 128 as char ==>
       u.isWhiteSpace(c) == IsAsciiWhiteSpace(c) &&
       u.decimalDigitValue(c) == (if IsDigit(c) then DigitValue(c) else -1) &&
       u.toLowerInvariant(c) == AsciiLower(c)) &&
    (forall c: char :: IsColonVariant(c) || IsKoreanUnit(c) ==>
       !u.isWhiteSpace(c) && u.decimalDigitValue(c) == -1 && u.toLowerInvariant(c) == c)
  }

  /** What one input character contributes to the normalised string. */
  function NormalizeChar(u: UnicodeTables, c: char): (r: seq<char>)
    ensures |r| <= 1 && forall i :: 0 <= i < |r| ==> InNormalAlphabet(r[i])
  {
    if u.isWhiteSpace(c) then []
    else if u.decimalDigitValue(c) >= 0 then [DigitChar(u.decimalDigitValue(c))]
    else if IsColonVariant(c) then [':']
    else if u.toLowerInvariant(c) in {'h', 'm', 's'} then [u.toLowerInvariant(c)]
    else if IsKoreanUnit(c) then [c]
    else []
  }

  /** The specification of NormalizeForParse: each input character in turn
      contributes NormalizeChar; the result only ever holds characters of the
      normal alphabet. */
  function Normalize(u: UnicodeTables, s: seq<char>): (r: seq<char>)
    ensures |r| <= |s|
    ensures forall i :: 0 <= i < |r| ==> InNormalAlphabet(r[i])
  {
    if s == [] then [] else Normalize(u, s[..|s| - 1]) + NormalizeChar(u, s[|s| - 1])
  }

  method NormalizeForParse(u: UnicodeTables, input: string) returns (r: string)
    ensures r == Normalize(u, input)
  {
    r := [];
    for i := 0 to |input|
      invariant r == Normalize(u, input[..i])
    {
      var ch := input[i];
      assert input[..i + 1][..i] == input[..i];
      if u.isWhiteSpace(ch) { continue; }
      var d := u.decimalDigitValue(ch);
      if d >= 0 { r := r + [DigitChar(d)]; continue; }
      if ch == ':' || ch == Ratio || ch == FullwidthColon { r := r + [':']; continue; }
      var lower := u.toLowerInvariant(ch);
      if lower == 'h' || lower == 'm' || lower == 's' { r := r + [lower]; continue; }
      if ch == HourKo || ch == MinuteKo || ch == SecondKo { r := r + [ch]; continue; }
    }
    assert input[..|input|] == input;
  }

  // ---------------------------------------------------------------------
  // Parsing

  /** What TryParseFlexible does: it returns a flag and the out-parameter
      secs, or it throws OverflowException (from long.Parse). */
  datatype ParseOutcome = Returned(ok: bool, secs: int) | OverflowThrown

  const Rejected: ParseOutcome := Returned(false, 0)

  function JoinColon(parts: seq<seq<char>>): seq<char>
    requires 1 <= |parts|
  {
    if |parts| == 1 then parts[0] else parts[0] + [':'] + JoinColon(parts[1..])
  }

  /** string.Split(':'): the colon-free fields that, joined by ':', give back
      s; empty fields are kept. */
  function SplitColon(s: seq<char>): (parts: seq<seq<char>>)
    ensures 1 <= |parts| && JoinColon(parts) == s
    ensures forall i :: 0 <= i < |parts| ==> ':' !in parts[i]
  {
    if s == [] then [[]]
    else if s[0] == ':' then
      var rest := SplitColon(s[1..]);
      assert [[]] + rest == [[]] + rest && ([[]] + rest)[1..] == rest;
      [[]] + rest
    else
      var rest := SplitColon(s[1..]);
      var parts := [[s[0]] + rest[0]] + rest[1..];
      assert |rest| > 1 ==> parts[1..] == rest[1..] && JoinColon(rest) == rest[0] + [':'] + JoinColon(rest[1..]);
      assert forall i :: 1 <= i < |parts| ==> parts[i] == rest[i];
      parts
  }

  /** int.TryParse with NumberStyles.None: one or more ASCII digits, no sign
      and no blanks, whose value fits an Int32. */
  function ParseUInt32(p: seq<char>): (r: Option<nat>)
    ensures r.Some? <==> 0 < |p| && AllDigits(p) && Value(p) <= Int32Max
    ensures r.Some? ==> r.value == Value(p) && r.value <= Int32Max
  {
    if |p| > 0 && AllDigits(p) && Value(p) <= Int32Max then Some(Value(p)) else None
  }

  /** The colon notation, M:S or H:M:S. */
  function ColonForm(s: seq<char>): (r: ParseOutcome)
    ensures r.Returned?
    ensures r.ok ==> 0 <= r.secs <= Int32Max
  {
    FieldsForm(SplitColon(s))
  }

  /** The colon notation once split: two or three fields, each an Int32
      without sign, minutes and seconds at most 59; the total saturates. */
  function FieldsForm(parts: seq<seq<char>>): (r: ParseOutcome)
    ensures r.Returned?
    ensures r.ok ==> 0 <= r.secs <= Int32Max
  {
    if |parts| < 2 || |parts| > 3 then Rejected
    else
      var h := if |parts| == 2 then Some(0) else ParseUInt32(parts[0]);
      var m := ParseUInt32(parts[|parts| - 2]);
      var sec := ParseUInt32(parts[|parts| - 1]);
      if h.None? || m.None? || sec.None? then Rejected
      else if m.value > 59 || sec.value > 59 then Rejected
      else Returned(true, Min(h.value * 3600 + m.value * 60 + sec.value, Int32Max))
  }

  /** The character classes of the .NET regex \w that a normalised string can
      draw from: ASCII letters, digits, '_' and Hangul syllables. */
  predicate IsWordChar(c: char)
    ensures IsDigit(c) || IsUnitChar(c) ==> IsWordChar(c)
  {
    IsDigit(c) || 'a' <= c <= 'z' || IsAsciiUpper(c) || c == '_' || '\U{AC00}' <= c <= '\U{D7A3}'
  }

  /** Regex \b at position i of s. */
  predicate AtBoundary(s: seq<char>, i: nat)
    requires i <= |s|
  {
    (0 < i && IsWordChar(s[i - 1])) != (i < |s| && IsWordChar(s[i]))
  }

  /** s[i..j] is a match of the pattern (?ix)\b(?<v>\d+)\s*(?<u>h|m|s|…)\b in a
      string that holds no white space (so \s* matches nothing). */
  predicate RegexMatchAt(s: seq<char>, i: nat, j: nat)
    ensures RegexMatchAt(s, i, j) ==>
      i + 2 <= j <= |s| && (i == 0 || !IsWordChar(s[i - 1])) && (j == |s| || !IsWordChar(s[j]))
  {
    i + 2 <= j <= |s| && AtBoundary(s, i) && AtBoundary(s, j) &&
    AllDigits(s[i..j - 1]) && (IsUnitChar(s[j - 1]) || s[j - 1] in {'H', 'M', 'S'})
  }

  /** Regex.Matches on a normalised colon-free string: every character is a
      word character, so \b holds only at the two ends and the one possible
      match is the whole string, one digit run followed by one unit. */
  function UnitMatch(s: seq<char>): (r: Option<(seq<char>, char)>)
    ensures r.Some? ==>
      0 < |r.value.0| && AllDigits(r.value.0) && IsUnitChar(r.value.1) && s == r.value.0 + [r.value.1]
    ensures r.None? ==> forall digits, unit :: s == digits + [unit] ==>
      digits == [] || !AllDigits(digits) || !IsUnitChar(unit)
  {
    if 2 <= |s| && AllDigits(s[..|s| - 1]) && IsUnitChar(s[|s| - 1])
    then Some((s[..|s| - 1], s[|s| - 1]))
    else None
  }

  /** The switch on the unit group: hour 3600, minute 60, anything else 1. */
  function Multiplier(unit: char): (m: nat)
    ensures m == 3600 || m == 60 || m == 1
    ensures m == 3600 <==> unit == 'h' || unit == HourKo
    ensures m == 60 <==> unit == 'm' || unit == MinuteKo
  {
    if unit == 'h' || unit == HourKo then 3600
    else if unit == 'm' || unit == MinuteKo then 60
    else 1
  }

  /** The unit notation for one match: long.Parse of the digit run (throwing
      past Int64), times the unit's multiplier, saturated at Int32Max. */
  function UnitForm(digits: seq<char>, unit: char): (r: ParseOutcome)
    requires AllDigits(digits)
    ensures r.OverflowThrown? <==> Value(digits) > Int64Max
    ensures r.Returned? ==> r.ok && 0 <= r.secs <= Int32Max
    ensures r.Returned? && r.secs < Int32Max ==> r.secs == Value(digits) * Multiplier(unit)
    ensures r.Returned? && Value(digits) * Multiplier(unit) <= Int32Max ==>
      r.secs == Value(digits) * Multiplier(unit)
  {
    if Value(digits) > Int64Max then OverflowThrown
    else Returned(true, Min(Value(digits) * Multiplier(unit), Int32Max))
  }

  /** The length of the longest all-digit prefix of s. */
  function LeadingDigitCount(s: seq<char>): (k: nat)
    ensures k <= |s| && AllDigits(s[..k])
    ensures k < |s| ==> !IsDigit(s[k])
  {
    if s == [] || !IsDigit(s[0]) then 0
    else
      var k := 1 + LeadingDigitCount(s[1..]);
      assert forall i :: 1 <= i < k ==> s[..k][i] == s[1..][..k - 1][i - 1];
      k
  }

  /** The plain-digit loop. It scans left to right and returns as soon as the
      value read so far exceeds Int32Max, so a leading digit run that is
      already too large is accepted (saturated) whatever follows it; any other
      non-digit rejects. */
  function PlainForm(s: seq<char>): (r: ParseOutcome)
    ensures r.Returned?
    ensures r.ok ==> 0 <= r.secs <= Int32Max
    ensures r.ok <==> AllDigits(s) || Value(s[..LeadingDigitCount(s)]) > Int32Max
  {
    var k := LeadingDigitCount(s);
    if Value(s[..k]) > Int32Max then Returned(true, Int32Max)
    else if k == |s| then
      assert s[..k] == s;
      Returned(true, Value(s))
    else Rejected
  }

  /** The three notations, tried in order on a normalised string: colon,
      then unit, then plain digits. */
  function ParseNormalized(s: seq<char>): (r: ParseOutcome)
    ensures r.Returned? && !r.ok ==> r.secs == 0
    ensures r.Returned? && r.ok ==> 0 <= r.secs <= Int32Max
    ensures r.OverflowThrown? ==> ':' !in s && UnitMatch(s).Some?
  {
    if s == [] then Rejected
    else if ':' in s then ColonForm(s)
    else match UnitMatch(s)
      case Some((digits, unit)) => UnitForm(digits, unit)
      case None => PlainForm(s)
  }

  /** The specification of TryParseFlexible: a false return always leaves
      secs at 0, a true one yields a count in 0..Int32Max, and only the unit
      notation can throw. */
  function Parse(u: UnicodeTables, input: string): (r: ParseOutcome)
    ensures r.Returned? && !r.ok ==> r.secs == 0
    ensures r.Returned? && r.ok ==> 0 <= r.secs <= Int32Max
    ensures r.OverflowThrown? ==> UnitMatch(Normalize(u, input)).Some?
  {
    ParseNormalized(Normalize(u, input))
  }

  method TryParseFlexible(u: UnicodeTables, input: string) returns (r: ParseOutcome)
    ensures r == Parse(u, input)
  {
    var s := NormalizeForParse(u, input);
    if |s| == 0 { return Rejected; }

    if ':' in s { return ColonForm(s); }

    var matches := UnitMatch(s);
    if matches.Some? {
      var (digits, unit) := matches.value;
      if Value(digits) > Int64Max { return OverflowThrown; }
      var v := Value(digits);
      var total := v * Multiplier(unit);
      if total > Int32Max { return Returned(true, Int32Max); }
      return Returned(true, total);
    }

    r := ScanPlainDigits(s);
  }

  /** The plain-digit loop of TryParseFlexible: accumulate digits left to
      right, give up at the first non-digit, stop early once past Int32Max. */
  method ScanPlainDigits(s: seq<char>) returns (r: ParseOutcome)
    ensures r == PlainForm(s)
  {
    var plain := 0;
    for i := 0 to |s|
      invariant AllDigits(s[..i]) && plain == Value(s[..i]) <= Int32Max
    {
      if !IsDigit(s[i]) {
        assert LeadingDigitCount(s) == i by { LeadingDigitsOfPrefix(s, i); }
        return Rejected;
      }
      ValueSnoc(s, i);
      plain := plain * 10 + DigitValue(s[i]);
      if plain > Int32Max {
        LeadingDigitsOfPrefix(s, i + 1);
        ValuePrefixBound(s[..LeadingDigitCount(s)], i + 1);
        assert s[..LeadingDigitCount(s)][..i + 1] == s[..i + 1];
        return Returned(true, Int32Max);
      }
    }
    assert s[..|s|] == s;
    LeadingDigitsOfPrefix(s, |s|);
    r := Returned(true, plain);
  }

  /** When s[..i] is all digits, the leading digit run is at least i long, and
      exactly i long when s[i] is not a digit. */
  lemma {:induction false} LeadingDigitsOfPrefix(s: seq<char>, i: nat)
    requires i <= |s| && AllDigits(s[..i])
    ensures i <= LeadingDigitCount(s)
    ensures i < |s| && !IsDigit(s[i]) ==> LeadingDigitCount(s) == i
  {
    if i > 0 {
      assert s[1..][..i - 1] == s[..i][1..];
      LeadingDigitsOfPrefix(s[1..], i - 1);
    }
  }
}
