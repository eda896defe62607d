/** What TimeText promises: FormatHms clamps and splits correctly, Parse
    reads back every formatted duration, NormalizeForParse is idempotent, and
    each of the three notations accepts exactly what the code lets through. */
module TimeTextProperties {
  import opened Common
  import opened Decimal
  import opened TimeText

  // ---------------------------------------------------------------------
  // FormatHms

  lemma FormatHmsOfNonPositive(n: int)
    requires n <= 0
    ensures FormatHms(n) == "00:00:00"
  {
    assert Spell(0) == "0";
  }

  /** Hours, minutes and seconds of a non-negative count: m and s below 60,
      and together they make up t. */
  lemma HmsDecomposition(t: nat)
    ensures t % 3600 / 60 < 60 && t % 60 < 60
    ensures t / 3600 * 3600 + t % 3600 / 60 * 60 + t % 60 == t
  {
    var q, r := t / 3600, t % 3600;
    var m, s := r / 60, r % 60;
    assert t == q * 3600 + r && 0 <= r < 3600;
    assert r == m * 60 + s && 0 <= s < 60 && m < 60;
    assert t == (q * 60 + m) * 60 + s;
    ModOfMultiplePlus(t, q * 60 + m, s);
  }

  lemma ModOfMultiplePlus(t: int, k: int, s: int)
    requires t == k * 60 + s && 0 <= s < 60
    ensures t % 60 == s
  {
  }

  /** FormatHms emits three colon-separated fields of at least two ASCII
      digits each; minutes and seconds lie below 60 and the three fields
      denote max(n, 0) seconds. */
  lemma FormatHmsFields(n: int)
    ensures var p := SplitColon(FormatHms(n));
      |p| == 3 &&
      (forall i :: 0 <= i < 3 ==> 2 <= |p[i]| && AllDigits(p[i])) &&
      Value(p[1]) < 60 && Value(p[2]) < 60 &&
      Value(p[0]) * 3600 + Value(p[1]) * 60 + Value(p[2]) == (if n < 0 then 0 else n)
  {
    var t := if n < 0 then 0 else n;
    FormatHmsSplits(t);
    HmsDecomposition(t);
  }

  /** The three fields FormatHms(t) is built from are exactly what
      SplitColon recovers. */
  lemma FormatHmsSplits(t: nat)
    ensures FormatHms(t) == JoinColon([Pad2(t / 3600), Pad2(t % 3600 / 60), Pad2(t % 60)])
    ensures SplitColon(FormatHms(t)) == [Pad2(t / 3600), Pad2(t % 3600 / 60), Pad2(t % 60)]
  {
    var a, b, c := Pad2(t / 3600), Pad2(t % 3600 / 60), Pad2(t % 60);
    assert JoinColon([a, b, c]) == a + [':'] + (b + [':'] + c) by {
      assert [a, b, c][1..] == [b, c] && [b, c][1..] == [c];
      assert JoinColon([c]) == c;
      assert JoinColon([b, c]) == b + [':'] + c;
    }
    assert FormatHms(t) == a + [':'] + (b + [':'] + c);
    DigitsAreColonFree(a);
    DigitsAreColonFree(b);
    DigitsAreColonFree(c);
    SplitJoin([a, b, c]);
  }

  lemma DigitsAreColonFree(p: seq<char>)
    requires AllDigits(p)
    ensures ':' !in p
  {
  }

  // ---------------------------------------------------------------------
  // Splitting on ':'

  lemma {:induction false} SplitColonFree(p: seq<char>)
    requires ':' !in p
    ensures SplitColon(p) == [p]
  {
    if p != [] {
      SplitColonFree(p[1..]);
      assert [p[0]] + p[1..] == p;
    }
  }

  lemma {:induction false} SplitColonCons(p: seq<char>, rest: seq<char>)
    requires ':' !in p
    ensures SplitColon(p + [':'] + rest) == [p] + SplitColon(rest)
  {
    var s := p + [':'] + rest;
    if p == [] {
      assert s[1..] == rest;
    } else {
      assert s[1..] == p[1..] + [':'] + rest;
      SplitColonCons(p[1..], rest);
      assert [p[0]] + p[1..] == p;
    }
  }

  /** Splitting undoes joining colon-free fields. */
  lemma {:induction false} SplitJoin(parts: seq<seq<char>>)
    requires 1 <= |parts|
    requires forall i :: 0 <= i < |parts| ==> ':' !in parts[i]
    ensures SplitColon(JoinColon(parts)) == parts
  {
    if |parts| == 1 {
      SplitColonFree(parts[0]);
    } else {
      SplitColonCons(parts[0], JoinColon(parts[1..]));
      SplitJoin(parts[1..]);
      assert [parts[0]] + parts[1..] == parts;
    }
  }

  // ---------------------------------------------------------------------
  // NormalizeForParse

  /** Under the .NET tables every character of the normal alphabet maps to
      itself. */
  lemma NormalizeCharFixesAlphabet(u: UnicodeTables, c: char)
    requires Conforms(u) && InNormalAlphabet(c)
    ensures NormalizeChar(u, c) == [c]
  {
    if IsDigit(c) || c == ':' || c == 'h' || c == 'm' || c == 's' {
      assert c < 128 as char;
    } else {
      assert IsKoreanUnit(c);
    }
  }

  lemma {:induction false} NormalizeFixesAlphabet(u: UnicodeTables, s: seq<char>)
    requires Conforms(u)
    requires forall i :: 0 <= i < |s| ==> InNormalAlphabet(s[i])
    ensures Normalize(u, s) == s
  {
    if s != [] {
      NormalizeFixesAlphabet(u, s[..|s| - 1]);
      NormalizeCharFixesAlphabet(u, s[|s| - 1]);
      assert s[..|s| - 1] + [s[|s| - 1]] == s;
    }
  }

  /** Normalisation works character by character: it distributes over
      concatenation. */
  lemma {:induction false} NormalizeConcat(u: UnicodeTables, a: seq<char>, b: seq<char>)
    ensures Normalize(u, a + b) == Normalize(u, a) + Normalize(u, b)
  {
    if b != [] {
      var ab, init, last := a + b, b[..|b| - 1], b[|b| - 1];
      assert ab[..|ab| - 1] == a + init;
      assert ab[|ab| - 1] == last;
      calc {
        Normalize(u, ab);
        Normalize(u, a + init) + NormalizeChar(u, last);
        { NormalizeConcat(u, a, init); }
        (Normalize(u, a) + Normalize(u, init)) + NormalizeChar(u, last);
        Normalize(u, a) + (Normalize(u, init) + NormalizeChar(u, last));
        Normalize(u, a) + Normalize(u, b);
      }
    } else {
      assert a + b == a;
    }
  }

  /** Normalising twice gives what normalising once gives. */
  lemma NormalizeIdempotent(u: UnicodeTables, s: seq<char>)
    requires Conforms(u)
    ensures Normalize(u, Normalize(u, s)) == Normalize(u, s)
  {
    NormalizeFixesAlphabet(u, Normalize(u, s));
  }

  /** The normalised string holds no white space. */
  lemma NormalizeStripsWhiteSpace(u: UnicodeTables, s: seq<char>)
    requires Conforms(u)
    ensures forall i :: 0 <= i < |Normalize(u, s)| ==> !u.isWhiteSpace(Normalize(u, s)[i])
  {
    var r := Normalize(u, s);
    forall i | 0 <= i < |r| ensures !u.isWhiteSpace(r[i]) {
      assert InNormalAlphabet(r[i]);
      if !IsKoreanUnit(r[i]) { assert r[i] < 128 as char; }
    }
  }

  // ---------------------------------------------------------------------
  // The format -> parse round trip

  lemma FormatHmsInAlphabet(t: nat)
    ensures forall i :: 0 <= i < |FormatHms(t)| ==> InNormalAlphabet(FormatHms(t)[i])
  {
    var a, b, c := Pad2(t / 3600), Pad2(t % 3600 / 60), Pad2(t % 60);
    var s := FormatHms(t);
    assert s == a + [':'] + b + [':'] + c;
    forall i | 0 <= i < |s| ensures InNormalAlphabet(s[i]) {
      if i < |a| { assert s[i] == a[i]; }
      else if i == |a| { }
      else if i < |a| + 1 + |b| { assert s[i] == b[i - |a| - 1]; }
      else if i == |a| + 1 + |b| { }
      else { assert s[i] == c[i - |a| - |b| - 2]; }
    }
  }

  /** Every count an Int32 can hold survives FormatHms followed by
      TryParseFlexible. */
  lemma FormatParseRoundTrip(u: UnicodeTables, n: int)
    requires Conforms(u) && 0 <= n <= Int32Max
    ensures Parse(u, FormatHms(n)) == Returned(true, n)
  {
    FormatHmsInAlphabet(n);
    ParseOfNormalText(u, FormatHms(n));
    FormattedTextParses(n);
  }

  /** On text already in normal form, Parse goes straight to the three
      notations. */
  lemma ParseOfNormalText(u: UnicodeTables, s: seq<char>)
    requires Conforms(u)
    requires forall i :: 0 <= i < |s| ==> InNormalAlphabet(s[i])
    ensures Parse(u, s) == ParseNormalized(s)
  {
    NormalizeFixesAlphabet(u, s);
  }

  lemma FormattedTextParses(n: nat)
    requires n <= Int32Max
    ensures ParseNormalized(FormatHms(n)) == Returned(true, n)
  {
    var s := FormatHms(n);
    var a, b, c := Pad2(n / 3600), Pad2(n % 3600 / 60), Pad2(n % 60);
    FormatHmsSplits(n);
    assert s[|a|] == ':';
    assert ParseNormalized(s) == ColonForm(s);
    DigitsAreColonFree(a);
    DigitsAreColonFree(b);
    DigitsAreColonFree(c);
    var fields := [a, b, c];
    ColonNotation(fields);
    HmsDecomposition(n);
    assert ColonFieldsValid(fields);
    assert HmsTotal(fields) == n;
  }

  // ---------------------------------------------------------------------
  // The colon notation

  predicate IsUInt32Field(f: seq<char>) { 0 < |f| && AllDigits(f) && Value(f) <= Int32Max }

  /** Two or three fields, each an unsigned Int32, minutes and seconds at
      most 59. */
  predicate ColonFieldsValid(fields: seq<seq<char>>)
  {
    (|fields| == 2 || |fields| == 3) &&
    (forall i :: 0 <= i < |fields| ==> IsUInt32Field(fields[i])) &&
    Value(fields[|fields| - 2]) <= 59 && Value(fields[|fields| - 1]) <= 59
  }

  function HmsTotal(fields: seq<seq<char>>): nat
    requires ColonFieldsValid(fields)
  {
    (if |fields| == 3 then Value(fields[0]) else 0) * 3600
      + Value(fields[|fields| - 2]) * 60 + Value(fields[|fields| - 1])
  }

  /** The colon notation accepts the colon-free fields it is made of exactly
      when they are valid, and then yields h*3600 + m*60 + s saturated at
      Int32Max (h = 0 with two fields); otherwise it rejects. */
  lemma ColonNotation(fields: seq<seq<char>>)
    requires 1 <= |fields|
    requires forall i :: 0 <= i < |fields| ==> ':' !in fields[i]
    ensures ColonForm(JoinColon(fields)).ok <==> ColonFieldsValid(fields)
    ensures ColonFieldsValid(fields) ==>
      ColonForm(JoinColon(fields)) == Returned(true, Min(HmsTotal(fields), Int32Max))
    ensures !ColonFieldsValid(fields) ==> ColonForm(JoinColon(fields)) == Rejected
  {
    SplitJoin(fields);
    FieldsNotation(fields);
  }

  lemma FieldsNotation(fields: seq<seq<char>>)
    ensures FieldsForm(fields).ok <==> ColonFieldsValid(fields)
    ensures ColonFieldsValid(fields) ==> FieldsForm(fields) == Returned(true, Min(HmsTotal(fields), Int32Max))
    ensures !ColonFieldsValid(fields) ==> FieldsForm(fields) == Rejected
  {
    var n := |fields|;
    if n == 2 || n == 3 {
      if forall i :: 0 <= i < n ==> IsUInt32Field(fields[i]) {
        var h := if n == 3 then Value(fields[0]) else 0;
        assert ParseUInt32(fields[n - 2]) == Some(Value(fields[n - 2]));
        assert ParseUInt32(fields[n - 1]) == Some(Value(fields[n - 1]));
        assert n == 3 ==> ParseUInt32(fields[0]) == Some(h);
      } else {
        var i :| 0 <= i < n && !IsUInt32Field(fields[i]);
        assert ParseUInt32(fields[i]).None?;
        assert !ColonFieldsValid(fields);
      }
    }
  }

  /** A colon makes the colon notation the only one tried. */
  lemma ColonTakesPrecedence(u: UnicodeTables, input: string)
    requires ':' in Normalize(u, input)
    ensures Parse(u, input) == ColonForm(Normalize(u, input))
  {
  }

  // ---------------------------------------------------------------------
  // The unit notation

  /** On a normalised colon-free string every character is a regex word
      character, so the pattern can only match the whole string, and the
      specialised matcher finds exactly the regex's match. */
  lemma RegexMatchesWholeStringOnly(s: seq<char>)
    requires forall k :: 0 <= k < |s| ==> InNormalAlphabet(s[k]) && s[k] != ':'
    ensures forall i: nat, j: nat :: RegexMatchAt(s, i, j) ==> i == 0 && j == |s|
    ensures UnitMatch(s).Some? <==> RegexMatchAt(s, 0, |s|)
    ensures UnitMatch(s).Some? ==> UnitMatch(s).value == (s[..|s| - 1], s[|s| - 1])
  {
    forall k | 0 <= k < |s| ensures IsWordChar(s[k]) {
      assert InNormalAlphabet(s[k]);
    }
    if RegexMatchAt(s, 0, |s|) {
      assert s[0..|s| - 1] == s[..|s| - 1];
      assert InNormalAlphabet(s[|s| - 1]);
    }
  }

  /** A digit run followed by one unit parses to its value times the unit's
      multiplier, saturated at Int32Max, unless long.Parse overflows. */
  lemma UnitNotation(u: UnicodeTables, digits: seq<char>, unit: char)
    requires Conforms(u) && 0 < |digits| && AllDigits(digits) && IsUnitChar(unit)
    ensures Parse(u, digits + [unit]) ==
      if Value(digits) > Int64Max then OverflowThrown
      else Returned(true, Min(Value(digits) * Multiplier(unit), Int32Max))
  {
    var s := digits + [unit];
    assert s[..|s| - 1] == digits;
    forall i | 0 <= i < |s| ensures InNormalAlphabet(s[i]) && s[i] != ':' {
      if i < |digits| { assert s[i] == digits[i]; }
    }
    ParseOfNormalText(u, s);
    assert UnitMatch(s) == Some((digits, unit));
  }

  /** A colon-free normalised string that is not one digit run plus one unit
      goes to the plain-digit loop: the regex finds no match in it. */
  lemma UnitNotationNeedsWholeToken(u: UnicodeTables, input: string)
    requires var s := Normalize(u, input);
      s != [] && ':' !in s && forall i: nat, j: nat :: !RegexMatchAt(s, i, j)
    ensures Parse(u, input) == PlainForm(Normalize(u, input))
  {
    RegexMatchesWholeStringOnly(Normalize(u, input));
  }

  // ---------------------------------------------------------------------
  // The plain-digit notation

  /** A string of ASCII digits parses to its value, saturated at Int32Max. */
  lemma PlainNotation(u: UnicodeTables, s: seq<char>)
    requires Conforms(u) && 0 < |s| && AllDigits(s)
    ensures Parse(u, s) == Returned(true, Min(Value(s), Int32Max))
  {
    forall i | 0 <= i < |s| ensures InNormalAlphabet(s[i]) { }
    ParseOfNormalText(u, s);
    PlainText(s);
  }

  lemma PlainText(s: seq<char>)
    requires 0 < |s| && AllDigits(s)
    ensures ParseNormalized(s) == Returned(true, Min(Value(s), Int32Max))
  {
    assert ':' !in s by { forall i | 0 <= i < |s| ensures s[i] != ':' { } }
    assert UnitMatch(s).None? by { assert IsDigit(s[|s| - 1]); }
    LeadingDigitsOfPrefix(s, |s|);
    assert s[..|s|] == s;
  }

  /** A digit run already past Int32Max is accepted whatever follows it: the
      loop saturates before it reaches the first non-digit. */
  lemma PlainSaturatesBeforeNonDigit(u: UnicodeTables, digits: seq<char>, rest: seq<char>)
    requires Conforms(u) && AllDigits(digits) && Value(digits) > Int32Max
    requires 0 < |rest| && !IsDigit(rest[0]) && (2 <= |rest| || !IsUnitChar(rest[0]))
    requires forall i :: 0 <= i < |rest| ==> InNormalAlphabet(rest[i]) && rest[i] != ':'
    ensures Parse(u, digits + rest) == Returned(true, Int32Max)
  {
    var s := digits + rest;
    forall i | 0 <= i < |s| ensures InNormalAlphabet(s[i]) && s[i] != ':' {
      if i < |digits| { assert s[i] == digits[i]; } else { assert s[i] == rest[i - |digits|]; }
    }
    ParseOfNormalText(u, s);
    SaturatedConcat(digits, rest);
  }

  lemma SaturatedConcat(digits: seq<char>, rest: seq<char>)
    requires AllDigits(digits) && Value(digits) > Int32Max
    requires 0 < |rest| && !IsDigit(rest[0]) && (2 <= |rest| || !IsUnitChar(rest[0]))
    requires ':' !in digits + rest
    ensures ParseNormalized(digits + rest) == Returned(true, Int32Max)
  {
    var s := digits + rest;
    assert s[..|digits|] == digits && s[|digits|] == rest[0] && s[|s| - 1] == rest[|rest| - 1];
    SaturatedText(s, |digits|);
  }

  lemma SaturatedText(s: seq<char>, k: nat)
    requires k < |s| && AllDigits(s[..k]) && Value(s[..k]) > Int32Max && !IsDigit(s[k])
    requires ':' !in s && (k < |s| - 1 || !IsUnitChar(s[|s| - 1]))
    ensures ParseNormalized(s) == Returned(true, Int32Max)
  {
    if k < |s| - 1 { assert !IsDigit(s[..|s| - 1][k]); }
    LeadingDigitsOfPrefix(s, k);
  }

  // ---------------------------------------------------------------------
  // Concrete cases

  lemma Pad2Examples()
    ensures Pad2(0) == "00" && Pad2(1) == "01" && Pad2(10) == "10" && Pad2(75) == "75"
  {
    assert Spell(0) == "0" && Spell(1) == "1";
    var ten, seventyFive := Spell(10), Spell(75);
    assert Value(ten[..1]) == 1 && Value(seventyFive[..1]) == 7;
    assert ten == [ten[..1][0], ten[1]];
    assert seventyFive == [seventyFive[..1][0], seventyFive[1]];
  }

  lemma FormatHmsExamples()
    ensures FormatHms(3661) == "01:01:01"
    ensures FormatHms(270000) == "75:00:00"
    ensures FormatHms(600) == "00:10:00"
    ensures FormatHms(-5) == "00:00:00"
  {
    Pad2Examples();
    assert 3661 / 3600 == 1 && 3661 % 3600 / 60 == 1 && 3661 % 60 == 1;
    assert 270000 / 3600 == 75 && 270000 % 3600 / 60 == 0 && 270000 % 60 == 0;
    assert 600 / 3600 == 0 && 600 % 3600 / 60 == 10 && 600 % 60 == 0;
    FormatHmsOfNonPositive(-5);
  }

  lemma ValueExamples()
    ensures Value("1") == 1 && Value("20") == 20 && Value("30") == 30
    ensures Value("60") == 60 && Value("90") == 90
  {
    assert "20"[..1] == "2" && "30"[..1] == "3" && "60"[..1] == "6" && "90"[..1] == "9";
  }

  lemma FormattedExamples(u: UnicodeTables)
    requires Conforms(u)
    ensures Parse(u, "00:10:00") == Returned(true, 600)
    ensures Parse(u, "75:00:00") == Returned(true, 270000)
  {
    FormatHmsExamples();
    FormatParseRoundTrip(u, 600);
    FormatParseRoundTrip(u, 270000);
  }

  /** Two colon-free fields joined by one colon, as the colon notation reads
      them. */
  lemma TwoFieldText(a: seq<char>, b: seq<char>)
    requires ':' !in a && ':' !in b
    ensures ParseNormalized(a + [':'] + b) == FieldsForm([a, b])
  {
    var s := a + [':'] + b;
    assert [a, b][1..] == [b];
    assert JoinColon([a, b]) == s;
    SplitJoin([a, b]);
    assert s[|a|] == ':';
  }

  lemma MinutesSecondsExample(u: UnicodeTables)
    requires Conforms(u)
    ensures Parse(u, "1:30") == Returned(true, 90)
  {
    ParseOfNormalText(u, "1:30");
    MinutesSecondsText();
  }

  lemma MinutesSecondsText()
    ensures ParseNormalized("1:30") == Returned(true, 90)
  {
    assert "1:30" == "1" + [':'] + "30";
    TwoFieldText("1", "30");
    ValueExamples();
    FieldsNotation(["1", "30"]);
  }

  lemma SecondsOutOfRangeExample(u: UnicodeTables)
    requires Conforms(u)
    ensures Parse(u, "0:60") == Rejected
  {
    ParseOfNormalText(u, "0:60");
    SecondsOutOfRangeText();
  }

  lemma SecondsOutOfRangeText()
    ensures ParseNormalized("0:60") == Rejected
  {
    assert "0:60" == "0" + [':'] + "60";
    TwoFieldText("0", "60");
    ValueExamples();
    FieldsNotation(["0", "60"]);
  }

  lemma UnitExample(u: UnicodeTables)
    requires Conforms(u)
    ensures Parse(u, "90s") == Returned(true, 90)
  {
    UnitNotation(u, "90", 's');
    assert "90" + ['s'] == "90s";
    ValueExamples();
  }

  /** `12345678901h5` is not all digits, yet the plain loop accepts it:
      its first eleven digits already pass Int32Max. */
  lemma SaturatedExample(u: UnicodeTables)
    requires Conforms(u)
    ensures Parse(u, "12345678901h5") == Returned(true, Int32Max)
  {
    ElevenDigits();
    assert "12345678901h5" == "12345678901" + "h5";
    PlainSaturatesBeforeNonDigit(u, "12345678901", "h5");
  }

  lemma ElevenDigits()
    ensures AllDigits("12345678901") && Value("12345678901") == 12345678901
  {
    var s := "12345678901";
    assert s[..0] == [];
    ValueSnoc(s, 0);
    ValueSnoc(s, 1);
    ValueSnoc(s, 2);
    ValueSnoc(s, 3);
    ValueSnoc(s, 4);
    ValueSnoc(s, 5);
    ValueSnoc(s, 6);
    ValueSnoc(s, 7);
    ValueSnoc(s, 8);
    ValueSnoc(s, 9);
    ValueSnoc(s, 10);
    assert s[..11] == s;
  }

  lemma RejectedExamples(u: UnicodeTables)
    requires Conforms(u)
    ensures Parse(u, "abc") == Rejected
    ensures Parse(u, "") == Rejected
  {
    assert Normalize(u, "abc") == [] by {
      assert 'a' < 128 as char && 'b' < 128 as char && 'c' < 128 as char;
      assert NormalizeChar(u, 'a') == [] && NormalizeChar(u, 'b') == [] && NormalizeChar(u, 'c') == [];
      assert "abc"[..2] == "ab" && "ab"[..1] == "a" && "a"[..0] == [];
      assert Normalize(u, "a") == [];
      assert Normalize(u, "ab") == [];
    }
  }
}
