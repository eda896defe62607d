/** ASCII decimal digit strings: the notation both the formatter and the
    parser of TimeText work in. */
module Decimal {

  predicate IsDigit(c: char) { '0' <= c <= '9' }

  predicate AllDigits(s: seq<char>) {
    forall i :: 0 <= i < |s| ==> IsDigit(s[i])
  }

  function DigitValue(c: char): (d: nat)
    requires IsDigit(c)
    ensures d <= 9
  {
    c as int - '0' as int
  }

  function DigitChar(d: nat): (c: char)
    requires d <= 9
    ensures IsDigit(c) && DigitValue(c) == d
  {
    ('0' as int + d) as char
  }

  /** The number a digit string denotes in base ten, most significant digit
      first; leading zeros are allowed and the empty string denotes 0. */
  function Value(s: seq<char>): nat
    requires AllDigits(s)
  {
    if s == [] then 0 else Value(s[..|s| - 1]) * 10 + DigitValue(s[|s| - 1])
  }

  /** The shortest decimal spelling of n (what the C# "0" format yields). */
  function Spell(n: nat): (r: seq<char>)
    ensures 1 <= |r| && AllDigits(r) && Value(r) == n
    ensures n < 10 ==> |r| == 1
    ensures 10 <= n < 100 ==> |r| == 2
    ensures 100 <= n ==> 3 <= |r|
    ensures 1 <= n ==> r[0] != '0'
  {
    if n < 10 then [DigitChar(n)]
    else
      var r := Spell(n / 10) + [DigitChar(n % 10)];
      assert r[..|r| - 1] == Spell(n / 10);
      r
  }

  /** Extending a digit string by one digit: the step a left-to-right
      accumulator takes. */
  lemma ValueSnoc(s: seq<char>, i: nat)
    requires i < |s| && AllDigits(s[..i + 1])
    ensures AllDigits(s[..i])
    ensures Value(s[..i + 1]) == Value(s[..i]) * 10 + DigitValue(s[i])
  {
    assert s[..i + 1][..i] == s[..i];
  }

  /** A leading zero does not change the value. */
  lemma {:induction false} ValueLeadingZero(s: seq<char>)
    requires AllDigits(s)
    ensures AllDigits(['0'] + s) && Value(['0'] + s) == Value(s)
  {
    var t := ['0'] + s;
    assert AllDigits(t) by {
      forall i | 0 <= i < |t| ensures IsDigit(t[i]) {
        if i > 0 { assert t[i] == s[i - 1]; }
      }
    }
    if s != [] {
      var p := s[..|s| - 1];
      assert t[..|t| - 1] == ['0'] + p;
      ValueLeadingZero(p);
    }
  }

  /** The value of a digit string is at least the value of any of its
      prefixes: a left-to-right accumulator never decreases. */
  lemma {:induction false} ValuePrefixBound(s: seq<char>, k: nat)
    requires k <= |s| && AllDigits(s)
    ensures AllDigits(s[..k]) && Value(s[..k]) <= Value(s)
  {
    assert AllDigits(s[..k]);
    if k < |s| {
      var p := s[..|s| - 1];
      assert p[..k] == s[..k];
      ValuePrefixBound(p, k);
      assert Value(s) == Value(p) * 10 + DigitValue(s[|s| - 1]);
    } else {
      assert s[..k] == s;
    }
  }
}
