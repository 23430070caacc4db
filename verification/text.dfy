/** The text-level checks behind the Video validations: Rails' notion of a
    blank value, and the `only_integer` grammar `[+-]?digits` together with
    the number such a literal denotes. */
module Text {
  import opened Wrappers

  /** Ruby's `[[:space:]]` class on a Unicode string: the characters with the
      Unicode White_Space property. */
  predicate IsSpace(c: char) {
    || c == ' '
    || '\U{0009}' <= c <= '\U{000D}'
    || c == '\U{0085}'
    || c == '\U{00A0}'
    || c == '\U{1680}'
    || '\U{2000}' <= c <= '\U{200A}'
    || c == '\U{2028}'
    || c == '\U{2029}'
    || c == '\U{202F}'
    || c == '\U{205F}'
    || c == '\U{3000}'
  }

  /** Rails' `blank?` on a request value: `nil`, or a string made only of
      whitespace (the empty string included). */
  predicate IsBlank(v: Option<string>) {
    v.None? || forall i :: 0 <= i < |v.value| ==> IsSpace(v.value[i])
  }

  predicate IsDigit(c: char) {
    '0' <= c <= '9'
  }

  function DigitValue(c: char): (d: nat)
    requires IsDigit(c)
    ensures d < 10
  {
    (c as int) - ('0' as int)
  }

  function DigitChar(d: nat): (c: char)
    requires d < 10
    ensures IsDigit(c) && DigitValue(c) == d
  {
    (('0' as int) + d) as char
  }

  predicate AllDigits(s: string) {
    forall i :: 0 <= i < |s| ==> IsDigit(s[i])
  }

  predicate AllZeros(s: string) {
    forall i :: 0 <= i < |s| ==> s[i] == '0'
  }

  /** The number a string of decimal digits denotes, read right to left: the
      last digit plus ten times the value of the digits before it. Leading
      zeros add nothing, as with Ruby's `to_i`. */
  function DigitsValue(s: string): nat
    requires AllDigits(s)
    decreases |s|
  {
    if |s| == 0 then 0
    else 10 * DigitsValue(s[..|s| - 1]) + DigitValue(s[|s| - 1])
  }

  predicate HasSign(s: string) {
    |s| > 0 && (s[0] == '+' || s[0] == '-')
  }

  predicate HasMinus(s: string) {
    |s| > 0 && s[0] == '-'
  }

  /** The part of a would-be integer literal after its optional sign. */
  function Magnitude(s: string): string {
    if HasSign(s) then s[1..] else s
  }

  /** The integer grammar of the `only_integer` option: an optional sign
      followed by one or more ASCII digits, and nothing else (no whitespace,
      no decimal point, no exponent). */
  predicate IsIntegerLiteral(s: string) {
    |Magnitude(s)| > 0 && AllDigits(Magnitude(s))
  }

  /** Reads decimal digits left to right onto the accumulator `acc`; fails at
      the first character that is not a digit. */
  function ScanDigits(s: string, acc: nat): (r: Option<nat>)
    ensures r.Some? <==> AllDigits(s)
    ensures r.Some? ==> r.value >= acc
    decreases |s|
  {
    if |s| == 0 then Some(acc)
    else if IsDigit(s[0]) then
      var r := ScanDigits(s[1..], acc * 10 + DigitValue(s[0]));
      assert AllDigits(s) <==> AllDigits(s[1..]) by {
        assert forall i :: 0 < i < |s| ==> s[i] == s[1..][i - 1];
      }
      r
    else None
  }

  /** The scan of a digit string yields zero exactly when nothing non-zero was
      accumulated before it and every digit is '0'. */
  lemma {:induction false} ScanIsZeroIff(s: string, acc: nat)
    requires AllDigits(s)
    ensures ScanDigits(s, acc).value == 0 <==> acc == 0 && AllZeros(s)
    decreases |s|
  {
    if |s| > 0 {
      var acc' := acc * 10 + DigitValue(s[0]);
      ScanIsZeroIff(s[1..], acc');
      assert AllZeros(s) <==> s[0] == '0' && AllZeros(s[1..]) by {
        assert forall i :: 0 < i < |s| ==> s[i] == s[1..][i - 1];
      }
    }
  }

  /** Parses a request value under the `only_integer` grammar. The result is
      present exactly for integer literals; it is the value of the digits,
      negated when the literal starts with '-'. A '+' sign and leading zeros
      change nothing, and "-0" is 0. */
  function ParseInteger(s: string): (r: Option<int>)
    ensures r.Some? <==> IsIntegerLiteral(s)
    ensures r.Some? ==> r.value == if HasMinus(s) then -(DigitsValue(Magnitude(s)) as int) else DigitsValue(Magnitude(s))
    ensures r.Some? ==> (r.value < 0 <==> HasMinus(s) && !AllZeros(Magnitude(s)))
  {
    var digits := Magnitude(s);
    if |digits| == 0 then None
    else
      match ScanDigits(digits, 0)
      case None => None
      case Some(m) =>
        ScanIsZeroIff(digits, 0);
        ScanIsDigitsValue(digits);
        var n: int := if HasMinus(s) then -(m as int) else m;
        Some(n)
  }

  /** The decimal spelling of a natural number, without leading zeros. */
  function FormatNatural(n: nat): (s: string)
    ensures |s| > 0 && AllDigits(s)
    decreases n
  {
    if n < 10 then [DigitChar(n)]
    else FormatNatural(n / 10) + [DigitChar(n % 10)]
  }

  /** The decimal spelling of an integer, with a leading '-' when negative. */
  function FormatInteger(n: int): (s: string)
    ensures IsIntegerLiteral(s)
    ensures n >= 0 ==> !HasSign(s)
  {
    if n < 0 then
      var s := "-" + FormatNatural(-n);
      assert Magnitude(s) == FormatNatural(-n);
      s
    else FormatNatural(n)
  }

  /** Scanning a concatenation of digit strings scans the second part from
      where the first part left off. */
  lemma {:induction false} ScanAppend(a: string, b: string, acc: nat)
    requires AllDigits(a)
    ensures ScanDigits(a + b, acc) == ScanDigits(b, ScanDigits(a, acc).value)
    decreases |a|
  {
    if |a| > 0 {
      assert (a + b)[0] == a[0];
      assert (a + b)[1..] == a[1..] + b;
      assert AllDigits(a[1..]) by {
        assert forall i :: 0 <= i < |a[1..]| ==> a[1..][i] == a[i + 1];
      }
      ScanAppend(a[1..], b, acc * 10 + DigitValue(a[0]));
    } else {
      assert a + b == b;
    }
  }

  /** The left-to-right scan computes the right-to-left value. */
  lemma {:induction false} ScanIsDigitsValue(s: string)
    requires AllDigits(s)
    ensures ScanDigits(s, 0) == Some(DigitsValue(s))
    decreases |s|
  {
    if |s| > 0 {
      var init, last := s[..|s| - 1], [s[|s| - 1]];
      assert AllDigits(init);
      assert s == init + last;
      ScanIsDigitsValue(init);
      ScanAppend(init, last, 0);
      assert last[1..] == [];
    }
  }

  /** A leading zero leaves the value of a digit string unchanged. */
  lemma {:induction false} LeadingZeroValue(s: string)
    requires AllDigits(s)
    ensures AllDigits("0" + s) && DigitsValue("0" + s) == DigitsValue(s)
    decreases |s|
  {
    var z := "0" + s;
    assert AllDigits(z) by {
      assert forall i :: 0 < i < |z| ==> z[i] == s[i - 1];
    }
    if |s| > 0 {
      var init := s[..|s| - 1];
      assert AllDigits(init);
      LeadingZeroValue(init);
      assert z[..|z| - 1] == "0" + init;
      assert z[|z| - 1] == s[|s| - 1];
    } else {
      assert z[..0] == [];
    }
  }

  /** Rails reads the accepted spellings the way `to_i` does: an explicit '+'
      and leading zeros do not change the number, and "-0" is zero. */
  lemma ParseLenientSpellings(s: string)
    requires |s| > 0 && AllDigits(s)
    ensures ParseInteger("+" + s) == ParseInteger(s)
    ensures ParseInteger("0" + s) == ParseInteger(s)
    ensures AllZeros(s) ==> ParseInteger("-" + s) == Some(0)
  {
    assert !HasSign(s) && Magnitude(s) == s;
    assert Magnitude("+" + s) == s;
    assert Magnitude("-" + s) == s;
    LeadingZeroValue(s);
    assert Magnitude("0" + s) == "0" + s;
    if AllZeros(s) {
      ScanIsZeroIff(s, 0);
      ScanIsDigitsValue(s);
    }
  }

  /** Reading back the spelling of a natural number gives the number. */
  lemma {:induction false} ScanFormatNatural(n: nat)
    ensures ScanDigits(FormatNatural(n), 0) == Some(n)
    decreases n
  {
    if n >= 10 {
      var last := [DigitChar(n % 10)];
      ScanFormatNatural(n / 10);
      ScanAppend(FormatNatural(n / 10), last, 0);
      assert ScanDigits(last, n / 10) == Some((n / 10) * 10 + n % 10) by {
        assert last[1..] == [];
      }
    } else {
      assert [DigitChar(n)][1..] == [];
    }
  }

  /** Parsing inverts formatting, for every integer. */
  lemma ParseFormatRoundTrip(n: int)
    ensures ParseInteger(FormatInteger(n)) == Some(n)
  {
    if n < 0 {
      ScanFormatNatural(-n);
      assert Magnitude(FormatInteger(n)) == FormatNatural(-n);
    } else {
      ScanFormatNatural(n);
      assert Magnitude(FormatInteger(n)) == FormatNatural(n);
    }
  }

  /** An integer literal always contains a digit, so it is never blank. */
  lemma IntegerLiteralNotBlank(s: string)
    requires IsIntegerLiteral(s)
    ensures !IsBlank(Some(s))
  {
    var m := Magnitude(s);
    assert s[|s| - 1] == m[|m| - 1];
    assert !IsSpace(s[|s| - 1]);
  }
}
