/** String primitives the task service relies on: JavaScript's `String.prototype.trim`
    (used by zod's `.trim()` and by the client before it sends a new task) and the decimal
    rendering of an integer inside a template literal. */
module Strings {

  /** The code points `trim` removes: the WhiteSpace and LineTerminator productions of the
      ECMAScript language specification (tab, vertical tab, form feed, space, no-break space,
      zero-width no-break space, every other space separator, and the four line terminators). */
  predicate IsWhitespace(c: char) {
    var n := c as int;
    || n == 0x09 || n == 0x0A || n == 0x0B || n == 0x0C || n == 0x0D
    || n == 0x20 || n == 0xA0 || n == 0x1680
    || (0x2000 <= n <= 0x200A)
    || n == 0x2028 || n == 0x2029 || n == 0x202F || n == 0x205F
    || n == 0x3000 || n == 0xFEFF
  }

  /** Every character of `s` is whitespace (vacuously true of ""). */
  predicate IsBlank(s: string) {
    forall i :: 0 <= i < |s| ==> IsWhitespace(s[i])
  }

  /** `s` neither starts nor ends with whitespace: what `trim` leaves behind. */
  predicate IsTrimmed(s: string) {
    |s| == 0 || (!IsWhitespace(s[0]) && !IsWhitespace(s[|s| - 1]))
  }

  /** How many whitespace characters `s` starts with. */
  function LeadingBlanks(s: string): (k: nat)
    ensures k <= |s| && IsBlank(s[..k])
    ensures k < |s| ==> !IsWhitespace(s[k])
  {
    if |s| > 0 && IsWhitespace(s[0]) then
      var k := 1 + LeadingBlanks(s[1..]);
      assert s[..k] == [s[0]] + s[1..][..k - 1];
      k
    else 0
  }

  /** How many whitespace characters `s` ends with. */
  function TrailingBlanks(s: string): (k: nat)
    ensures k <= |s| && IsBlank(s[|s| - k..])
    ensures k < |s| ==> !IsWhitespace(s[|s| - k - 1])
  {
    if |s| > 0 && IsWhitespace(s[|s| - 1]) then
      var k := 1 + TrailingBlanks(s[..|s| - 1]);
      assert s[|s| - k..] == s[..|s| - 1][|s| - k..] + [s[|s| - 1]];
      k
    else 0
  }

  /** JavaScript's `s.trim()`: the infix of `s` left after removing whitespace from both ends.
      Everything removed is whitespace and what remains starts and ends with a non-blank. */
  function Trim(s: string): (r: string)
    ensures IsTrimmed(r)
    ensures LeadingBlanks(s) + |r| <= |s|
    ensures r == s[LeadingBlanks(s)..LeadingBlanks(s) + |r|]
    ensures IsBlank(s[..LeadingBlanks(s)]) && IsBlank(s[LeadingBlanks(s) + |r|..])
  {
    var lead := LeadingBlanks(s);
    if lead == |s| then ""
    else
      var trail := TrailingBlanks(s);
      BlankSuffix(s, |s| - trail);
      assert lead < |s| - trail;
      s[lead..|s| - trail]
  }

  /** A whitespace-only suffix has whitespace at every position it covers. */
  lemma BlankSuffix(s: string, from: nat)
    requires from <= |s| && IsBlank(s[from..])
    ensures forall i :: from <= i < |s| ==> IsWhitespace(s[i])
  {
    forall i | from <= i < |s| ensures IsWhitespace(s[i]) {
      assert s[from..][i - from] == s[i];
    }
  }

  /** Trimming leaves a string alone exactly when it has no whitespace at either end. */
  lemma TrimFixedPoints(s: string)
    ensures Trim(s) == s <==> IsTrimmed(s)
  {
    if IsTrimmed(s) && |s| > 0 {
      assert LeadingBlanks(s) == 0 && TrailingBlanks(s) == 0;
    }
  }

  /** `trim` is idempotent. */
  lemma TrimIdempotent(s: string)
    ensures Trim(Trim(s)) == Trim(s)
  {
    TrimFixedPoints(Trim(s));
  }

  /** Trimming yields "" exactly when the string is whitespace only (or empty). */
  lemma {:induction false} TrimEmptyIffBlank(s: string)
    ensures Trim(s) == "" <==> IsBlank(s)
  {
    var k := LeadingBlanks(s);
    if Trim(s) == "" {
      assert k == |s| && s[..k] == s;
    } else {
      var r := Trim(s);
      assert r[0] == s[k];
    }
  }

  /** Trimming a string that has a non-blank character keeps that string non-empty. */
  lemma TrimNonBlank(s: string)
    requires !IsBlank(s)
    ensures |Trim(s)| > 0
  {
    TrimEmptyIffBlank(s);
  }

  /** The ASCII digit for `d`. */
  function DigitChar(d: nat): (c: char)
    requires d < 10
    ensures '0' <= c <= '9'
  {
    ['0', '1', '2', '3', '4', '5', '6', '7', '8', '9'][d]
  }

  /** The number an ASCII digit stands for. */
  function DigitValue(c: char): (d: nat)
    requires '0' <= c <= '9'
    ensures d < 10
  {
    (c as int) - ('0' as int)
  }

  predicate IsDigits(s: string) {
    forall i :: 0 <= i < |s| ==> '0' <= s[i] <= '9'
  }

  /** The value of a string of decimal digits, most significant first. */
  function DecimalValue(s: string): nat
    requires IsDigits(s)
  {
    if |s| == 0 then 0 else 10 * DecimalValue(s[..|s| - 1]) + DigitValue(s[|s| - 1])
  }

  /** The shortest decimal rendering of `n`, as JavaScript prints a safe integer. */
  function NatToString(n: nat): (r: string)
    ensures |r| >= 1 && IsDigits(r)
    ensures |r| > 1 ==> r[0] != '0'
  {
    if n < 10 then [DigitChar(n)] else NatToString(n / 10) + [DigitChar(n % 10)]
  }

  /** Reading the rendering back gives the number: the rendering loses nothing. */
  lemma {:induction false} NatToStringRoundTrip(n: nat)
    ensures DecimalValue(NatToString(n)) == n
  {
    var r := NatToString(n);
    if n < 10 {
      assert DigitValue(DigitChar(n)) == n;
    } else {
      NatToStringRoundTrip(n / 10);
      assert r[..|r| - 1] == NatToString(n / 10);
      assert DigitValue(DigitChar(n % 10)) == n % 10;
    }
  }

  /** An integer in a template literal: an optional minus sign, then the digits. */
  function IntToString(i: int): (r: string)
    ensures |r| >= 1
    ensures i < 0 <==> r[0] == '-'
  {
    if i < 0 then "-" + NatToString(-i) else NatToString(i)
  }

  /** Distinct naturals render differently. */
  lemma NatToStringInjective(a: nat, b: nat)
    requires NatToString(a) == NatToString(b)
    ensures a == b
  {
    NatToStringRoundTrip(a);
    NatToStringRoundTrip(b);
  }

  /** Distinct integers render differently, so an error message identifies its id. */
  lemma IntToStringInjective(i: int, j: int)
    requires IntToString(i) == IntToString(j)
    ensures i == j
  {
    if i < 0 {
      MinusThenDigits(i);
      MinusThenDigits(j);
      NatToStringInjective(-i, -j);
    } else {
      NatToStringInjective(i, j);
    }
  }

  /** After the minus sign of a negative number come the digits of its magnitude. */
  lemma MinusThenDigits(i: int)
    requires i < 0
    ensures IntToString(i)[1..] == NatToString(-i)
  {
    assert ("-" + NatToString(-i))[1..] == NatToString(-i);
  }

  /** After the sign, an integer's rendering is its magnitude in decimal: digits only, no
      leading zero, and they read back to the magnitude. */
  lemma IntToStringDigits(i: int)
    ensures var digits := if i < 0 then IntToString(i)[1..] else IntToString(i);
            && |digits| >= 1 && IsDigits(digits) && (|digits| > 1 ==> digits[0] != '0')
            && DecimalValue(digits) == if i < 0 then -i else i
  {
    var n: nat := if i < 0 then -i else i;
    assert (if i < 0 then IntToString(i)[1..] else IntToString(i)) == NatToString(n) by {
      if i < 0 {
        MinusThenDigits(i);
      }
    }
    NatToStringRoundTrip(n);
  }
}
