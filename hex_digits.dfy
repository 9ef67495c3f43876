/**
 * Base-16 numerals as the colour parser sees them: the digit class `[a-f\d]`
 * of its regular expression, and `parseInt(_, 16)` applied to a run of such
 * digits. `FormatHex` is the inverse used to state round trips.
 */
module HexDigits {

  /** The sixteen characters of the class `[a-f\d]`, in order of value. */
  const Alphabet: seq<char> := "0123456789abcdef"

  /**
   * The regular-expression class `[a-f\d]`: ASCII digits and lower-case
   * `a`-`f` only (`\d` stays ASCII under the `u` flag, and there is no `i` flag).
   */
  predicate IsHexDigit(c: char)
  {
    ('0' <= c <= '9') || ('a' <= c <= 'f')
  }

  /** A run every character of which is in the class `[a-f\d]`. */
  predicate AllHexDigits(s: seq<char>)
  {
    forall i :: 0 <= i < |s| ==> IsHexDigit(s[i])
  }

  /** The class `[a-f\d]` is exactly the sixteen characters of `Alphabet`; upper-case `A`-`F` is outside it. */
  lemma ClassIsAlphabet(c: char)
    ensures IsHexDigit(c) <==> c in Alphabet
    ensures 'A' <= c <= 'F' ==> !IsHexDigit(c)
  {
  }

  /** A run matches `[a-f\d]*` exactly when every character of it is in `Alphabet`. */
  lemma RunIsAlphabet(s: seq<char>)
    ensures AllHexDigits(s) <==> forall c | c in s :: c in Alphabet
  {
    forall c | c in s ensures IsHexDigit(c) <==> c in Alphabet {
      ClassIsAlphabet(c);
    }
  }

  /** Runs of digits stay runs of digits when joined. */
  lemma ConcatHexDigits(a: seq<char>, b: seq<char>)
    requires AllHexDigits(a) && AllHexDigits(b)
    ensures AllHexDigits(a + b)
  {
    forall i | 0 <= i < |a + b| ensures IsHexDigit((a + b)[i]) {
      if i >= |a| {
        assert (a + b)[i] == b[i - |a|];
      }
    }
  }

  /** The value of one digit, as `parseInt` reads it in base 16. */
  function DigitValue(c: char): (v: nat)
    requires IsHexDigit(c)
    ensures v < 16
    ensures v < 10 <==> '0' <= c <= '9'
  {
    if c <= '9' then c as int - '0' as int else c as int - 'a' as int + 10
  }

  /** The lower-case digit for a value below 16. */
  function DigitChar(v: nat): (c: char)
    requires v < 16
    ensures IsHexDigit(c)
  {
    if v < 10 then ('0' as int + v) as char else ('a' as int + v - 10) as char
  }

  /** The digit written for a value reads back as that value. */
  lemma DigitCharValue(v: nat)
    requires v < 16
    ensures DigitValue(DigitChar(v)) == v
    ensures DigitChar(v) == Alphabet[v]
  {
  }

  /** Every digit of the class is the one written for its value. */
  lemma DigitValueChar(c: char)
    requires IsHexDigit(c)
    ensures DigitChar(DigitValue(c)) == c
  {
  }

  function Pow16(n: nat): (p: nat)
    ensures p > 0
  {
    if n == 0 then 1 else 16 * Pow16(n - 1)
  }

  /**
   * The base-16 value of a run of digits. On the two-digit runs that
   * `hexToRgb` passes it is `parseInt(ds, 16)`; the value 0 for the empty run
   * is only the base case of the recursion.
   */
  function ParseHex(ds: seq<char>): (v: nat)
    requires AllHexDigits(ds)
    ensures v < Pow16(|ds|)
    decreases |ds|
  {
    if |ds| == 0 then 0
    else
      var high := ParseHex(ds[..|ds| - 1]);
      var low := DigitValue(ds[|ds| - 1]);
      assert high + 1 <= Pow16(|ds| - 1);
      assert 16 * (high + 1) <= 16 * Pow16(|ds| - 1);
      16 * high + low
  }

  /** `v` written as exactly `width` lower-case hex digits, most significant first. */
  function FormatHex(v: nat, width: nat): (s: seq<char>)
    requires v < Pow16(width)
    ensures |s| == width && AllHexDigits(s)
  {
    if width == 0 then []
    else FormatHex(v / 16, width - 1) + [DigitChar(v % 16)]
  }

  /** The value of the pair of digits `hi lo`: sixteen times the first plus the second. */
  function PairValue(hi: char, lo: char): nat
    requires IsHexDigit(hi) && IsHexDigit(lo)
  {
    16 * DigitValue(hi) + DigitValue(lo)
  }

  /** A two-digit group reads as the value of its pair of digits. */
  lemma ParsePair(hi: char, lo: char)
    requires IsHexDigit(hi) && IsHexDigit(lo)
    ensures ParseHex([hi, lo]) == PairValue(hi, lo)
    ensures ParseHex([hi, lo]) < 256
  {
  }

  /** Reading back a formatted value gives the value. */
  lemma {:induction false} ParseFormat(v: nat, width: nat)
    requires v < Pow16(width)
    ensures ParseHex(FormatHex(v, width)) == v
  {
    if width > 0 {
      var s := FormatHex(v, width);
      assert s[..|s| - 1] == FormatHex(v / 16, width - 1);
      ParseFormat(v / 16, width - 1);
      DigitCharValue(v % 16);
    }
  }

  /** Formatting a parsed run at its own width gives the run back: the lower-case spelling is unique. */
  lemma {:induction false} FormatParse(ds: seq<char>)
    requires AllHexDigits(ds)
    ensures FormatHex(ParseHex(ds), |ds|) == ds
  {
    if |ds| > 0 {
      var init, last := ds[..|ds| - 1], ds[|ds| - 1];
      var v := ParseHex(ds);
      assert v == 16 * ParseHex(init) + DigitValue(last);
      assert v / 16 == ParseHex(init) && v % 16 == DigitValue(last);
      FormatParse(init);
      DigitValueChar(last);
      assert ds == init + [last];
    }
  }
}
