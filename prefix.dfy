/** The range endpoint's path parameter: `is_valid_hash` and the upper-case
    normalisation that turns a valid prefix into the store key. A valid prefix
    is read as a number below 16^5; the key of a prefix is the five-digit
    upper-case rendering of that number, so two prefixes name the same object
    exactly when they denote the same number. */
module Prefix {
  import opened Text

  /** Python's string.hexdigits, the alphabet is_valid_hash tests against. */
  const HexDigits := "0123456789abcdefABCDEF"

  const PrefixLength := 5

  /** is_valid_hash: five characters, each one of string.hexdigits. */
  predicate IsValidHash(h: string) {
    |h| == PrefixLength && forall i :: 0 <= i < |h| ==> h[i] in HexDigits
  }

  /** A hexadecimal digit by character ranges, independent of the alphabet
      string the source uses. */
  predicate IsHexChar(c: char) {
    '0' <= c <= '9' || 'a' <= c <= 'f' || 'A' <= c <= 'F'
  }

  predicate IsHexString(s: string) {
    forall i :: 0 <= i < |s| ==> IsHexChar(s[i])
  }

  lemma HexDigitsAreHexChars(c: char)
    ensures c in HexDigits <==> IsHexChar(c)
  {
    if IsHexChar(c) {
      var k := if c <= '9' then c as int - '0' as int
               else if c <= 'F' then c as int - 'A' as int + 16
               else c as int - 'a' as int + 10;
      assert HexDigits[k] == c;
    }
  }

  /** The validator accepts exactly the five-character hexadecimal strings,
      in either case; anything of another length (the empty string included)
      or with a non-hexadecimal character is refused. */
  lemma ValidHashIff(h: string)
    ensures IsValidHash(h) <==> |h| == 5 && IsHexString(h)
  {
    forall i | 0 <= i < |h| ensures h[i] in HexDigits <==> IsHexChar(h[i]) {
      HexDigitsAreHexChars(h[i]);
    }
  }

  function Pow16(k: nat): (p: nat)
    ensures p >= 1
  {
    if k == 0 then 1 else 16 * Pow16(k - 1)
  }

  /** Value of one hexadecimal digit, either case. */
  function HexValue(c: char): (d: nat)
    requires IsHexChar(c)
    ensures d < 16
  {
    if c <= '9' then c as int - '0' as int
    else if c <= 'F' then c as int - 'A' as int + 10
    else c as int - 'a' as int + 10
  }

  /** The upper-case hexadecimal digit for a value below 16. */
  function HexDigitChar(d: nat): (c: char)
    requires d < 16
    ensures IsHexChar(c) && HexValue(c) == d && UpperChar(c) == c
  {
    if d < 10 then ('0' as int + d) as char else ('A' as int + d - 10) as char
  }

  /** The number a hexadecimal string denotes, most significant digit first. */
  function Value(s: string): (v: nat)
    requires IsHexString(s)
    ensures v < Pow16(|s|)
  {
    if s == [] then 0
    else
      var w := Value(s[..|s| - 1]);
      assert w + 1 <= Pow16(|s| - 1);
      assert (w + 1) * 16 <= Pow16(|s| - 1) * 16;
      w * 16 + HexValue(s[|s| - 1])
  }

  /** The k-digit upper-case hexadecimal rendering of v (its low k digits). */
  function Format(v: nat, k: nat): (s: string)
    ensures |s| == k && IsHexString(s) && ToUpper(s) == s
  {
    if k == 0 then ""
    else
      var s := Format(v / 16, k - 1) + [HexDigitChar(v % 16)];
      assert ToUpper(s) == s by {
        forall i | 0 <= i < |s| ensures ToUpper(s)[i] == s[i] {
          if i < k - 1 { assert s[i] == Format(v / 16, k - 1)[i]; }
        }
      }
      s
  }

  /** Rendering then reading gives the number back. */
  lemma {:induction false} ValueFormat(v: nat, k: nat)
    requires v < Pow16(k)
    ensures Value(Format(v, k)) == v
  {
    if k > 0 {
      var s := Format(v, k);
      assert s[..k - 1] == Format(v / 16, k - 1);
      ValueFormat(v / 16, k - 1);
    }
  }

  /** Reading then rendering gives the upper-case form of the string. */
  lemma {:induction false} FormatValue(s: string)
    requires IsHexString(s)
    ensures Format(Value(s), |s|) == ToUpper(s)
  {
    if s != [] {
      var k := |s|;
      var init := s[..k - 1];
      var c := s[k - 1];
      var v := Value(s);
      assert v / 16 == Value(init) && v % 16 == HexValue(c);
      FormatValue(init);
      assert HexDigitChar(HexValue(c)) == UpperChar(c);
      assert ToUpper(s) == ToUpper(init) + [UpperChar(c)];
    }
  }

  /** Upper-casing a hexadecimal string keeps it hexadecimal and keeps the
      number it denotes. */
  lemma {:induction false} ToUpperKeepsHex(s: string)
    requires IsHexString(s)
    ensures IsHexString(ToUpper(s)) && Value(ToUpper(s)) == Value(s)
  {
    if s != [] {
      var k := |s|;
      ToUpperKeepsHex(s[..k - 1]);
      assert ToUpper(s)[..k - 1] == ToUpper(s[..k - 1]);
      assert HexValue(UpperChar(s[k - 1])) == HexValue(s[k - 1]);
    }
  }

  /** The key of a valid prefix is its canonical upper-case rendering, and
      it is itself a valid prefix. */
  lemma KeyIsCanonical(h: string)
    requires IsValidHash(h)
    ensures IsHexString(h) && IsValidHash(ToUpper(h))
    ensures ToUpper(h) == Format(Value(h), PrefixLength)
  {
    ValidHashIff(h);
    FormatValue(h);
    ValidHashIff(ToUpper(h));
  }

  /** Every one of the 16^5 numbers has exactly one key, and it is valid. */
  lemma EveryNumberHasAKey(v: nat)
    requires v < Pow16(PrefixLength)
    ensures IsValidHash(Format(v, PrefixLength))
    ensures Value(Format(v, PrefixLength)) == v
  {
    ValidHashIff(Format(v, PrefixLength));
    ValueFormat(v, PrefixLength);
  }

  /** Two valid prefixes give the same key exactly when they denote the same
      number, whatever the case of their letters. */
  lemma SameKeyIff(h1: string, h2: string)
    requires IsValidHash(h1) && IsValidHash(h2)
    ensures IsHexString(h1) && IsHexString(h2)
    ensures ToUpper(h1) == ToUpper(h2) <==> Value(h1) == Value(h2)
  {
    KeyIsCanonical(h1);
    KeyIsCanonical(h2);
    if ToUpper(h1) == ToUpper(h2) {
      EveryNumberHasAKey(Value(h1));
      EveryNumberHasAKey(Value(h2));
    }
  }
}
