/**
  Decimal integer text: the `int.TryParse` that the info command uses for
  `--peek`, and the formatting of list positions in the tree printer.
  `int.TryParse(string, out int)` uses `NumberStyles.Integer`: white space
  may surround the number, one leading sign is allowed, the digits are ASCII,
  and a value outside the 32-bit range is a failure, not a wrap-around.
 */
module Decimal {
  import opened Results

  const Int32Min: int := -0x8000_0000
  const Int32Max: int := 0x7FFF_FFFF

  predicate IsDigit(ch: char) {
    '0' <= ch <= '9'
  }

  predicate AllDigits(s: string) {
    forall k :: 0 <= k < |s| ==> IsDigit(s[k])
  }

  function DigitValue(ch: char): nat
    requires IsDigit(ch)
  {
    ch as int - '0' as int
  }

  function DigitChar(d: nat): (ch: char)
    requires d < 10
    ensures IsDigit(ch) && DigitValue(ch) == d
  {
    ('0' as int + d) as char
  }

  /** The value of a run of digits, most significant first. */
  function DigitsValue(s: string): nat
    requires AllDigits(s)
  {
    if |s| == 0 then 0 else DigitsValue(s[..|s| - 1]) * 10 + DigitValue(s[|s| - 1])
  }

  /** Decimal text of `n` without sign or leading zeros, as `ToString` writes it. */
  function NatToString(n: nat): (s: string)
    ensures |s| >= 1 && AllDigits(s)
    ensures |s| > 1 ==> s[0] != '0'
  {
    if n < 10 then [DigitChar(n)] else NatToString(n / 10) + [DigitChar(n % 10)]
  }

  lemma {:induction false} NatToStringRoundTrip(n: nat)
    ensures DigitsValue(NatToString(n)) == n
  {
    if n >= 10 {
      var s := NatToString(n);
      assert s[..|s| - 1] == NatToString(n / 10);
      NatToStringRoundTrip(n / 10);
    }
  }

  /** The white space that `NumberStyles.Integer` skips: U+0009 to U+000D and U+0020. */
  predicate IsNumberWhite(ch: char) {
    ch == ' ' || '\t' <= ch <= '\r'
  }

  /** Every character of `s` from `lo` up to `hi` is number white space. */
  predicate WhiteBetween(s: string, lo: nat, hi: nat)
    requires lo <= hi <= |s|
  {
    forall k :: lo <= k < hi ==> IsNumberWhite(s[k])
  }

  /** The first position from `i` on that is not number white space (or the end). */
  function SkipWhite(s: string, i: nat): (k: nat)
    requires i <= |s|
    ensures i <= k <= |s| && WhiteBetween(s, i, k)
    ensures k < |s| ==> !IsNumberWhite(s[k])
    decreases |s| - i
  {
    if i < |s| && IsNumberWhite(s[i]) then SkipWhite(s, i + 1) else i
  }

  /** The end of `s[lo..j]` once trailing number white space is dropped. */
  function SkipWhiteBack(s: string, lo: nat, j: nat): (k: nat)
    requires lo <= j <= |s|
    ensures lo <= k <= j && WhiteBetween(s, k, j)
    ensures k > lo ==> !IsNumberWhite(s[k - 1])
    decreases j - lo
  {
    if j > lo && IsNumberWhite(s[j - 1]) then SkipWhiteBack(s, lo, j - 1) else j
  }

  /** `t` is one or more ASCII digits with at most one sign in front, and `v` is their signed value (before any range check). */
  predicate SignedDigits(t: string, v: int) {
    || (|t| > 0 && AllDigits(t) && v == DigitsValue(t))
    || (|t| > 1 && t[0] == '+' && AllDigits(t[1..]) && v == DigitsValue(t[1..]))
    || (|t| > 1 && t[0] == '-' && AllDigits(t[1..]) && v == -(DigitsValue(t[1..]) as int))
  }

  /** `s` is integer text with value `v` in the `NumberStyles.Integer` format: white space, signed digits, white space. */
  ghost predicate IntegerText(s: string, v: int) {
    exists i, j :: 0 <= i <= j <= |s| && WhiteBetween(s, 0, i) && SignedDigits(s[i..j], v) && WhiteBetween(s, j, |s|)
  }

  /** The text left after trimming: signed digits, range-checked. */
  function ParseSigned(t: string): (r: Option<int>)
    ensures r.Some? ==> Int32Min <= r.value <= Int32Max && SignedDigits(t, r.value)
  {
    var negative := |t| > 0 && t[0] == '-';
    var digits := if |t| > 0 && (t[0] == '-' || t[0] == '+') then t[1..] else t;
    if |digits| == 0 || !AllDigits(digits) then None
    else
      var v: int := if negative then -(DigitsValue(digits) as int) else DigitsValue(digits);
      if Int32Min <= v <= Int32Max then Some(v) else None
  }

  lemma ParseSignedReads(t: string, v: int)
    requires SignedDigits(t, v)
    ensures ParseSigned(t) == if Int32Min <= v <= Int32Max then Some(v) else None
  {
  }

  /**
    `int.TryParse`: `None` is the `false` return. White space is trimmed at
    both ends and the rest must be signed digits in range. A value is returned
    only for integer text, and only when it fits in 32 bits; together with
    `TryParseReadsIntegerText` this is an exact characterisation.
   */
  function TryParseInt32(s: string): (r: Option<int>)
    ensures r.Some? ==> Int32Min <= r.value <= Int32Max
    ensures r.Some? ==> IntegerText(s, r.value)
  {
    var i := SkipWhite(s, 0);
    var j := SkipWhiteBack(s, i, |s|);
    ParseSigned(s[i..j])
  }

  /** Integer text parses to its value when that value fits in 32 bits, and fails (never wraps) when it does not. */
  lemma TryParseReadsIntegerText(s: string, v: int)
    requires IntegerText(s, v)
    ensures TryParseInt32(s) == if Int32Min <= v <= Int32Max then Some(v) else None
  {
    var i, j :| 0 <= i <= j <= |s| && WhiteBetween(s, 0, i) && SignedDigits(s[i..j], v) && WhiteBetween(s, j, |s|);
    assert !IsNumberWhite(s[i]) by {
      assert s[i] == s[i..j][0];
    }
    assert !IsNumberWhite(s[j - 1]) by {
      assert s[j - 1] == s[i..j][j - i - 1];
      assert IsDigit(s[i..j][j - i - 1]);
    }
    assert SkipWhite(s, 0) == i;
    assert SkipWhiteBack(s, i, |s|) == j;
    ParseSignedReads(s[i..j], v);
  }

  /** Signed digits with no surrounding white space are integer text. */
  lemma SignedDigitsAreIntegerText(t: string, v: int)
    requires SignedDigits(t, v)
    ensures IntegerText(t, v)
  {
    assert t[..0] == "" && t[0..|t|] == t && t[|t|..] == "";
  }

  /** Signed digits with no surrounding white space parse to their value when it fits in 32 bits. */
  lemma TryParseSignedDigits(t: string, v: int)
    requires SignedDigits(t, v)
    ensures Int32Min <= v <= Int32Max ==> TryParseInt32(t) == Some(v)
    ensures !(Int32Min <= v <= Int32Max) ==> TryParseInt32(t) == None
  {
    SignedDigitsAreIntegerText(t, v);
    TryParseReadsIntegerText(t, v);
  }

  /** Every non-negative 32-bit value written in decimal parses back to itself. */
  lemma TryParseNatToString(n: nat)
    requires n <= Int32Max
    ensures TryParseInt32(NatToString(n)) == Some(n)
  {
    var s := NatToString(n);
    NatToStringRoundTrip(n);
    assert SignedDigits(s, n);
    TryParseSignedDigits(s, n);
  }

  /** A decimal value beyond the 32-bit range fails to parse: it does not wrap around. */
  lemma TryParseOutOfRange(n: nat)
    requires n > Int32Max
    ensures TryParseInt32(NatToString(n)) == None
  {
    var s := NatToString(n);
    NatToStringRoundTrip(n);
    assert SignedDigits(s, n);
    TryParseSignedDigits(s, n);
  }

  /** A minus sign in front of digits whose value is at most 2^31 parses to the negated value. */
  lemma TryParseMinusDigits(s: string, digits: string)
    requires |s| > 1 && s[0] == '-' && s[1..] == digits
    requires AllDigits(digits) && DigitsValue(digits) <= -Int32Min
    ensures TryParseInt32(s) == Some(-(DigitsValue(digits) as int))
  {
    TryParseSignedDigits(s, -(DigitsValue(digits) as int));
  }

  /** A minus sign followed by the decimal digits of a positive value always parses to a negative number. */
  lemma TryParseNegative(s: string, n: nat)
    requires 0 < n <= -Int32Min
    requires |s| > 1 && s[0] == '-' && s[1..] == NatToString(n)
    ensures TryParseInt32(s) == Some(-(n as int))
  {
    NatToStringRoundTrip(n);
    TryParseMinusDigits(s, NatToString(n));
  }
}
