/** Decimal numerals, as digits, as bytes and as text. */
module Decimal {
  import opened Bytes

  type digit = d: int | 0 <= d < 10

  /** The digits of `n`, most significant first, without leading zeros. */
  function Digits(n: nat): (d: seq<digit>)
    ensures |d| > 0
  {
    if n < 10 then [n] else Digits(n / 10) + [n % 10]
  }

  function Value(d: seq<digit>): nat {
    if d == [] then 0 else 10 * Value(d[..|d| - 1]) + d[|d| - 1] as int
  }

  lemma {:induction false} ValueOfDigits(n: nat)
    ensures Value(Digits(n)) == n
  {
    if n >= 10 {
      ValueOfDigits(n / 10);
      assert Digits(n)[..|Digits(n)| - 1] == Digits(n / 10);
    }
  }

  function Pow10(k: nat): (p: nat)
    ensures p > 0
  {
    if k == 0 then 1 else 10 * Pow10(k - 1)
  }

  /** A numeral fits a field of `k` columns exactly when the number is below 10^k. */
  lemma {:induction false} DigitCount(n: nat, k: nat)
    requires k > 0
    ensures |Digits(n)| <= k <==> n < Pow10(k)
  {
    if k == 1 {
      assert Pow10(1) == 10 * Pow10(0);
      if n >= 10 {
        assert |Digits(n)| == |Digits(n / 10)| + 1;
      }
    } else if n >= 10 {
      DigitCount(n / 10, k - 1);
      assert n / 10 < Pow10(k - 1) <==> n < 10 * Pow10(k - 1);
    } else {
      assert Pow10(k) == 10 * Pow10(k - 1);
    }
  }

  // ---- bytes ---------------------------------------------------------------

  predicate IsDigit(b: byte) { 48 <= b <= 57 }

  function DecBytes(n: nat): (b: seq<byte>)
    ensures |b| == |Digits(n)| && forall i :: 0 <= i < |b| ==> IsDigit(b[i])
  {
    var d := Digits(n);
    seq(|d|, i requires 0 <= i < |d| => 48 + d[i] as int)
  }

  /** How many of the leading bytes are digits. */
  function DigitRun(b: seq<byte>): (n: nat)
    ensures n <= |b| && (forall i :: 0 <= i < n ==> IsDigit(b[i])) && (n < |b| ==> !IsDigit(b[n]))
  {
    if b == [] || !IsDigit(b[0]) then 0 else 1 + DigitRun(b[1..])
  }

  function DigitOf(b: byte): digit
    requires IsDigit(b)
  {
    b as int - 48
  }

  function Undigit(b: seq<byte>): (d: seq<digit>)
    requires forall i :: 0 <= i < |b| ==> IsDigit(b[i])
    ensures |d| == |b|
  {
    seq(|b|, i requires 0 <= i < |b| => DigitOf(b[i]))
  }

  /** The number the leading digits spell; 0 when there are none. */
  function LeadingNumber(b: seq<byte>): nat {
    Value(Undigit(b[..DigitRun(b)]))
  }

  lemma DigitRunIs(b: seq<byte>, n: nat)
    requires n <= |b| && (forall i :: 0 <= i < n ==> IsDigit(b[i])) && (n < |b| ==> !IsDigit(b[n]))
    ensures DigitRun(b) == n
  {
    var r := DigitRun(b);
    if r < n {
      assert false;
    } else if r > n {
      assert false;
    }
  }

  lemma UndigitIs(n: nat)
    ensures Undigit(DecBytes(n)) == Digits(n)
  {
  }

  lemma RunOfDigits(b: seq<byte>, rest: seq<byte>)
    requires (forall i :: 0 <= i < |b| ==> IsDigit(b[i])) && (rest == [] || !IsDigit(rest[0]))
    ensures DigitRun(b + rest) == |b| && (b + rest)[..|b|] == b
  {
    hide DigitRun, IsDigit;
    DigitRunIs(b + rest, |b|);
  }

  /** A printed number followed by a non-digit, or by nothing, reads back. */
  lemma LeadingNumberIs(n: nat, rest: seq<byte>)
    requires rest == [] || !IsDigit(rest[0])
    ensures DigitRun(DecBytes(n) + rest) == |DecBytes(n)|
    ensures LeadingNumber(DecBytes(n) + rest) == n
  {
    hide DigitRun, DecBytes, Value, Undigit;
    RunOfDigits(DecBytes(n), rest);
    UndigitIs(n);
    ValueOfDigits(n);
  }

  // ---- text ----------------------------------------------------------------

  predicate IsDigitChar(c: char) { '0' <= c <= '9' }

  function DigitChar(d: digit): (c: char)
    ensures IsDigitChar(c)
  {
    (48 + d as int) as char
  }

  function CharDigit(c: char): digit
    requires IsDigitChar(c)
  {
    c as int - 48
  }

  function DecText(n: nat): (s: string)
    ensures |s| == |Digits(n)| && forall i :: 0 <= i < |s| ==> IsDigitChar(s[i])
  {
    var d := Digits(n);
    seq(|d|, i requires 0 <= i < |d| => DigitChar(d[i]))
  }

  predicate AllDigits(s: string) {
    forall i :: 0 <= i < |s| ==> IsDigitChar(s[i])
  }

  function TextDigits(s: string): (d: seq<digit>)
    requires AllDigits(s)
    ensures |d| == |s|
  {
    seq(|s|, i requires 0 <= i < |s| => CharDigit(s[i]))
  }

  lemma TextValueIs(n: nat)
    ensures AllDigits(DecText(n)) && Value(TextDigits(DecText(n))) == n
  {
    assert TextDigits(DecText(n)) == Digits(n);
    ValueOfDigits(n);
  }

  /** The digits are the characters 0 to 9, in text and in bytes. */
  lemma DigitAlphabet(n: nat)
    requires n < 10
    ensures DecText(n) == ["0123456789"[n]]
    ensures DecBytes(n) == [Ascii("0123456789")[n]]
  {
    var digits := "0123456789";
    assert digits[n] as int == 48 + n;
  }
}
