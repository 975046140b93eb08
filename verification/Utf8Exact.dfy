/** The decoder against the encoding: UTF-8 is what the Unicode scalar values
    encode to, and an ill-formed sequence is taken in maximal subparts. */
module Utf8Exact {
  import opened Bytes
  import opened Utf8

  /** A Unicode scalar value: a code point that is no surrogate. */
  predicate Scalar(c: nat) {
    c < 0xD800 || 0xE000 <= c <= 0x10FFFF
  }

  /** The encoding of section 3 of RFC 3629. */
  function Encode(c: nat): (b: seq<byte>)
    requires Scalar(c)
    ensures 1 <= |b| <= 4
  {
    if c < 0x80 then [c]
    else if c < 0x800 then [0xC0 + c / 0x40, 0x80 + c % 0x40]
    else if c < 0x10000 then [0xE0 + c / 0x1000, 0x80 + c / 0x40 % 0x40, 0x80 + c % 0x40]
    else [0xF0 + c / 0x40000, 0x80 + c / 0x1000 % 0x40, 0x80 + c / 0x40 % 0x40, 0x80 + c % 0x40]
  }

  function EncodeAll(cs: seq<nat>): seq<byte>
    requires forall k :: 0 <= k < |cs| ==> Scalar(cs[k])
  {
    if cs == [] then [] else Encode(cs[0]) + EncodeAll(cs[1..])
  }

  /** The bytes lie where the decoder looks for those of one character. */
  predicate InRange(b: seq<byte>) {
    && 1 <= |b| <= 4 && |b| == Width(b[0])
    && (|b| > 1 ==> Second(b[0], b[1])) && (|b| > 2 ==> Cont(b[2])) && (|b| > 3 ==> Cont(b[3]))
  }

  lemma EncodeRanges(c: nat)
    requires Scalar(c)
    ensures InRange(Encode(c))
  {
    hide Encode, InRange;
    if c < 0x800 {
      ShortRange(c);
    } else if c < 0x10000 {
      ThreeRange(c);
    } else {
      FourRange(c);
    }
  }

  lemma ShortRange(c: nat)
    requires c < 0x800
    ensures InRange(Encode(c))
  {
  }

  lemma ThreeRange(c: nat)
    requires Scalar(c) && 0x800 <= c < 0x10000
    ensures InRange(Encode(c))
  {
    var hi, mid := c / 0x1000, c / 0x40 % 0x40;
    assert c / 0x40 == 0x40 * hi + mid;
  }

  lemma FourRange(c: nat)
    requires Scalar(c) && 0x10000 <= c
    ensures InRange(Encode(c))
  {
    var hi, top := c / 0x40000, c / 0x1000 % 0x40;
    assert c / 0x1000 == 0x40 * hi + top;
  }

  /** A well-formed character is decoded, whatever follows it. */
  lemma EncodedDecodes(c: nat, rest: seq<byte>)
    requires Scalar(c)
    ensures var b := Encode(c); DecodeStep(b + rest) == Step(|b|, true) && (b + rest)[|b|..] == rest
  {
    hide Encode, Width, Second, InRange, DecodeStep;
    EncodeRanges(c);
    var b := Encode(c);
    var s := b + rest;
    assert (b + rest)[|b|..] == rest;
    assert forall k :: 0 <= k < |b| ==> s[k] == b[k];
    DecodedBy(s, b);
  }

  lemma DecodedBy(s: seq<byte>, b: seq<byte>)
    requires InRange(b) && |b| <= |s| && forall k :: 0 <= k < |b| ==> s[k] == b[k]
    ensures DecodeStep(s) == Step(|b|, true)
  {
    hide Width, Second, Cont;
  }

  /** The scalar value a good step reads. */
  lemma Decoded(s: seq<byte>) returns (c: nat)
    requires s != [] && DecodeStep(s).ok
    ensures Scalar(c) && Encode(c) == s[..DecodeStep(s).len]
  {
    var n := DecodeStep(s).len;
    if n == 1 {
      c := s[0];
    } else if n == 2 {
      c := TwoBytes(s[0], s[1]);
    } else if n == 3 {
      c := ThreeBytes(s[0], s[1], s[2]);
    } else {
      c := FourBytes(s[0], s[1], s[2], s[3]);
    }
    assert s[..n] == Encode(c);
  }

  lemma TwoBytes(a: byte, b: byte) returns (c: nat)
    requires Width(a) == 2 && Second(a, b)
    ensures Scalar(c) && Encode(c) == [a, b]
  {
    var x: int, y: int := a - 0xC0, b - 0x80;
    c := 0x40 * x + y;
    assert c / 0x40 == x && c % 0x40 == y;
  }

  lemma ThreeBytes(a: byte, b: byte, d: byte) returns (c: nat)
    requires Width(a) == 3 && Second(a, b) && Cont(d)
    ensures Scalar(c) && Encode(c) == [a, b, d]
  {
    var x: int, y: int, z: int := a - 0xE0, b - 0x80, d - 0x80;
    c := 0x40 * (0x40 * x + y) + z;
    assert c / 0x40 == 0x40 * x + y && c % 0x40 == z;
    assert c == 0x1000 * x + (0x40 * y + z);
    assert c / 0x1000 == x;
  }

  lemma FourBytes(a: byte, b: byte, d: byte, e: byte) returns (c: nat)
    requires Width(a) == 4 && Second(a, b) && Cont(d) && Cont(e)
    ensures Scalar(c) && Encode(c) == [a, b, d, e]
  {
    var w: int, x: int, y: int, z: int := a - 0xF0, b - 0x80, d - 0x80, e - 0x80;
    c := 0x40 * (0x40 * (0x40 * w + x) + y) + z;
    assert c / 0x40 == 0x40 * (0x40 * w + x) + y && c % 0x40 == z;
    assert c == 0x1000 * (0x40 * w + x) + (0x40 * y + z);
    assert c / 0x1000 == 0x40 * w + x;
    assert c == 0x40000 * w + (0x1000 * x + 0x40 * y + z);
    assert c / 0x40000 == w;
  }

  /** The bytes encode a text of scalar values. */
  ghost predicate Encodes(s: seq<byte>, cs: seq<nat>) {
    (forall k :: 0 <= k < |cs| ==> Scalar(cs[k])) && EncodeAll(cs) == s
  }

  lemma {:induction false} DecodedAll(s: seq<byte>) returns (cs: seq<nat>)
    requires IsUtf8(s)
    ensures Encodes(s, cs)
  {
    hide DecodeStep, Encode, Scalar;
    if s == [] {
      cs := [];
    } else {
      var n := DecodeStep(s).len;
      var c := Decoded(s);
      var rest := DecodedAll(s[n..]);
      cs := [c] + rest;
      assert cs[1..] == rest && s == s[..n] + s[n..];
    }
  }

  lemma {:induction false} EncodedIsUtf8(cs: seq<nat>)
    requires forall k :: 0 <= k < |cs| ==> Scalar(cs[k])
    ensures IsUtf8(EncodeAll(cs))
  {
    hide DecodeStep, Encode, Scalar;
    if cs != [] {
      EncodedIsUtf8(cs[1..]);
      EncodedDecodes(cs[0], EncodeAll(cs[1..]));
    }
  }

  /** Valid UTF-8 is exactly what scalar values encode to. */
  lemma Utf8Exactly(s: seq<byte>)
    ensures IsUtf8(s) <==> exists cs :: Encodes(s, cs)
  {
    hide IsUtf8, Encode, EncodeAll, Scalar;
    if IsUtf8(s) {
      var cs := DecodedAll(s);
    }
    forall cs | Encodes(s, cs) ensures IsUtf8(s) {
      EncodedIsUtf8(cs);
    }
  }

  // ---- ill-formed sequences ------------------------------------------------

  /** Some character starts with these bytes. */
  ghost predicate StartsCharacter(b: seq<byte>) {
    exists c: nat :: Scalar(c) && b <= Encode(c)
  }

  /** A byte in the range of the second place can follow, and continuation bytes after it. */
  lemma Completed(a: byte, b: byte)
    requires Width(a) > 1 && Second(a, b)
    ensures StartsCharacter([a]) && StartsCharacter([a, b])
    ensures forall d: byte :: Width(a) > 2 && Cont(d) ==> StartsCharacter([a, b, d])
  {
    if Width(a) == 2 {
      var c := TwoBytes(a, b);
      assert [a] <= Encode(c) && [a, b] <= Encode(c);
    } else if Width(a) == 3 {
      var c := ThreeBytes(a, b, 0x80);
      assert [a] <= Encode(c) && [a, b] <= Encode(c);
      forall d: byte | Cont(d) ensures StartsCharacter([a, b, d]) {
        var e := ThreeBytes(a, b, d);
        assert [a, b, d] <= Encode(e);
      }
    } else {
      var c := FourBytes(a, b, 0x80, 0x80);
      assert [a] <= Encode(c) && [a, b] <= Encode(c);
      forall d: byte | Cont(d) ensures StartsCharacter([a, b, d]) {
        var e := FourBytes(a, b, d, 0x80);
        assert [a, b, d] <= Encode(e);
      }
    }
  }

  /** What every prefix of a character looks like. */
  lemma PrefixRanges(b: seq<byte>)
    requires b != [] && StartsCharacter(b)
    ensures |b| <= Width(b[0])
    ensures |b| > 1 ==> Second(b[0], b[1])
    ensures |b| > 2 ==> Cont(b[2])
    ensures |b| > 3 ==> Cont(b[3])
  {
    hide Encode, Width, Second, Cont;
    var c: nat :| Scalar(c) && b <= Encode(c);
    EncodeRanges(c);
    assert forall k :: 0 <= k < |b| ==> b[k] == Encode(c)[k];
  }

  /** What is replaced by one U+FFFD is the longest start of a character that
      stands there, or one byte when none does. */
  lemma MaximalSubpart(s: seq<byte>)
    requires s != [] && !DecodeStep(s).ok
    ensures var n := DecodeStep(s).len;
      && (n > 1 ==> StartsCharacter(s[..n]))
      && (n < |s| ==> !StartsCharacter(s[..n + 1]))
      && (n == |s| ==> Width(s[0]) != n)
  {
    hide StartsCharacter, Encode;
    var n := DecodeStep(s).len;
    if n > 1 {
      Completed(s[0], s[1]);
      if n == 2 {
        assert s[..2] == [s[0], s[1]];
      } else {
        assert s[..3] == [s[0], s[1], s[2]];
      }
    }
    if n < |s| && StartsCharacter(s[..n + 1]) {
      PrefixRanges(s[..n + 1]);
      assert false;
    }
  }
}
