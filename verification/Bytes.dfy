/** Bytes, little- and big-endian 32-bit fields, and in-place patching of a field. */
module Bytes {

  type byte = x: int | 0 <= x < 256

  const U32: int := 0x1_0000_0000

  /** Rust's `as u32` on a larger unsigned value: the low 32 bits. */
  function Low32(n: nat): (r: nat)
    ensures r < U32
  {
    n % U32
  }

  /** The bytes of an ASCII literal. */
  function Ascii(s: string): (b: seq<byte>)
    requires forall i :: 0 <= i < |s| ==> s[i] as int < 128
    ensures |b| == |s|
  {
    seq(|s|, i requires 0 <= i < |s| => s[i] as int)
  }

  function Fill(v: byte, n: nat): (b: seq<byte>)
    ensures |b| == n && forall i :: 0 <= i < n ==> b[i] == v
  {
    seq(n, i => v)
  }

  function LeBytes(v: nat): (b: seq<byte>)
    requires v < U32
    ensures |b| == 4
  {
    [v % 256, v / 256 % 256, v / 256 / 256 % 256, v / 256 / 256 / 256]
  }

  function LeValue(b: seq<byte>): (v: nat)
    requires |b| == 4
    ensures v < U32
  {
    var b0: int, b1: int, b2: int, b3: int := b[0], b[1], b[2], b[3];
    b0 + 0x100 * (b1 + 0x100 * (b2 + 0x100 * b3))
  }

  function BeBytes(v: nat): (b: seq<byte>)
    requires v < U32
    ensures |b| == 4
  {
    var b := LeBytes(v); [b[3], b[2], b[1], b[0]]
  }

  function BeValue(b: seq<byte>): (v: nat)
    requires |b| == 4
  {
    LeValue([b[3], b[2], b[1], b[0]])
  }

  /** Little-endian puts the low byte first, big-endian the high one. */
  lemma ByteOrder(a: byte, b: byte, c: byte, d: byte)
    ensures var w: int, x: int, y: int, z: int := a, b, c, d;
      && LeValue([a, b, c, d]) == w + 0x100 * x + 0x1_0000 * y + 0x100_0000 * z
      && BeValue([a, b, c, d]) == 0x100_0000 * w + 0x1_0000 * x + 0x100 * y + z
  {
  }

  lemma LeRoundTrip(v: nat)
    requires v < U32
    ensures LeValue(LeBytes(v)) == v
  {
  }

  lemma BeRoundTrip(v: nat)
    requires v < U32
    ensures BeValue(BeBytes(v)) == v
  {
    LeRoundTrip(v);
    assert BeBytes(v) == [LeBytes(v)[3], LeBytes(v)[2], LeBytes(v)[1], LeBytes(v)[0]];
    var b := BeBytes(v);
    assert [b[3], b[2], b[1], b[0]] == LeBytes(v);
  }

  function ReadU32(b: seq<byte>, at: nat): (v: nat)
    requires at + 4 <= |b|
    ensures v < U32
  {
    LeValue(b[at..at + 4])
  }

  function PutU32(b: seq<byte>, at: nat, v: nat): (r: seq<byte>)
    requires at + 4 <= |b| && v < U32
    ensures |r| == |b|
    ensures forall k :: 0 <= k < |b| && !(at <= k < at + 4) ==> r[k] == b[k]
    ensures r[at..at + 4] == LeBytes(v)
  {
    b[..at] + LeBytes(v) + b[at + 4..]
  }

  /** A slice of a slice. */
  lemma SubSlice(b: seq<byte>, from: nat, to: nat, i: nat, j: nat)
    requires from <= to <= |b| && i <= j <= to - from
    ensures b[from..to][i..j] == b[from + i..from + j]
  {
    var l, r := b[from..to][i..j], b[from + i..from + j];
    assert |l| == |r|;
    forall k | 0 <= k < |l| ensures l[k] == r[k] {
    }
  }

  /** The distance from `from` to the next NUL, if there is one. */
  function FindNul(b: seq<byte>, from: nat): (r: int)
    requires from <= |b|
    ensures r >= 0 ==> from + r < |b| && b[from + r] == 0
    ensures forall k :: from <= k < (if r >= 0 then from + r else |b|) ==> b[k] != 0
    decreases |b| - from
  {
    if from == |b| then -1
    else if b[from] == 0 then 0
    else
      var r := FindNul(b, from + 1);
      if r < 0 then r else r + 1
  }

  /** The first NUL is the only position with no NUL before it. */
  lemma FindNulUnique(b: seq<byte>, from: nat, n: nat)
    requires from + n < |b| && b[from + n] == 0
    requires forall k :: from <= k < from + n ==> b[k] != 0
    ensures FindNul(b, from) == n
  {
    var r := FindNul(b, from);
    if r < 0 || r > n {
      assert false;
    } else if r < n {
      assert false;
    }
  }

  ghost predicate NulFree(s: seq<byte>) {
    forall k :: 0 <= k < |s| ==> s[k] != 0
  }
}
