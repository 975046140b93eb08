/** UTF-8 validity and the lossy conversion of section 3 of RFC 3629's
    well-formed byte sequences, as Rust's `str` decodes them: an ill-formed
    maximal subpart becomes one U+FFFD. */
module Utf8 {
  import opened Bytes

  /** One decoding step at the head of a string: how many bytes it takes, and
      whether they are a well-formed character. */
  datatype Step = Step(len: nat, ok: bool)

  predicate Cont(b: byte) { 0x80 <= b <= 0xBF }

  /** The range the second byte must lie in, given the lead byte. */
  predicate Second(lead: byte, b: byte) {
    if lead == 0xE0 then 0xA0 <= b <= 0xBF
    else if lead == 0xED then 0x80 <= b <= 0x9F
    else if lead == 0xF0 then 0x90 <= b <= 0xBF
    else if lead == 0xF4 then 0x80 <= b <= 0x8F
    else Cont(b)
  }

  /** The length the lead byte announces; 0 when it can start no character. */
  function Width(lead: byte): nat {
    if lead < 0x80 then 1
    else if 0xC2 <= lead <= 0xDF then 2
    else if 0xE0 <= lead <= 0xEF then 3
    else if 0xF0 <= lead <= 0xF4 then 4
    else 0
  }

  function DecodeStep(s: seq<byte>): (r: Step)
    requires s != []
    ensures 1 <= r.len <= |s| && r.len <= 4
    ensures r.ok ==> r.len == Width(s[0])
    ensures !r.ok ==> r.len <= 3 && s[0] >= 0x80
    ensures forall k :: 1 <= k < r.len ==> Cont(s[k])
  {
    var w := Width(s[0]);
    if w == 0 then Step(1, false)
    else if w == 1 then Step(1, true)
    else if |s| < 2 || !Second(s[0], s[1]) then Step(1, false)
    else if w == 2 then Step(2, true)
    else if |s| < 3 || !Cont(s[2]) then Step(2, false)
    else if w == 3 then Step(3, true)
    else if |s| < 4 || !Cont(s[3]) then Step(3, false)
    else Step(4, true)
  }

  const REPLACEMENT: seq<byte> := [0xEF, 0xBF, 0xBD]

  /** `std::str::from_utf8(s).is_ok()`. */
  predicate IsUtf8(s: seq<byte>) {
    s == [] || var r := DecodeStep(s); r.ok && IsUtf8(s[r.len..])
  }

  /** `String::from_utf8_lossy(s)`, as bytes. */
  function Lossy(s: seq<byte>): seq<byte> {
    if s == [] then []
    else
      var r := DecodeStep(s);
      (if r.ok then s[..r.len] else REPLACEMENT) + Lossy(s[r.len..])
  }

  /** A step looks no further than the character it reads. */
  lemma StepLocal(a: seq<byte>, b: seq<byte>)
    requires a != [] && DecodeStep(a).ok
    ensures DecodeStep(a + b) == DecodeStep(a)
  {
    var n := |a|;
    assert forall k :: 0 <= k < n ==> (a + b)[k] == a[k];
  }

  lemma {:induction false} ConcatUtf8(a: seq<byte>, b: seq<byte>)
    requires IsUtf8(a) && IsUtf8(b)
    ensures IsUtf8(a + b)
  {
    if a == [] {
      assert a + b == b;
    } else {
      var n := DecodeStep(a).len;
      StepLocal(a, b);
      ConcatUtf8(a[n..], b);
      assert (a + b)[n..] == a[n..] + b;
    }
  }

  /** The lossy conversion changes exactly the strings that are not UTF-8. */
  lemma {:induction false} LossyIsIdentityOnUtf8(s: seq<byte>)
    ensures IsUtf8(s) <==> Lossy(s) == s
    ensures |Lossy(s)| >= |s|
  {
    if s != [] {
      var r := DecodeStep(s);
      LossyIsIdentityOnUtf8(s[r.len..]);
      assert s == s[..r.len] + s[r.len..];
      if r.ok {
        assert Lossy(s)[r.len..] == Lossy(s[r.len..]);
      } else if Lossy(s) == s {
        assert false;
      }
    }
  }

  /** The lossy conversion always yields UTF-8, and adds no NUL. */
  lemma {:induction false} LossyIsUtf8(s: seq<byte>)
    ensures IsUtf8(Lossy(s))
    ensures NulFree(s) ==> NulFree(Lossy(s))
  {
    if s != [] {
      var r := DecodeStep(s);
      LossyIsUtf8(s[r.len..]);
      if r.ok {
        StepAlone(s);
        ConcatUtf8(s[..r.len], Lossy(s[r.len..]));
      } else {
        assert DecodeStep(REPLACEMENT) == Step(3, true) && REPLACEMENT[3..] == [];
        ConcatUtf8(REPLACEMENT, Lossy(s[r.len..]));
      }
    }
  }

  lemma StepAlone(s: seq<byte>)
    requires s != [] && DecodeStep(s).ok
    ensures IsUtf8(s[..DecodeStep(s).len])
  {
    var n := DecodeStep(s).len;
    var c := s[..n];
    assert forall k :: 0 <= k < n ==> c[k] == s[k];
    assert DecodeStep(c) == DecodeStep(s) && c[n..] == [];
  }
}
