/** The independent archive reader of the cross-archive deduper, and the two
    walks over an archive's members. */
module ArchiveReader {
  import opened Wrappers
  import opened Bytes
  import opened Decimal
  import opened Archive

  /** A member as read. Its data is absent when the size field is smaller than
      the inline name it must cover, or points past the end of the file. */
  datatype Record = Record(name: seq<byte>, data: Option<seq<byte>>)

  datatype Error = NoName(pos: nat)

  /** What one header makes the reader do. */
  datatype Action = Skip | NewTable(table: seq<byte>) | Keep(record: Record) | Fail

  /** Ruby's `byteslice(from, len)`. */
  function Slice(b: seq<byte>, from: nat, len: int): Option<seq<byte>> {
    if from > |b| || len < 0 then None
    else Some(b[from..if from + len <= |b| then from + len else |b|])
  }

  predicate Blank(c: byte) { c == 0 || c == 32 || 9 <= c <= 13 }

  function RStrip(s: seq<byte>): (r: seq<byte>)
    ensures r <= s && (r != [] ==> !Blank(r[|r| - 1]))
    ensures forall k :: |r| <= k < |s| ==> Blank(s[k])
  {
    if s != [] && Blank(s[|s| - 1]) then RStrip(s[..|s| - 1]) else s
  }

  predicate Reserved(name: seq<byte>) {
    Ascii("__.SYMDEF") <= name || Ascii("__.STRTAB") <= name
  }

  /** `split("\0").first`: the bytes before the first NUL, or nothing when there is no other byte. */
  function FirstField(s: seq<byte>): Option<seq<byte>> {
    if forall k :: 0 <= k < |s| ==> s[k] == 0 then None
    else
      var n := FindNul(s, 0);
      Some(if n < 0 then s else s[..n])
  }

  const SLASH: byte := 47

  function UpToSlash(s: seq<byte>): seq<byte> {
    if s == [] || s[0] == SLASH then [] else [s[0]] + UpToSlash(s[1..])
  }

  /** The name a `/offset` header refers to in the long-name table. */
  function TableName(table: Option<seq<byte>>, off: nat): Option<seq<byte>> {
    if table.None? || off >= |table.value| then None
    else Some(UpToSlash(table.value[off..]))
  }

  const INLINE: seq<byte> := Ascii("#1/")

  predicate IsInline(nf: seq<byte>) {
    INLINE <= nf && DigitRun(nf[3..]) > 0
  }

  predicate IsTableRef(stripped: seq<byte>) {
    |stripped| > 1 && stripped[0] == SLASH && DigitRun(stripped[1..]) == |stripped| - 1
  }

  function SizeAt(b: seq<byte>, pos: nat): nat
    requires pos + 60 <= |b|
  {
    LeadingNumber(b[pos + 48..pos + 58])
  }

  /** The branches of the reader on one header, in its order. */
  function Classify(b: seq<byte>, pos: nat, table: Option<seq<byte>>): Action
    requires pos + 60 <= |b|
  {
    var size, nf := SizeAt(b, pos), b[pos..pos + 16];
    var stripped := RStrip(nf);
    if Reserved(stripped) || stripped == [SLASH] then Skip
    else if stripped == [SLASH, SLASH] then NewTable(Slice(b, pos + 60, size).value)
    else if IsInline(nf) then
      var len := LeadingNumber(nf[3..]);
      var name := FirstField(Slice(b, pos + 60, len).value);
      if name.None? then Fail
      else if Reserved(name.value) then Skip
      else Keep(Record(name.value, Slice(b, pos + 60 + len, size - len)))
    else if IsTableRef(stripped) then
      var name := TableName(table, LeadingNumber(stripped[1..]));
      if name.None? then Skip else Keep(Record(name.value, Slice(b, pos + 60, size)))
    else
      var name := if stripped != [] && stripped[|stripped| - 1] == SLASH then stripped[..|stripped| - 1] else stripped;
      Keep(Record(name, Slice(b, pos + 60, size)))
  }

  predicate HeaderAt(b: seq<byte>, pos: nat) {
    pos + 60 <= |b| && b[pos + 58..pos + 60] == TRAILER
  }

  function Next(b: seq<byte>, pos: nat): (n: nat)
    requires HeaderAt(b, pos)
    ensures n >= pos + 60
  {
    pos + 60 + Evened(SizeAt(b, pos))
  }

  /** The reader from `pos` on, with the long-name table seen so far. */
  function ReadFrom(b: seq<byte>, pos: nat, table: Option<seq<byte>>): Result<seq<Record>, Error>
    decreases |b| - pos
  {
    if !HeaderAt(b, pos) then Ok([])
    else
      match Classify(b, pos, table)
      case Skip => ReadFrom(b, Next(b, pos), table)
      case NewTable(t) => ReadFrom(b, Next(b, pos), Some(t))
      case Fail => Err(NoName(pos))
      case Keep(r) =>
        var rest :- ReadFrom(b, Next(b, pos), table);
        Ok([r] + rest)
  }

  function Cons(front: seq<Record>, rest: Result<seq<Record>, Error>): Result<seq<Record>, Error> {
    var r :- rest;
    Ok(front + r)
  }

  /** The reader's loop over positions. */
  method ReadMembers(b: seq<byte>) returns (r: Result<seq<Record>, Error>)
    ensures r == ReadFrom(b, 8, None)
  {
    hide Classify, HeaderAt, Next;
    var members: seq<Record> := [];
    var table: Option<seq<byte>> := None;
    var pos := 8;
    ConsNil(ReadFrom(b, 8, None));
    while HeaderAt(b, pos)
      invariant ReadFrom(b, 8, None) == Cons(members, ReadFrom(b, pos, table))
      decreases |b| - pos
    {
      HeaderIsInFile(b, pos);
      match Classify(b, pos, table) {
        case Skip =>
        case NewTable(t) =>
          table := Some(t);
        case Fail =>
          return Err(NoName(pos));
        case Keep(record) =>
          ConsSnoc(members, record, ReadFrom(b, Next(b, pos), table));
          members := members + [record];
      }
      pos := Next(b, pos);
    }
    assert members + [] == members;
    return Ok(members);
  }

  lemma ConsNil(rest: Result<seq<Record>, Error>)
    ensures Cons([], rest) == rest
  {
    if rest.Ok? {
      assert [] + rest.value == rest.value;
    }
  }

  lemma HeaderIsInFile(b: seq<byte>, pos: nat)
    requires HeaderAt(b, pos)
    ensures pos + 60 <= |b|
  {
  }

  lemma ConsSnoc(front: seq<Record>, x: Record, rest: Result<seq<Record>, Error>)
    ensures Cons(front + [x], rest) == Cons(front, Cons([x], rest))
  {
    if rest.Ok? {
      assert front + [x] + rest.value == front + ([x] + rest.value);
    }
  }

  // ---- the two walks -------------------------------------------------------

  function AlignUp(n: nat, align: nat): nat
    requires align > 0
  {
    n + (align - n % align) % align
  }

  /** The next multiple of two or four. */
  lemma AlignUpIs(n: nat, align: nat)
    requires align == 2 || align == 4
    ensures AlignUp(n, align) % align == 0 && n <= AlignUp(n, align) < n + align
  {
    var q, r := n / align, n % align;
    if align == 2 {
      assert AlignUp(n, 2) == 2 * (if r == 0 then q else q + 1);
    } else {
      assert AlignUp(n, 4) == 4 * (if r == 0 then q else q + 1);
    }
  }

  /** The positions a member walk visits when it advances to multiples of `align`, the last one included. */
  function Walk(b: seq<byte>, pos: nat, align: nat): seq<nat>
    requires align > 0
    decreases |b| - pos
  {
    if !HeaderAt(b, pos) then [pos]
    else
      var next := AlignUp(pos + 60 + SizeAt(b, pos), align);
      [pos] + Walk(b, next, align)
  }
}
