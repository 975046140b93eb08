/** The `ar` archive the scoper packs: member headers, the BSD and GNU symbol
    indexes, and the methods that write them. */
module Archive {
  import opened Bytes
  import opened Decimal
  import opened Utf8

  /** A member's name, its content, and the names it exports. */
  datatype Member = Member(name: seq<byte>, data: seq<byte>, exported: seq<seq<byte>>)

  const MAGIC: seq<byte> := Ascii("!<arch>\n")
  const SPACE: byte := 32

  // ---- member headers ------------------------------------------------------

  /** `format!("{:<width$}")`: padding counts characters, not bytes. */
  function LeftAligned(text: seq<byte>, chars: nat, width: nat): (b: seq<byte>)
    ensures |b| == |text| + (if chars < width then width - chars else 0)
    ensures text <= b
  {
    text + Fill(SPACE, if chars < width then width - chars else 0)
  }

  function Chars(text: seq<byte>): (n: nat)
    ensures n <= |text|
  {
    if text == [] then 0
    else Chars(text[..|text| - 1]) + (if Cont(text[|text| - 1]) then 0 else 1)
  }

  predicate LongForm(name: seq<byte>, bsd: bool) {
    bsd || |name| > 16 || SPACE in name
  }

  /** The distance to the next number that is 4 modulo 8. */
  function ToFour(m: nat): nat { (12 - m % 8) % 8 }

  lemma ToFourIs(m: nat)
    ensures (m + ToFour(m)) % 8 == 4
    ensures forall k: nat :: k >= m && k % 8 == 4 ==> m + ToFour(m) <= k
  {
    var q, r := m / 8, m % 8;
    var t := if r <= 4 then q else q + 1;
    assert ToFour(m) == if r <= 4 then 4 - r else 12 - r;
    assert m + ToFour(m) == 8 * t + 4;
    forall k: nat | k >= m && k % 8 == 4 ensures 8 * t + 4 <= k {
      assert k == 8 * (k / 8) + 4;
    }
    FourOver(t);
  }

  lemma FourOver(t: nat)
    ensures (8 * t + 4) % 8 == 4
  {
  }

  /** The BSD inline-name length: the least n >= 12 above the name's length with n % 8 == 4. */
  function BsdNamePad(len: nat): (n: nat)
    ensures n > len && n >= 12 && n % 8 == 4
    ensures forall m :: m > len && m >= 12 && m % 8 == 4 ==> n <= m
  {
    hide ToFour;
    var m := if len + 1 > 12 then len + 1 else 12;
    ToFourIs(m);
    m + ToFour(m)
  }

  /** The bytes the inline name takes, padding included. */
  function NameRoom(name: seq<byte>, bsd: bool): (n: nat)
    ensures LongForm(name, bsd) ==> n >= |name|
  {
    if !LongForm(name, bsd) then 0
    else if bsd then BsdNamePad(|name|)
    else |name| + (4 - |name| % 4) % 4
  }

  /** The 16-column name field: the inline length on the long form, the name itself otherwise. */
  function NameField(name: seq<byte>, room: nat, longForm: bool): seq<byte> {
    if longForm then
      var digits := DecBytes(room);
      Ascii("#1/") + LeftAligned(digits, |digits|, 13)
    else LeftAligned(name, Chars(name), 16)
  }

  /** The date, owner, group and mode fields: 0, 0, 0 and octal 644. */
  function MetaFields(): (b: seq<byte>)
    ensures |b| == 32
  {
    LeftAligned(Ascii("0"), 1, 12) + LeftAligned(Ascii("0"), 1, 6) + LeftAligned(Ascii("0"), 1, 6)
      + LeftAligned(Ascii("644"), 3, 8)
  }

  function SizeField(size: nat): (b: seq<byte>)
  {
    LeftAligned(DecBytes(size), |DecBytes(size)|, 10)
  }

  const TRAILER: seq<byte> := Ascii("`\n")

  function Header(name: seq<byte>, room: nat, size: nat, longForm: bool): seq<byte> {
    NameField(name, room, longForm) + MetaFields() + SizeField(size) + TRAILER
  }

  function InlineName(name: seq<byte>, bsd: bool): (b: seq<byte>)
    ensures |b| == NameRoom(name, bsd)
  {
    if LongForm(name, bsd) then name + Fill(0, NameRoom(name, bsd) - |name|) else []
  }

  /** The size field's number: inline name and content. */
  function MemberSize(name: seq<byte>, data: seq<byte>, bsd: bool): nat {
    NameRoom(name, bsd) + |data|
  }

  function MemberBytes(name: seq<byte>, data: seq<byte>, bsd: bool): seq<byte> {
    var size := MemberSize(name, data, bsd);
    Header(name, NameRoom(name, bsd), size, LongForm(name, bsd)) + InlineName(name, bsd) + data + Fill(10, size % 2)
  }

  /** The tool's own header-size arithmetic, which the index offsets use. */
  function MemberHeaderSize(name: seq<byte>, bsd: bool): nat {
    60 + NameRoom(name, bsd)
  }

  // ---- the symbol index ----------------------------------------------------

  function IndexName(bsd: bool): seq<byte> {
    if bsd then Ascii("__.SYMDEF") else Ascii("/")
  }

  /** One exported name and the member that exports it. */
  datatype Export = Export(name: seq<byte>, owner: nat)

  function OwnedBy(names: seq<seq<byte>>, owner: nat): (e: seq<Export>)
    ensures |e| == |names| && forall k :: 0 <= k < |e| ==> e[k] == Export(names[k], owner)
  {
    seq(|names|, k requires 0 <= k < |names| => Export(names[k], owner))
  }

  /** The exported names of the first `n` members, in member order. */
  function Exports(members: seq<Member>, n: nat): (e: seq<Export>)
    requires n <= |members|
    ensures forall k :: 0 <= k < |e| ==> e[k].owner < n
  {
    if n == 0 then [] else Exports(members, n - 1) + OwnedBy(members[n - 1].exported, n - 1)
  }

  /** The NUL-terminated names, one after the other. */
  function Strings(e: seq<Export>): seq<byte> {
    if e == [] then [] else Strings(e[..|e| - 1]) + e[|e| - 1].name + [0]
  }

  function PadTo8(n: nat): (p: nat)
    ensures p < 8 && (n + p) % 8 == 0
  {
    (8 - n % 8) % 8
  }

  function IndexSize(members: seq<Member>, bsd: bool): nat {
    var e := Exports(members, |members|);
    if bsd then 4 + |e| * 8 + 4 + |Strings(e)| + PadTo8(|Strings(e)|)
    else 4 + |e| * 4 + |Strings(e)|
  }

  /** A size with the even-alignment byte. */
  function Evened(n: nat): nat {
    n + n % 2
  }

  /** Where the index says member `i` starts. */
  function MemberOffset(members: seq<Member>, bsd: bool, i: nat): nat
    requires i <= |members|
  {
    if i == 0 then 8 + Evened(MemberHeaderSize(IndexName(bsd), bsd) + IndexSize(members, bsd))
    else
      var m := members[i - 1];
      MemberOffset(members, bsd, i - 1) + Evened(MemberHeaderSize(m.name, bsd) + |m.data|)
  }

  /** One index entry: a BSD ranlib pair, or a GNU big-endian offset. */
  function Entry(members: seq<Member>, bsd: bool, strx: nat, owner: nat): (b: seq<byte>)
    requires owner < |members|
    ensures |b| == if bsd then 8 else 4
  {
    var offset := Low32(MemberOffset(members, bsd, owner));
    if bsd then LeBytes(Low32(strx)) + LeBytes(offset) else BeBytes(offset)
  }

  function Entries(members: seq<Member>, bsd: bool, e: seq<Export>): (b: seq<byte>)
    requires forall k :: 0 <= k < |e| ==> e[k].owner < |members|
    ensures |b| == |e| * (if bsd then 8 else 4)
  {
    if e == [] then []
    else Entries(members, bsd, e[..|e| - 1]) + Entry(members, bsd, |Strings(e[..|e| - 1])|, e[|e| - 1].owner)
  }

  function Index(members: seq<Member>, bsd: bool): seq<byte> {
    var e := Exports(members, |members|);
    var strings := Strings(e);
    if bsd then
      var pad := PadTo8(Low32(|strings|));
      LeBytes(Low32(|e| * 8)) + Entries(members, bsd, e) + LeBytes(Low32(Low32(|strings|) + pad))
        + strings + Fill(0, pad)
    else
      BeBytes(Low32(|e|)) + Entries(members, bsd, e) + strings
  }

  /** The archive up to the header of member `i`. */
  function Prefix(members: seq<Member>, bsd: bool, i: nat): seq<byte>
    requires i <= |members|
  {
    if i == 0 then MAGIC + MemberBytes(IndexName(bsd), Index(members, bsd), bsd)
    else Prefix(members, bsd, i - 1) + MemberBytes(members[i - 1].name, members[i - 1].data, bsd)
  }

  function ArchiveBytes(members: seq<Member>, bsd: bool): seq<byte> {
    Prefix(members, bsd, |members|)
  }

  // ---- the writers ---------------------------------------------------------

  /** The output file. */
  class Sink {
    var written: seq<byte>

    constructor ()
      ensures written == []
    {
      written := [];
    }

    method Write(b: seq<byte>)
      modifies this
      ensures written == old(written) + b
    {
      written := written + b;
    }
  }

  /** The padded inline-name length, counted up as the tool does. */
  method PadBsdName(name: seq<byte>) returns (n: nat)
    ensures n == BsdNamePad(|name|)
  {
    n := if |name| + 1 > 12 then |name| + 1 else 12;
    while n % 8 != 4
      invariant 12 <= n <= BsdNamePad(|name|) && n > |name|
      decreases BsdNamePad(|name|) - n
    {
      n := n + 1;
    }
  }

  method WriteInlineName(out: Sink, name: seq<byte>, paddedLen: nat)
    requires paddedLen >= |name|
    modifies out
    ensures out.written == old(out.written) + (name + Fill(0, paddedLen - |name|))
  {
    out.Write(name);
    out.Write(Fill(0, paddedLen - |name|));
  }

  method WriteContent(out: Sink, data: seq<byte>, size: nat)
    modifies out
    ensures out.written == old(out.written) + (data + Fill(10, size % 2))
  {
    out.Write(data);
    if size % 2 != 0 {
      out.Write([10]);
    }
    assert Fill(10, size % 2) == if size % 2 != 0 then [10] else [];
  }

  method WriteMember(out: Sink, name: seq<byte>, data: seq<byte>, bsd: bool)
    modifies out
    ensures out.written == old(out.written) + MemberBytes(name, data, bsd)
  {
    hide Header, BsdNamePad, Fill;
    ghost var before := out.written;
    var longForm := LongForm(name, bsd);
    var paddedLen := 0;
    if longForm {
      if bsd {
        paddedLen := PadBsdName(name);
      } else {
        paddedLen := |name| + (4 - |name| % 4) % 4;
      }
    }
    var size := |data| + paddedLen;
    var header := Header(name, paddedLen, size, longForm);
    out.Write(header);
    if longForm {
      WriteInlineName(out, name, paddedLen);
    }
    assert out.written == before + header + InlineName(name, bsd);
    WriteContent(out, data, size);
    Regroup(before, header, InlineName(name, bsd), data, Fill(10, size % 2));
  }

  lemma Regroup(a: seq<byte>, b: seq<byte>, c: seq<byte>, d: seq<byte>, e: seq<byte>)
    ensures a + b + c + (d + e) == a + (b + c + d + e)
  {
  }

  /** The offset pass of the index builder. */
  method MemberOffsets(members: seq<Member>, bsd: bool) returns (offsets: seq<nat>)
    ensures |offsets| == |members|
    ensures forall i :: 0 <= i < |members| ==> offsets[i] == MemberOffset(members, bsd, i)
  {
    hide IndexSize, IndexName, MemberHeaderSize, Evened, MemberOffset;
    offsets := [];
    OffsetStarts(members, bsd);
    var offset := 8 + Evened(MemberHeaderSize(IndexName(bsd), bsd) + IndexSize(members, bsd));
    for i := 0 to |members|
      invariant |offsets| == i && offset == MemberOffset(members, bsd, i)
      invariant forall j :: 0 <= j < i ==> offsets[j] == MemberOffset(members, bsd, j)
    {
      OffsetStep(members, bsd, i);
      offsets := offsets + [offset];
      offset := offset + Evened(MemberHeaderSize(members[i].name, bsd) + |members[i].data|);
    }
  }

  lemma OffsetStarts(members: seq<Member>, bsd: bool)
    ensures MemberOffset(members, bsd, 0) == 8 + Evened(MemberHeaderSize(IndexName(bsd), bsd) + IndexSize(members, bsd))
  {
    hide IndexSize, MemberHeaderSize, Evened;
  }

  lemma OffsetStep(members: seq<Member>, bsd: bool, i: nat)
    requires i < |members|
    ensures MemberOffset(members, bsd, i + 1)
      == MemberOffset(members, bsd, i) + Evened(MemberHeaderSize(members[i].name, bsd) + |members[i].data|)
  {
    hide IndexSize, MemberHeaderSize, Evened;
  }

  lemma OwnedSnoc(names: seq<seq<byte>>, k: nat, owner: nat, before: seq<Export>)
    requires k < |names|
    ensures before + OwnedBy(names[..k + 1], owner) == before + OwnedBy(names[..k], owner) + [Export(names[k], owner)]
  {
  }

  lemma EntriesSnoc(members: seq<Member>, bsd: bool, e: seq<Export>, x: Export)
    requires (forall k :: 0 <= k < |e| ==> e[k].owner < |members|) && x.owner < |members|
    ensures Entries(members, bsd, e + [x]) == Entries(members, bsd, e) + Entry(members, bsd, |Strings(e)|, x.owner)
  {
    assert (e + [x])[..|e|] == e;
  }

  lemma StringsSnoc(e: seq<Export>, x: Export)
    ensures Strings(e + [x]) == Strings(e) + x.name + [0]
  {
    assert (e + [x])[..|e|] == e;
  }

  /** The entries of one member's names, appended to those before it. */
  method MemberEntries(members: seq<Member>, bsd: bool, i: nat, offset: nat, sofar: seq<byte>, strxSoFar: nat,
                       ghost before: seq<Export>)
      returns (out: seq<byte>, strx: nat)
    requires i < |members| && offset == MemberOffset(members, bsd, i)
    requires forall k :: 0 <= k < |before| ==> before[k].owner < |members|
    requires sofar == Entries(members, bsd, before) && strxSoFar == Low32(|Strings(before)|)
    ensures var done := before + OwnedBy(members[i].exported, i);
      out == Entries(members, bsd, done) && strx == Low32(|Strings(done)|)
  {
    hide MemberOffset, LeBytes, BeBytes, Entries, Strings, OwnedBy, Entry;
    out, strx := sofar, strxSoFar;
    var names := members[i].exported;
    NoneOwned(names, i, before);
    for k := 0 to |names|
      invariant var done := before + OwnedBy(names[..k], i);
        out == Entries(members, bsd, done) && strx == Low32(|Strings(done)|)
    {
      EntryStep(members, bsd, i, k, before);
      var field := if bsd then LeBytes(strx) + LeBytes(Low32(offset)) else BeBytes(Low32(offset));
      out := out + field;
      strx := Low32(strx + Low32(|names[k]|) + 1);
    }
    assert names[..|names|] == names;
  }

  lemma NoneOwned(names: seq<seq<byte>>, owner: nat, before: seq<Export>)
    ensures before + OwnedBy(names[..0], owner) == before
  {
  }

  /** One name more of member `i`: its entry, and the length of the string table after it. */
  lemma EntryStep(members: seq<Member>, bsd: bool, i: nat, k: nat, before: seq<Export>)
    requires i < |members| && k < |members[i].exported|
    requires forall j :: 0 <= j < |before| ==> before[j].owner < |members|
    ensures var names := members[i].exported;
      var done, next := before + OwnedBy(names[..k], i), before + OwnedBy(names[..k + 1], i);
      var strx, offset := Low32(|Strings(done)|), Low32(MemberOffset(members, bsd, i));
      && (forall j :: 0 <= j < |next| ==> next[j].owner < |members|)
      && Entries(members, bsd, next) ==
        Entries(members, bsd, done) + (if bsd then LeBytes(strx) + LeBytes(offset) else BeBytes(offset))
      && Low32(|Strings(next)|) == Low32(strx + Low32(|names[k]|) + 1)
  {
    hide MemberOffset, LeBytes, BeBytes, Entries, Strings;
    var names := members[i].exported;
    var done, x := before + OwnedBy(names[..k], i), Export(names[k], i);
    OwnedSnoc(names, k, i, before);
    EntriesSnoc(members, bsd, done, x);
    StringsSnoc(done, x);
    Low32Sum(|Strings(done)|, |names[k]|);
  }

  lemma Low32Sum(a: nat, b: nat)
    ensures Low32(Low32(a) + Low32(b) + 1) == Low32(a + b + 1)
  {
    var p, q := a / U32, b / U32;
    assert a + b + 1 == U32 * (p + q) + (Low32(a) + Low32(b) + 1);
    SameLow32(p + q, Low32(a) + Low32(b) + 1);
  }

  lemma SameLow32(k: nat, r: nat)
    ensures Low32(U32 * k + r) == Low32(r)
  {
  }

  /** The entry pass: the fixed-width pairs or offsets of every exported name,
      and the 32-bit length of the string table they index. */
  method BuildEntries(members: seq<Member>, bsd: bool) returns (out: seq<byte>, strx: nat)
    ensures var e := Exports(members, |members|);
      out == Entries(members, bsd, e) && strx == Low32(|Strings(e)|)
  {
    hide MemberOffset, Entry, OwnedBy;
    var offsets := MemberOffsets(members, bsd);
    out, strx := [], 0;
    for i := 0 to |members|
      invariant out == Entries(members, bsd, Exports(members, i)) && strx == Low32(|Strings(Exports(members, i))|)
    {
      out, strx := MemberEntries(members, bsd, i, offsets[i], out, strx, Exports(members, i));
    }
  }

  method BuildStrings(members: seq<Member>) returns (out: seq<byte>)
    ensures out == Strings(Exports(members, |members|))
  {
    out := [];
    for i := 0 to |members|
      invariant out == Strings(Exports(members, i))
    {
      out := MemberStrings(members[i].exported, out, Exports(members, i), i);
    }
  }

  method MemberStrings(names: seq<seq<byte>>, sofar: seq<byte>, ghost before: seq<Export>, ghost owner: nat)
      returns (out: seq<byte>)
    requires sofar == Strings(before)
    ensures out == Strings(before + OwnedBy(names, owner))
  {
    hide Strings;
    out := sofar;
    assert before + OwnedBy(names[..0], owner) == before;
    for k := 0 to |names|
      invariant out == Strings(before + OwnedBy(names[..k], owner))
    {
      OwnedSnoc(names, k, owner, before);
      StringsSnoc(before + OwnedBy(names[..k], owner), Export(names[k], owner));
      out := out + names[k] + [0];
    }
    assert names[..|names|] == names;
  }

  /** The symbol index, as the tool builds it. */
  method BuildIndex(members: seq<Member>, bsd: bool) returns (out: seq<byte>)
    ensures out == Index(members, bsd)
  {
    hide LeBytes, BeBytes, Entries, Strings, Exports;
    ghost var e := Exports(members, |members|);
    var count := CountExports(members);
    var entries, strx := BuildEntries(members, bsd);
    var strings := BuildStrings(members);
    if bsd {
      var pad := PadTo8(strx);
      out := LeBytes(Low32(count * 8)) + entries + LeBytes(Low32(strx + pad)) + strings + Fill(0, pad);
    } else {
      out := BeBytes(Low32(count)) + entries + strings;
    }
  }

  method CountExports(members: seq<Member>) returns (count: nat)
    ensures count == |Exports(members, |members|)|
  {
    count := 0;
    for i := 0 to |members|
      invariant count == |Exports(members, i)|
    {
      count := count + |members[i].exported|;
    }
  }

  /** The whole archive file: magic, index member, members. */
  method WriteArchive(members: seq<Member>, bsd: bool) returns (out: Sink)
    ensures fresh(out) && out.written == ArchiveBytes(members, bsd)
  {
    hide MemberBytes, Index;
    var index := BuildIndex(members, bsd);
    out := new Sink();
    out.Write(MAGIC);
    WriteMember(out, IndexName(bsd), index, bsd);
    assert out.written == Prefix(members, bsd, 0);
    for i := 0 to |members|
      invariant fresh(out) && out.written == Prefix(members, bsd, i)
    {
      WriteMember(out, members[i].name, members[i].data, bsd);
    }
  }
}
