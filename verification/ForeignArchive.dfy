/** Archives of other writers, as the reader takes them: a GNU long-name table,
    and headers that refer into it or end their names with a slash. */
module ForeignArchive {
  import opened Wrappers
  import opened Bytes
  import opened Decimal
  import opened Archive
  import opened ArchiveProofs
  import opened ArchiveReader
  import opened ArchiveRoundTrip

  /** A member with a given name field. */
  function FieldMember(nf: seq<byte>, data: seq<byte>): seq<byte> {
    nf + MetaFields() + SizeField(|data|) + TRAILER + (data + Fill(10, |data| % 2))
  }

  ghost predicate Stands(b: seq<byte>, pos: nat, m: seq<byte>) {
    pos + |m| <= |b| && b[pos..pos + |m|] == m
  }

  /** The parts of a member, where the reader looks for them. */
  lemma MemberFields(b: seq<byte>, pos: nat, nf: seq<byte>, data: seq<byte>)
    requires |nf| == 16 && |data| < SIZE_LIMIT && Stands(b, pos, FieldMember(nf, data))
    ensures HeaderAt(b, pos) && b[pos..pos + 16] == nf && SizeAt(b, pos) == |data|
    ensures Slice(b, pos + 60, |data|) == Some(data) && Next(b, pos) == pos + |FieldMember(nf, data)|
  {
    hide MetaFields, SizeField, Fill, LeadingNumber;
    SizeWidth(|data|);
    var sf, rest, m := SizeField(|data|), data + Fill(10, |data| % 2), FieldMember(nf, data);
    FieldRanges(nf, MetaFields(), sf, TRAILER, rest);
    SubSlice(b, pos, pos + |m|, 0, 16);
    SubSlice(b, pos, pos + |m|, 48, 58);
    SubSlice(b, pos, pos + |m|, 58, 60);
    SubSlice(b, pos, pos + |m|, 60, 60 + |data|);
    assert m[60..60 + |data|] == rest[..|data|] == data;
  }

  lemma SizeWidth(n: nat)
    requires n < SIZE_LIMIT
    ensures |SizeField(n)| == 10 && LeadingNumber(SizeField(n)) == n && |TRAILER| == 2
  {
    hide DecBytes, LeadingNumber;
    TenDigits(n);
    PaddedNumber(n, 10 - |DecBytes(n)|);
  }

  // ---- the name fields -----------------------------------------------------

  /** A text in the sixteen columns of a name field. */
  function InField(text: seq<byte>): (nf: seq<byte>)
    requires |text| <= 16
    ensures |nf| == 16
  {
    text + Fill(32, 16 - |text|)
  }

  lemma FieldStripped(text: seq<byte>)
    requires 0 < |text| <= 16 && !Blank(text[|text| - 1])
    ensures RStrip(InField(text)) == text
  {
    RStripPadded(text, 16 - |text|);
  }

  /** The name a reference at `off` has in the table: the bytes from there to the slash. */
  ghost predicate NameInTable(table: seq<byte>, off: nat, name: seq<byte>) {
    off + |name| < |table| && table[off..off + |name|] == name && 47 !in name && table[off + |name|] == 47
  }

  lemma {:induction false} UpToFirstSlash(s: seq<byte>, name: seq<byte>)
    requires |name| < |s| && s[..|name|] == name && 47 !in name && s[|name|] == 47
    ensures UpToSlash(s) == name
  {
    if name != [] {
      assert s[0] == name[0];
      assert s[1..][..|name| - 1] == name[1..];
      UpToFirstSlash(s[1..], name[1..]);
    }
  }

  lemma NameFromTable(table: seq<byte>, off: nat, name: seq<byte>)
    requires NameInTable(table, off, name)
    ensures TableName(Some(table), off) == Some(name)
  {
    assert table[off..][..|name|] == table[off..off + |name|];
    UpToFirstSlash(table[off..], name);
  }

  /** The `//` member is the table of names. */
  lemma TableTaken(b: seq<byte>, pos: nat, data: seq<byte>, table: Option<seq<byte>>)
    requires |data| < SIZE_LIMIT && Stands(b, pos, FieldMember(InField([47, 47]), data))
    ensures HeaderAt(b, pos) && Classify(b, pos, table) == NewTable(data)
  {
    hide FieldMember, Slice, RStrip, SizeAt;
    MemberFields(b, pos, InField([47, 47]), data);
    FieldStripped([47, 47]);
    NotReservedSlash([47, 47]);
  }

  lemma NotReservedSlash(s: seq<byte>)
    requires s != [] && s[0] == 47
    ensures !Reserved(s)
  {
    assert Ascii("__.SYMDEF")[0] == 95 && Ascii("__.STRTAB")[0] == 95;
  }

  /** `/off`: a member named in the table. */
  function RefField(off: nat): seq<byte>
    requires |DecBytes(off)| <= 15
  {
    InField([47] + DecBytes(off))
  }

  lemma RefFieldRead(off: nat)
    requires |DecBytes(off)| <= 15
    ensures RStrip(RefField(off)) == [47] + DecBytes(off) && !IsInline(RefField(off))
    ensures IsTableRef([47] + DecBytes(off)) && LeadingNumber(([47] + DecBytes(off))[1..]) == off
  {
    hide LeadingNumber, DecBytes, RStrip;
    var text := [47] + DecBytes(off);
    LastIsNotBlank(off);
    FieldStripped(text);
    assert text[1..] == DecBytes(off);
    LeadingNumberIs(off, []);
    assert DecBytes(off) + [] == DecBytes(off);
    assert RefField(off)[0] == 47 && INLINE[0] == 35;
  }

  lemma LastIsNotBlank(off: nat)
    ensures |DecBytes(off)| > 0 && var t := [47] + DecBytes(off); !Blank(t[|t| - 1])
  {
  }

  /** A reference is kept under the name the table has for it, and passed over without one. */
  lemma ReferenceRead(b: seq<byte>, pos: nat, off: nat, data: seq<byte>, table: Option<seq<byte>>)
    requires |DecBytes(off)| <= 15 && |data| < SIZE_LIMIT && Stands(b, pos, FieldMember(RefField(off), data))
    ensures HeaderAt(b, pos)
    ensures table.None? || off >= |table.value| ==> Classify(b, pos, table) == Skip
    ensures forall name :: table.Some? && NameInTable(table.value, off, name) ==>
      Classify(b, pos, table) == Keep(Record(name, Some(data)))
  {
    hide FieldMember, Slice, RStrip, SizeAt, RefField, IsInline, IsTableRef, LeadingNumber, DecBytes, TableName, NameInTable;
    RefWidth(off);
    MemberFields(b, pos, RefField(off), data);
    RefFieldRead(off);
    var text := [47] + DecBytes(off);
    NotReservedSlash(text);
    FirstDigit(off);
    forall name | table.Some? && NameInTable(table.value, off, name) ensures TableName(table, off) == Some(name) {
      NameFromTable(table.value, off, name);
    }
    if table.None? || off >= |table.value| {
      NoNameBeyond(table, off);
    }
  }

  lemma NoNameBeyond(table: Option<seq<byte>>, off: nat)
    requires table.None? || off >= |table.value|
    ensures TableName(table, off) == None
  {
  }

  lemma FirstDigit(off: nat)
    ensures |[47] + DecBytes(off)| > 1 && ([47] + DecBytes(off))[1] != 47
  {
  }

  /** A short name with the slash GNU ends it with: kept without the slash. */
  lemma SlashedNameRead(b: seq<byte>, pos: nat, name: seq<byte>, data: seq<byte>, table: Option<seq<byte>>)
    requires 0 < |name| <= 15 && name[0] != 47 && name[0] != 35 && !Reserved(name + [47])
    requires |data| < SIZE_LIMIT && Stands(b, pos, FieldMember(InField(name + [47]), data))
    ensures HeaderAt(b, pos) && Classify(b, pos, table) == Keep(Record(name, Some(data)))
  {
    hide FieldMember, Slice, RStrip, SizeAt, IsInline, IsTableRef, LeadingNumber, TableName, Reserved;
    var text := name + [47];
    MemberFields(b, pos, InField(text), data);
    FieldStripped(text);
    NoOtherForm(text);
    assert text[..|text| - 1] == name && text[0] == name[0];
  }

  /** A member whose size points past the end of the file is kept with the bytes that are there. */
  lemma TruncatedRead(b: seq<byte>, pos: nat, name: seq<byte>, size: nat, table: Option<seq<byte>>)
    requires 0 < |name| <= 15 && name[0] != 47 && name[0] != 35 && !Reserved(name + [47])
    requires size < SIZE_LIMIT && pos + 60 <= |b| <= pos + 60 + size
    requires b[pos..pos + 60] == InField(name + [47]) + MetaFields() + SizeField(size) + TRAILER
    ensures HeaderAt(b, pos) && Classify(b, pos, table) == Keep(Record(name, Some(b[pos + 60..])))
  {
    hide RStrip, IsInline, IsTableRef, LeadingNumber, TableName, Reserved, MetaFields, SizeField;
    var text, head := name + [47], b[pos..pos + 60];
    SizeWidth(size);
    assert head[..16] == InField(text) && head[48..58] == SizeField(size) && head[58..60] == TRAILER;
    SubSlice(b, pos, pos + 60, 0, 16);
    SubSlice(b, pos, pos + 60, 48, 58);
    SubSlice(b, pos, pos + 60, 58, 60);
    FieldStripped(text);
    NoOtherForm(text);
    assert text[..|text| - 1] == name && text[0] == name[0];
    assert text != [47, 47];
    assert b[pos + 60..|b|] == b[pos + 60..];
  }

  lemma NoOtherForm(text: seq<byte>)
    requires 0 < |text| <= 16 && text[0] != 47 && text[0] != 35
    ensures !IsInline(InField(text)) && !IsTableRef(text)
  {
    assert InField(text)[0] == text[0] && INLINE[0] == 35;
  }

  /** A symbol table or its string table, in the name field: passed over. */
  lemma SymbolTableSkipped(b: seq<byte>, pos: nat, text: seq<byte>, data: seq<byte>, table: Option<seq<byte>>)
    requires 0 < |text| <= 16 && !Blank(text[|text| - 1])
    requires text == Ascii("/") || Ascii("__.SYMDEF") <= text || Ascii("__.STRTAB") <= text
    requires |data| < SIZE_LIMIT && Stands(b, pos, FieldMember(InField(text), data))
    ensures HeaderAt(b, pos) && Classify(b, pos, table) == Skip
  {
    hide FieldMember, Slice, RStrip, SizeAt, IsInline, IsTableRef, LeadingNumber, TableName;
    MemberFields(b, pos, InField(text), data);
    FieldStripped(text);
    assert Ascii("/") == [47];
  }

  // ---- a whole archive of another writer -----------------------------------

  /** A GNU archive of two members: the table of long names, and one object
      whose header refers to it. */
  function LongNameArchive(table: seq<byte>, off: nat, data: seq<byte>): seq<byte>
    requires |DecBytes(off)| <= 15
  {
    Ascii("!<arch>\n") + FieldMember(InField([47, 47]), table) + FieldMember(RefField(off), data)
  }

  /** The reader returns that object under its name from the table. */
  lemma LongNameArchiveRead(table: seq<byte>, off: nat, name: seq<byte>, data: seq<byte>)
    requires |DecBytes(off)| <= 15 && |table| < SIZE_LIMIT && |data| < SIZE_LIMIT && NameInTable(table, off, name)
    ensures ReadFrom(LongNameArchive(table, off, data), 8, None) == Ok([Record(name, Some(data))])
  {
    hide FieldMember, Classify, SizeAt, RefField, DecBytes, HeaderAt, Next, NameInTable;
    var b := LongNameArchive(table, off, data);
    var t, m := FieldMember(InField([47, 47]), table), FieldMember(RefField(off), data);
    Placed(Ascii("!<arch>\n"), t, m);
    RefWidth(off);
    MemberFields(b, 8, InField([47, 47]), table);
    MemberFields(b, 8 + |t|, RefField(off), data);
    TableTaken(b, 8, table, None);
    ReferenceRead(b, 8 + |t|, off, data, Some(table));
    EndOfArchive(b);
    assert ReadFrom(b, |b|, Some(table)) == Ok([]);
    assert [Record(name, Some(data))] + [] == [Record(name, Some(data))];
  }

  lemma Placed(a: seq<byte>, t: seq<byte>, m: seq<byte>)
    ensures Stands(a + t + m, |a|, t) && Stands(a + t + m, |a| + |t|, m)
  {
  }

  lemma RefWidth(off: nat)
    requires |DecBytes(off)| <= 15
    ensures |RefField(off)| == 16
  {
  }

  lemma EndOfArchive(b: seq<byte>)
    ensures !HeaderAt(b, |b|)
  {
  }
}
