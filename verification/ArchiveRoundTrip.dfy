/** Reading back what the writer wrote: which members come back as they were,
    that the whole archive does, and that both member walks agree on it. */
module ArchiveRoundTrip {
  import opened Wrappers
  import opened Bytes
  import opened Decimal
  import opened Archive
  import opened ArchiveProofs
  import opened ArchiveReader

  /** The names the reader hands back unchanged, by the form they are written in. */
  predicate Readable(name: seq<byte>, bsd: bool) {
    if LongForm(name, bsd) then
      name != [] && (forall k :: 0 <= k < |name| ==> name[k] != 0) && !Reserved(name)
    else
      && (name != [] ==> !Blank(name[|name| - 1]) && name[|name| - 1] != SLASH)
      && !Reserved(name) && !IsInline(name) && !IsTableRef(name)
  }

  /** `name` and `data` stand in `b` as a member written at `pos`. */
  ghost predicate WrittenAt(b: seq<byte>, pos: nat, name: seq<byte>, data: seq<byte>, bsd: bool) {
    var m := MemberBytes(name, data, bsd);
    pos + |m| <= |b| && b[pos..pos + |m|] == m
  }

  // ---- the fields of a written header --------------------------------------

  lemma FieldRanges(nf: seq<byte>, meta: seq<byte>, sf: seq<byte>, tr: seq<byte>, rest: seq<byte>)
    requires |nf| == 16 && |meta| == 32 && |sf| == 10 && |tr| == 2
    ensures var m := nf + meta + sf + tr + rest;
      m[..16] == nf && m[48..58] == sf && m[58..60] == tr && m[60..] == rest
  {
  }

  lemma BodyRanges(inline: seq<byte>, data: seq<byte>, pad: seq<byte>)
    ensures var r := inline + data + pad;
      r[..|inline|] == inline && r[|inline|..|inline| + |data|] == data
  {
  }

  /** The parts of a written member, at their places in the file. */
  lemma WrittenParts(b: seq<byte>, pos: nat, name: seq<byte>, data: seq<byte>, bsd: bool)
    requires HeaderFits(name, data, bsd) && WrittenAt(b, pos, name, data, bsd)
    ensures var room := NameRoom(name, bsd);
      && pos + 60 + room + |data| <= |b|
      && b[pos..pos + 16] == NameField(name, room, LongForm(name, bsd))
      && b[pos + 48..pos + 58] == SizeField(room + |data|)
      && b[pos + 58..pos + 60] == TRAILER
      && b[pos + 60..pos + 60 + room] == InlineName(name, bsd)
      && b[pos + 60 + room..pos + 60 + room + |data|] == data
  {
    hide NameField, MetaFields, SizeField, InlineName, NameRoom, LongForm, Fill, HeaderFits;
    var room, size, m := NameRoom(name, bsd), MemberSize(name, data, bsd), MemberBytes(name, data, bsd);
    FieldWidths(name, data, bsd);
    var nf, sf := NameField(name, room, LongForm(name, bsd)), SizeField(size);
    var inline, pad := InlineName(name, bsd), Fill(10, size % 2);
    var rest := inline + data + pad;
    assert m == nf + MetaFields() + sf + TRAILER + rest;
    FieldRanges(nf, MetaFields(), sf, TRAILER, rest);
    BodyRanges(inline, data, pad);
    PlacesInFile(b, pos, m, room, |data|);
  }

  lemma PlacesInFile(b: seq<byte>, pos: nat, m: seq<byte>, room: nat, n: nat)
    requires pos + |m| <= |b| && b[pos..pos + |m|] == m && 60 + room + n <= |m|
    ensures b[pos..pos + 16] == m[..16] && b[pos + 48..pos + 58] == m[48..58] && b[pos + 58..pos + 60] == m[58..60]
    ensures b[pos + 60..pos + 60 + room] == m[60..][..room]
    ensures b[pos + 60 + room..pos + 60 + room + n] == m[60..][room..room + n]
  {
    SubSlice(b, pos, pos + |m|, 0, 16);
    SubSlice(b, pos, pos + |m|, 48, 58);
    SubSlice(b, pos, pos + |m|, 58, 60);
    SubSlice(b, pos, pos + |m|, 60, 60 + room);
    SubSlice(b, pos, pos + |m|, 60 + room, 60 + room + n);
    assert m[60..][..room] == m[60..60 + room];
    assert m[60..][room..room + n] == m[60 + room..60 + room + n];
  }

  lemma FieldWidths(name: seq<byte>, data: seq<byte>, bsd: bool)
    requires HeaderFits(name, data, bsd)
    ensures |NameField(name, NameRoom(name, bsd), LongForm(name, bsd))| == 16
    ensures |SizeField(MemberSize(name, data, bsd))| == 10 && |TRAILER| == 2
    ensures |InlineName(name, bsd)| == NameRoom(name, bsd)
  {
    hide MetaFields, DecBytes, LeftAligned, Chars;
    HeaderLength(name, data, bsd);
    TenDigits(MemberSize(name, data, bsd));
  }

  /** The reader finds the header and its size field. */
  lemma WrittenHeader(b: seq<byte>, pos: nat, name: seq<byte>, data: seq<byte>, bsd: bool)
    requires HeaderFits(name, data, bsd) && WrittenAt(b, pos, name, data, bsd)
    ensures HeaderAt(b, pos) && SizeAt(b, pos) == MemberSize(name, data, bsd)
    ensures Next(b, pos) == pos + |MemberBytes(name, data, bsd)|
  {
    hide WrittenAt, HeaderFits, NameField, InlineName, NameRoom, MetaFields, LeadingNumber, DecBytes, Header, LongForm;
    WrittenParts(b, pos, name, data, bsd);
    var size := MemberSize(name, data, bsd);
    MemberLength(name, data, bsd);
    PaddedNumber(size, if |DecBytes(size)| < 10 then 10 - |DecBytes(size)| else 0);
    EvenedSum(name, bsd, |data|);
  }

  lemma EvenedSum(name: seq<byte>, bsd: bool, n: nat)
    ensures Evened(MemberHeaderSize(name, bsd) + n) == 60 + Evened(NameRoom(name, bsd) + n)
  {
    hide NameRoom;
  }

  lemma PaddedNumber(n: nat, spaces: nat)
    ensures DigitRun(DecBytes(n) + Fill(SPACE, spaces)) > 0
    ensures LeadingNumber(DecBytes(n) + Fill(SPACE, spaces)) == n
  {
    LeadingNumberIs(n, Fill(SPACE, spaces));
  }

  // ---- the inline form -----------------------------------------------------

  lemma InlineFieldIs(b: seq<byte>, pos: nat, name: seq<byte>, data: seq<byte>, bsd: bool)
    requires HeaderFits(name, data, bsd) && WrittenAt(b, pos, name, data, bsd) && LongForm(name, bsd)
    ensures pos + 60 <= |b|
    ensures var nf := b[pos..pos + 16];
      && IsInline(nf) && LeadingNumber(nf[3..]) == NameRoom(name, bsd)
      && RStrip(nf) != [] && RStrip(nf)[0] == 35
  {
    hide WrittenAt, HeaderFits, InlineName, NameRoom, SizeField, LeadingNumber, DecBytes, LongForm, DigitRun;
    WrittenParts(b, pos, name, data, bsd);
    var room := NameRoom(name, bsd);
    var nf, digits := b[pos..pos + 16], DecBytes(room);
    var spaces := Fill(SPACE, if |digits| < 13 then 13 - |digits| else 0);
    assert nf == INLINE + (digits + spaces);
    assert nf[3..] == digits + spaces;
    PaddedNumber(room, |spaces|);
    assert spaces == Fill(SPACE, |spaces|);
    assert nf[0] == 35 && !Blank(nf[0]);
  }

  lemma FirstFieldIs(name: seq<byte>, zeros: nat)
    requires forall k :: 0 <= k < |name| ==> name[k] != 0
    ensures FirstField(name + Fill(0, zeros)) == if name == [] then None else Some(name)
  {
    var s := name + Fill(0, zeros);
    if name != [] {
      assert s[0] != 0;
      assert s[..|name|] == name;
      if zeros > 0 {
        FindNulUnique(s, 0, |name|);
      } else {
        assert s == name;
        if FindNul(s, 0) >= 0 {
          assert false;
        }
      }
    }
  }

  lemma FirstFieldStops(name: seq<byte>, zeros: nat, k: nat)
    requires k < |name| && name[k] == 0
    ensures FirstField(name + Fill(0, zeros)) != Some(name)
  {
    var s := name + Fill(0, zeros);
    assert s[k] == 0;
    if FirstField(s) == Some(name) {
      assert false;
    }
  }

  /** What the reader does with a member written in the inline form. */
  lemma InlineClassified(b: seq<byte>, pos: nat, name: seq<byte>, data: seq<byte>, bsd: bool, table: Option<seq<byte>>)
    requires HeaderFits(name, data, bsd) && WrittenAt(b, pos, name, data, bsd) && LongForm(name, bsd)
    ensures pos + 60 <= |b|
    ensures var first := FirstField(InlineName(name, bsd));
      Classify(b, pos, table) == if first.None? then Fail else if Reserved(first.value) then Skip
                                 else Keep(Record(first.value, Some(data)))
  {
    hide WrittenAt, HeaderFits, NameField, SizeField, LeadingNumber, IsInline, RStrip, Reserved, LongForm, FirstField, NameRoom,
      InlineName, SizeAt, IsTableRef;
    WrittenParts(b, pos, name, data, bsd);
    WrittenHeader(b, pos, name, data, bsd);
    InlineFieldIs(b, pos, name, data, bsd);
    var room := NameRoom(name, bsd);
    NotReservedHash(RStrip(b[pos..pos + 16]));
    assert Slice(b, pos + 60, room) == Some(InlineName(name, bsd));
    assert Slice(b, pos + 60 + room, |data|) == Some(data);
  }

  /** A member written in the inline form is kept as it was exactly when its name is readable. */
  lemma InlineRoundTrip(b: seq<byte>, pos: nat, name: seq<byte>, data: seq<byte>, bsd: bool, table: Option<seq<byte>>)
    requires HeaderFits(name, data, bsd) && WrittenAt(b, pos, name, data, bsd) && LongForm(name, bsd)
    ensures pos + 60 <= |b|
    ensures Classify(b, pos, table) == Keep(Record(name, Some(data))) <==> Readable(name, bsd)
    ensures NulFree(name) && Reserved(name) ==> Classify(b, pos, table) == Skip
  {
    hide WrittenAt, HeaderFits, Reserved, LongForm, FirstField, NameRoom, Classify;
    InlineClassified(b, pos, name, data, bsd, table);
    var zeros := NameRoom(name, bsd) - |name|;
    assert InlineName(name, bsd) == name + Fill(0, zeros);
    if forall k :: 0 <= k < |name| ==> name[k] != 0 {
      FirstFieldIs(name, zeros);
      if Reserved(name) {
        ReservedIsNotEmpty(name);
      }
    } else {
      var k :| 0 <= k < |name| && name[k] == 0;
      FirstFieldStops(name, zeros, k);
    }
  }

  lemma NotReservedHash(s: seq<byte>)
    requires s != [] && s[0] == 35
    ensures !Reserved(s) && s != [SLASH] && s != [SLASH, SLASH]
  {
    assert Ascii("__.SYMDEF")[0] == 95 && Ascii("__.STRTAB")[0] == 95;
  }

  lemma ReservedIsNotEmpty(name: seq<byte>)
    requires Reserved(name)
    ensures name != []
  {
  }

  // ---- the name-field form -------------------------------------------------

  lemma {:induction false} RStripPadded(name: seq<byte>, spaces: nat)
    ensures RStrip(name + Fill(SPACE, spaces)) == RStrip(name)
  {
    var s := name + Fill(SPACE, spaces);
    if spaces == 0 {
      assert s == name;
    } else {
      assert s[..|s| - 1] == name + Fill(SPACE, spaces - 1);
      RStripPadded(name, spaces - 1);
    }
  }

  lemma InlinePadded(name: seq<byte>, spaces: nat)
    requires |name| + spaces == 16
    ensures IsInline(name + Fill(SPACE, spaces)) <==> IsInline(name)
  {
    var s := name + Fill(SPACE, spaces);
    assert |INLINE| == 3 && INLINE[0] == 35 && INLINE[1] == 49 && INLINE[2] == 47;
    if |name| >= 3 {
      assert s[..3] == name[..3];
      if |name| > 3 {
        assert s[3..][0] == name[3];
      } else {
        assert s[3..][0] == SPACE;
      }
    } else {
      assert s[2] == SPACE;
    }
  }

  lemma PlainFieldIs(b: seq<byte>, pos: nat, name: seq<byte>, data: seq<byte>)
    requires HeaderFits(name, data, false) && WrittenAt(b, pos, name, data, false) && !LongForm(name, false)
    ensures pos + 60 <= |b| && |name| <= 16
    ensures b[pos..pos + 16] == name + Fill(SPACE, 16 - |name|)
    ensures Slice(b, pos + 60, |data|) == Some(data) && MemberSize(name, data, false) == |data|
  {
    hide WrittenAt, SizeField;
    WrittenParts(b, pos, name, data, false);
  }

  /** A member written in the name field is kept as it was exactly when its
      name is readable, whatever long-name table came before it. */
  lemma PlainRoundTrip(b: seq<byte>, pos: nat, name: seq<byte>, data: seq<byte>, table: Option<seq<byte>>)
    requires HeaderFits(name, data, false) && WrittenAt(b, pos, name, data, false) && !LongForm(name, false)
    ensures pos + 60 <= |b|
    ensures Classify(b, pos, table) == Keep(Record(name, Some(data))) <==> Readable(name, false)
    ensures name == [SLASH] ==> Classify(b, pos, table) == Skip
  {
    hide WrittenAt, HeaderFits, LeadingNumber, Reserved, RStrip, IsInline, IsTableRef, SizeAt, Slice, LongForm, MemberSize, FirstField, TableName;
    PlainFieldIs(b, pos, name, data);
    WrittenHeader(b, pos, name, data, false);
    var nf := b[pos..pos + 16];
    var stripped := RStrip(nf);
    RStripPadded(name, 16 - |name|);
    InlinePadded(name, 16 - |name|);
    StripsWhole(name);
    if IsInline(nf) {
      InlineIsShorter(b, pos, |data|, LeadingNumber(nf[3..]));
      InlineIsHash(nf);
    } else if IsTableRef(stripped) {
      TableRefEnds(stripped);
      TableNameIsAnother(table, LeadingNumber(stripped[1..]), name);
    }
  }

  /** A name from the table has no slash, so it is not the reference itself. */
  lemma TableNameIsAnother(table: Option<seq<byte>>, off: nat, name: seq<byte>)
    requires name != [] && name[0] == SLASH
    ensures TableName(table, off) != Some(name)
  {
  }

  lemma StripsWhole(name: seq<byte>)
    ensures RStrip(name) == name <==> (name == [] || !Blank(name[|name| - 1]))
    ensures |RStrip(name)| <= |name|
    ensures name == [SLASH] ==> RStrip(name) == name
  {
  }

  lemma TableRefEnds(s: seq<byte>)
    requires IsTableRef(s)
    ensures |s| > 1 && s[0] == SLASH && s[|s| - 1] != SLASH && !Blank(s[|s| - 1]) && s != [SLASH]
  {
    assert IsDigit(s[1..][|s| - 2]);
  }

  lemma InlineIsHash(nf: seq<byte>)
    requires IsInline(nf)
    ensures nf[0] == 35
  {
    assert INLINE[0] == 35;
  }

  /** An inline name takes at least one byte off the content. */
  lemma InlineIsShorter(b: seq<byte>, pos: nat, size: nat, len: nat)
    requires pos + 60 <= |b|
    ensures len == 0 ==> FirstField(Slice(b, pos + 60, len).value).None?
    ensures var d := Slice(b, pos + 60 + len, size - len); len > 0 && d.Some? ==> |d.value| < size
  {
  }

  // ---- the whole archive ---------------------------------------------------

  ghost predicate AllReadable(members: seq<Member>, bsd: bool) {
    forall i :: 0 <= i < |members| ==> Readable(members[i].name, bsd)
  }

  function Records(members: seq<Member>): seq<Record> {
    seq(|members|, i requires 0 <= i < |members| => Record(members[i].name, Some(members[i].data)))
  }

  lemma MemberRoundTrip(b: seq<byte>, pos: nat, name: seq<byte>, data: seq<byte>, bsd: bool, table: Option<seq<byte>>)
    requires HeaderFits(name, data, bsd) && WrittenAt(b, pos, name, data, bsd)
    ensures pos + 60 <= |b|
    ensures Classify(b, pos, table) == Keep(Record(name, Some(data))) <==> Readable(name, bsd)
  {
    hide Classify, WrittenAt, Readable, HeaderFits;
    if LongForm(name, bsd) {
      InlineRoundTrip(b, pos, name, data, bsd, table);
    } else {
      PlainRoundTrip(b, pos, name, data, table);
    }
  }

  lemma IndexIsSkipped(b: seq<byte>, pos: nat, data: seq<byte>, bsd: bool)
    requires HeaderFits(IndexName(bsd), data, bsd) && WrittenAt(b, pos, IndexName(bsd), data, bsd)
    ensures pos + 60 <= |b| && Classify(b, pos, None) == Skip
  {
    hide Classify, WrittenAt, Readable, HeaderFits;
    if bsd {
      assert NulFree(IndexName(true)) && Reserved(IndexName(true));
      InlineRoundTrip(b, pos, IndexName(bsd), data, bsd, None);
    } else {
      assert IndexName(false) == [SLASH] && SLASH != SPACE;
      PlainRoundTrip(b, pos, IndexName(bsd), data, None);
    }
  }

  lemma MemberWrittenAt(members: seq<Member>, bsd: bool, i: nat)
    requires i < |members|
    ensures WrittenAt(ArchiveBytes(members, bsd), |Prefix(members, bsd, i)|, members[i].name, members[i].data, bsd)
  {
    hide MemberBytes, Prefix;
    MemberStandsAt(members, bsd, i);
    PieceOfPrefix(ArchiveBytes(members, bsd), Prefix(members, bsd, i), MemberBytes(members[i].name, members[i].data, bsd));
  }

  lemma IndexWrittenAt(members: seq<Member>, bsd: bool)
    ensures WrittenAt(ArchiveBytes(members, bsd), 8, IndexName(bsd), Index(members, bsd), bsd)
  {
    hide MemberBytes, Index;
    PrefixGrows(members, bsd, 0, |members|);
    assert |MAGIC| == 8;
    PieceOfPrefix(ArchiveBytes(members, bsd), MAGIC, MemberBytes(IndexName(bsd), Index(members, bsd), bsd));
  }

  lemma PieceOfPrefix(b: seq<byte>, head: seq<byte>, m: seq<byte>)
    requires head + m <= b
    ensures |head| + |m| <= |b| && b[|head|..|head| + |m|] == m
  {
    assert (head + m)[|head|..] == m;
  }

  /** One header of the loop: at most one record, and the expected ones come
      out exactly when this header gives its own and the rest gives theirs. */
  lemma StepIsExact(b: seq<byte>, pos: nat, table: Option<seq<byte>>, own: Record, rest: seq<Record>, restOk: bool)
    requires HeaderAt(b, pos)
    requires forall t :: var r := ReadFrom(b, Next(b, pos), t); (r.Ok? ==> |r.value| <= |rest|) && (r == Ok(rest) <==> restOk)
    ensures var r := ReadFrom(b, pos, table);
      (r.Ok? ==> |r.value| <= 1 + |rest|)
      && (r == Ok([own] + rest) <==> restOk && Classify(b, pos, table) == Keep(own))
  {
    hide Classify, HeaderAt, Next;
    var r := ReadFrom(b, pos, table);
    HeaderIsInFile(b, pos);
    if Classify(b, pos, table).Keep? && r.Ok? {
      assert ([own] + rest)[1..] == rest && r.value[1..] == ReadFrom(b, Next(b, pos), table).value;
    }
  }

  /** In a header that is longer than 60 bytes, no trailer is where the reader looks for it. */
  lemma WideHeaderHides(name: seq<byte>, room: nat, size: nat, longForm: bool)
    requires |Header(name, room, size, longForm)| > 60 && (!longForm ==> |name| <= 16)
    ensures Header(name, room, size, longForm)[58] != 96
  {
    hide DecBytes, Chars, MetaFields, NameField, SizeField;
    FieldsAreWide(name, room, size, longForm);
    NameFieldBytes(name, room, longForm);
    MetaBytes();
    SizeFieldBytes(size);
    var nf, mf, sf := NameField(name, room, longForm), MetaFields(), SizeField(size);
    var h := Header(name, room, size, longForm);
    assert h == nf + mf + sf + TRAILER;
    if 58 < |nf| {
      assert h[58] == nf[58];
    } else if 58 < |nf| + 32 {
      assert h[58] == mf[58 - |nf|];
    } else {
      assert h[58] == sf[58 - |nf| - 32];
    }
  }

  lemma NameFieldBytes(name: seq<byte>, room: nat, longForm: bool)
    requires !longForm ==> |name| <= 16
    ensures forall k :: 16 <= k < |NameField(name, room, longForm)| ==> NameField(name, room, longForm)[k] != 96
  {
    hide Chars;
    assert |Ascii("#1/")| == 3;
  }

  lemma SizeFieldBytes(size: nat)
    ensures forall k :: 0 <= k < |SizeField(size)| ==> SizeField(size)[k] != 96
  {
  }

  lemma MetaBytes()
    ensures forall k :: 0 <= k < |MetaFields()| ==> MetaFields()[k] != 96
  {
    var zero, mode := Ascii("0"), Ascii("644");
    assert zero[0] == 48 && mode[0] == 54 && mode[1] == 52 && mode[2] == 52;
  }

  /** So the reader stops at a member that does not fit. */
  lemma StopsAtWide(b: seq<byte>, pos: nat, name: seq<byte>, data: seq<byte>, bsd: bool)
    requires WrittenAt(b, pos, name, data, bsd) && !HeaderFits(name, data, bsd)
    ensures !HeaderAt(b, pos)
  {
    hide Header, HeaderFits, NameField, SizeField, NameRoom, MemberBytes;
    var size, room := MemberSize(name, data, bsd), NameRoom(name, bsd);
    HeaderLength(name, data, bsd);
    FieldsAreWide(name, room, size, LongForm(name, bsd));
    WideHeaderHides(name, room, size, LongForm(name, bsd));
    HeaderIsFront(name, data, bsd);
    var m := MemberBytes(name, data, bsd);
    assert b[pos + 58] == b[pos..pos + |m|][58] == m[58];
    TrailerStarts(b, pos);
  }

  lemma HeaderIsFront(name: seq<byte>, data: seq<byte>, bsd: bool)
    ensures Header(name, NameRoom(name, bsd), MemberSize(name, data, bsd), LongForm(name, bsd)) <= MemberBytes(name, data, bsd)
  {
    hide Header, NameRoom;
  }

  lemma TrailerStarts(b: seq<byte>, pos: nat)
    ensures HeaderAt(b, pos) ==> b[pos + 58] == 96
  {
    if HeaderAt(b, pos) {
      assert TRAILER[0] == 96 && b[pos + 58..pos + 60][0] == b[pos + 58];
    }
  }

  /** A member that the reader finds and hands back as it was. */
  predicate Survives(m: Member, bsd: bool) {
    HeaderFits(m.name, m.data, bsd) && Readable(m.name, bsd)
  }

  /** From the header of member `i` on, the reader returns the remaining
      members in order exactly when all of them survive. */
  lemma {:induction false} ReadsRest(members: seq<Member>, bsd: bool, i: nat, table: Option<seq<byte>>)
    requires i <= |members|
    ensures var r := ReadFrom(ArchiveBytes(members, bsd), |Prefix(members, bsd, i)|, table);
      (r.Ok? ==> |r.value| <= |members| - i)
      && (r == Ok(Records(members)[i..]) <==> forall k :: i <= k < |members| ==> Survives(members[k], bsd))
    decreases |members| - i
  {
    hide Classify, WrittenAt, Readable, HeaderFits, MemberBytes, Index, HeaderAt, Next, ReadFrom;
    var b, pos := ArchiveBytes(members, bsd), |Prefix(members, bsd, i)|;
    if i == |members| {
      EndsThere(b, table);
      assert Records(members)[i..] == [];
    } else {
      var m, rest := members[i], Records(members)[i + 1..];
      MemberWrittenAt(members, bsd, i);
      assert Records(members)[i..] == [Record(m.name, Some(m.data))] + rest;
      if HeaderFits(m.name, m.data, bsd) {
        var restOk := forall k :: i + 1 <= k < |members| ==> Survives(members[k], bsd);
        WrittenHeader(b, pos, m.name, m.data, bsd);
        MemberRoundTrip(b, pos, m.name, m.data, bsd, table);
        forall t ensures var r := ReadFrom(b, Next(b, pos), t); (r.Ok? ==> |r.value| <= |rest|) && (r == Ok(rest) <==> restOk) {
          ReadsRest(members, bsd, i + 1, t);
        }
        StepIsExact(b, pos, table, Record(m.name, Some(m.data)), rest, restOk);
      } else {
        StopsAtWide(b, pos, m.name, m.data, bsd);
        NothingRead(b, pos, table);
      }
    }
  }

  lemma NothingRead(b: seq<byte>, pos: nat, table: Option<seq<byte>>)
    requires !HeaderAt(b, pos)
    ensures ReadFrom(b, pos, table) == Ok([])
  {
  }

  lemma EndsThere(b: seq<byte>, table: Option<seq<byte>>)
    ensures ReadFrom(b, |b|, table) == Ok([])
  {
    NoHeaderAtEnd(b);
  }

  lemma NoHeaderAtEnd(b: seq<byte>)
    ensures !HeaderAt(b, |b|)
  {
  }

  /** Round trip: the reader applied to a written archive returns exactly the
      names and contents of its members, in order, in either form, if and only
      if every header, the index's included, has 60 bytes and every member's
      name is readable. */
  lemma ArchiveRoundTrips(members: seq<Member>, bsd: bool)
    ensures ReadFrom(ArchiveBytes(members, bsd), 8, None) == Ok(Records(members))
      <==> AllFit(members, bsd) && AllReadable(members, bsd)
  {
    hide Classify, WrittenAt, HeaderFits, MemberBytes, Index, HeaderAt, Next, Readable, ArchiveBytes;
    var b, index := ArchiveBytes(members, bsd), Index(members, bsd);
    IndexWrittenAt(members, bsd);
    if HeaderFits(IndexName(bsd), index, bsd) {
      WrittenHeader(b, 8, IndexName(bsd), index, bsd);
      IndexIsSkipped(b, 8, index, bsd);
      ReadsRest(members, bsd, 0, None);
      IndexThenMembers(members, bsd);
      assert Records(members)[0..] == Records(members);
    } else {
      StopsAtWide(b, 8, IndexName(bsd), index, bsd);
      NothingRead(b, 8, None);
      if members == [] {
        EmptyIndexFits(bsd);
        assert false;
      }
    }
  }

  lemma IndexThenMembers(members: seq<Member>, bsd: bool)
    ensures |Prefix(members, bsd, 0)| == 8 + |MemberBytes(IndexName(bsd), Index(members, bsd), bsd)|
  {
    hide MemberBytes, Index;
    assert |MAGIC| == 8;
  }

  lemma EmptyIndexFits(bsd: bool)
    ensures HeaderFits(IndexName(bsd), Index([], bsd), bsd)
  {
    hide Index, Chars, NameRoom;
    IndexLength([], bsd);
    IndexRoom(bsd);
  }

  lemma IndexRoom(bsd: bool)
    ensures NameRoom(IndexName(bsd), bsd) <= 12
    ensures !LongForm(IndexName(bsd), bsd) ==> Chars(IndexName(bsd)) == |IndexName(bsd)|
  {
    if !bsd {
      assert IndexName(false) == [SLASH] && [SLASH][..0] == [];
    }
  }

  // ---- walk agreement ------------------------------------------------------

  /** Every content is padded to four bytes. */
  ghost predicate AllPadded(members: seq<Member>) {
    forall i :: 0 <= i < |members| ==> |members[i].data| % 4 == 0
  }

  /** The positions of the headers from member `i` on, and the end of the file. */
  function Stops(members: seq<Member>, bsd: bool, i: nat): seq<nat>
    requires i <= |members|
    decreases |members| - i
  {
    [|Prefix(members, bsd, i)|] + if i == |members| then [] else Stops(members, bsd, i + 1)
  }

  /** A padded BSD member occupies a multiple of four bytes. */
  lemma PaddedMember(name: seq<byte>, data: seq<byte>)
    requires HeaderFits(name, data, true) && |data| % 4 == 0
    ensures MemberSize(name, data, true) % 4 == 0
    ensures |MemberBytes(name, data, true)| == 60 + MemberSize(name, data, true)
  {
    hide HeaderFits, MemberBytes, BsdNamePad;
    MemberLength(name, data, true);
    FourSum(BsdNamePad(|name|), |data|);
  }

  lemma FourSum(a: nat, b: nat)
    requires a % 8 == 4 && b % 4 == 0
    ensures (a + b) % 4 == 0 && Evened(a + b) == a + b && Evened(60 + a + b) == 60 + a + b
  {
    hide Evened;
    var k, m := a / 8, b / 4;
    assert a + b == 4 * (2 * k + 1 + m);
    FourTimes(2 * k + 1 + m);
    FourTimes(15 + 2 * k + 1 + m);
  }

  lemma FourTimes(n: nat)
    ensures 4 * n % 4 == 0 && Evened(4 * n) == 4 * n
  {
    var h := 2 * n;
    assert 4 * n == 2 * h;
    assert 2 * h % 2 == 0;
  }

  lemma IndexIsPadded(members: seq<Member>)
    ensures |Index(members, true)| % 4 == 0
  {
    hide Exports, Strings, Index;
    IndexLength(members, true);
    EightIsFour(IndexSize(members, true));
  }

  lemma EightIsFour(n: nat)
    requires n % 8 == 0
    ensures n % 4 == 0
  {
    var k := n / 8;
    assert n == 4 * (2 * k);
  }

  lemma AlignedAdvance(pos: nat, size: nat, align: nat)
    requires pos % 4 == 0 && size % 4 == 0 && (align == 2 || align == 4)
    ensures AlignUp(pos + 60 + size, align) == pos + 60 + size
  {
    hide AlignUp;
    var q := pos / 4 + 15 + size / 4;
    assert pos + 60 + size == 4 * q;
    FourIsAligned(q, align);
  }

  lemma FourIsAligned(q: nat, align: nat)
    requires align == 2 || align == 4
    ensures AlignUp(4 * q, align) == 4 * q
  {
    FourTimes(q);
    if align == 2 {
      var h := 2 * q;
      assert 4 * q == 2 * h;
      assert 2 * h % 2 == 0;
    }
  }

  /** From a member's header, either walk advances to the next one. */
  lemma WalkMember(members: seq<Member>, i: nat, align: nat)
    requires AllFit(members, true) && AllPadded(members) && i < |members| && (align == 2 || align == 4)
    requires |Prefix(members, true, i)| % 4 == 0
    ensures var b, pos, next := ArchiveBytes(members, true), |Prefix(members, true, i)|, |Prefix(members, true, i + 1)|;
      HeaderAt(b, pos) && AlignUp(pos + 60 + SizeAt(b, pos), align) == next && next % 4 == 0
  {
    hide WrittenAt, HeaderFits, MemberBytes, MemberSize, Index, HeaderAt, SizeAt, AlignUp, Next, ArchiveBytes;
    var b, pos := ArchiveBytes(members, true), |Prefix(members, true, i)|;
    var m := members[i];
    MemberWrittenAt(members, true, i);
    WrittenHeader(b, pos, m.name, m.data, true);
    PaddedMember(m.name, m.data);
    AlignedAdvance(pos, MemberSize(m.name, m.data, true), align);
  }

  lemma {:induction false} WalkFrom(members: seq<Member>, i: nat, align: nat)
    requires AllFit(members, true) && AllPadded(members) && i <= |members| && (align == 2 || align == 4)
    requires |Prefix(members, true, i)| % 4 == 0
    ensures Walk(ArchiveBytes(members, true), |Prefix(members, true, i)|, align) == Stops(members, true, i)
    decreases |members| - i
  {
    hide Prefix, HeaderAt, SizeAt, AlignUp, AllFit, AllPadded;
    if i == |members| {
      NoHeaderAtEnd(ArchiveBytes(members, true));
    } else {
      WalkMember(members, i, align);
      WalkFrom(members, i + 1, align);
    }
  }

  /** In a BSD archive with padded contents, the 2-byte walk of `ar` and the
      4-byte walk of the linker visit the same headers, those of the index and
      of every member, and both end exactly at the end of the file. */
  lemma WalksAgree(members: seq<Member>)
    requires AllFit(members, true) && AllPadded(members)
    ensures var b := ArchiveBytes(members, true);
      Walk(b, 8, 2) == Walk(b, 8, 4) == [8] + Stops(members, true, 0)
  {
    WalkFromIndex(members, 2);
    WalkFromIndex(members, 4);
  }

  /** From the header of the index, either walk advances to the first member. */
  lemma WalkIndex(members: seq<Member>, align: nat)
    requires AllFit(members, true) && (align == 2 || align == 4)
    ensures var b, next := ArchiveBytes(members, true), |Prefix(members, true, 0)|;
      HeaderAt(b, 8) && AlignUp(8 + 60 + SizeAt(b, 8), align) == next && next % 4 == 0
  {
    hide WrittenAt, HeaderFits, MemberBytes, MemberSize, Index, HeaderAt, SizeAt, AlignUp, Next, IndexName, ArchiveBytes, Prefix,
      AllFit;
    var b, index := ArchiveBytes(members, true), Index(members, true);
    IndexWrittenAt(members, true);
    IndexFitsIts(members);
    WrittenHeader(b, 8, IndexName(true), index, true);
    IndexIsPadded(members);
    PaddedMember(IndexName(true), index);
    AlignedAdvance(8, MemberSize(IndexName(true), index, true), align);
    IndexThenMembers(members, true);
    FourFold(index);
  }

  lemma IndexFitsIts(members: seq<Member>)
    requires AllFit(members, true)
    ensures HeaderFits(IndexName(true), Index(members, true), true)
  {
  }

  lemma FourFold(index: seq<byte>)
    requires MemberSize(IndexName(true), index, true) % 4 == 0
    ensures (8 + 60 + MemberSize(IndexName(true), index, true)) % 4 == 0
  {
    hide MemberSize;
  }

  lemma WalkFromIndex(members: seq<Member>, align: nat)
    requires AllFit(members, true) && AllPadded(members) && (align == 2 || align == 4)
    ensures Walk(ArchiveBytes(members, true), 8, align) == [8] + Stops(members, true, 0)
  {
    hide HeaderAt, SizeAt, AlignUp, Stops, AllPadded, AllFit, ArchiveBytes, Prefix;
    WalkIndex(members, align);
    WalkFrom(members, 0, align);
  }

  lemma {:induction false} StopAt(members: seq<Member>, bsd: bool, i: nat, k: nat)
    requires i <= k <= |members|
    ensures |Stops(members, bsd, i)| == |members| - i + 1 && Stops(members, bsd, i)[k - i] == |Prefix(members, bsd, k)|
    decreases |members| - i
  {
    hide Prefix;
    if i < |members| {
      var next := if k > i then k else i + 1;
      StopAt(members, bsd, i + 1, next);
      var rest := Stops(members, bsd, i + 1);
      assert rest[next - (i + 1)] == |Prefix(members, bsd, next)|;
    }
  }

  /** The stops are one for each member, where the writer puts it, and the end of the file. */
  lemma StopsEnd(members: seq<Member>, bsd: bool, i: nat)
    requires i <= |members|
    ensures |Stops(members, bsd, i)| == |members| - i + 1
    ensures forall k :: i <= k <= |members| ==> Stops(members, bsd, i)[k - i] == |Prefix(members, bsd, k)|
    ensures Stops(members, bsd, i)[|members| - i] == |ArchiveBytes(members, bsd)|
  {
    hide Prefix, Stops;
    StopAt(members, bsd, i, |members|);
    forall k | i <= k <= |members| ensures Stops(members, bsd, i)[k - i] == |Prefix(members, bsd, k)| {
      StopAt(members, bsd, i, k);
    }
  }
}
