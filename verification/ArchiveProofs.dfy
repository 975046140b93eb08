/** The layout of the written archive: when a header is 60 bytes, that the
    index is as long as it was announced, and that every index entry leads to
    the header of the member that exports its name. */
module ArchiveProofs {
  import opened Bytes
  import opened Decimal
  import opened Archive

  const SIZE_LIMIT: nat := 100_0000_0000

  /** The members whose header keeps its 60 columns: the size has at most ten
      digits, and a name in the name field has no multi-byte character, since
      the padding counts characters. */
  predicate HeaderFits(name: seq<byte>, data: seq<byte>, bsd: bool) {
    MemberSize(name, data, bsd) < SIZE_LIMIT && (!LongForm(name, bsd) ==> Chars(name) == |name|)
  }

  lemma TenDigits(n: nat)
    ensures |DecBytes(n)| <= 10 <==> n < SIZE_LIMIT
  {
    DigitCount(n, 10);
    PowTen();
  }

  lemma PowTen()
    ensures Pow10(10) == SIZE_LIMIT
  {
    assert Pow10(2) == 100;
    assert Pow10(4) == 100 * Pow10(2);
    assert Pow10(6) == 100 * Pow10(4);
    assert Pow10(8) == 100 * Pow10(6);
  }

  /** A header is 60 bytes exactly when the member fits its columns. */
  lemma HeaderLength(name: seq<byte>, data: seq<byte>, bsd: bool)
    ensures var size := MemberSize(name, data, bsd);
      |Header(name, NameRoom(name, bsd), size, LongForm(name, bsd))| == 60 <==> HeaderFits(name, data, bsd)
  {
    hide MetaFields, DecBytes, LeftAligned, Chars;
    var size, room := MemberSize(name, data, bsd), NameRoom(name, bsd);
    TenDigits(size);
    TenDigits(room);
    assert |TRAILER| == 2 && |Ascii("#1/")| == 3;
    assert |Header(name, room, size, LongForm(name, bsd))|
        == |NameField(name, room, LongForm(name, bsd))| + 32 + |SizeField(size)| + 2;
    assert |SizeField(size)| >= 10 && (|SizeField(size)| == 10 <==> size < SIZE_LIMIT);
    if LongForm(name, bsd) && size < SIZE_LIMIT {
      assert room < SIZE_LIMIT;
    }
  }

  lemma MemberLength(name: seq<byte>, data: seq<byte>, bsd: bool)
    requires HeaderFits(name, data, bsd)
    ensures |MemberBytes(name, data, bsd)| == Evened(MemberHeaderSize(name, bsd) + |data|)
  {
    hide Header, NameRoom;
    HeaderLength(name, data, bsd);
  }

  // ---- the index is as long as announced -----------------------------------

  lemma PadOfLow32(n: nat)
    ensures PadTo8(Low32(n)) == PadTo8(n)
  {
    var q, r := n / U32, Low32(n);
    assert n == 8 * (0x2000_0000 * q) + r;
    SameMod8(0x2000_0000 * q, r);
  }

  lemma SameMod8(k: nat, r: nat)
    ensures (8 * k + r) % 8 == r % 8
  {
  }

  lemma IndexLength(members: seq<Member>, bsd: bool)
    ensures |Index(members, bsd)| == IndexSize(members, bsd)
  {
    hide Exports, Strings, Entries, LeBytes, BeBytes, Low32;
    PadOfLow32(|Strings(Exports(members, |members|))|);
  }

  // ---- every offset is the position of a header ----------------------------

  ghost predicate AllFit(members: seq<Member>, bsd: bool) {
    && HeaderFits(IndexName(bsd), Index(members, bsd), bsd)
    && forall i :: 0 <= i < |members| ==> HeaderFits(members[i].name, members[i].data, bsd)
  }

  /** The fields of a header never come out shorter than their columns. */
  lemma FieldsAreWide(name: seq<byte>, room: nat, size: nat, longForm: bool)
    ensures |NameField(name, room, longForm)| >= 16 && |SizeField(size)| >= 10
    ensures |Header(name, room, size, longForm)| == |NameField(name, room, longForm)| + 32 + |SizeField(size)| + 2
  {
    hide MetaFields, DecBytes, Chars;
    assert |Ascii("#1/")| == 3 && |TRAILER| == 2;
  }

  /** A member occupies at least what the offset arithmetic counts, and exactly that when it fits. */
  lemma MemberIsWide(name: seq<byte>, data: seq<byte>, bsd: bool)
    ensures |MemberBytes(name, data, bsd)| >= Evened(MemberHeaderSize(name, bsd) + |data|)
    ensures |MemberBytes(name, data, bsd)| == Evened(MemberHeaderSize(name, bsd) + |data|) <==> HeaderFits(name, data, bsd)
  {
    hide Header, NameRoom, HeaderFits, NameField, SizeField, LongForm;
    HeaderLength(name, data, bsd);
    FieldsAreWide(name, NameRoom(name, bsd), MemberSize(name, data, bsd), LongForm(name, bsd));
  }

  /** The index and the members before `i` keep their 60-byte headers. */
  ghost predicate FitBefore(members: seq<Member>, bsd: bool, i: nat)
    requires i <= |members|
  {
    && HeaderFits(IndexName(bsd), Index(members, bsd), bsd)
    && forall j :: 0 <= j < i ==> HeaderFits(members[j].name, members[j].data, bsd)
  }

  /** The offset announced for member `i` is the position at which the writers
      put its header if and only if every header before it has 60 bytes;
      otherwise the header comes later than announced. */
  lemma {:induction false} OffsetIsPosition(members: seq<Member>, bsd: bool, i: nat)
    requires i <= |members|
    ensures MemberOffset(members, bsd, i) <= |Prefix(members, bsd, i)|
    ensures MemberOffset(members, bsd, i) == |Prefix(members, bsd, i)| <==> FitBefore(members, bsd, i)
  {
    hide HeaderFits, MemberBytes, Index, IndexSize, IndexName, Evened, MemberHeaderSize, FitBefore;
    FitStep(members, bsd, i);
    if i == 0 {
      IndexLength(members, bsd);
      MemberIsWide(IndexName(bsd), Index(members, bsd), bsd);
      assert |MAGIC| == 8;
    } else {
      OffsetIsPosition(members, bsd, i - 1);
      MemberIsWide(members[i - 1].name, members[i - 1].data, bsd);
    }
  }

  lemma FitStep(members: seq<Member>, bsd: bool, i: nat)
    requires i <= |members|
    ensures FitBefore(members, bsd, i) <==>
      if i == 0 then HeaderFits(IndexName(bsd), Index(members, bsd), bsd)
      else FitBefore(members, bsd, i - 1) && HeaderFits(members[i - 1].name, members[i - 1].data, bsd)
  {
    hide HeaderFits, Index;
  }

  lemma {:induction false} PrefixGrows(members: seq<Member>, bsd: bool, i: nat, j: nat)
    requires i <= j <= |members|
    ensures Prefix(members, bsd, i) <= Prefix(members, bsd, j)
    decreases j
  {
    hide MemberBytes;
    if i < j {
      PrefixGrows(members, bsd, i, j - 1);
    }
  }

  /** Entry `j` of the index, as a linker reads it. */
  function EntryOffset(index: seq<byte>, bsd: bool, j: nat): nat
    requires if bsd then 8 + 8 * j + 4 <= |index| else 4 + 4 * j + 4 <= |index|
  {
    if bsd then ReadU32(index, 8 + 8 * j) else BeValue(index[4 + 4 * j..8 + 4 * j])
  }

  /** Entry `n` of the entry table. */
  lemma {:induction false} EntryAt(members: seq<Member>, bsd: bool, e: seq<Export>, n: nat)
    requires n < |e| && forall k :: 0 <= k < |e| ==> e[k].owner < |members|
    ensures var w := if bsd then 8 else 4;
      Entries(members, bsd, e)[n * w..n * w + w] == Entry(members, bsd, |Strings(e[..n])|, e[n].owner)
  {
    hide Entry, Strings;
    var last := |e| - 1;
    var head, tail := Entries(members, bsd, e[..last]), Entry(members, bsd, |Strings(e[..last])|, e[last].owner);
    if n < last {
      EntryAt(members, bsd, e[..last], n);
      assert e[..last][..n] == e[..n];
    }
    if bsd {
      PieceAt(head, tail, 8, n, last);
    } else {
      PieceAt(head, tail, 4, n, last);
    }
  }

  /** The n-th piece of a table of equal pieces, or the last one behind them. */
  lemma PieceAt(head: seq<byte>, tail: seq<byte>, w: nat, n: nat, last: nat)
    requires (w == 4 || w == 8) && |head| == last * w && |tail| == w && n <= last
    ensures n < last ==> n * w + w <= |head| && (head + tail)[n * w..n * w + w] == head[n * w..n * w + w]
    ensures n == last ==> (head + tail)[n * w..n * w + w] == tail
  {
    if w == 4 {
      assert n < last ==> n * 4 + 4 <= last * 4;
    } else {
      assert n < last ==> n * 8 + 8 <= last * 8;
    }
  }

  /** Every exported name stands NUL-terminated in the string table, at the
      length of the names before it. */
  lemma {:induction false} StringAt(e: seq<Export>, n: nat)
    requires n < |e|
    ensures |Strings(e[..n])| + |e[n].name| < |Strings(e)|
    ensures Strings(e[..n]) + e[n].name + [0] <= Strings(e)
  {
    if n == |e| - 1 {
    } else {
      StringAt(e[..|e| - 1], n);
      assert e[..|e| - 1][..n] == e[..n];
    }
  }

  /** The archive stays within what 32-bit index fields can say. */
  ghost predicate IndexFits(members: seq<Member>, bsd: bool) {
    AllFit(members, bsd) && |ArchiveBytes(members, bsd)| < U32
  }

  lemma PrefixBelowFile(members: seq<Member>, bsd: bool, i: nat)
    requires i <= |members|
    ensures |Prefix(members, bsd, i)| <= |ArchiveBytes(members, bsd)|
    ensures |Index(members, bsd)| <= |ArchiveBytes(members, bsd)|
  {
    hide Index, Header;
    PrefixGrows(members, bsd, i, |members|);
    PrefixGrows(members, bsd, 0, |members|);
  }

  lemma AllFitBefore(members: seq<Member>, bsd: bool, i: nat)
    requires AllFit(members, bsd) && i <= |members|
    ensures FitBefore(members, bsd, i)
  {
    hide HeaderFits, Index;
  }

  /** Where the string table of the index starts. */
  function StringsStart(members: seq<Member>, bsd: bool): nat {
    4 + |Exports(members, |members|)| * (if bsd then 8 else 4) + (if bsd then 4 else 0)
  }

  /** The index holds its entry table behind the first four bytes, and its strings behind that. */
  lemma IndexParts(members: seq<Member>, bsd: bool)
    ensures var e, index, start := Exports(members, |members|), Index(members, bsd), StringsStart(members, bsd);
      var w, n := |e| * (if bsd then 8 else 4), |Strings(e)|;
      && 4 + w <= start && start + n <= |index|
      && index[4..4 + w] == Entries(members, bsd, e) && index[start..start + n] == Strings(e)
  {
    hide Exports, Entries, Strings, LeBytes, BeBytes, Low32, PadTo8, Fill;
    var e := Exports(members, |members|);
    var entries, strings := Entries(members, bsd, e), Strings(e);
    if bsd {
      var pad := PadTo8(Low32(|strings|));
      Middle(LeBytes(Low32(|e| * 8)), entries, LeBytes(Low32(Low32(|strings|) + pad)), strings, Fill(0, pad));
    } else {
      Middle(BeBytes(Low32(|e|)), entries, [], strings, []);
      assert Index(members, bsd) == BeBytes(Low32(|e|)) + entries + [] + strings + [];
    }
  }

  lemma Middle(a: seq<byte>, b: seq<byte>, c: seq<byte>, d: seq<byte>, e: seq<byte>)
    ensures (a + b + c + d + e)[|a|..|a| + |b|] == b
    ensures var k := |a| + |b| + |c|; (a + b + c + d + e)[k..k + |d|] == d
  {
  }

  /** The j-th index entry leads to the header of the member that exports the
      j-th name: the announced offset is the position at which the writer puts it. */
  lemma IndexOffsets(members: seq<Member>, bsd: bool, j: nat)
    requires IndexFits(members, bsd) && j < |Exports(members, |members|)|
    ensures var e, index := Exports(members, |members|), Index(members, bsd);
      && (if bsd then 8 + 8 * j + 4 <= |index| else 4 + 4 * j + 4 <= |index|)
      && EntryOffset(index, bsd, j) == |Prefix(members, bsd, e[j].owner)|
  {
    hide Exports, Entries, Entry, Strings, Prefix, MemberOffset, AllFit, Index, StringsStart;
    var e, index, entries := Exports(members, |members|), Index(members, bsd), Entries(members, bsd, Exports(members, |members|));
    IndexParts(members, bsd);
    EntryAt(members, bsd, e, j);
    AnnouncedPosition(members, bsd, e[j].owner, |Strings(e[..j])|);
    if bsd {
      SecondWord(index, entries, Entry(members, true, |Strings(e[..j])|, e[j].owner), j);
    } else {
      OnlyWord(index, entries, Entry(members, false, |Strings(e[..j])|, e[j].owner), j);
    }
  }

  /** What an entry of the index spells, when the archive has 32-bit positions. */
  lemma AnnouncedPosition(members: seq<Member>, bsd: bool, owner: nat, strx: nat)
    requires IndexFits(members, bsd) && owner < |members|
    ensures var entry, position := Entry(members, bsd, strx, owner), |Prefix(members, bsd, owner)|;
      if bsd then LeValue(entry[4..8]) == position else BeValue(entry) == position
  {
    hide LeBytes, BeBytes, LeValue, BeValue, Prefix, MemberOffset, FitBefore, AllFit, Strings, ArchiveBytes;
    var position := |Prefix(members, bsd, owner)|;
    OffsetIsPosition(members, bsd, owner);
    AllFitBefore(members, bsd, owner);
    PrefixBelowFile(members, bsd, owner);
    Below32(position);
    if bsd {
      LeRoundTrip(position);
      SecondHalf(LeBytes(Low32(strx)), LeBytes(position));
    } else {
      BeRoundTrip(position);
    }
  }

  lemma Below32(n: nat)
    requires n < U32
    ensures Low32(n) == n
  {
  }

  lemma SecondHalf(a: seq<byte>, b: seq<byte>)
    requires |a| == 4 && |b| == 4
    ensures (a + b)[4..8] == b
  {
  }

  /** The second word of the j-th pair of a table that stands at byte 4. */
  lemma SecondWord(index: seq<byte>, entries: seq<byte>, entry: seq<byte>, j: nat)
    requires 4 + |entries| <= |index| && index[4..4 + |entries|] == entries
    requires |entry| == 8 && j * 8 + 8 <= |entries| && entries[j * 8..j * 8 + 8] == entry
    ensures 8 + 8 * j + 4 <= |index| && ReadU32(index, 8 + 8 * j) == LeValue(entry[4..8])
  {
    hide LeValue;
    SubSlice(index, 4, 4 + |entries|, 8 * j, 8 * j + 8);
    SubSlice(index, 4 + 8 * j, 4 + 8 * j + 8, 4, 8);
  }

  lemma OnlyWord(index: seq<byte>, entries: seq<byte>, entry: seq<byte>, j: nat)
    requires 4 + |entries| <= |index| && index[4..4 + |entries|] == entries
    requires |entry| == 4 && j * 4 + 4 <= |entries| && entries[j * 4..j * 4 + 4] == entry
    ensures 4 + 4 * j + 4 <= |index| && BeValue(index[4 + 4 * j..8 + 4 * j]) == BeValue(entry)
  {
    hide BeValue;
    SubSlice(index, 4, 4 + |entries|, 4 * j, 4 * j + 4);
  }

  /** A member's header stands in the file at the position its index entries announce. */
  lemma MemberStandsAt(members: seq<Member>, bsd: bool, i: nat)
    requires i < |members|
    ensures Prefix(members, bsd, i) + MemberBytes(members[i].name, members[i].data, bsd) <= ArchiveBytes(members, bsd)
  {
    hide MemberBytes, Index;
    PrefixGrows(members, bsd, i + 1, |members|);
  }

  /** The string the j-th BSD entry points to, or the j-th GNU string, is the j-th exported name. */
  lemma IndexNames(members: seq<Member>, bsd: bool, j: nat)
    requires IndexFits(members, bsd) && j < |Exports(members, |members|)|
    ensures var e, index, start := Exports(members, |members|), Index(members, bsd), StringsStart(members, bsd);
      var strx := |Strings(e[..j])|;
      && start + strx + |e[j].name| < |index|
      && index[start + strx..start + strx + |e[j].name| + 1] == e[j].name + [0]
      && (bsd ==> 4 + 8 * j + 4 <= |index| && ReadU32(index, 4 + 8 * j) == strx)
  {
    hide Exports, Strings, Prefix, MemberOffset, AllFit, LeBytes, BeBytes, LeValue, BeValue, Entries, Index;
    var e, index, start := Exports(members, |members|), Index(members, bsd), StringsStart(members, bsd);
    var strx := |Strings(e[..j])|;
    IndexParts(members, bsd);
    PrefixBelowFile(members, bsd, 0);
    StringAt(e, j);
    NameInStrings(Strings(e), Strings(e[..j]), e[j].name);
    SubSlice(index, start, start + |Strings(e)|, strx, strx + |e[j].name| + 1);
    if bsd {
      EntryAt(members, bsd, e, j);
      LeRoundTrip(strx);
      SubSlice(index, 4, 4 + |e| * 8, 8 * j, 8 * j + 8);
      SubSlice(index, 4 + 8 * j, 4 + 8 * j + 8, 0, 4);
    }
  }

  lemma NameInStrings(strings: seq<byte>, before: seq<byte>, name: seq<byte>)
    requires before + name + [0] <= strings
    ensures strings[|before|..|before| + |name| + 1] == name + [0]
  {
    assert (before + name + [0])[|before|..] == name + [0];
  }

  /** The owners, and so the announced positions, never decrease along the index. */
  lemma {:induction false} OwnersAscend(members: seq<Member>, n: nat, j: nat, k: nat)
    requires n <= |members| && j <= k < |Exports(members, n)|
    ensures Exports(members, n)[j].owner <= Exports(members, n)[k].owner
  {
    if n > 0 && k < |Exports(members, n - 1)| {
      OwnersAscend(members, n - 1, j, k);
    }
  }

  lemma OffsetsAscend(members: seq<Member>, bsd: bool, j: nat, k: nat)
    requires IndexFits(members, bsd) && j <= k < |Exports(members, |members|)|
    ensures var index := Index(members, bsd);
      && (if bsd then 8 + 8 * k + 4 <= |index| else 4 + 4 * k + 4 <= |index|)
      && EntryOffset(index, bsd, j) <= EntryOffset(index, bsd, k)
  {
    hide Prefix, Index, IndexFits, Exports, EntryOffset;
    IndexOffsets(members, bsd, j);
    IndexOffsets(members, bsd, k);
    OwnersAscend(members, |members|, j, k);
    var e := Exports(members, |members|);
    PrefixGrows(members, bsd, e[j].owner, e[k].owner);
  }

  // ---- the form of a member ------------------------------------------------

  /** Outside Darwin a name goes inline when it is longer than the field or has
      a space, in the least multiple of four bytes; otherwise it takes none. */
  lemma GnuNameRoom(name: seq<byte>)
    ensures var room := NameRoom(name, false);
      if |name| <= 16 && 32 !in name then room == 0
      else room % 4 == 0 && |name| <= room < |name| + 4
    ensures LongForm(name, false) <==> |name| > 16 || 32 in name
  {
    var q, r := |name| / 4, |name| % 4;
    var n := |name| + (4 - r) % 4;
    assert n == 4 * (if r == 0 then q else q + 1);
  }

  /** A member ends with its content, and a newline when that leaves it odd. */
  lemma MemberEnds(name: seq<byte>, data: seq<byte>, bsd: bool)
    ensures var m, tail := MemberBytes(name, data, bsd), data + (if (NameRoom(name, bsd) + |data|) % 2 == 1 then [10] else []);
      |m| >= |tail| && m[|m| - |tail|..] == tail
  {
    hide Header, NameRoom;
    var size := MemberSize(name, data, bsd);
    assert Fill(10, size % 2) == if size % 2 == 1 then [10] else [];
    var front := Header(name, NameRoom(name, bsd), size, LongForm(name, bsd)) + InlineName(name, bsd);
    assert MemberBytes(name, data, bsd) == front + (data + Fill(10, size % 2));
  }
}
