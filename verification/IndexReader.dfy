/** A linker's view of the symbol index: both forms read from the bytes of the
    index alone, in the layout of the BSD `ranlib` and of the GNU table. */
module IndexReader {
  import opened Wrappers
  import opened Bytes
  import opened Decimal
  import opened Archive
  import opened ArchiveProofs

  /** A name of the index, and the position in the file it leads to. */
  datatype Listed = Listed(name: seq<byte>, position: nat)

  function NameAt(b: seq<byte>, at: nat): (r: Option<seq<byte>>)
    ensures r.Some? ==> NulFree(r.value)
  {
    if at > |b| || FindNul(b, at) < 0 then None else Some(b[at..at + FindNul(b, at)])
  }

  /** All of the items, if every one of them is there. */
  function Together(items: seq<Option<Listed>>): (r: Option<seq<Listed>>)
    ensures r.Some? ==> |r.value| == |items| && forall k :: 0 <= k < |items| ==> items[k] == Some(r.value[k])
  {
    if items == [] then Some([])
    else
      var init, last := Together(items[..|items| - 1]), items[|items| - 1];
      if init.None? || last.None? then None else Some(init.value + [last.value])
  }

  lemma {:induction false} TogetherIs(items: seq<Option<Listed>>, l: seq<Listed>)
    requires |items| == |l| && forall k :: 0 <= k < |items| ==> items[k] == Some(l[k])
    ensures Together(items) == Some(l)
  {
    if items != [] {
      TogetherIs(items[..|items| - 1], l[..|l| - 1]);
      assert l == l[..|l| - 1] + [l[|l| - 1]];
    }
  }

  /** Pair `j`: an offset into the strings, which start at `strings`, and a position. */
  function BsdListed(b: seq<byte>, strings: nat, j: nat): (r: Option<Listed>)
    requires 4 + 8 * j + 8 <= |b|
    ensures r.Some? ==> NulFree(r.value.name)
  {
    var name := NameAt(b, strings + ReadU32(b, 4 + 8 * j));
    if name.None? then None else Some(Listed(name.value, ReadU32(b, 8 + 8 * j)))
  }

  /** The bytes of all pairs, the pairs, the bytes of the strings, the strings, and nothing else. */
  function ReadBsd(b: seq<byte>): (r: Option<seq<Listed>>)
    ensures r.Some? ==> forall k :: 0 <= k < |r.value| ==> NulFree(r.value[k].name)
  {
    if |b| < 4 then None
    else
      var w := ReadU32(b, 0);
      if w % 8 != 0 || 4 + w + 4 > |b| || 4 + w + 4 + ReadU32(b, 4 + w) != |b| then None
      else Together(seq(w / 8, j requires 0 <= j < w / 8 => BsdListed(b, 8 + w, j)))
  }

  /** Where the j-th of the strings that start at `at` starts. */
  function StringStart(b: seq<byte>, at: nat, j: nat): Option<nat> {
    if j == 0 then Some(at)
    else
      var before := StringStart(b, at, j - 1);
      if before.None? || before.value > |b| || FindNul(b, before.value) < 0 then None
      else Some(before.value + FindNul(b, before.value) + 1)
  }

  function GnuListed(b: seq<byte>, strings: nat, j: nat): (r: Option<Listed>)
    requires 4 + 4 * j + 4 <= |b|
    ensures r.Some? ==> NulFree(r.value.name)
  {
    var start := StringStart(b, strings, j);
    if start.None? || NameAt(b, start.value).None? then None
    else Some(Listed(NameAt(b, start.value).value, BeValue(b[4 + 4 * j..8 + 4 * j])))
  }

  /** A big-endian count, as many positions, as many strings, and nothing else. */
  function ReadGnu(b: seq<byte>): (r: Option<seq<Listed>>)
    ensures r.Some? ==> forall k :: 0 <= k < |r.value| ==> NulFree(r.value[k].name)
  {
    if |b| < 4 then None
    else
      var c := BeValue(b[..4]);
      if 4 + 4 * c > |b| || StringStart(b, 4 + 4 * c, c) != Some(|b|) then None
      else Together(seq(c, j requires 0 <= j < c => GnuListed(b, 4 + 4 * c, j)))
  }

  function ReadIndex(b: seq<byte>, bsd: bool): (r: Option<seq<Listed>>)
    ensures r.Some? ==> forall k :: 0 <= k < |r.value| ==> NulFree(r.value[k].name)
  {
    if bsd then ReadBsd(b) else ReadGnu(b)
  }

  /** Every exported name in order, with the position of its member's header. */
  function Listing(members: seq<Member>, bsd: bool): (l: seq<Listed>)
    ensures |l| == |Exports(members, |members|)|
  {
    var e := Exports(members, |members|);
    seq(|e|, j requires 0 <= j < |e| => Listed(e[j].name, |Prefix(members, bsd, e[j].owner)|))
  }

  ghost predicate NamesEnd(members: seq<Member>) {
    var e := Exports(members, |members|);
    forall j :: 0 <= j < |e| ==> NulFree(e[j].name)
  }

  /** Below 4 GiB no word of the index wraps. */
  lemma BsdShape(members: seq<Member>)
    requires IndexFits(members, true)
    ensures var e, index := Exports(members, |members|), Index(members, true);
      var strings, pad := Strings(e), PadTo8(|Strings(e)|);
      && 8 * |e| < U32 && |strings| + pad < U32
      && |index| == 4 + 8 * |e| + 4 + |strings| + pad
      && index == LeBytes(8 * |e|) + Entries(members, true, e) + LeBytes(|strings| + pad) + (strings + Fill(0, pad))
  {
    hide Exports, Entries, Strings, LeBytes, PadTo8, Fill, AllFit, ArchiveBytes;
    var e := Exports(members, |members|);
    var strings, index := Strings(e), Index(members, true);
    var pad := PadTo8(|strings|);
    PrefixBelowFile(members, true, 0);
    IndexLength(members, true);
    Below32(|strings|);
    Below32(8 * |e|);
    Below32(|strings| + pad);
    assert index == LeBytes(8 * |e|) + Entries(members, true, e) + LeBytes(|strings| + pad) + (strings + Fill(0, pad));
  }

  /** The words that frame the index. */
  lemma BsdWords(members: seq<Member>)
    requires IndexFits(members, true)
    ensures var index, w := Index(members, true), 8 * |Exports(members, |members|)|;
      && 4 + w + 4 <= |index| && ReadU32(index, 0) == w
      && 4 + w + 4 + ReadU32(index, 4 + w) == |index|
  {
    hide Exports, Entries, Strings, LeBytes, LeValue, PadTo8, Fill, Index, IndexFits;
    var e := Exports(members, |members|);
    var strings, pad := Strings(e), PadTo8(|Strings(e)|);
    BsdShape(members);
    Frame(LeBytes(8 * |e|), Entries(members, true, e), LeBytes(|strings| + pad), strings + Fill(0, pad));
    LeRoundTrip(8 * |e|);
    LeRoundTrip(|strings| + pad);
  }

  lemma Frame(a: seq<byte>, b: seq<byte>, c: seq<byte>, d: seq<byte>)
    ensures (a + b + c + d)[0..|a|] == a && (a + b + c + d)[|a| + |b|..|a| + |b| + |c|] == c
  {
  }

  lemma GnuWord(members: seq<Member>)
    requires IndexFits(members, false)
    ensures var index, c := Index(members, false), |Exports(members, |members|)|;
      && 4 + 4 * c <= |index| && BeValue(index[..4]) == c
      && |index| == 4 + 4 * c + |Strings(Exports(members, |members|))|
  {
    hide Exports, Entries, Strings, BeBytes, BeValue, AllFit, ArchiveBytes;
    var e := Exports(members, |members|);
    PrefixBelowFile(members, false, 0);
    IndexLength(members, false);
    Below32(|e|);
    BeRoundTrip(|e|);
    Frame(BeBytes(|e|), Entries(members, false, e), [], Strings(e));
    assert Index(members, false) == BeBytes(|e|) + Entries(members, false, e) + [] + Strings(e);
  }

  /** A NUL-terminated name is found where it stands. */
  lemma NameFound(b: seq<byte>, at: nat, name: seq<byte>)
    requires NulFree(name) && at + |name| + 1 <= |b| && b[at..at + |name| + 1] == name + [0]
    ensures FindNul(b, at) == |name| && NameAt(b, at) == Some(name)
  {
    forall k | at <= k < at + |name| ensures b[k] != 0 {
      assert b[k] == b[at..at + |name| + 1][k - at] == name[k - at];
    }
    assert b[at + |name|] == b[at..at + |name| + 1][|name|];
    FindNulUnique(b, at, |name|);
    assert b[at..at + |name|] == b[at..at + |name| + 1][..|name|];
  }

  lemma BsdEntryBack(members: seq<Member>, j: nat)
    requires IndexFits(members, true) && NamesEnd(members) && j < |Exports(members, |members|)|
    ensures var index, w := Index(members, true), 8 * |Exports(members, |members|)|;
      4 + 8 * j + 8 <= |index| && BsdListed(index, 8 + w, j) == Some(Listing(members, true)[j])
  {
    hide Exports, Strings, Index, IndexFits, Prefix, ReadU32, NameAt, NamePlaced, NamesEnd;
    IndexNames(members, true, j);
    IndexOffsets(members, true, j);
    NamesArePlaced(members, true, j);
    PlacedIsFound(Index(members, true), StringsStart(members, true), Exports(members, |members|), j);
  }

  /** Name `k` stands NUL-terminated behind the names before it. */
  ghost predicate NamePlaced(b: seq<byte>, at: nat, e: seq<Export>, k: nat)
    requires k < |e|
  {
    var start, name := at + |Strings(e[..k])|, e[k].name;
    NulFree(name) && start + |name| < |b| && b[start..start + |name| + 1] == name + [0]
  }

  lemma {:induction false} StringsFollow(b: seq<byte>, at: nat, e: seq<Export>, j: nat)
    requires j <= |e| && forall k :: 0 <= k < j ==> NamePlaced(b, at, e, k)
    ensures StringStart(b, at, j) == Some(at + |Strings(e[..j])|)
  {
    hide FindNul, NameAt, NamePlaced, Strings;
    if j == 0 {
      assert e[..0] == [];
      NoStrings();
    } else {
      StringsFollow(b, at, e, j - 1);
      assert NamePlaced(b, at, e, j - 1);
      PlacedIsFound(b, at, e, j - 1);
      assert e[..j] == e[..j - 1] + [e[j - 1]];
      StringsSnoc(e[..j - 1], e[j - 1]);
    }
  }

  lemma PlacedIsFound(b: seq<byte>, at: nat, e: seq<Export>, k: nat)
    requires k < |e| && NamePlaced(b, at, e, k)
    ensures var start := at + |Strings(e[..k])|;
      start < |b| && FindNul(b, start) == |e[k].name| && NameAt(b, start) == Some(e[k].name)
  {
    hide FindNul, NameAt, Strings;
    NameFound(b, at + |Strings(e[..k])|, e[k].name);
  }

  lemma NamesArePlaced(members: seq<Member>, bsd: bool, k: nat)
    requires IndexFits(members, bsd) && NamesEnd(members) && k < |Exports(members, |members|)|
    ensures NamePlaced(Index(members, bsd), StringsStart(members, bsd), Exports(members, |members|), k)
  {
    hide Exports, Index, IndexFits, StringsStart, Strings, Prefix;
    IndexNames(members, bsd, k);
  }

  lemma NoStrings()
    ensures Strings([]) == []
  {
  }

  lemma GnuEntryBack(members: seq<Member>, j: nat)
    requires IndexFits(members, false) && NamesEnd(members) && j < |Exports(members, |members|)|
    ensures var index, c := Index(members, false), |Exports(members, |members|)|;
      4 + 4 * j + 4 <= |index| && GnuListed(index, 4 + 4 * c, j) == Some(Listing(members, false)[j])
  {
    hide Exports, Strings, Index, IndexFits, Prefix, BeValue, NameAt, StringStart, NamePlaced, NamesEnd;
    var e, index := Exports(members, |members|), Index(members, false);
    forall k | 0 <= k <= j ensures NamePlaced(index, StringsStart(members, false), e, k) {
      NamesArePlaced(members, false, k);
    }
    StringsFollow(index, StringsStart(members, false), e, j);
    IndexOffsets(members, false, j);
    PlacedIsFound(index, StringsStart(members, false), e, j);
  }

  lemma BsdReadsBack(members: seq<Member>)
    requires IndexFits(members, true) && NamesEnd(members)
    ensures ReadBsd(Index(members, true)) == Some(Listing(members, true))
  {
    hide Exports, Index, IndexFits, NamesEnd, ReadU32, BsdListed, Listing;
    var index, n := Index(members, true), |Exports(members, |members|)|;
    BsdWords(members);
    forall j | 0 <= j < n
      ensures 4 + 8 * j + 8 <= |index| && BsdListed(index, 8 + 8 * n, j) == Some(Listing(members, true)[j])
    {
      BsdEntryBack(members, j);
    }
    TogetherIs(seq(n, j requires 0 <= j < n => BsdListed(index, 8 + 8 * n, j)), Listing(members, true));
  }

  lemma AllStringsFollow(members: seq<Member>)
    requires IndexFits(members, false) && NamesEnd(members)
    ensures var e := Exports(members, |members|);
      StringStart(Index(members, false), 4 + 4 * |e|, |e|) == Some(4 + 4 * |e| + |Strings(e)|)
  {
    hide Exports, Index, IndexFits, NamesEnd, StringStart, Strings, NamePlaced;
    var e := Exports(members, |members|);
    forall k | 0 <= k < |e| ensures NamePlaced(Index(members, false), StringsStart(members, false), e, k) {
      NamesArePlaced(members, false, k);
    }
    StringsFollow(Index(members, false), StringsStart(members, false), e, |e|);
    assert e[..|e|] == e;
  }

  lemma GnuReadsBack(members: seq<Member>)
    requires IndexFits(members, false) && NamesEnd(members)
    ensures ReadGnu(Index(members, false)) == Some(Listing(members, false))
  {
    hide Exports, Index, IndexFits, NamesEnd, BeValue, GnuListed, Listing, StringStart, Strings;
    var e, index := Exports(members, |members|), Index(members, false);
    GnuWord(members);
    AllStringsFollow(members);
    forall j | 0 <= j < |e|
      ensures 4 + 4 * j + 4 <= |index| && GnuListed(index, 4 + 4 * |e|, j) == Some(Listing(members, false)[j])
    {
      GnuEntryBack(members, j);
    }
    TogetherIs(seq(|e|, j requires 0 <= j < |e| => GnuListed(index, 4 + 4 * |e|, j)), Listing(members, false));
  }

  /** Read from its bytes alone, the index lists exactly the exported names in
      order, each with the position of its member's header, and ends where its
      bytes end, if and only if no exported name holds a NUL. */
  lemma IndexReadsBack(members: seq<Member>, bsd: bool)
    requires IndexFits(members, bsd)
    ensures ReadIndex(Index(members, bsd), bsd) == Some(Listing(members, bsd)) <==> NamesEnd(members)
  {
    hide Exports, Index, IndexFits, ReadBsd, ReadGnu, Prefix;
    if NamesEnd(members) {
      if bsd {
        BsdReadsBack(members);
      } else {
        GnuReadsBack(members);
      }
    }
    if ReadIndex(Index(members, bsd), bsd) == Some(Listing(members, bsd)) {
      var e := Exports(members, |members|);
      forall j | 0 <= j < |e| ensures NulFree(e[j].name) {
        assert e[j].name == Listing(members, bsd)[j].name;
      }
    }
  }

  /** The BSD strings are padded with NULs to a multiple of eight bytes, which their size word counts. */
  lemma StringsPadded(members: seq<Member>)
    requires IndexFits(members, true)
    ensures var index, start, n := Index(members, true), StringsStart(members, true), |Strings(Exports(members, |members|))|;
      && 4 <= start && start + n <= |index| < start + n + 8 && ReadU32(index, start - 4) % 8 == 0
      && forall k :: start + n <= k < |index| ==> index[k] == 0
  {
    hide Exports, Entries, Strings, LeBytes, LeValue, AllFit, ArchiveBytes, Low32;
    BsdWords(members);
    IndexLength(members, true);
    PadOfLow32(|Strings(Exports(members, |members|))|);
    var strings := Strings(Exports(members, |members|));
    var pad := PadTo8(|strings|);
    assert Fill(0, pad) == Index(members, true)[|Index(members, true)| - pad..];
  }

  // ---- where the index stands ----------------------------------------------

  /** The first 56 bytes of an archive: the magic, the name field of the index,
      then its date, owner, group and mode. */
  function Opening(bsd: bool): seq<byte> {
    Ascii("!<arch>\n") + Ascii(if bsd then "#1/12           " else "/               ")
      + (Ascii("0           ") + Ascii("0     ") + Ascii("0     ") + Ascii("644     "))
  }

  lemma MetaText()
    ensures MetaFields() == Ascii("0           ") + Ascii("0     ") + Ascii("0     ") + Ascii("644     ")
  {
    assert LeftAligned(Ascii("0"), 1, 12) == Ascii("0           ");
    assert LeftAligned(Ascii("0"), 1, 6) == Ascii("0     ");
    assert LeftAligned(Ascii("644"), 3, 8) == Ascii("644     ");
  }

  /** The columns every written header has behind its name: date, owner, group,
      mode, the decimal size, and the two closing bytes. */
  lemma HeaderText(name: seq<byte>, data: seq<byte>, bsd: bool)
    requires HeaderFits(name, data, bsd)
    ensures var m, size := MemberBytes(name, data, bsd), NameRoom(name, bsd) + |data|;
      && 60 <= |m| && |DecBytes(size)| <= 10
      && m[16..48] == Ascii("0           ") + Ascii("0     ") + Ascii("0     ") + Ascii("644     ")
      && m[48..60] == DecBytes(size) + Fill(32, 10 - |DecBytes(size)|) + Ascii("`\n")
  {
    hide MetaFields, NameField, NameRoom, DecBytes, LongForm, InlineName, HeaderFits;
    var size := MemberSize(name, data, bsd);
    FieldsFill(name, data, bsd);
    MetaText();
    HeaderColumns(NameField(name, NameRoom(name, bsd), LongForm(name, bsd)), MetaFields(), SizeField(size), TRAILER,
                  InlineName(name, bsd), data, Fill(10, size % 2));
  }

  lemma FieldsFill(name: seq<byte>, data: seq<byte>, bsd: bool)
    requires HeaderFits(name, data, bsd)
    ensures |NameField(name, NameRoom(name, bsd), LongForm(name, bsd))| == 16
    ensures |DecBytes(MemberSize(name, data, bsd))| <= 10 && |SizeField(MemberSize(name, data, bsd))| == 10
    ensures TRAILER == Ascii("`\n")
  {
    hide MetaFields, DecBytes, LeftAligned, Chars;
    HeaderLength(name, data, bsd);
    FieldsAreWide(name, NameRoom(name, bsd), MemberSize(name, data, bsd), LongForm(name, bsd));
    TenDigits(MemberSize(name, data, bsd));
  }

  lemma HeaderColumns(nf: seq<byte>, meta: seq<byte>, sf: seq<byte>, tr: seq<byte>, inline: seq<byte>, data: seq<byte>,
                      pad: seq<byte>)
    requires |nf| == 16 && |meta| == 32 && |sf| == 10 && |tr| == 2
    ensures var m := nf + meta + sf + tr + inline + data + pad;
      |m| >= 60 && m[16..48] == meta && m[48..60] == sf + tr
  {
  }

  lemma IndexNameFields()
    ensures LongForm(IndexName(true), true) && NameRoom(IndexName(true), true) == 12
    ensures NameField(IndexName(true), 12, true) == Ascii("#1/12           ")
    ensures InlineName(IndexName(true), true) == Ascii("__.SYMDEF") + [0, 0, 0]
  {
    assert BsdNamePad(9) == 12;
    assert Digits(12) == Digits(1) + [2];
    assert DecBytes(12) == Ascii("12");
  }

  lemma GnuNameField()
    ensures !LongForm(IndexName(false), false) && NameRoom(IndexName(false), false) == 0
    ensures NameField(IndexName(false), 0, false) == Ascii("/               ")
    ensures InlineName(IndexName(false), false) == []
  {
    var n := IndexName(false);
    assert n[..0] == [];
    assert Chars(n) == 1;
    assert Ascii("/") == [47];
  }

  /** The parts of the archive's beginning, up to the end of the index. */
  lemma HeadParts(members: seq<Member>, bsd: bool)
    ensures var name, room, index := IndexName(bsd), NameRoom(IndexName(bsd), bsd), Index(members, bsd);
      MAGIC + NameField(name, room, LongForm(name, bsd)) + MetaFields() + SizeField(room + |index|) + TRAILER
        + InlineName(name, bsd) + index <= ArchiveBytes(members, bsd)
  {
    hide NameField, MetaFields, SizeField, InlineName, NameRoom, LongForm, Fill, Index, IndexName, MAGIC, TRAILER;
    PrefixGrows(members, bsd, 0, |members|);
    var name, room, index := IndexName(bsd), NameRoom(IndexName(bsd), bsd), Index(members, bsd);
    var nf, meta, sf := NameField(name, room, LongForm(name, bsd)), MetaFields(), SizeField(room + |index|);
    var pad := Fill(10, MemberSize(name, index, bsd) % 2);
    Regrouped(MAGIC, nf, meta, sf, TRAILER, InlineName(name, bsd), index, pad);
  }

  lemma Regrouped(a: seq<byte>, b: seq<byte>, c: seq<byte>, d: seq<byte>, e: seq<byte>, f: seq<byte>, g: seq<byte>,
                  h: seq<byte>)
    ensures a + b + c + d + e + f + g <= a + (b + c + d + e + f + g + h)
  {
    assert a + b + c + d + e + f + g + h == a + (b + c + d + e + f + g + h);
  }

  /** An archive opens with the magic and the header of the index, and the index
      stands behind that: at byte 80 in the BSD form, at byte 68 in the GNU form. */
  lemma IndexStandsAt(members: seq<Member>, bsd: bool)
    ensures var name, index := if bsd then Ascii("__.SYMDEF") + [0, 0, 0] else [], Index(members, bsd);
      Opening(bsd) + SizeField(|name| + |index|) + Ascii("`\n") + name + index <= ArchiveBytes(members, bsd)
  {
    hide NameField, MetaFields, SizeField, InlineName, NameRoom, LongForm, Index, ArchiveBytes, IndexName;
    HeadParts(members, bsd);
    MetaText();
    IndexNameFields();
    GnuNameField();
  }
}
