/** Mach-O files outside the conditions: two names that collapse into one, a
    kept name that a renamed one runs into, and a kept name that runs past its
    string table. */
module LinkExamples {
  import opened Wrappers
  import opened Bytes
  import opened Utf8
  import opened MachO
  import opened Scope
  import opened ScopeProofs
  import opened Linking

  type word = n: int | 0 <= n < U32

  function Words(ws: seq<word>): (b: seq<byte>)
    ensures |b| == 4 * |ws|
  {
    if ws == [] then [] else LeBytes(ws[0]) + Words(ws[1..])
  }

  lemma {:induction false} WordAt(ws: seq<word>, i: nat)
    requires i < |ws|
    ensures Words(ws)[4 * i..4 * i + 4] == LeBytes(ws[i])
  {
    hide LeBytes;
    if i > 0 {
      WordAt(ws[1..], i - 1);
      assert Words(ws)[4 * i..4 * i + 4] == Words(ws[1..])[4 * (i - 1)..4 * (i - 1) + 4];
    }
  }

  lemma WordRead(ws: seq<word>, tail: seq<byte>, i: nat)
    requires i < |ws|
    ensures ReadU32(Words(ws) + tail, 4 * i) == ws[i]
  {
    hide LeBytes, LeValue, Words;
    WordAt(ws, i);
    FrontSlice(Words(ws), tail, 4 * i, 4 * i + 4);
    LeRoundTrip(ws[i]);
  }

  lemma FrontSlice(front: seq<byte>, tail: seq<byte>, i: nat, j: nat)
    requires i <= j <= |front|
    ensures (front + tail)[i..j] == front[i..j]
  {
  }

  /** N_SECT and N_EXT, in section 1. */
  const GLOBAL: word := 0x010f

  /** The announced size of the string table cuts off at most the end of the second name. */
  predicate Cut(a: Name, b: Name, n: nat) {
    |a| + |b| < 1000 && 3 + |a| <= n <= 3 + |a| + |b|
  }

  /** Header, LC_SYMTAB and two nlist entries. */
  function Head(a: Name, b: Name, n: nat): seq<word>
    requires Cut(a, b, n)
  {
    [MH_MAGIC_64, 0, 0, 0, 1, 0, 0, 0]
    + [LC_SYMTAB, 24, 56, 2, 88, n]
    + [1, GLOBAL, 0, 0]
    + [2 + |a|, GLOBAL, 0, 0]
  }

  /** A string table of two names. */
  function Strings(a: Name, b: Name): seq<byte> { [0] + a + [0] + b + [0] }

  /** An object file with two visible definitions of the given names, and `n`
      as the size of its string table. */
  function MachFile(a: Name, b: Name, n: nat): seq<byte>
    requires Cut(a, b, n)
  {
    Words(Head(a, b, n)) + Strings(a, b)
  }

  function MachObject(a: Name, b: Name, n: nat): Object {
    Object(Symtab(32, 56, 2, 88, n), [Sym(56, 89, a, 0x0f, false), Sym(72, 90 + |a|, b, 0x0f, false)])
  }

  lemma FileTab(a: Name, b: Name, n: nat)
    requires Cut(a, b, n)
    ensures ReadSymtab(MachFile(a, b, n)) == Ok(MachObject(a, b, n).tab) && |MachFile(a, b, n)| == 91 + |a| + |b|
  {
    hide ReadU32, Words;
    var ws, tail := Head(a, b, n), Strings(a, b);
    WordRead(ws, tail, 0);
    WordRead(ws, tail, 4);
    WordRead(ws, tail, 8);
    WordRead(ws, tail, 9);
    WordRead(ws, tail, 10);
    WordRead(ws, tail, 11);
    WordRead(ws, tail, 12);
    WordRead(ws, tail, 13);
  }

  lemma NamesInStrings(a: Name, b: Name)
    ensures NameIsAt(Strings(a, b), 1, a) && NameIsAt(Strings(a, b), 2 + |a|, b)
  {
  }

  lemma NameBehind(head: seq<byte>, strings: seq<byte>, at: nat, name: Name)
    requires NameIsAt(strings, at, name)
    ensures NameIsAt(head + strings, |head| + at, name)
  {
    var s := head + strings;
    assert s[|head| + at..|head| + at + |name|] == strings[at..at + |name|];
  }

  lemma TypeByte(ws: seq<word>, tail: seq<byte>, i: nat)
    requires i < |ws| && ws[i] == GLOBAL
    ensures (Words(ws) + tail)[4 * i] == 0x0f
  {
    hide Words;
    WordAt(ws, i);
    assert (Words(ws) + tail)[4 * i] == Words(ws)[4 * i..4 * i + 4][0] == LeBytes(GLOBAL)[0];
  }

  /** The file is read as the object: the words and names are where the reader looks. */
  lemma FileParses(a: Name, b: Name, n: nat)
    requires Cut(a, b, n)
    ensures Parse(MachFile(a, b, n)) == Ok(MachObject(a, b, n))
  {
    hide ReadU32, Words, ReadSymtab, ReadSym, NameIsAt, AnyNonZero;
    var ws, tail, o := Head(a, b, n), Strings(a, b), MachObject(a, b, n);
    var f := MachFile(a, b, n);
    FileTab(a, b, n);
    NamesInStrings(a, b);
    NameBehind(Words(ws), tail, 1, a);
    NameBehind(Words(ws), tail, 2 + |a|, b);
    WordRead(ws, tail, 14);
    WordRead(ws, tail, 18);
    TypeByte(ws, tail, 15);
    TypeByte(ws, tail, 19);
    ReadSymIs(f, o.tab, 0, a);
    ReadSymIs(f, o.tab, 1, b);
    ParseIs(f, o);
  }

  /** The same symbols behind another load command: LC_SEGMENT_64, 72 bytes
      long with an empty name and no section, stands before LC_SYMTAB. */
  function SegmentHead(a: Name, b: Name, n: nat): seq<word>
    requires Cut(a, b, n)
  {
    [0xfeedfacf, 0, 0, 0, 2, 0, 0, 0]
    + [0x19, 72, 0, 0, 0, 0, 0, 0, 0, 0, 0, 0, 0, 0, 0, 0, 0, 0]
    + [2, 24, 128, 2, 160, n]
    + [1, GLOBAL, 0, 0]
    + [2 + |a|, GLOBAL, 0, 0]
  }

  function SegmentFile(a: Name, b: Name, n: nat): seq<byte>
    requires Cut(a, b, n)
  {
    Words(SegmentHead(a, b, n)) + Strings(a, b)
  }

  function SegmentObject(a: Name, b: Name, n: nat): Object {
    Object(Symtab(104, 128, 2, 160, n), [Sym(128, 161, a, 0x0f, false), Sym(144, 162 + |a|, b, 0x0f, false)])
  }

  lemma SegmentTab(a: Name, b: Name, n: nat)
    requires Cut(a, b, n)
    ensures ReadSymtab(SegmentFile(a, b, n)) == Ok(SegmentObject(a, b, n).tab)
    ensures |SegmentFile(a, b, n)| == 163 + |a| + |b|
  {
    hide ReadU32, Words, FindCommand;
    var ws, tail := SegmentHead(a, b, n), Strings(a, b);
    var f := SegmentFile(a, b, n);
    WordRead(ws, tail, 0);
    WordRead(ws, tail, 4);
    SegmentWalk(a, b, n);
    WordRead(ws, tail, 28);
    WordRead(ws, tail, 29);
    WordRead(ws, tail, 30);
    WordRead(ws, tail, 31);
  }

  lemma SegmentWalk(a: Name, b: Name, n: nat)
    requires Cut(a, b, n)
    ensures FindCommand(SegmentFile(a, b, n), 32, 2) == Ok(104)
  {
    hide ReadU32, Words;
    var ws, tail := SegmentHead(a, b, n), Strings(a, b);
    WordRead(ws, tail, 8);
    WordRead(ws, tail, 9);
    WordRead(ws, tail, 26);
    WordRead(ws, tail, 27);
    assert FindCommand(SegmentFile(a, b, n), 104, 1) == Ok(104);
  }

  /** A file whose LC_SYMTAB is not its first command is read at the second one. */
  lemma SegmentFileParses(a: Name, b: Name, n: nat)
    requires Cut(a, b, n)
    ensures Parse(SegmentFile(a, b, n)) == Ok(SegmentObject(a, b, n))
  {
    hide ReadU32, Words, ReadSymtab, ReadSym, NameIsAt, AnyNonZero;
    var ws, tail, o := SegmentHead(a, b, n), Strings(a, b), SegmentObject(a, b, n);
    var f := SegmentFile(a, b, n);
    SegmentTab(a, b, n);
    NamesInStrings(a, b);
    NameBehind(Words(ws), tail, 1, a);
    NameBehind(Words(ws), tail, 2 + |a|, b);
    WordRead(ws, tail, 32);
    WordRead(ws, tail, 36);
    TypeByte(ws, tail, 33);
    TypeByte(ws, tail, 37);
    ReadSymIs(f, o.tab, 0, a);
    ReadSymIs(f, o.tab, 1, b);
    ParseIs(f, o);
  }

  lemma GlobalAfter(objs: seq<Object>, s: Sym)
    requires s.nType == 0x0f
    ensures After(objs, Defaults(), s) ==
      if RenamesDef(s.name, KEEP_PREFIX) then ScopedName(s.name, SCOPE_PREFIX) else s.name
  {
    hide RenamesDef, ScopedName, ArchiveDefined;
  }

  lemma PairCollapses(o: Object)
    requires |o.syms| == 2 && o.syms[0].name != o.syms[1].name && Linked(o.syms[0]) && VisibleDef(o.syms[1])
    requires After([o], Defaults(), o.syms[0]) == After([o], Defaults(), o.syms[1])
    ensures !LinksPreserved([o], Defaults())
  {
    hide After, ScopedName, Linked, VisibleDef;
    var s, d := o.syms[0], o.syms[1];
    assert [o][0] == o && s in o.syms && d in o.syms;
    assert Has([o], s) && Has([o], d) && !Agrees([o], Defaults(), s, d);
  }

  /** Two renamed definitions with one lossy name collapse. */
  lemma RenamedCollapse(a: Name, b: Name, n: nat)
    requires Cut(a, b, n) && a != b && LossyName(a) == LossyName(b)
    requires RenamesDef(a, KEEP_PREFIX) && RenamesDef(b, KEEP_PREFIX)
    ensures !LinksPreserved([MachObject(a, b, n)], Defaults())
  {
    hide RenamesDef, After, Lossy, LinksPreserved, ArchiveDefined, ScopedName;
    var o := MachObject(a, b, n);
    GlobalAfter([o], o.syms[0]);
    GlobalAfter([o], o.syms[1]);
    SamePrefix(SCOPE_PREFIX, a, b);
    PairCollapses(o);
  }

  /** Two different names that are not UTF-8 take one scoped name. */
  lemma LossyCollapse() returns (file: seq<byte>, o: Object)
    ensures file == MachFile([0xFF], [0xFE], 5) && Parse(file) == Ok(o)
    ensures !LinksPreserved([o], Defaults())
  {
    hide Lossy, RenamesDef, MachFile, MachObject, Parse, LinksPreserved;
    StrayByte(0xFF);
    StrayByte(0xFE);
    FileParses([0xFF], [0xFE], 5);
    file, o := MachFile([0xFF], [0xFE], 5), MachObject([0xFF], [0xFE], 5);
    assert [0xFF as byte] != [0xFE];
    RenamedCollapse([0xFF], [0xFE], 5);
  }

  lemma StrayByte(v: byte)
    requires v >= 0xF8
    ensures NulFree([v]) && Lossy([v]) == REPLACEMENT && RenamesDef([v], KEEP_PREFIX)
  {
    assert DecodeStep([v]) == Step(1, false) && [v][1..] == [];
    assert Lossy([v]) == REPLACEMENT + [];
  }

  /** A kept definition whose name is the internal prefix and a renamed name
      takes that definition's place. */
  lemma PrefixCollapse() returns (file: seq<byte>, o: Object)
    ensures file == MachFile(Ascii("f"), SCOPE_PREFIX + Ascii("f"), 23) && Parse(file) == Ok(o)
    ensures !LinksPreserved([o], Defaults())
  {
    hide Lossy, IsUtf8, Trim, RenamesDef, After, MachFile, Parse, LinksPreserved, ArchiveDefined, Renames;
    var a: Name, b: Name := Ascii("f"), SCOPE_PREFIX + Ascii("f");
    AsciiIsUtf8(a);
    LossyIsIdentityOnUtf8(a);
    ShortIsRenamed(a);
    DefaultsAreKept();
    ScopedNameIsKept(a, Defaults());
    FileParses(a, b, 23);
    file, o := MachFile(a, b, 23), MachObject(a, b, 23);
    GlobalAfter([o], o.syms[0]);
    GlobalAfter([o], o.syms[1]);
    PairCollapses(o);
  }

  lemma ShortIsRenamed(a: Name)
    requires |a| == 1
    ensures RenamesDef(a, KEEP_PREFIX)
  {
  }

  /** A file whose second name, a kept one, runs past the announced end of the string table. */
  function CutFile(): seq<byte> { MachFile(Ascii("f"), Ascii("tebako_x"), 4) }

  function CutObject(): (o: Object)
    ensures |o.syms| == 2
  {
    MachObject(Ascii("f"), Ascii("tebako_x"), 4)
  }

  lemma CutParses()
    ensures Parse(CutFile()) == Ok(CutObject())
  {
    hide Parse, MachFile, MachObject;
    FileParses(Ascii("f"), Ascii("tebako_x"), 4);
  }

  /** The reader accepts that file, but after scoping the kept name is not
      there any more: the first new name has taken the place of its end. */
  lemma OverrunIsLost(defined: set<Name>)
    requires defined == ArchiveDefined([CutObject()], KEEP_PREFIX)
    ensures Parse(CutFile()) == Ok(CutObject()) && Laid(CutFile(), CutObject(), Defaults(), defined)
    ensures !exists u :: ReadsBack(CutFile(), CutObject(), u, Defaults(), defined)
  {
    hide CutFile, CutObject, Parse, ReadSymtab, ReadSyms, ReadsBack, Relocatable, Laid, ArchiveDefined, Renames, Defaults;
    CutParses();
    FirstIsRenamed(CutObject(), defined);
    CutSizes();
    NewNameIs(CutObject().syms[0].name);
    DefaultPrefix();
    GrownSize(CutFile(), CutObject(), Defaults(), defined);
    Misfit(CutFile(), CutObject(), defined);
    ParseBackExactly(CutFile(), CutObject(), Defaults(), defined);
  }

  lemma FirstIsRenamed(o: Object, defined: set<Name>)
    requires o == CutObject()
    ensures |o.syms| == 2 && Renames(o.syms[0], Defaults(), defined) && !Renames(o.syms[1], Defaults(), defined)
  {
    hide RenamesDef, LossyName;
    ShortIsRenamed(Ascii("f"));
    KeptName(Ascii("tebako_x"));
  }

  /** The rest of the kept name is not the first new name. */
  lemma Misfit(file: seq<byte>, o: Object, defined: set<Name>)
    requires Parse(file) == Ok(o) && o == CutObject()
    requires |o.syms| == 2 && Renames(o.syms[0], Defaults(), defined) && !Renames(o.syms[1], Defaults(), defined)
    ensures !Relocatable(file, o, Defaults(), defined)
  {
    hide Parse, ReadSymtab, ReadSyms, ReadSym, Renames, ScopedName, Laid;
    NewNameIs(Ascii("f"));
    var s := o.syms[1];
    assert FirstNew(o.syms, Defaults(), defined) == Some(ScopedName(Ascii("f"), SCOPE_PREFIX));
    assert s in o.syms && s.name[1..][0] == 101;
    assert !Fits(s, 92, ScopedName(Ascii("f"), SCOPE_PREFIX));
  }

  lemma DefaultPrefix()
    ensures Defaults().prefix == SCOPE_PREFIX
  {
  }

  lemma CutSizes()
    ensures |CutFile()| == 100 && CutObject().tab == Symtab(32, 56, 2, 88, 4) && |CutObject().syms[0].name| == 1
  {
    hide Words, ReadSymtab;
    FileTab(Ascii("f"), Ascii("tebako_x"), 4);
  }

  lemma GrownSize(file: seq<byte>, o: Object, cfg: Config, defined: set<Name>)
    requires Parse(file) == Ok(o) && |file| == 100 && o.tab == Symtab(32, 56, 2, 88, 4) && |o.syms| == 2
    requires Renames(o.syms[0], cfg, defined) && !Renames(o.syms[1], cfg, defined)
    requires |ScopedName(o.syms[0].name, cfg.prefix)| < 1000
    ensures Laid(file, o, cfg, defined)
  {
    hide Renames, Parse, ReadSymtab, ReadSyms, ReadSym, Applied, ScopedName;
    SymsInFile(file, o);
    OnlyFirst(Start(file, o.tab), o, cfg, defined);
  }

  lemma NewNameIs(name: Name)
    requires |name| == 1
    ensures var s := ScopedName(name, SCOPE_PREFIX); 1 <= |s| < 1000 && s[0] == UNDERSCORE
  {
    hide Lossy, DecodeStep;
    OneByteLossy(name);
  }

  lemma OneByteLossy(name: Name)
    requires |name| == 1
    ensures |Lossy(name)| <= 3
  {
    assert name[1..] == [] && Lossy([]) == [];
  }

  lemma KeptName(b: Name)
    requires b == Ascii("tebako_x")
    ensures !RenamesDef(b, KEEP_PREFIX)
  {
    hide IsUtf8;
    AsciiIsUtf8(b);
    assert b[0] != UNDERSCORE;
    assert KEEP_PREFIX == b[..7];
  }

  lemma OnlyFirst(p: Patch, o: Object, cfg: Config, defined: set<Name>)
    requires |o.syms| == 2 && InFile(p, o.syms) && Renames(o.syms[0], cfg, defined) && !Renames(o.syms[1], cfg, defined)
    ensures Applied(p, o.syms, cfg, defined, 2).strtab == p.strtab + (ScopedName(o.syms[0].name, cfg.prefix) + [0])
  {
    hide Renames, ScopedName, PutU32, Low32, ExportOf;
    assert Applied(p, o.syms, cfg, defined, 2).strtab == Applied(p, o.syms, cfg, defined, 1).strtab + [];
    NameAppended(p, o.syms, cfg, defined, 0);
  }
}
