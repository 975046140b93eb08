/** What scoping one object does: the reader finds every symbol again under
    its new name, no other byte changes, and a second scoping changes nothing. */
module ScopeProofs {
  import opened Wrappers
  import opened Bytes
  import opened Utf8
  import opened MachO
  import opened Scope

  /** The rewrite state at the end of pass B. */
  function Final(b: seq<byte>, o: Object, cfg: Config, defined: set<Name>): Patch
    requires Parse(b) == Ok(o)
  {
    SymsInFile(b, o);
    Applied(Start(b, o.tab), o.syms, cfg, defined, |o.syms|)
  }

  /** The object layouts the relocation is written for: the nlist entries lie
      behind LC_SYMTAB, and the grown file still has 32-bit offsets. */
  predicate Laid(b: seq<byte>, o: Object, cfg: Config, defined: set<Name>)
    requires Parse(b) == Ok(o)
  {
    o.tab.symoff >= o.tab.lc + 24 && |b| + |Final(b, o, cfg, defined).strtab| < U32
  }

  /** Every name that stays still stands, NUL-terminated, at its offset in the grown string table. */
  predicate NamesStand(b: seq<byte>, o: Object, cfg: Config, defined: set<Name>)
    requires Parse(b) == Ok(o)
  {
    forall s :: s in o.syms && !Renames(s, cfg, defined) && s.nameAt >= o.tab.stroff ==>
      NameIsAt(Final(b, o, cfg, defined).strtab, s.nameAt - o.tab.stroff, s.name)
  }

  /** The new name of the first symbol that is renamed, if there is one. */
  function FirstNew(syms: seq<Sym>, cfg: Config, defined: set<Name>): Option<Name> {
    if syms == [] then None
    else if Renames(syms[0], cfg, defined) then Some(ScopedName(syms[0].name, cfg.prefix))
    else FirstNew(syms[1..], cfg, defined)
  }

  /** The name ends before `stop`, or what lies beyond `stop` is `first`. */
  predicate Fits(s: Sym, stop: nat, first: Name) {
    s.nameAt + |s.name| < stop || (s.nameAt <= stop && s.name[stop - s.nameAt..] == first)
  }

  /** Every name that stays ends inside the string table, or runs past its end
      with just the name that will be appended there first. */
  predicate NamesFit(o: Object, cfg: Config, defined: set<Name>, first: Name) {
    forall s :: s in o.syms && !Renames(s, cfg, defined) ==> Fits(s, o.tab.stroff + o.tab.strsize, first)
  }

  /** The objects that scoping can rewrite: nothing is renamed, or the layout
      is as expected and the names that stay fit. */
  predicate Relocatable(b: seq<byte>, o: Object, cfg: Config, defined: set<Name>)
    requires Parse(b) == Ok(o)
  {
    var first := FirstNew(o.syms, cfg, defined);
    first.None? || (Laid(b, o, cfg, defined) && NamesFit(o, cfg, defined, first.value))
  }

  lemma {:induction false} FirstNewIs(syms: seq<Sym>, cfg: Config, defined: set<Name>) returns (k: nat)
    ensures FirstNew(syms, cfg, defined).None? <==> forall s :: s in syms ==> !Renames(s, cfg, defined)
    ensures k <= |syms| && forall j :: 0 <= j < k ==> !Renames(syms[j], cfg, defined)
    ensures FirstNew(syms, cfg, defined).Some? ==>
      k < |syms| && Renames(syms[k], cfg, defined) && FirstNew(syms, cfg, defined).value == ScopedName(syms[k].name, cfg.prefix)
  {
    hide Renames, ScopedName;
    if syms == [] || Renames(syms[0], cfg, defined) {
      k := 0;
    } else {
      var m := FirstNewIs(syms[1..], cfg, defined);
      k := m + 1;
      assert syms == [syms[0]] + syms[1..];
    }
  }

  // ---- the rewrite loop, entry by entry ------------------------------------

  predicate Spaced(p: Patch, syms: seq<Sym>) {
    && InFile(p, syms)
    && (forall i, j :: 0 <= i < j < |syms| ==> syms[i].at + 16 <= syms[j].at)
  }

  lemma {:induction false} TableGrows(p: Patch, syms: seq<Sym>, cfg: Config, defined: set<Name>, m: nat, n: nat)
    requires m <= n <= |syms| && InFile(p, syms)
    ensures Applied(p, syms, cfg, defined, m).strtab <= Applied(p, syms, cfg, defined, n).strtab
    ensures m == 0 ==> p.strtab <= Applied(p, syms, cfg, defined, n).strtab
    decreases n
  {
    hide PutU32, Renames, TableEntry, ExportOf, InFile;
    if m < n {
      TableGrows(p, syms, cfg, defined, m, n - 1);
    }
  }

  /** The strx field of entry `i` after `n` steps: the offset of its new name
      if it is renamed, and what it was otherwise. */
  lemma {:induction false} StrxField(p: Patch, syms: seq<Sym>, cfg: Config, defined: set<Name>, i: nat, n: nat)
    requires i < n <= |syms| && Spaced(p, syms)
    ensures var at := syms[i].at;
      Applied(p, syms, cfg, defined, n).out[at..at + 4] ==
      if Renames(syms[i], cfg, defined) then LeBytes(Low32(|Applied(p, syms, cfg, defined, i).strtab|))
      else p.out[at..at + 4]
    decreases n
  {
    hide PutU32, Renames, LeBytes, Low32, TableEntry, ExportOf;
    var at, q := syms[i].at, Applied(p, syms, cfg, defined, n - 1).out;
    if i < n - 1 {
      StrxField(p, syms, cfg, defined, i, n - 1);
      assert Applied(p, syms, cfg, defined, n).out[at..at + 4] == q[at..at + 4];
    } else {
      forall k | at <= k < at + 4 ensures q[k] == p.out[k] {
        BytesKept(p, syms, cfg, defined, k, i);
      }
      assert q[at..at + 4] == p.out[at..at + 4];
    }
  }

  /** A byte outside every renamed strx field is as it was. */
  lemma {:induction false} BytesKept(p: Patch, syms: seq<Sym>, cfg: Config, defined: set<Name>, k: nat, n: nat)
    requires n <= |syms| && k < |p.out| && InFile(p, syms)
    requires forall i :: 0 <= i < n && Renames(syms[i], cfg, defined) ==> !(syms[i].at <= k < syms[i].at + 4)
    ensures Applied(p, syms, cfg, defined, n).out[k] == p.out[k]
  {
    hide PutU32, Renames, LeBytes, Low32, TableEntry, ExportOf, InFile;
    if n > 0 {
      BytesKept(p, syms, cfg, defined, k, n - 1);
    }
  }

  /** The new name of a renamed entry stands in the final string table, at the
      offset its strx field was given. */
  lemma NameInTable(p: Patch, syms: seq<Sym>, cfg: Config, defined: set<Name>, i: nat, n: nat)
    requires i < n <= |syms| && InFile(p, syms)
    requires Renames(syms[i], cfg, defined)
    ensures NameIsAt(Applied(p, syms, cfg, defined, n).strtab, |Applied(p, syms, cfg, defined, i).strtab|,
                     ScopedName(syms[i].name, cfg.prefix))
  {
    hide PutU32, Renames, ScopedName, ExportOf, InFile, Low32, NameIsAt, Applied;
    var here := Applied(p, syms, cfg, defined, i).strtab;
    var next := Applied(p, syms, cfg, defined, i + 1).strtab;
    var name := ScopedName(syms[i].name, cfg.prefix);
    NameAppended(p, syms, cfg, defined, i);
    EntryIsName(here, name);
    TableGrows(p, syms, cfg, defined, i + 1, n);
    NameInLonger(next, Applied(p, syms, cfg, defined, n).strtab, |here|, name);
  }

  lemma NameAppended(p: Patch, syms: seq<Sym>, cfg: Config, defined: set<Name>, i: nat)
    requires i < |syms| && InFile(p, syms) && Renames(syms[i], cfg, defined)
    ensures Applied(p, syms, cfg, defined, i + 1).strtab
      == Applied(p, syms, cfg, defined, i).strtab + (ScopedName(syms[i].name, cfg.prefix) + [0])
  {
    hide PutU32, Renames, ScopedName, ExportOf, InFile, Low32;
  }

  lemma EntryIsName(here: seq<byte>, name: Name)
    ensures NameIsAt(here + (name + [0]), |here|, name)
  {
  }

  lemma NameInLonger(table: seq<byte>, longer: seq<byte>, strx: nat, name: Name)
    requires NameIsAt(table, strx, name) && table <= longer
    ensures NameIsAt(longer, strx, name)
  {
    assert longer[strx..strx + |name|] == table[strx..strx + |name|];
  }

  lemma {:induction false} RenamedCount(p: Patch, syms: seq<Sym>, cfg: Config, defined: set<Name>, n: nat)
    requires n <= |syms| && InFile(p, syms)
    requires p.renamed == 0
    ensures Applied(p, syms, cfg, defined, n).renamed == 0
      <==> forall i :: 0 <= i < n ==> !Renames(syms[i], cfg, defined)
    ensures Applied(p, syms, cfg, defined, n).renamed == 0
      ==> Applied(p, syms, cfg, defined, n).out == p.out
  {
    hide PutU32, Renames, Low32, TableEntry, ExportOf, InFile;
    if n > 0 {
      RenamedCount(p, syms, cfg, defined, n - 1);
    }
  }

  // ---- frame ---------------------------------------------------------------

  /** Scoping changes no byte of the input but the strx fields of renamed
      symbols and the stroff and strsize fields of LC_SYMTAB; it only appends
      to the file, and with nothing renamed it is the identity. */
  lemma Frame(b: seq<byte>, o: Object, cfg: Config, defined: set<Name>)
    requires Parse(b) == Ok(o)
    ensures var r := ScopeObject(b, cfg, defined);
      && r.Ok?
      && |b| <= |r.value.bytes|
      && (forall k :: 0 <= k < |b| && r.value.bytes[k] != b[k] ==>
            || o.tab.lc + 16 <= k < o.tab.lc + 24
            || exists s :: s in o.syms && Renames(s, cfg, defined) && s.at <= k < s.at + 4)
      && (r.value.renamed == 0 <==> forall s :: s in o.syms ==> !Renames(s, cfg, defined))
      && (r.value.renamed == 0 ==> r.value.bytes == b)
  {
    hide PutU32, RenamesDef, ScopedName, LossyName, Renames, Low32, Applied, ReadSym, ReadSyms, ReadSymtab;
    SymsInFile(b, o);
    var p, n := Start(b, o.tab), |o.syms|;
    var q := Final(b, o, cfg, defined);
    var r := ScopeObject(b, cfg, defined).value;
    RenamedCount(p, o.syms, cfg, defined, n);
    forall k | 0 <= k < |b| && r.bytes[k] != b[k] && !(o.tab.lc + 16 <= k < o.tab.lc + 24)
      ensures exists s :: s in o.syms && Renames(s, cfg, defined) && s.at <= k < s.at + 4
    {
      assert r.bytes[k] == q.out[k];
      if forall i :: 0 <= i < n && Renames(o.syms[i], cfg, defined) ==> !(o.syms[i].at <= k < o.syms[i].at + 4) {
        BytesKept(p, o.syms, cfg, defined, k, n);
      }
    }
  }

  // ---- parse-back ----------------------------------------------------------

  /** The symbol the reader must find in the scoped file in place of `s`. */
  ghost predicate Succeeds(s: Sym, t: Sym, cfg: Config, defined: set<Name>) {
    t.at == s.at && t.nType == s.nType && t.common == s.common && t.name == NewName(s, cfg, defined)
  }

  /** `u` is what the reader finds in a scoped member: entry by entry, the
      same symbol under its new name. */
  ghost predicate ScopedView(o: Object, u: Object, cfg: Config, defined: set<Name>) {
    |u.syms| == |o.syms| && forall k :: 0 <= k < |o.syms| ==> Succeeds(o.syms[k], u.syms[k], cfg, defined)
  }

  /** The scoped file of one member reads back as `u`. */
  ghost predicate ReadsBack(b: seq<byte>, o: Object, u: Object, cfg: Config, defined: set<Name>) {
    var r := ScopeObject(b, cfg, defined);
    r.Ok? && Parse(r.value.bytes) == Ok(u) && ScopedView(o, u, cfg, defined)
  }

  /** The scoped file, when something is renamed, and the symbol table it announces. */
  function Output(b: seq<byte>, o: Object, cfg: Config, defined: set<Name>): (c: seq<byte>)
    requires Parse(b) == Ok(o)
    ensures |c| == |b| + |Final(b, o, cfg, defined).strtab|
  {
    SymsInFile(b, o);
    var q := Final(b, o, cfg, defined);
    Relocate(q.out, q.strtab, o.tab.lc)
  }

  function OutputTab(b: seq<byte>, o: Object, cfg: Config, defined: set<Name>): Symtab
    requires Parse(b) == Ok(o)
  {
    o.tab.(stroff := |b|, strsize := |Final(b, o, cfg, defined).strtab|)
  }

  /** The bytes of the scoped file: those of the patched copy below the string
      table but for two header fields, then the new string table. */
  lemma OutputBytes(b: seq<byte>, o: Object, cfg: Config, defined: set<Name>)
    requires Parse(b) == Ok(o) && Laid(b, o, cfg, defined)
    ensures var c, q, lc := Output(b, o, cfg, defined), Final(b, o, cfg, defined), o.tab.lc;
      && |q.out| == |b|
      && (forall k :: 0 <= k < |b| && !(lc + 16 <= k < lc + 24) ==> c[k] == q.out[k])
      && c[lc + 16..lc + 20] == LeBytes(|b|) && c[lc + 20..lc + 24] == LeBytes(|q.strtab|)
      && c[|b|..] == q.strtab
  {
    hide PutU32, Applied, LeBytes, ReadSym, ReadSyms, ReadSymtab, Parse;
    SymsInFile(b, o);
    var c, q, lc := Output(b, o, cfg, defined), Final(b, o, cfg, defined), o.tab.lc;
    var first := PutU32(q.out + q.strtab, lc + 16, |b|);
    assert c == PutU32(first, lc + 20, |q.strtab|);
    assert c[lc + 16..lc + 20] == first[lc + 16..lc + 20];
  }

  /** Every nlist field but strx is as it was. */
  lemma FieldsBack(b: seq<byte>, o: Object, cfg: Config, defined: set<Name>, i: nat)
    requires Parse(b) == Ok(o) && Laid(b, o, cfg, defined) && i < |o.syms|
    ensures var at, c := o.syms[i].at, Output(b, o, cfg, defined);
      at + 16 <= |b| && c[at + 4] == b[at + 4] && c[at + 8..at + 16] == b[at + 8..at + 16]
  {
    hide Applied, ReadSym, ReadSyms, ReadSymtab, Parse, Renames, Output, PutU32;
    SymsInFile(b, o);
    OutputBytes(b, o, cfg, defined);
    var at, c := o.syms[i].at, Output(b, o, cfg, defined);
    forall k | at + 4 <= k < at + 16 ensures c[k] == b[k] {
      BytesKept(Start(b, o.tab), o.syms, cfg, defined, k, |o.syms|);
    }
  }

  /** The strx field leads to the new name. */
  lemma NameBack(b: seq<byte>, o: Object, cfg: Config, defined: set<Name>, i: nat)
    requires Parse(b) == Ok(o) && Laid(b, o, cfg, defined) && NamesStand(b, o, cfg, defined) && i < |o.syms|
    ensures var s, c := o.syms[i], Output(b, o, cfg, defined);
      && s.at + 16 <= |b|
      && NameIsAt(Final(b, o, cfg, defined).strtab, ReadU32(c, s.at), NewName(s, cfg, defined))
  {
    hide Applied, ReadSyms, ReadSymtab, Parse, Renames, Output, PutU32, LeBytes, LeValue, FindNul, ScopedName, NameIsAt, ReadSym;
    SymsInFile(b, o);
    OutputBytes(b, o, cfg, defined);
    var p, n, s := Start(b, o.tab), |o.syms|, o.syms[i];
    var c, q := Output(b, o, cfg, defined), Final(b, o, cfg, defined);
    StrxField(p, o.syms, cfg, defined, i, n);
    LaidIs(b, o, cfg, defined);
    SamePlace(c, q.out, |b|, o.tab.lc, s.at);
    if Renames(s, cfg, defined) {
      NameInTable(p, o.syms, cfg, defined, i, n);
      TableGrows(p, o.syms, cfg, defined, i, n);
      LeRoundTrip(|Applied(p, o.syms, cfg, defined, i).strtab|);
    } else {
      assert ReadSym(b, o.tab, i) == Ok(s);
      OldOffset(b, o.tab, i);
    }
  }

  /** A symbol's name is at its strx offset in the string table. */
  lemma OldOffset(b: seq<byte>, t: Symtab, i: nat)
    requires i < t.nsyms && t.symoff + 16 * t.nsyms <= |b| && t.stroff + t.strsize <= |b|
    requires ReadSym(b, t, i).Ok?
    ensures ReadSym(b, t, i).value.nameAt == t.stroff + ReadU32(b, t.symoff + 16 * i)
  {
    hide ReadU32, FindNul, AnyNonZero;
  }

  /** Before the first renamed symbol nothing is appended. */
  lemma {:induction false} NothingBefore(p: Patch, syms: seq<Sym>, cfg: Config, defined: set<Name>, k: nat)
    requires k <= |syms| && InFile(p, syms) && forall j :: 0 <= j < k ==> !Renames(syms[j], cfg, defined)
    ensures Applied(p, syms, cfg, defined, k).strtab == p.strtab
  {
    hide Renames, PutU32, Low32, ExportOf, ScopedName, InFile;
    if k > 0 {
      NothingBefore(p, syms, cfg, defined, k - 1);
      assert p.strtab + [] == p.strtab;
    }
  }

  /** The grown table starts with the old one and the first new name. */
  lemma GrownStart(b: seq<byte>, o: Object, cfg: Config, defined: set<Name>)
    requires Parse(b) == Ok(o) && FirstNew(o.syms, cfg, defined).Some?
    ensures b[o.tab.stroff..o.tab.stroff + o.tab.strsize] + (FirstNew(o.syms, cfg, defined).value + [0])
         <= Final(b, o, cfg, defined).strtab
  {
    hide Parse, ReadSymtab, ReadSyms, ReadSym, Renames, ScopedName, Applied, FirstNew;
    SymsInFile(b, o);
    var p := Start(b, o.tab);
    var k := FirstNewIs(o.syms, cfg, defined);
    NothingBefore(p, o.syms, cfg, defined, k);
    NameAppended(p, o.syms, cfg, defined, k);
    TableGrows(p, o.syms, cfg, defined, k + 1, |o.syms|);
  }

  lemma NameUnique(b: seq<byte>, at: nat, n: Name, m: Name)
    requires NameIsAt(b, at, n) && NameIsAt(b, at, m)
    ensures n == m
  {
    NameIsFound(b, at, n);
    NameIsFound(b, at, m);
  }

  lemma SplitName(b: seq<byte>, at: nat, name: Name, cut: nat, rest: Name)
    requires cut <= |name| && rest == name[cut..] && at + cut <= |b| && b[at..at + cut] == name[..cut]
    ensures NameIsAt(b, at, name) <==> NameIsAt(b, at + cut, rest)
  {
    if at + |name| < |b| {
      assert b[at..at + |name|] == b[at..at + cut] + b[at + cut..at + |name|];
      assert name == name[..cut] + rest;
      assert b[at..at + |name|][cut..] == b[at + cut..at + |name|];
    }
  }

  /** A name stands in a table that was grown by `first` exactly when it fits. */
  lemma SymStands(b: seq<byte>, from: nat, stop: nat, table: seq<byte>, s: Sym, first: Name)
    requires from <= s.nameAt < stop <= |b| && NameIsAt(b, s.nameAt, s.name)
    requires b[from..stop] + (first + [0]) <= table
    ensures NameIsAt(table, s.nameAt - from, s.name) <==> Fits(s, stop, first)
  {
    hide NameIsAt;
    var was := b[from..stop];
    assert was <= table;
    if s.nameAt + |s.name| < stop {
      InsideTable(b, from, stop, s.nameAt, s.name);
      NameInLonger(was, table, s.nameAt - from, s.name);
    } else {
      var cut := stop - s.nameAt;
      var rest: Name := s.name[cut..];
      OverrunCut(b, from, stop, table, s.nameAt, s.name);
      SplitName(table, s.nameAt - from, s.name, cut, rest);
      EntryIsName(was, first);
      NameInLonger(was + (first + [0]), table, |was|, first);
      if NameIsAt(table, |was|, rest) {
        NameUnique(table, |was|, rest, first);
      }
    }
  }

  lemma OverrunCut(b: seq<byte>, from: nat, stop: nat, table: seq<byte>, at: nat, name: Name)
    requires from <= at < stop <= |b| && stop <= at + |name| && NameIsAt(b, at, name) && b[from..stop] <= table
    ensures table[at - from..stop - from] == name[..stop - at]
  {
    var l, r := table[at - from..stop - from], name[..stop - at];
    assert |l| == |r|;
    forall k | 0 <= k < |l| ensures l[k] == r[k] {
      assert l[k] == b[from..stop][at - from + k] == b[at + k] == b[at..at + |name|][k];
    }
  }

  /** The names that stay stand in the grown table exactly when they fit the old one. */
  lemma NamesStandExactly(b: seq<byte>, o: Object, cfg: Config, defined: set<Name>)
    requires Parse(b) == Ok(o) && FirstNew(o.syms, cfg, defined).Some?
    ensures NamesStand(b, o, cfg, defined) <==> NamesFit(o, cfg, defined, FirstNew(o.syms, cfg, defined).value)
  {
    hide Parse, ReadSymtab, ReadSyms, ReadSym, Renames, FirstNew, Final, NameIsAt, Fits;
    GrownStart(b, o, cfg, defined);
    forall s | s in o.syms
      ensures s.nameAt >= o.tab.stroff
      ensures NameIsAt(Final(b, o, cfg, defined).strtab, s.nameAt - o.tab.stroff, s.name)
        <==> Fits(s, o.tab.stroff + o.tab.strsize, FirstNew(o.syms, cfg, defined).value)
    {
      var i :| 0 <= i < |o.syms| && o.syms[i] == s;
      assert ReadSym(b, o.tab, i) == Ok(s);
      SymStands(b, o.tab.stroff, o.tab.stroff + o.tab.strsize, Final(b, o, cfg, defined).strtab, s,
                FirstNew(o.syms, cfg, defined).value);
    }
  }

  /** Names that end inside the string table, as a linker expects, fit. */
  lemma InsideFits(o: Object, cfg: Config, defined: set<Name>, first: Name)
    requires forall s :: s in o.syms && !Renames(s, cfg, defined) ==> s.nameAt + |s.name| < o.tab.stroff + o.tab.strsize
    ensures NamesFit(o, cfg, defined, first)
  {
  }

  lemma InsideTable(b: seq<byte>, from: nat, to: nat, at: nat, name: Name)
    requires from <= at && at + |name| < to <= |b| && NameIsAt(b, at, name)
    ensures NameIsAt(b[from..to], at - from, name)
  {
    SubSlice(b, from, to, at - from, at - from + |name|);
  }

  lemma NameInTail(c: seq<byte>, from: nat, table: seq<byte>, strx: nat, name: Name)
    requires from <= |c| && c[from..] == table && NameIsAt(table, strx, name)
    ensures NameIsAt(c, from + strx, name)
  {
    assert c[from + strx..from + strx + |name|] == table[strx..strx + |name|];
    assert c[from + strx + |name|] == table[strx + |name|];
  }

  lemma SymBack(b: seq<byte>, o: Object, cfg: Config, defined: set<Name>, i: nat) returns (t: Sym)
    requires Parse(b) == Ok(o) && Laid(b, o, cfg, defined) && NamesStand(b, o, cfg, defined) && i < |o.syms|
    ensures var c, tab := Output(b, o, cfg, defined), OutputTab(b, o, cfg, defined);
      && tab.symoff + 16 * tab.nsyms <= |c| && tab.stroff + tab.strsize <= |c| && i < tab.nsyms
      && ReadSym(c, tab, i) == Ok(t) && Succeeds(o.syms[i], t, cfg, defined)
  {
    hide Applied, Final, ReadSyms, ReadSymtab, Parse, Renames, NewName, Laid, NamesStand, Output, ReadU32, FindNul, AnyNonZero, NameIsAt;
    SymsInFile(b, o);
    OutputBytes(b, o, cfg, defined);
    FieldsBack(b, o, cfg, defined, i);
    NameBack(b, o, cfg, defined, i);
    var s := o.syms[i];
    assert ReadSym(b, o.tab, i) == Ok(s);
    var c, table := Output(b, o, cfg, defined), Final(b, o, cfg, defined).strtab;
    var strx, name := ReadU32(c, s.at), NewName(s, cfg, defined);
    NameInTail(c, |b|, table, strx, name);
    NameBound(table, strx, name);
    ReadSymIs(c, OutputTab(b, o, cfg, defined), i, name);
    t := Sym(s.at, |b| + strx, name, s.nType, s.common);
  }

  lemma NameBound(table: seq<byte>, strx: nat, name: Name)
    requires NameIsAt(table, strx, name)
    ensures strx < |table|
  {
  }

  lemma TabBack(b: seq<byte>, o: Object, cfg: Config, defined: set<Name>)
    requires Parse(b) == Ok(o) && Laid(b, o, cfg, defined)
    ensures ReadSymtab(Output(b, o, cfg, defined)) == Ok(OutputTab(b, o, cfg, defined))
  {
    hide PutU32, Applied, LeBytes, LeValue, FindCommand, ReadSym, ReadSyms, Output, Renames;
    SymsInFile(b, o);
    OutputBytes(b, o, cfg, defined);
    var c, lc := Output(b, o, cfg, defined), o.tab.lc;
    forall k | 0 <= k < lc + 16 ensures c[k] == b[k] {
      BytesKept(Start(b, o.tab), o.syms, cfg, defined, k, |o.syms|);
    }
    SameRange(b, c, lc + 16, 0);
    SameRange(b, c, lc + 16, 16);
    SameRange(b, c, lc + 16, lc + 8);
    SameRange(b, c, lc + 16, lc + 12);
    FindCommandFrame(b, c, 32, ReadU32(b, 16));
    LeRoundTrip(|b|);
    LeRoundTrip(|Final(b, o, cfg, defined).strtab|);
  }

  lemma SameRange(b: seq<byte>, c: seq<byte>, n: nat, at: nat)
    requires at + 4 <= n <= |b| && n <= |c| && forall k :: 0 <= k < n ==> c[k] == b[k]
    ensures c[at..at + 4] == b[at..at + 4]
  {
  }

  /** Reading a scoped object back succeeds and yields the same entries in the
      same order, with the same type and value class, each under exactly its
      new name, although the string table moved to the end of the file. */
  lemma ParseBack(b: seq<byte>, o: Object, cfg: Config, defined: set<Name>) returns (u: Object)
    requires Parse(b) == Ok(o) && Relocatable(b, o, cfg, defined)
    ensures ReadsBack(b, o, u, cfg, defined)
  {
    hide Final, Renames, ReadSym, ReadSymtab, ReadSyms, Laid, NamesStand, NamesFit, FirstNew, Output, OutputTab, ScopeObject, Parse;
    Frame(b, o, cfg, defined);
    OutputIs(b, o, cfg, defined);
    var k := FirstNewIs(o.syms, cfg, defined);
    if ScopeObject(b, cfg, defined).value.renamed == 0 {
      u := o;
    } else {
      NamesStandExactly(b, o, cfg, defined);
      u := OutputObject(b, o, cfg, defined);
    }
  }

  lemma OutputIs(b: seq<byte>, o: Object, cfg: Config, defined: set<Name>)
    requires Parse(b) == Ok(o)
    ensures ScopeObject(b, cfg, defined).Ok?
    ensures ScopeObject(b, cfg, defined).value.renamed > 0
        ==> ScopeObject(b, cfg, defined).value.bytes == Output(b, o, cfg, defined)
  {
    hide Applied, Relocate, ReadSym, ReadSyms, ReadSymtab, Parse;
  }

  lemma OutputObject(b: seq<byte>, o: Object, cfg: Config, defined: set<Name>) returns (u: Object)
    requires Parse(b) == Ok(o) && Laid(b, o, cfg, defined) && NamesStand(b, o, cfg, defined)
    ensures Parse(Output(b, o, cfg, defined)) == Ok(u)
    ensures ScopedView(o, u, cfg, defined)
  {
    hide Final, Succeeds, Renames, ReadSym, ReadSymtab, ReadSyms, Laid, NamesStand, Output, Parse;
    var c, tab := Output(b, o, cfg, defined), OutputTab(b, o, cfg, defined);
    TabBack(b, o, cfg, defined);
    var syms: seq<Sym> := [];
    for i := 0 to |o.syms|
      invariant |syms| == i
      invariant forall j :: 0 <= j < i ==> ReadSym(c, tab, j) == Ok(syms[j]) && Succeeds(o.syms[j], syms[j], cfg, defined)
    {
      var t := SymBack(b, o, cfg, defined, i);
      syms := syms + [t];
    }
    u := Object(tab, syms);
    ParseIs(c, u);
  }

  /** The condition on the names is exact: where the layout is as expected, the
      scoped object reads back as it should if and only if nothing is renamed
      or every name that stays fits its string table. */
  lemma ParseBackExactly(b: seq<byte>, o: Object, cfg: Config, defined: set<Name>)
    requires Parse(b) == Ok(o) && Laid(b, o, cfg, defined)
    ensures (exists u :: ReadsBack(b, o, u, cfg, defined)) <==> Relocatable(b, o, cfg, defined)
  {
    hide Final, Renames, ReadSym, ReadSymtab, ReadSyms, Laid, Output, OutputTab, ScopeObject, Parse, NamesStand, NamesFit,
      FirstNew, ReadsBack;
    var k := FirstNewIs(o.syms, cfg, defined);
    if Relocatable(b, o, cfg, defined) {
      var u := ParseBack(b, o, cfg, defined);
      assert ReadsBack(b, o, u, cfg, defined);
    }
    if u :| ReadsBack(b, o, u, cfg, defined) {
      if FirstNew(o.syms, cfg, defined).Some? {
        assert o.syms[k] in o.syms;
        ReadBackStands(b, o, cfg, defined, u);
        NamesStandExactly(b, o, cfg, defined);
      }
    }
  }

  lemma ReadBackStands(b: seq<byte>, o: Object, cfg: Config, defined: set<Name>, u: Object)
    requires Parse(b) == Ok(o) && Laid(b, o, cfg, defined) && ReadsBack(b, o, u, cfg, defined)
    requires exists s :: s in o.syms && Renames(s, cfg, defined)
    ensures NamesStand(b, o, cfg, defined)
  {
    hide Final, Renames, ReadSym, ReadSymtab, ReadSyms, Laid, Output, ScopeObject, Parse, NameIsAt;
    Frame(b, o, cfg, defined);
    OutputIs(b, o, cfg, defined);
    TabBack(b, o, cfg, defined);
    var c := Output(b, o, cfg, defined);
    assert Parse(c) == Ok(u);
    forall s | s in o.syms && !Renames(s, cfg, defined) && s.nameAt >= o.tab.stroff
      ensures NameIsAt(Final(b, o, cfg, defined).strtab, s.nameAt - o.tab.stroff, s.name)
    {
      var k :| 0 <= k < |o.syms| && o.syms[k] == s;
      assert Succeeds(s, u.syms[k], cfg, defined);
      OneStands(b, o, cfg, defined, u, k);
    }
  }

  lemma OneStands(b: seq<byte>, o: Object, cfg: Config, defined: set<Name>, u: Object, k: nat)
    requires Parse(b) == Ok(o) && Laid(b, o, cfg, defined) && k < |o.syms| == |u.syms|
    requires Parse(Output(b, o, cfg, defined)) == Ok(u) && u.tab == OutputTab(b, o, cfg, defined)
    requires !Renames(o.syms[k], cfg, defined) && u.syms[k].name == o.syms[k].name
    ensures o.syms[k].nameAt >= o.tab.stroff
    ensures NameIsAt(Final(b, o, cfg, defined).strtab, o.syms[k].nameAt - o.tab.stroff, o.syms[k].name)
  {
    hide Applied, Renames, ReadSym, ReadSymtab, ReadSyms, Laid, Output, Parse, NameIsAt, ReadU32, PutU32, LeBytes, Low32;
    SymsInFile(b, o);
    OutputBytes(b, o, cfg, defined);
    var s, c, q := o.syms[k], Output(b, o, cfg, defined), Final(b, o, cfg, defined);
    StrxField(Start(b, o.tab), o.syms, cfg, defined, k, |o.syms|);
    LaidIs(b, o, cfg, defined);
    SamePlace(c, q.out, |b|, o.tab.lc, s.at);
    SameField(b, c, s.at);
    assert ReadSym(b, o.tab, k) == Ok(s) && ReadSym(c, u.tab, k) == Ok(u.syms[k]);
    OldOffset(b, o.tab, k);
    OldOffset(c, u.tab, k);
    NameFromTail(c, |b|, q.strtab, s.nameAt - o.tab.stroff, s.name);
  }

  /** A field behind the command is the same in two files that differ only in two of its fields. */
  lemma SamePlace(c: seq<byte>, q: seq<byte>, n: nat, lc: nat, at: nat)
    requires lc + 24 <= at && at + 4 <= n == |q| && n <= |c|
    requires forall k :: 0 <= k < n && !(lc + 16 <= k < lc + 24) ==> c[k] == q[k]
    ensures c[at..at + 4] == q[at..at + 4]
  {
  }

  lemma LaidIs(b: seq<byte>, o: Object, cfg: Config, defined: set<Name>)
    requires Parse(b) == Ok(o) && Laid(b, o, cfg, defined)
    ensures o.tab.symoff >= o.tab.lc + 24
  {
  }

  lemma SameField(b: seq<byte>, c: seq<byte>, at: nat)
    requires at + 4 <= |b| && at + 4 <= |c| && b[at..at + 4] == c[at..at + 4]
    ensures ReadU32(b, at) == ReadU32(c, at)
  {
  }

  lemma NameFromTail(c: seq<byte>, from: nat, table: seq<byte>, strx: nat, name: Name)
    requires from <= |c| && c[from..] == table && NameIsAt(c, from + strx, name)
    ensures NameIsAt(table, strx, name)
  {
    SubSlice(c, from, |c|, strx, strx + |name|);
    assert c[from + strx + |name|] == table[strx + |name|];
  }
}
