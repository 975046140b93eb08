/** The two passes over a whole Mach-O archive, and the archive they write. */
module Pipeline {
  import opened Wrappers
  import opened Bytes
  import opened Utf8
  import M = MachO
  import S = Scope
  import P = ScopeProofs
  import L = Linking
  import opened Archive
  import opened ArchiveProofs
  import opened ArchiveReader
  import opened IndexReader
  import opened ArchiveRoundTrip

  /** An input member, as the archive parser hands it over. */
  datatype Input = Input(name: seq<byte>, data: seq<byte>)

  /** Pass A over the first `n` members; a member that does not parse adds no name. */
  function PassA(inputs: seq<Input>, keep: M.Name, n: nat): set<M.Name>
    requires n <= |inputs|
  {
    if n == 0 then {}
    else
      var d := S.Defined(inputs[n - 1].data, keep);
      PassA(inputs, keep, n - 1) + (if d.Ok? then d.value else {})
  }

  function Pad4(data: seq<byte>): (r: seq<byte>)
    ensures |r| % 4 == 0 && data <= r
  {
    data + Fill(0, (4 - |data| % 4) % 4)
  }

  /** One member of pass B: scoped, or passed through when it has no symbol table. */
  function Rewrite(m: Input, cfg: S.Config, defined: set<M.Name>): Result<Member, M.Error> {
    if S.Defined(m.data, cfg.keep) == Err(M.NoSymtab) then Ok(Member(m.name, Pad4(m.data), []))
    else
      var r :- S.ScopeObject(m.data, cfg, defined);
      Ok(Member(m.name, Pad4(r.bytes), r.exported))
  }

  function PassB(inputs: seq<Input>, cfg: S.Config, defined: set<M.Name>, n: nat): Result<seq<Member>, M.Error>
    requires n <= |inputs|
  {
    if n == 0 then Ok([])
    else
      var init :- PassB(inputs, cfg, defined, n - 1);
      var m :- Rewrite(inputs[n - 1], cfg, defined);
      Ok(init + [m])
  }

  /** The members of pass B are the inputs, rewritten one by one. */
  lemma {:induction false} PassBIs(inputs: seq<Input>, cfg: S.Config, defined: set<M.Name>, n: nat)
    requires n <= |inputs| && PassB(inputs, cfg, defined, n).Ok?
    ensures var members := PassB(inputs, cfg, defined, n).value;
      |members| == n && forall i :: 0 <= i < n ==> Rewrite(inputs[i], cfg, defined) == Ok(members[i])
  {
    hide Rewrite;
    if n > 0 {
      PassBIs(inputs, cfg, defined, n - 1);
    }
  }

  /** The index form follows the first member whose symbol table reads. */
  predicate IsMachO(inputs: seq<Input>, keep: M.Name) {
    exists i :: 0 <= i < |inputs| && S.Defined(inputs[i].data, keep).Ok?
  }

  /** The archive `run` writes. */
  function Run(inputs: seq<Input>, cfg: S.Config): Result<seq<byte>, M.Error> {
    var members :- PassB(inputs, cfg, PassA(inputs, cfg.keep, |inputs|), |inputs|);
    Ok(ArchiveBytes(members, IsMachO(inputs, cfg.keep)))
  }

  method CollectPassA(inputs: seq<Input>, keep: M.Name) returns (defined: set<M.Name>)
    ensures defined == PassA(inputs, keep, |inputs|)
  {
    hide S.Defined;
    defined := {};
    for i := 0 to |inputs|
      invariant defined == PassA(inputs, keep, i)
    {
      var d := S.CollectDefined(inputs[i].data, keep);
      if d.Ok? {
        defined := defined + d.value;
      }
    }
  }

  method RewriteMember(m: Input, cfg: S.Config, defined: set<M.Name>) returns (r: Result<Member, M.Error>)
    ensures r == Rewrite(m, cfg, defined)
  {
    hide S.ScopeObject, S.Defined;
    var d := S.CollectDefined(m.data, cfg.keep);
    if d == Err(M.NoSymtab) {
      return Ok(Member(m.name, Pad4(m.data), []));
    }
    var scoped :- S.RewriteObject(m.data, cfg, defined);
    return Ok(Member(m.name, Pad4(scoped.bytes), scoped.exported));
  }

  lemma {:induction false} PassBFails(inputs: seq<Input>, cfg: S.Config, defined: set<M.Name>, m: nat, n: nat)
    requires m <= n <= |inputs| && PassB(inputs, cfg, defined, m).Err?
    ensures PassB(inputs, cfg, defined, n) == PassB(inputs, cfg, defined, m)
    decreases n
  {
    hide Rewrite;
    if m < n {
      PassBFails(inputs, cfg, defined, m, n - 1);
    }
  }

  method RunArchive(inputs: seq<Input>, cfg: S.Config) returns (r: Result<seq<byte>, M.Error>)
    ensures r == Run(inputs, cfg)
  {
    hide Rewrite, PassA, ArchiveBytes;
    var defined := CollectPassA(inputs, cfg.keep);
    var members: seq<Member> := [];
    for i := 0 to |inputs|
      invariant PassB(inputs, cfg, defined, i) == Ok(members)
    {
      var m := RewriteMember(inputs[i], cfg, defined);
      if m.Err? {
        PassBFails(inputs, cfg, defined, i + 1, |inputs|);
        return Err(m.error);
      }
      members := members + [m.value];
    }
    var bsd := DetectMachO(inputs, cfg.keep);
    var out := WriteArchive(members, bsd);
    return Ok(out.written);
  }

  method DetectMachO(inputs: seq<Input>, keep: M.Name) returns (isMacho: bool)
    ensures isMacho == IsMachO(inputs, keep)
  {
    hide S.Defined;
    isMacho := false;
    for i := 0 to |inputs|
      invariant !isMacho && forall j :: 0 <= j < i ==> !S.Defined(inputs[j].data, keep).Ok?
    {
      var d := S.CollectDefined(inputs[i].data, keep);
      if d.Ok? {
        isMacho := true;
        break;
      }
    }
  }

  // ---- every archive the tool writes ---------------------------------------

  /** In every BSD archive the tool writes whose member sizes, the index
      included, stay below ten digits, both member walks agree and end at the
      end of the file. */
  lemma WrittenArchivesWalk(inputs: seq<Input>, cfg: S.Config) returns (members: seq<Member>)
    requires Run(inputs, cfg).Ok? && IsMachO(inputs, cfg.keep)
    ensures Run(inputs, cfg).value == ArchiveBytes(members, true)
    ensures AllPadded(members)
    ensures AllFit(members, true) ==>
      var b := Run(inputs, cfg).value; Walk(b, 8, 2) == Walk(b, 8, 4) == [8] + Stops(members, true, 0)
  {
    hide Rewrite, PassA, ArchiveBytes, AllFit, Stops, Walk, IsMachO;
    var defined := PassA(inputs, cfg.keep, |inputs|);
    members := PassB(inputs, cfg, defined, |inputs|).value;
    PassBIs(inputs, cfg, defined, |inputs|);
    forall i | 0 <= i < |members| ensures |members[i].data| % 4 == 0 {
      assert Rewrite(inputs[i], cfg, defined) == Ok(members[i]);
      RewriteIsPadded(inputs[i], cfg, defined);
    }
    if AllFit(members, true) {
      WalksAgree(members);
    }
  }

  lemma RewriteIsPadded(m: Input, cfg: S.Config, defined: set<M.Name>)
    requires Rewrite(m, cfg, defined).Ok?
    ensures |Rewrite(m, cfg, defined).value.data| % 4 == 0
    ensures Rewrite(m, cfg, defined).value.name == m.name
  {
    hide S.ScopeObject, S.Defined;
  }

  /** The members that parse, as objects. */
  function Parsed(inputs: seq<Input>, n: nat): seq<M.Object>
    requires n <= |inputs|
  {
    if n == 0 then []
    else
      var o := M.Parse(inputs[n - 1].data);
      Parsed(inputs, n - 1) + (if o.Ok? then [o.value] else [])
  }

  /** Pass A collects the rename set of the whole archive. */
  lemma {:induction false} PassAIsArchiveWide(inputs: seq<Input>, keep: M.Name, n: nat)
    requires n <= |inputs|
    ensures PassA(inputs, keep, n) == L.ArchiveDefined(Parsed(inputs, n), keep)
  {
    hide M.Parse, S.DefinedNames;
    if n > 0 {
      PassAIsArchiveWide(inputs, keep, n - 1);
      var o, before := M.Parse(inputs[n - 1].data), Parsed(inputs, n - 1);
      if o.Ok? {
        assert (before + [o.value])[..|before|] == before;
      } else {
        assert Parsed(inputs, n) == before;
      }
    }
  }

  // ---- scoping a scoped archive --------------------------------------------

  function AsInputs(members: seq<Member>): (r: seq<Input>)
    ensures |r| == |members|
  {
    seq(|members|, i requires 0 <= i < |members| => Input(members[i].name, members[i].data))
  }

  /** A member whose object the relocation is written for, or one without symbols. */
  ghost predicate Scopable(m: Input, cfg: S.Config, defined: set<M.Name>) {
    var o := M.Parse(m.data);
    o.Ok? ==> P.Relocatable(m.data, o.value, cfg, defined)
  }

  lemma PadTwice(data: seq<byte>)
    ensures Pad4(Pad4(data)) == Pad4(data)
  {
    var p := Pad4(data);
    assert Fill(0, (4 - |p| % 4) % 4) == [];
  }

  lemma PadIsSlack(data: seq<byte>) returns (z: seq<byte>)
    ensures Pad4(data) == data + z
  {
    z := Fill(0, (4 - |data| % 4) % 4);
  }

  /** A member without a symbol table has none after padding. */
  lemma NoSymtabStays(data: seq<byte>, keep: M.Name)
    requires S.Defined(data, keep) == Err(M.NoSymtab)
    ensures S.Defined(Pad4(data), keep) == Err(M.NoSymtab)
  {
    hide LeValue, M.ReadSyms, M.FindCommand;
    var z := PadIsSlack(data);
    var t := M.ReadSymtab(data);
    NoSymsError(data, keep);
    assert (data + z)[0..4] == data[0..4] && (data + z)[16..20] == data[16..20];
    M.NoCommandFrame(data, z, 32, ReadU32(data, 16));
  }

  lemma NoSymsError(data: seq<byte>, keep: M.Name)
    requires S.Defined(data, keep) == Err(M.NoSymtab)
    ensures |data| >= 32 && ReadU32(data, 0) == M.MH_MAGIC_64
    ensures M.FindCommand(data, 32, ReadU32(data, 16)) == Err(M.NoSymtab)
  {
    hide LeValue, M.FindCommand, ReadU32;
    var t := M.ReadSymtab(data);
    if t.Ok? {
      SymsErrors(data, t.value, t.value.nsyms);
    }
  }

  lemma {:induction false} SymsErrors(b: seq<byte>, t: M.Symtab, n: nat)
    requires n <= t.nsyms && t.symoff + 16 * t.nsyms <= |b| && t.stroff + t.strsize <= |b|
    ensures M.ReadSyms(b, t, n) != Err(M.NoSymtab)
  {
    hide ReadU32, FindNul, M.AnyNonZero;
    if n > 0 {
      SymsErrors(b, t, n - 1);
    }
  }

  /** The archive-index names of the first `n` symbols. */
  function ExportsOf(syms: seq<M.Sym>, cfg: S.Config, n: nat): seq<M.Name>
    requires n <= |syms|
  {
    if n == 0 then [] else ExportsOf(syms, cfg, n - 1) + S.ExportOf(syms[n - 1], cfg)
  }

  lemma {:induction false} ExportedAre(p: S.Patch, syms: seq<M.Sym>, cfg: S.Config, defined: set<M.Name>, n: nat)
    requires n <= |syms| && S.InFile(p, syms)
    ensures S.Applied(p, syms, cfg, defined, n).exported == p.exported + ExportsOf(syms, cfg, n)
  {
    hide PutU32, S.Renames, S.TableEntry, S.ExportOf, S.InFile;
    if n > 0 {
      ExportedAre(p, syms, cfg, defined, n - 1);
    }
  }

  lemma ExportStays(s: M.Sym, u: M.Sym, cfg: S.Config, defined: set<M.Name>)
    requires P.Succeeds(s, u, cfg, defined) && L.PrefixIsKept(cfg)
    ensures S.ExportOf(u, cfg) == S.ExportOf(s, cfg)
  {
    hide IsUtf8, Lossy, S.RenamesDef, S.Trim;
    if s.IsDef() && s.IsVisible() && S.RenamesDef(s.name, cfg.keep) {
      L.ScopedNameIsKept(s.name, cfg);
      LossyIsUtf8(s.name);
      ConcatUtf8(cfg.prefix, Lossy(s.name));
      LossyIsIdentityOnUtf8(S.ScopedName(s.name, cfg.prefix));
    }
  }

  lemma {:induction false} ExportsStay(o: M.Object, u: M.Object, cfg: S.Config, defined: set<M.Name>, n: nat)
    requires P.ScopedView(o, u, cfg, defined) && L.PrefixIsKept(cfg) && n <= |o.syms|
    ensures ExportsOf(u.syms, cfg, n) == ExportsOf(o.syms, cfg, n)
  {
    hide P.Succeeds, L.PrefixIsKept, S.ExportOf;
    if n > 0 {
      ExportsStay(o, u, cfg, defined, n - 1);
      ExportStays(o.syms[n - 1], u.syms[n - 1], cfg, defined);
    }
  }

  lemma ScopedExports(b: seq<byte>, o: M.Object, cfg: S.Config, defined: set<M.Name>)
    requires M.Parse(b) == Ok(o)
    ensures S.ScopeObject(b, cfg, defined).Ok?
    ensures S.ScopeObject(b, cfg, defined).value.exported == ExportsOf(o.syms, cfg, |o.syms|)
  {
    hide M.Parse, S.Applied, S.Relocate;
    S.SymsInFile(b, o);
    ExportedAre(S.Start(b, o.tab), o.syms, cfg, defined, |o.syms|);
  }

  /** No symbol of a scoped object is renamed again. */
  lemma NothingRenamed(o: M.Object, u: M.Object, cfg: S.Config, defined: set<M.Name>)
    requires P.ScopedView(o, u, cfg, defined) && L.PrefixIsKept(cfg)
    ensures forall t :: t in u.syms ==> !S.Renames(t, cfg, {}) && !S.RenamedDef(t, cfg.keep)
    ensures S.DefinedNames(u.syms, cfg.keep) == {}
  {
    hide S.RenamesDef, S.LossyName, S.ScopedName, L.PrefixIsKept, S.DefinedNames;
    forall t | t in u.syms ensures !S.Renames(t, cfg, {}) && !S.RenamedDef(t, cfg.keep) {
      var k :| 0 <= k < |u.syms| && u.syms[k] == t;
      assert P.Succeeds(o.syms[k], t, cfg, defined);
      L.ScopedNameIsKept(o.syms[k].name, cfg);
    }
    forall x: M.Name ensures x !in S.DefinedNames(u.syms, cfg.keep) {
      S.DefinedNamesAre(u.syms, cfg.keep, x);
    }
  }

  /** A rewritten member defines nothing to rename, and rewriting it again returns it unchanged. */
  lemma RewriteTwice(m: Input, cfg: S.Config, defined: set<M.Name>)
    requires L.PrefixIsKept(cfg) && Scopable(m, cfg, defined) && Rewrite(m, cfg, defined).Ok?
    ensures var r := Rewrite(m, cfg, defined).value;
      && (S.Defined(m.data, cfg.keep).Ok? <==> S.Defined(r.data, cfg.keep).Ok?)
      && (S.Defined(r.data, cfg.keep).Ok? ==> S.Defined(r.data, cfg.keep).value == {})
      && Rewrite(Input(r.name, r.data), cfg, {}) == Ok(r)
  {
    hide L.PrefixIsKept, S.ScopeObject, M.Parse, P.Relocatable, P.ScopedView, Pad4, S.DefinedNames;
    if S.Defined(m.data, cfg.keep) == Err(M.NoSymtab) {
      NoSymtabStays(m.data, cfg.keep);
      PadTwice(m.data);
    } else {
      ScopeFailsWithParse(m.data, cfg, defined);
      ScopedTwice(m.data, M.Parse(m.data).value, cfg, defined);
    }
  }

  lemma ScopeFailsWithParse(b: seq<byte>, cfg: S.Config, defined: set<M.Name>)
    ensures S.ScopeObject(b, cfg, defined).Ok? <==> M.Parse(b).Ok?
  {
    hide M.Parse, S.Applied, S.Relocate;
  }

  lemma ScopedTwice(b: seq<byte>, o: M.Object, cfg: S.Config, defined: set<M.Name>)
    requires M.Parse(b) == Ok(o) && P.Relocatable(b, o, cfg, defined) && L.PrefixIsKept(cfg)
    ensures S.ScopeObject(b, cfg, defined).Ok?
    ensures var first := S.ScopeObject(b, cfg, defined).value;
      var padded := Pad4(first.bytes);
      var again := S.ScopeObject(padded, cfg, {});
      && S.Defined(padded, cfg.keep) == Ok({})
      && again.Ok? && Pad4(again.value.bytes) == padded && again.value.exported == first.exported
  {
    hide L.PrefixIsKept, S.ScopeObject, M.Parse, P.Relocatable, P.ScopedView, Pad4, S.DefinedNames, S.Renames, S.RenamedDef;
    var u := P.ParseBack(b, o, cfg, defined);
    var first := S.ScopeObject(b, cfg, defined).value;
    var z := PadIsSlack(first.bytes);
    M.TrailingSlack(first.bytes, z);
    NothingRenamed(o, u, cfg, defined);
    P.Frame(first.bytes + z, u, cfg, {});
    PadTwice(first.bytes);
    ScopedExports(b, o, cfg, defined);
    ScopedExports(first.bytes + z, u, cfg, {});
    ViewLength(o, u, cfg, defined);
    ExportsStay(o, u, cfg, defined, |o.syms|);
  }

  lemma ViewLength(o: M.Object, u: M.Object, cfg: S.Config, defined: set<M.Name>)
    requires P.ScopedView(o, u, cfg, defined)
    ensures |u.syms| == |o.syms|
  {
  }

  lemma {:induction false} PassATwice(inputs: seq<Input>, members: seq<Member>, cfg: S.Config, defined: set<M.Name>, n: nat)
    requires L.PrefixIsKept(cfg) && n <= |inputs| == |members|
    requires forall i :: 0 <= i < |inputs| ==> Scopable(inputs[i], cfg, defined)
    requires forall i :: 0 <= i < |inputs| ==> Rewrite(inputs[i], cfg, defined) == Ok(members[i])
    ensures PassA(AsInputs(members), cfg.keep, n) == {}
  {
    hide L.PrefixIsKept, Scopable, Rewrite, S.Defined;
    if n > 0 {
      PassATwice(inputs, members, cfg, defined, n - 1);
      RewriteTwice(inputs[n - 1], cfg, defined);
    }
  }

  lemma {:induction false} PassBTwice(inputs: seq<Input>, members: seq<Member>, cfg: S.Config, defined: set<M.Name>, n: nat)
    requires L.PrefixIsKept(cfg) && n <= |inputs| == |members|
    requires forall i :: 0 <= i < |inputs| ==> Scopable(inputs[i], cfg, defined)
    requires forall i :: 0 <= i < |inputs| ==> Rewrite(inputs[i], cfg, defined) == Ok(members[i])
    ensures PassB(AsInputs(members), cfg, {}, n) == Ok(members[..n])
  {
    hide L.PrefixIsKept, Scopable, Rewrite, S.Defined;
    if n > 0 {
      PassBTwice(inputs, members, cfg, defined, n - 1);
      RewriteTwice(inputs[n - 1], cfg, defined);
      assert members[..n] == members[..n - 1] + [members[n - 1]];
    }
  }

  /** Scoping the archive the tool wrote, as the independent reader takes it
      apart, writes the same file again, byte for byte. */
  lemma RescopeIsByteIdentical(inputs: seq<Input>, cfg: S.Config) returns (members: seq<Member>)
    requires Run(inputs, cfg).Ok? && L.PrefixIsKept(cfg)
    requires forall m :: m in inputs ==> Scopable(m, cfg, PassA(inputs, cfg.keep, |inputs|))
    ensures Run(inputs, cfg).value == ArchiveBytes(members, IsMachO(inputs, cfg.keep))
    ensures var bsd := IsMachO(inputs, cfg.keep);
      ReadFrom(Run(inputs, cfg).value, 8, None) == Ok(Records(members)) <==> AllFit(members, bsd) && AllReadable(members, bsd)
    ensures Run(AsInputs(members), cfg) == Run(inputs, cfg)
  {
    hide L.PrefixIsKept, Scopable, Rewrite, S.Defined, ArchiveBytes, AllFit, AllReadable, ReadFrom, IsMachO, PassA;
    var defined, bsd := PassA(inputs, cfg.keep, |inputs|), IsMachO(inputs, cfg.keep);
    members := PassB(inputs, cfg, defined, |inputs|).value;
    PassBIs(inputs, cfg, defined, |inputs|);
    PassATwice(inputs, members, cfg, defined, |inputs|);
    PassBTwice(inputs, members, cfg, defined, |inputs|);
    assert members[..|members|] == members;
    SameFormat(inputs, members, cfg, defined);
    ArchiveRoundTrips(members, bsd);
  }

  lemma SameFormat(inputs: seq<Input>, members: seq<Member>, cfg: S.Config, defined: set<M.Name>)
    requires L.PrefixIsKept(cfg) && |inputs| == |members|
    requires forall i :: 0 <= i < |inputs| ==> Scopable(inputs[i], cfg, defined)
    requires forall i :: 0 <= i < |inputs| ==> Rewrite(inputs[i], cfg, defined) == Ok(members[i])
    ensures IsMachO(AsInputs(members), cfg.keep) == IsMachO(inputs, cfg.keep)
  {
    hide L.PrefixIsKept, Scopable, Rewrite, S.Defined;
    forall i | 0 <= i < |inputs|
      ensures S.Defined(AsInputs(members)[i].data, cfg.keep).Ok? <==> S.Defined(inputs[i].data, cfg.keep).Ok?
    {
      RewriteTwice(inputs[i], cfg, defined);
    }
  }

  // ---- links, end to end ---------------------------------------------------

  /** The members an archive reader hands back, as inputs again. */
  function Reread(records: seq<Record>): (r: seq<Input>)
    ensures |r| == |records|
  {
    seq(|records|, i requires 0 <= i < |records| =>
      Input(records[i].name, if records[i].data.Some? then records[i].data.value else []))
  }

  lemma RereadIs(members: seq<Member>)
    ensures Reread(Records(members)) == AsInputs(members)
  {
  }

  /** A rewritten member parses exactly when its input does, and then as its scoped view. */
  lemma MemberView(m: Input, cfg: S.Config, defined: set<M.Name>)
    requires Scopable(m, cfg, defined) && Rewrite(m, cfg, defined).Ok?
    ensures var o, u := M.Parse(m.data), M.Parse(Rewrite(m, cfg, defined).value.data);
      (o.Ok? <==> u.Ok?) && (o.Ok? ==> P.ScopedView(o.value, u.value, cfg, defined))
  {
    hide S.ScopeObject, M.Parse, P.Relocatable, P.ScopedView, Pad4, S.DefinedNames;
    if S.Defined(m.data, cfg.keep) == Err(M.NoSymtab) {
      NoSymtabStays(m.data, cfg.keep);
    } else {
      ScopeFailsWithParse(m.data, cfg, defined);
      var u := P.ParseBack(m.data, M.Parse(m.data).value, cfg, defined);
      var out := S.ScopeObject(m.data, cfg, defined).value.bytes;
      var z := PadIsSlack(out);
      M.TrailingSlack(out, z);
    }
  }

  lemma {:induction false} ArchiveViews(inputs: seq<Input>, members: seq<Member>, cfg: S.Config, defined: set<M.Name>, n: nat)
    requires n <= |inputs| == |members|
    requires forall i :: 0 <= i < |inputs| ==> Scopable(inputs[i], cfg, defined)
    requires forall i :: 0 <= i < |inputs| ==> Rewrite(inputs[i], cfg, defined) == Ok(members[i])
    ensures var objs, scoped := Parsed(inputs, n), Parsed(AsInputs(members), n);
      |scoped| == |objs| && forall i :: 0 <= i < |objs| ==> P.ScopedView(objs[i], scoped[i], cfg, defined)
  {
    hide Scopable, Rewrite, M.Parse, P.ScopedView;
    if n > 0 {
      ArchiveViews(inputs, members, cfg, defined, n - 1);
      MemberView(inputs[n - 1], cfg, defined);
      assert AsInputs(members)[n - 1].data == members[n - 1].data;
    }
  }

  /** Every reference and visible definition of the objects binds as it did, whatever members they are in. */
  ghost predicate BoundAsBefore(objs: seq<M.Object>, scoped: seq<M.Object>) {
    && |scoped| == |objs|
    && forall i, j :: 0 <= i < |objs| && 0 <= j < |objs| ==> L.BindsAsBefore(objs[i], scoped[i], objs[j], scoped[j])
  }

  /** Link preservation end to end: the independent reader takes the written
      archive apart into members of the input's names; the objects among them
      are as many as in the input, and bind as the input's objects did if and
      only if the names of the input are separable. */
  lemma RunPreservesLinks(inputs: seq<Input>, cfg: S.Config) returns (records: seq<Record>)
    requires Run(inputs, cfg).Ok?
    requires forall m :: m in inputs ==> Scopable(m, cfg, PassA(inputs, cfg.keep, |inputs|))
    requires var members, bsd := PassB(inputs, cfg, PassA(inputs, cfg.keep, |inputs|), |inputs|).value, IsMachO(inputs, cfg.keep);
      AllFit(members, bsd) && AllReadable(members, bsd)
    ensures ReadFrom(Run(inputs, cfg).value, 8, None) == Ok(records)
    ensures |records| == |inputs| && forall i :: 0 <= i < |inputs| ==> records[i].name == inputs[i].name && records[i].data.Some?
    ensures var objs, scoped := Parsed(inputs, |inputs|), Parsed(Reread(records), |records|);
      |scoped| == |objs| && (L.Separable(objs, cfg) <==> BoundAsBefore(objs, scoped))
  {
    hide Scopable, Rewrite, PassA, ArchiveBytes, AllFit, AllReadable, ReadFrom, IsMachO, P.ScopedView, L.Separable, L.LinksPreserved,
      L.BindsAsBefore, L.ArchiveDefined, Parsed;
    var defined, bsd := PassA(inputs, cfg.keep, |inputs|), IsMachO(inputs, cfg.keep);
    var members := PassB(inputs, cfg, defined, |inputs|).value;
    PassBIs(inputs, cfg, defined, |inputs|);
    records := Records(members);
    ArchiveRoundTrips(members, bsd);
    RereadIs(members);
    forall i | 0 <= i < |inputs| ensures records[i].name == inputs[i].name {
      assert Rewrite(inputs[i], cfg, defined) == Ok(members[i]);
      RewriteIsPadded(inputs[i], cfg, defined);
    }
    ArchiveViews(inputs, members, cfg, defined, |inputs|);
    var objs, scoped := Parsed(inputs, |inputs|), Parsed(AsInputs(members), |inputs|);
    PassAIsArchiveWide(inputs, cfg.keep, |inputs|);
    L.LinkPreservation(objs, cfg);
    L.BindingsAre(objs, scoped, cfg);
  }

  // ---- the index, end to end -----------------------------------------------

  /** The names of the visible definitions among the first `n` symbols. */
  function VisibleNames(syms: seq<M.Sym>, n: nat): seq<M.Name>
    requires n <= |syms|
  {
    if n == 0 then []
    else VisibleNames(syms, n - 1) + if L.VisibleDef(syms[n - 1]) then [syms[n - 1].name] else []
  }

  /** What a member defines, as its own object says. */
  function DefinedBy(data: seq<byte>): seq<M.Name> {
    var o := M.Parse(data);
    if o.Ok? then VisibleNames(o.value.syms, |o.value.syms|) else []
  }

  /** Every visible definition of the members from the first to the last, with its member. */
  function Definitions(inputs: seq<Input>, n: nat): seq<Export>
    requires n <= |inputs|
  {
    if n == 0 then [] else Definitions(inputs, n - 1) + OwnedBy(DefinedBy(inputs[n - 1].data), n - 1)
  }

  /** The index can spell the name of this symbol: only a kept visible definition may fail it. */
  predicate SpellableSym(s: M.Sym, cfg: S.Config) {
    L.VisibleDef(s) && !S.RenamesDef(s.name, cfg.keep) ==> IsUtf8(s.name)
  }

  /** The kept visible definitions have UTF-8 names. */
  ghost predicate Spellable(syms: seq<M.Sym>, cfg: S.Config) {
    forall s :: s in syms ==> SpellableSym(s, cfg)
  }

  ghost predicate SpellableInput(m: Input, cfg: S.Config) {
    var o := M.Parse(m.data);
    o.Ok? ==> Spellable(o.value.syms, cfg)
  }

  ghost predicate AllSpellable(inputs: seq<Input>, cfg: S.Config) {
    forall m :: m in inputs ==> SpellableInput(m, cfg)
  }

  lemma SpellableSnoc(syms: seq<M.Sym>, s: M.Sym, cfg: S.Config)
    ensures Spellable(syms + [s], cfg) <==> Spellable(syms, cfg) && SpellableSym(s, cfg)
  {
    hide SpellableSym;
    assert s in syms + [s];
    assert forall t :: t in syms ==> t in syms + [s];
  }

  lemma AllSpellableSnoc(inputs: seq<Input>, m: Input, cfg: S.Config)
    ensures AllSpellable(inputs + [m], cfg) <==> AllSpellable(inputs, cfg) && SpellableInput(m, cfg)
  {
    hide SpellableInput;
    assert m in inputs + [m];
    assert forall t :: t in inputs ==> t in inputs + [m];
  }

  /** One symbol's index name against the name it is read back under. */
  lemma OneExport(s: M.Sym, u: M.Sym, cfg: S.Config, defined: set<M.Name>)
    requires P.Succeeds(s, u, cfg, defined)
    ensures L.VisibleDef(u) == L.VisibleDef(s)
    ensures !L.VisibleDef(s) ==> S.ExportOf(s, cfg) == [] && SpellableSym(s, cfg)
    ensures L.VisibleDef(s) ==> |S.ExportOf(s, cfg)| == 1 && (S.ExportOf(s, cfg)[0] == u.name <==> SpellableSym(s, cfg))
  {
    hide S.RenamesDef, S.ScopedName, IsUtf8, Lossy;
    LossyIsIdentityOnUtf8(s.name);
  }

  lemma {:induction false} ExportsAreNames(o: M.Object, u: M.Object, cfg: S.Config, defined: set<M.Name>, n: nat)
    requires P.ScopedView(o, u, cfg, defined) && n <= |o.syms|
    ensures n <= |u.syms| && |ExportsOf(o.syms, cfg, n)| == |VisibleNames(u.syms, n)|
    ensures ExportsOf(o.syms, cfg, n) == VisibleNames(u.syms, n) <==> Spellable(o.syms[..n], cfg)
  {
    hide S.ExportOf, P.Succeeds, L.VisibleDef, Spellable, SpellableSym;
    if n == 0 {
      NoneToSpell(o.syms[..0], cfg);
    } else {
      var s, v := o.syms[n - 1], u.syms[n - 1];
      ExportsAreNames(o, u, cfg, defined, n - 1);
      OneExport(s, v, cfg, defined);
      assert o.syms[..n] == o.syms[..n - 1] + [s];
      SpellableSnoc(o.syms[..n - 1], s, cfg);
      if L.VisibleDef(s) {
        assert S.ExportOf(s, cfg) == [S.ExportOf(s, cfg)[0]];
        SnocEqual(ExportsOf(o.syms, cfg, n - 1), VisibleNames(u.syms, n - 1), S.ExportOf(s, cfg)[0], v.name);
      } else {
        assert ExportsOf(o.syms, cfg, n - 1) + [] == ExportsOf(o.syms, cfg, n - 1);
        assert VisibleNames(u.syms, n - 1) + [] == VisibleNames(u.syms, n - 1);
      }
    }
  }

  lemma NoneToSpell(syms: seq<M.Sym>, cfg: S.Config)
    requires syms == []
    ensures Spellable(syms, cfg)
  {
  }

  lemma SnocEqual(a: seq<M.Name>, b: seq<M.Name>, x: M.Name, y: M.Name)
    requires |a| == |b|
    ensures a + [x] == b + [y] <==> a == b && x == y
  {
    if a + [x] == b + [y] {
      assert a == (a + [x])[..|a|] && b == (b + [y])[..|b|];
      assert (a + [x])[|a|] == x;
    }
  }

  /** What the tool exports for a member is what the written member defines, exactly when that can be spelled. */
  lemma MemberExports(m: Input, cfg: S.Config, defined: set<M.Name>)
    requires Scopable(m, cfg, defined) && Rewrite(m, cfg, defined).Ok?
    ensures var r := Rewrite(m, cfg, defined).value;
      && |r.exported| == |DefinedBy(r.data)|
      && (r.exported == DefinedBy(r.data) <==> SpellableInput(m, cfg))
  {
    hide S.ScopeObject, M.Parse, P.Relocatable, P.ScopedView, Pad4, S.DefinedNames, Spellable, VisibleNames;
    MemberView(m, cfg, defined);
    if S.Defined(m.data, cfg.keep) == Err(M.NoSymtab) {
      NoSymtabStays(m.data, cfg.keep);
    } else {
      ScopeFailsWithParse(m.data, cfg, defined);
      var o, u := M.Parse(m.data).value, M.Parse(Rewrite(m, cfg, defined).value.data).value;
      ScopedExports(m.data, o, cfg, defined);
      ViewLength(o, u, cfg, defined);
      ExportsAreNames(o, u, cfg, defined, |o.syms|);
      assert o.syms[..|o.syms|] == o.syms;
    }
  }

  lemma {:induction false} ExportsAreDefinitions(inputs: seq<Input>, members: seq<Member>, cfg: S.Config, defined: set<M.Name>, n: nat)
    requires n <= |inputs| == |members|
    requires forall i :: 0 <= i < |inputs| ==> Scopable(inputs[i], cfg, defined)
    requires forall i :: 0 <= i < |inputs| ==> Rewrite(inputs[i], cfg, defined) == Ok(members[i])
    ensures |Exports(members, n)| == |Definitions(AsInputs(members), n)|
    ensures Exports(members, n) == Definitions(AsInputs(members), n) <==> AllSpellable(inputs[..n], cfg)
  {
    hide Scopable, Rewrite, M.Parse, SpellableInput, AllSpellable, DefinedBy, OwnedBy;
    if n == 0 {
      NoInputs(inputs[..0], cfg);
    } else {
      var m, r := inputs[n - 1], members[n - 1];
      ExportsAreDefinitions(inputs, members, cfg, defined, n - 1);
      MemberExports(m, cfg, defined);
      assert inputs[..n] == inputs[..n - 1] + [m];
      AllSpellableSnoc(inputs[..n - 1], m, cfg);
      assert AsInputs(members)[n - 1].data == r.data;
      OwnedEqual(Exports(members, n - 1), Definitions(AsInputs(members), n - 1), r.exported, DefinedBy(r.data), n - 1);
    }
  }

  lemma NoInputs(inputs: seq<Input>, cfg: S.Config)
    requires inputs == []
    ensures AllSpellable(inputs, cfg)
  {
  }

  lemma OwnedEqual(a: seq<Export>, b: seq<Export>, x: seq<seq<byte>>, y: seq<seq<byte>>, owner: nat)
    requires |a| == |b| && |x| == |y|
    ensures a + OwnedBy(x, owner) == b + OwnedBy(y, owner) <==> a == b && x == y
  {
    var l, r := a + OwnedBy(x, owner), b + OwnedBy(y, owner);
    if l == r {
      assert a == l[..|a|] && b == r[..|b|];
      forall k | 0 <= k < |x| ensures x[k] == y[k] {
        assert l[|a| + k] == OwnedBy(x, owner)[k] && r[|b| + k] == OwnedBy(y, owner)[k];
      }
    }
  }

  /** The index of the written archive, end to end: it has one entry for each
      visible definition of the members as they are read back. Entry `j` leads
      to the header of the member that holds the `j`-th of them, and its string
      is that definition's name, if and only if (over all entries) the kept
      definitions of the input have UTF-8 names. */
  lemma RunIndexes(inputs: seq<Input>, cfg: S.Config) returns (members: seq<Member>)
    requires Run(inputs, cfg).Ok?
    requires forall m :: m in inputs ==> Scopable(m, cfg, PassA(inputs, cfg.keep, |inputs|))
    ensures Run(inputs, cfg).value == ArchiveBytes(members, IsMachO(inputs, cfg.keep)) && |members| == |inputs|
    ensures |Exports(members, |members|)| == |Definitions(AsInputs(members), |members|)|
    ensures Exports(members, |members|) == Definitions(AsInputs(members), |members|) <==> AllSpellable(inputs, cfg)
  {
    hide Scopable, Rewrite, PassA, ArchiveBytes, IsMachO, AllSpellable, Exports, Definitions;
    var defined := PassA(inputs, cfg.keep, |inputs|);
    members := PassB(inputs, cfg, defined, |inputs|).value;
    PassBIs(inputs, cfg, defined, |inputs|);
    ExportsAreDefinitions(inputs, members, cfg, defined, |inputs|);
    assert inputs[..|inputs|] == inputs;
  }

  /** One definition of a written archive with spellable names, and its index entry. */
  lemma DefinitionIsIndexed(members: seq<Member>, bsd: bool, j: nat)
    requires IndexFits(members, bsd) && Exports(members, |members|) == Definitions(AsInputs(members), |members|)
    requires j < |Exports(members, |members|)|
    ensures var d, b, index := Definitions(AsInputs(members), |members|)[j], ArchiveBytes(members, bsd), Index(members, bsd);
      var start := StringsStart(members, bsd) + |Strings(Exports(members, |members|)[..j])|;
      && d.owner < |members|
      && (if bsd then 8 + 8 * j + 4 <= |index| else 4 + 4 * j + 4 <= |index|)
      && WrittenAt(b, EntryOffset(index, bsd, j), members[d.owner].name, members[d.owner].data, bsd)
      && start + |d.name| < |index| && index[start..start + |d.name| + 1] == d.name + [0]
  {
    hide WrittenAt, Index, ArchiveBytes, EntryOffset, Strings, Definitions, StringsStart, Exports, IndexFits, Prefix;
    IndexOffsets(members, bsd, j);
    IndexNames(members, bsd, j);
    MemberWrittenAt(members, bsd, Exports(members, |members|)[j].owner);
  }

  // ---- the index as its reader sees it -------------------------------------

  /** The names of the first `n` members' exports hold no NUL. */
  lemma {:induction false} ExportsEnd(inputs: seq<Input>, members: seq<Member>, cfg: S.Config, defined: set<M.Name>, n: nat)
    requires n <= |inputs| == |members|
    requires forall i :: 0 <= i < |inputs| ==> Rewrite(inputs[i], cfg, defined) == Ok(members[i])
    ensures forall j :: 0 <= j < |Exports(members, n)| ==> NulFree(Exports(members, n)[j].name)
  {
    hide Rewrite;
    if n > 0 {
      ExportsEnd(inputs, members, cfg, defined, n - 1);
      MemberExportsEnd(inputs[n - 1], cfg, defined);
      assert Rewrite(inputs[n - 1], cfg, defined).value == members[n - 1];
    }
  }

  lemma MemberExportsEnd(m: Input, cfg: S.Config, defined: set<M.Name>)
    requires Rewrite(m, cfg, defined).Ok?
    ensures forall x :: x in Rewrite(m, cfg, defined).value.exported ==> NulFree(x)
  {
    hide S.ScopeObject, S.Defined, Pad4, NulFree;
    if S.Defined(m.data, cfg.keep) == Err(M.NoSymtab) {
    } else {
      AllEnd(S.ScopeObject(m.data, cfg, defined).value.exported);
    }
  }

  lemma AllEnd(names: seq<M.Name>)
    ensures forall x :: x in names ==> NulFree(x)
  {
    hide NulFree;
    forall x | x in names ensures NulFree(x) {
      var k :| 0 <= k < |names| && names[k] == x;
    }
  }

  /** Exports and definitions have the same members in the same places. */
  lemma {:induction false} OwnersAgree(inputs: seq<Input>, members: seq<Member>, cfg: S.Config, defined: set<M.Name>, n: nat)
    requires n <= |inputs| == |members|
    requires forall i :: 0 <= i < |inputs| ==> Scopable(inputs[i], cfg, defined)
    requires forall i :: 0 <= i < |inputs| ==> Rewrite(inputs[i], cfg, defined) == Ok(members[i])
    ensures var e, d := Exports(members, n), Definitions(AsInputs(members), n);
      |e| == |d| && forall j :: 0 <= j < |e| ==> e[j].owner == d[j].owner
  {
    hide Scopable, Rewrite, M.Parse, DefinedBy, SpellableInput;
    if n > 0 {
      OwnersAgree(inputs, members, cfg, defined, n - 1);
      MemberExports(inputs[n - 1], cfg, defined);
      assert AsInputs(members)[n - 1].data == members[n - 1].data;
    }
  }

  lemma SameWhenNamed(e: seq<Export>, d: seq<Export>)
    requires |e| == |d| && forall j :: 0 <= j < |e| ==> e[j].owner == d[j].owner
    ensures e == d <==> forall j :: 0 <= j < |e| ==> e[j].name == d[j].name
  {
  }

  /** Each listed position is that of the header of the member that holds the definition. */
  ghost predicate LeadsTo(b: seq<byte>, l: Listed, owner: nat, members: seq<Member>, bsd: bool) {
    owner < |members| && WrittenAt(b, l.position, members[owner].name, members[owner].data, bsd)
  }

  /** What a linker reads out of the index of the written archive: one item for
      each visible definition of the written members, in their order, that leads
      to the header of the member holding it; all the names are those of the
      definitions if and only if the kept definitions of the input have UTF-8 names. */
  lemma RunIsListed(inputs: seq<Input>, cfg: S.Config) returns (members: seq<Member>, list: seq<Listed>)
    requires Run(inputs, cfg).Ok?
    requires forall m :: m in inputs ==> Scopable(m, cfg, PassA(inputs, cfg.keep, |inputs|))
    requires IndexFits(PassB(inputs, cfg, PassA(inputs, cfg.keep, |inputs|), |inputs|).value, IsMachO(inputs, cfg.keep))
    ensures var b, bsd, d := Run(inputs, cfg).value, IsMachO(inputs, cfg.keep), Definitions(AsInputs(members), |members|);
      && b == ArchiveBytes(members, bsd) && |members| == |inputs|
      && ReadIndex(Index(members, bsd), bsd) == Some(list) && |list| == |d|
      && (forall j :: 0 <= j < |d| ==> LeadsTo(b, list[j], d[j].owner, members, bsd))
      && ((forall j :: 0 <= j < |d| ==> list[j].name == d[j].name) <==> AllSpellable(inputs, cfg))
  {
    hide Scopable, Rewrite, PassA, ArchiveBytes, IsMachO, AllSpellable, Exports, Definitions, IndexFits, Index, ReadIndex, LeadsTo,
      Prefix;
    var defined, bsd := PassA(inputs, cfg.keep, |inputs|), IsMachO(inputs, cfg.keep);
    members := PassB(inputs, cfg, defined, |inputs|).value;
    list := Listing(members, bsd);
    PassBIs(inputs, cfg, defined, |inputs|);
    ExportsEnd(inputs, members, cfg, defined, |inputs|);
    IndexReadsBack(members, bsd);
    OwnersAgree(inputs, members, cfg, defined, |inputs|);
    ExportsAreDefinitions(inputs, members, cfg, defined, |inputs|);
    assert inputs[..|inputs|] == inputs;
    var e, d := Exports(members, |members|), Definitions(AsInputs(members), |members|);
    SameWhenNamed(e, d);
    forall j | 0 <= j < |d| ensures LeadsTo(Run(inputs, cfg).value, list[j], d[j].owner, members, bsd) {
      ListedIsWritten(members, bsd, j);
      assert d[j].owner == e[j].owner;
    }
    assert forall j :: 0 <= j < |e| ==> list[j].name == e[j].name;
  }

  lemma ListedIsWritten(members: seq<Member>, bsd: bool, j: nat)
    requires IndexFits(members, bsd) && j < |Exports(members, |members|)|
    ensures var e := Exports(members, |members|)[j];
      LeadsTo(ArchiveBytes(members, bsd), Listing(members, bsd)[j], e.owner, members, bsd)
  {
    hide WrittenAt, ArchiveBytes, Exports, IndexFits, Prefix;
    MemberWrittenAt(members, bsd, Exports(members, |members|)[j].owner);
  }

  // ---- the form of the index -----------------------------------------------

  lemma DefinedIffParsed(b: seq<byte>, keep: M.Name)
    ensures S.Defined(b, keep).Ok? <==> M.Parse(b).Ok?
  {
    hide M.Parse, S.DefinedNames;
  }

  /** The written archive opens with the BSD index exactly when some input is a
      Mach-O object that reads, and with the GNU one otherwise. */
  lemma FormIsDetected(inputs: seq<Input>, cfg: S.Config)
    requires Run(inputs, cfg).Ok?
    ensures Opening(exists m :: m in inputs && M.Parse(m.data).Ok?) <= Run(inputs, cfg).value
    ensures Opening(true) != Opening(false)
  {
    hide ArchiveBytes, Index, SizeField, PassA, S.Defined, M.Parse, PassB, Opening;
    forall m | m in inputs ensures S.Defined(m.data, cfg.keep).Ok? <==> M.Parse(m.data).Ok? {
      DefinedIffParsed(m.data, cfg.keep);
    }
    FormOf(inputs, cfg.keep);
    var members := PassB(inputs, cfg, PassA(inputs, cfg.keep, |inputs|), |inputs|).value;
    IndexStandsAt(members, IsMachO(inputs, cfg.keep));
    OpeningsDiffer();
  }

  lemma FormOf(inputs: seq<Input>, keep: M.Name)
    ensures IsMachO(inputs, keep) <==> exists m :: m in inputs && S.Defined(m.data, keep).Ok?
  {
    hide S.Defined;
    if m :| m in inputs && S.Defined(m.data, keep).Ok? {
      var k :| 0 <= k < |inputs| && inputs[k] == m;
    }
  }

  lemma OpeningsDiffer()
    ensures Opening(true) != Opening(false)
  {
    assert Opening(true)[8] == 35 && Opening(false)[8] == 47;
  }

  // ---- what is appended to a member ----------------------------------------

  /** A written member is its scoped object, or its own bytes when it has no
      symbol table, and fewer than four NULs up to a multiple of four. */
  lemma MemberIsPadded(m: Input, cfg: S.Config, defined: set<M.Name>, k: nat)
    requires Rewrite(m, cfg, defined).Ok? && S.ScopeObject(m.data, cfg, defined).Ok? && k < 4
    requires (|S.ScopeObject(m.data, cfg, defined).value.bytes| + k) % 4 == 0
    ensures Rewrite(m, cfg, defined).value.data == S.ScopeObject(m.data, cfg, defined).value.bytes + Fill(0, k)
  {
    hide S.ScopeObject, M.Parse, S.Defined, Fill;
    ScopeFailsWithParse(m.data, cfg, defined);
    DefinedIffParsed(m.data, cfg.keep);
    PadIs(S.ScopeObject(m.data, cfg, defined).value.bytes, k);
  }

  lemma BareMemberIsPadded(m: Input, cfg: S.Config, defined: set<M.Name>, k: nat)
    requires M.Parse(m.data) == Err(M.NoSymtab) && k < 4 && (|m.data| + k) % 4 == 0
    ensures Rewrite(m, cfg, defined) == Ok(Member(m.name, m.data + Fill(0, k), []))
  {
    hide M.Parse, S.DefinedNames, Fill;
    PadIs(m.data, k);
  }

  lemma PadIs(data: seq<byte>, k: nat)
    requires k < 4 && (|data| + k) % 4 == 0
    ensures Pad4(data) == data + Fill(0, k)
  {
    hide Fill;
    PadCount(|data|, k);
  }

  lemma PadCount(n: nat, k: nat)
    requires k < 4 && (n + k) % 4 == 0
    ensures (4 - n % 4) % 4 == k
  {
  }

  // ---- when the tool refuses an archive ------------------------------------

  /** A member that stops the run: it does not read, for another reason than having no symbol table. */
  ghost predicate Stopping(m: Input, e: M.Error) {
    M.Parse(m.data) == Err(e) && e != M.NoSymtab
  }

  lemma RewriteFails(m: Input, cfg: S.Config, defined: set<M.Name>, e: M.Error)
    ensures Rewrite(m, cfg, defined) == Err(e) <==> Stopping(m, e)
  {
    hide M.Parse, S.DefinedNames, S.Applied, S.Relocate;
  }

  lemma {:induction false} PassBStops(inputs: seq<Input>, cfg: S.Config, defined: set<M.Name>, n: nat, e: M.Error)
    requires n <= |inputs|
    ensures PassB(inputs, cfg, defined, n) == Err(e) <==>
      exists i :: 0 <= i < n && Stopping(inputs[i], e) && forall j, f :: 0 <= j < i ==> !Stopping(inputs[j], f)
  {
    hide Rewrite, Stopping;
    if n > 0 {
      var before, last := PassB(inputs, cfg, defined, n - 1), Rewrite(inputs[n - 1], cfg, defined);
      PassBStops(inputs, cfg, defined, n - 1, e);
      RewriteFails(inputs[n - 1], cfg, defined, e);
      if before.Err? {
        PassBStops(inputs, cfg, defined, n - 1, before.error);
      } else {
        NoneStops(inputs, cfg, defined, n - 1);
      }
    }
  }

  lemma {:induction false} NoneStops(inputs: seq<Input>, cfg: S.Config, defined: set<M.Name>, n: nat)
    requires n <= |inputs| && PassB(inputs, cfg, defined, n).Ok?
    ensures forall j, f :: 0 <= j < n ==> !Stopping(inputs[j], f)
  {
    hide Rewrite, Stopping;
    if n > 0 {
      NoneStops(inputs, cfg, defined, n - 1);
      var last := inputs[n - 1];
      forall f ensures !Stopping(last, f) {
        RewriteFails(last, cfg, defined, f);
      }
    }
  }

  /** The run fails exactly when some member does not read, and with the error of the first one. */
  lemma RunFailsExactly(inputs: seq<Input>, cfg: S.Config, e: M.Error)
    ensures Run(inputs, cfg) == Err(e) <==>
      exists i :: 0 <= i < |inputs| && Stopping(inputs[i], e) && forall j, f :: 0 <= j < i ==> !Stopping(inputs[j], f)
  {
    hide PassA, PassB, ArchiveBytes, Stopping;
    PassBStops(inputs, cfg, PassA(inputs, cfg.keep, |inputs|), |inputs|, e);
  }
}
