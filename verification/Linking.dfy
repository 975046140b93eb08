/** Link resolution over a whole archive: which references a linker binds to
    which definitions, and when scoping leaves that unchanged. */
module Linking {
  import opened Wrappers
  import opened Bytes
  import opened Utf8
  import opened MachO
  import opened Scope
  import opened ScopeProofs

  /** A symbol the linker sees: a visible definition or a reference. */
  predicate Linked(s: Sym) { !s.IsDef() || s.IsVisible() }

  predicate VisibleDef(s: Sym) { s.IsDef() && s.IsVisible() }

  /** Pass A over the archive: the rename set for references. */
  function ArchiveDefined(objs: seq<Object>, keep: Name): set<Name> {
    if objs == [] then {}
    else ArchiveDefined(objs[..|objs| - 1], keep) + DefinedNames(objs[|objs| - 1].syms, keep)
  }

  ghost predicate Has(objs: seq<Object>, s: Sym) {
    exists i :: 0 <= i < |objs| && s in objs[i].syms
  }

  lemma {:induction false} ArchiveDefinedAre(objs: seq<Object>, keep: Name, x: Name)
    ensures x in ArchiveDefined(objs, keep)
      <==> exists s :: Has(objs, s) && RenamedDef(s, keep) && LossyName(s.name) == x
  {
    hide LossyName, RenamedDef, DefinedNames;
    if objs != [] {
      var init, last := objs[..|objs| - 1], objs[|objs| - 1];
      ArchiveDefinedAre(init, keep, x);
      DefinedNamesAre(last.syms, keep, x);
      forall s ensures Has(objs, s) <==> Has(init, s) || s in last.syms {
        if s in last.syms {
          assert s in objs[|objs| - 1].syms;
        }
        if i :| 0 <= i < |init| && s in init[i].syms {
          assert s in objs[i].syms;
        }
      }
    }
  }

  /** Names carried by a linked symbol that is renamed, and by one that is not. */
  ghost predicate Renamed(objs: seq<Object>, cfg: Config, n: Name) {
    exists s :: Has(objs, s) && Linked(s) && s.name == n && Renames(s, cfg, ArchiveDefined(objs, cfg.keep))
  }

  ghost predicate Stays(objs: seq<Object>, cfg: Config, n: Name) {
    exists s :: Has(objs, s) && Linked(s) && s.name == n && !Renames(s, cfg, ArchiveDefined(objs, cfg.keep))
  }

  /** The condition on the names of the input archive: the lossy conversion
      separates the names that are renamed, and a name that stays is the new
      name of a renamed one only if it is that name. */
  ghost predicate Separable(objs: seq<Object>, cfg: Config) {
    && (forall n: Name, m: Name :: Renamed(objs, cfg, n) && Renamed(objs, cfg, m) && Lossy(n) == Lossy(m) ==> n == m)
    && (forall n: Name, u: Name :: Renamed(objs, cfg, n) && Stays(objs, cfg, u)
          ==> (u == ScopedName(n, cfg.prefix) <==> u == n))
  }

  function After(objs: seq<Object>, cfg: Config, s: Sym): Name {
    NewName(s, cfg, ArchiveDefined(objs, cfg.keep))
  }

  ghost predicate Agrees(objs: seq<Object>, cfg: Config, s: Sym, d: Sym) {
    After(objs, cfg, s) == After(objs, cfg, d) <==> s.name == d.name
  }

  /** A linked symbol and a visible definition, of any members, have equal
      names after scoping exactly when they had equal names before. */
  ghost predicate LinksPreserved(objs: seq<Object>, cfg: Config) {
    forall s, d :: Has(objs, s) && Linked(s) && Has(objs, d) && VisibleDef(d) ==> Agrees(objs, cfg, s, d)
  }

  /** Every renamed name has a renamed definition behind it, with the same new name. */
  lemma DefinitionBehind(objs: seq<Object>, cfg: Config, n: Name) returns (d: Sym)
    requires Renamed(objs, cfg, n)
    ensures Has(objs, d) && RenamedDef(d, cfg.keep) && Lossy(d.name) == Lossy(n)
  {
    hide RenamesDef;
    var s :| Has(objs, s) && Linked(s) && s.name == n && Renames(s, cfg, ArchiveDefined(objs, cfg.keep));
    if s.IsDef() {
      d := s;
    } else {
      ArchiveDefinedAre(objs, cfg.keep, LossyName(n));
      d :| Has(objs, d) && RenamedDef(d, cfg.keep) && LossyName(d.name) == LossyName(n);
    }
  }

  /** A renamed definition takes every linked symbol of its own name along,
      except a definition under the keep prefix, which cannot have its name. */
  lemma SameNameFollows(objs: seq<Object>, cfg: Config, d: Sym, s: Sym)
    requires Has(objs, d) && RenamedDef(d, cfg.keep)
    requires Linked(s) && s.name == d.name
    ensures Renames(s, cfg, ArchiveDefined(objs, cfg.keep))
  {
    ArchiveDefinedAre(objs, cfg.keep, LossyName(d.name));
  }

  lemma PairAgrees(objs: seq<Object>, cfg: Config, s: Sym, d: Sym)
    requires Separable(objs, cfg)
    requires Has(objs, s) && Linked(s) && Has(objs, d) && VisibleDef(d)
    ensures Agrees(objs, cfg, s, d)
  {
    hide RenamesDef, Lossy, ArchiveDefined;
    var defined := ArchiveDefined(objs, cfg.keep);
    var rs, rd := Renames(s, cfg, defined), Renames(d, cfg, defined);
    if rs && rd {
      assert Renamed(objs, cfg, s.name) && Renamed(objs, cfg, d.name);
      SamePrefix(cfg.prefix, s.name, d.name);
    } else if rs {
      assert Renamed(objs, cfg, s.name) && Stays(objs, cfg, d.name);
    } else if rd {
      assert Renamed(objs, cfg, d.name) && Stays(objs, cfg, s.name);
    }
  }

  lemma SamePrefix(prefix: Name, n: Name, m: Name)
    ensures ScopedName(n, prefix) == ScopedName(m, prefix) <==> Lossy(n) == Lossy(m)
  {
    hide Lossy;
    assert ScopedName(n, prefix)[|prefix|..] == Lossy(n);
    assert ScopedName(m, prefix)[|prefix|..] == Lossy(m);
  }

  /** Scoping preserves every link of an archive if and only if the archive's
      names are separable. */
  lemma LinkPreservation(objs: seq<Object>, cfg: Config)
    ensures LinksPreserved(objs, cfg) <==> Separable(objs, cfg)
  {
    hide Agrees, Renames, Lossy, ArchiveDefined;
    if Separable(objs, cfg) {
      forall s, d | Has(objs, s) && Linked(s) && Has(objs, d) && VisibleDef(d)
        ensures Agrees(objs, cfg, s, d)
      {
        PairAgrees(objs, cfg, s, d);
      }
    }
    if LinksPreserved(objs, cfg) {
      forall n: Name, m: Name | Renamed(objs, cfg, n) && Renamed(objs, cfg, m) && Lossy(n) == Lossy(m)
        ensures n == m
      {
        LossySeparates(objs, cfg, n, m);
      }
      forall n: Name, u: Name | Renamed(objs, cfg, n) && Stays(objs, cfg, u)
        ensures u == ScopedName(n, cfg.prefix) <==> u == n
      {
        StaySeparates(objs, cfg, n, u);
      }
    }
  }

  lemma LossySeparates(objs: seq<Object>, cfg: Config, n: Name, m: Name)
    requires LinksPreserved(objs, cfg)
    requires Renamed(objs, cfg, n) && Renamed(objs, cfg, m) && Lossy(n) == Lossy(m)
    ensures n == m
  {
    hide RenamesDef, Lossy, ArchiveDefined;
    var d := DefinitionBehind(objs, cfg, n);
    var defined := ArchiveDefined(objs, cfg.keep);
    var s :| Has(objs, s) && Linked(s) && s.name == n && Renames(s, cfg, defined);
    var t :| Has(objs, t) && Linked(t) && t.name == m && Renames(t, cfg, defined);
    assert Agrees(objs, cfg, s, d) && Agrees(objs, cfg, t, d);
    SamePrefix(cfg.prefix, n, d.name);
    SamePrefix(cfg.prefix, m, d.name);
  }

  lemma StaySeparates(objs: seq<Object>, cfg: Config, n: Name, u: Name)
    requires LinksPreserved(objs, cfg)
    requires Renamed(objs, cfg, n) && Stays(objs, cfg, u)
    ensures u == ScopedName(n, cfg.prefix) <==> u == n
  {
    hide RenamesDef, Lossy, ArchiveDefined;
    var defined := ArchiveDefined(objs, cfg.keep);
    var d := DefinitionBehind(objs, cfg, n);
    var s :| Has(objs, s) && Linked(s) && s.name == n && Renames(s, cfg, defined);
    var v :| Has(objs, v) && Linked(v) && v.name == u && !Renames(v, cfg, defined);
    SamePrefix(cfg.prefix, n, d.name);
    assert Agrees(objs, cfg, v, d) && Agrees(objs, cfg, s, d);
    if u == n {
      if VisibleDef(v) {
        assert Agrees(objs, cfg, s, v);
      } else {
        SameNameFollows(objs, cfg, d, v);
      }
    } else if u == ScopedName(n, cfg.prefix) {
      SameNameFollows(objs, cfg, d, v);
    }
  }

  /** A reference to a kept definition whose name is the lossy image of another,
      renamed definition: the reference would follow the wrong one. */
  ghost predicate Diverted(objs: seq<Object>, cfg: Config, s: Sym, kept: Sym, d: Sym) {
    && Has(objs, s) && !s.IsDef()
    && Has(objs, kept) && VisibleDef(kept) && !RenamesDef(kept.name, cfg.keep) && kept.name == s.name
    && Has(objs, d) && RenamedDef(d, cfg.keep) && LossyName(d.name) == LossyName(s.name)
  }

  /** What a caller looks for, when the internal prefix is not empty: no two
      renamed names with one lossy image, no staying name that is the prefix
      and the lossy image of a renamed one, and no diverted reference. */
  lemma SeparableMeans(objs: seq<Object>, cfg: Config)
    requires cfg.prefix != []
    ensures Separable(objs, cfg) <==>
      && (forall n: Name, m: Name :: Renamed(objs, cfg, n) && Renamed(objs, cfg, m) && Lossy(n) == Lossy(m) ==> n == m)
      && (forall n: Name, u: Name :: Renamed(objs, cfg, n) && Stays(objs, cfg, u) ==> u != ScopedName(n, cfg.prefix))
      && (forall s, kept, d :: !Diverted(objs, cfg, s, kept, d))
  {
    hide Lossy, RenamesDef, ArchiveDefined, Renamed, Stays, Diverted;
    forall n: Name ensures ScopedName(n, cfg.prefix) != n {
      PrefixedIsLonger(n, cfg.prefix);
    }
    if n: Name :| Renamed(objs, cfg, n) && Stays(objs, cfg, n) {
      var s, kept, d := BothIsDiverted(objs, cfg, n);
      assert Diverted(objs, cfg, s, kept, d);
    }
    if s, kept, d :| Diverted(objs, cfg, s, kept, d) {
      DivertedIsBoth(objs, cfg, s, kept, d);
    }
  }

  lemma PrefixedIsLonger(n: Name, prefix: Name)
    requires prefix != []
    ensures ScopedName(n, prefix) != n
  {
    LossyIsIdentityOnUtf8(n);
    assert |ScopedName(n, prefix)| == |prefix| + |Lossy(n)|;
  }

  lemma BothIsDiverted(objs: seq<Object>, cfg: Config, n: Name) returns (s: Sym, kept: Sym, d: Sym)
    requires Renamed(objs, cfg, n) && Stays(objs, cfg, n)
    ensures Diverted(objs, cfg, s, kept, d)
  {
    hide Lossy, RenamesDef, ArchiveDefined;
    var defined := ArchiveDefined(objs, cfg.keep);
    s :| Has(objs, s) && Linked(s) && s.name == n && Renames(s, cfg, defined);
    kept :| Has(objs, kept) && Linked(kept) && kept.name == n && !Renames(kept, cfg, defined);
    if s.IsDef() {
      SameNameFollows(objs, cfg, s, kept);
      assert false;
    }
    d := DefinitionBehind(objs, cfg, n);
  }

  lemma DivertedIsBoth(objs: seq<Object>, cfg: Config, s: Sym, kept: Sym, d: Sym)
    requires Diverted(objs, cfg, s, kept, d)
    ensures Renamed(objs, cfg, s.name) && Stays(objs, cfg, s.name)
  {
    hide Lossy, RenamesDef, ArchiveDefined;
    ArchiveDefinedAre(objs, cfg.keep, LossyName(s.name));
    assert Renames(s, cfg, ArchiveDefined(objs, cfg.keep));
    assert !Renames(kept, cfg, ArchiveDefined(objs, cfg.keep));
  }

  /** The everyday case: UTF-8 names, none of which starts with the internal prefix. */
  lemma CleanNamesAreSeparable(objs: seq<Object>, cfg: Config)
    requires cfg.prefix != []
    requires forall s :: Has(objs, s) && Linked(s) ==> IsUtf8(s.name) && !(cfg.prefix <= s.name)
    ensures Separable(objs, cfg)
  {
    hide IsUtf8, RenamesDef, ArchiveDefined;
    forall n: Name | Renamed(objs, cfg, n) || Stays(objs, cfg, n)
      ensures Lossy(n) == n && !(cfg.prefix <= n)
    {
      LossyIsIdentityOnUtf8(n);
    }
    forall n: Name, u: Name | Renamed(objs, cfg, n) && Stays(objs, cfg, u)
      ensures u != ScopedName(n, cfg.prefix) && u != n
    {
      if u == n {
        var defined := ArchiveDefined(objs, cfg.keep);
        var s :| Has(objs, s) && Linked(s) && s.name == n && Renames(s, cfg, defined);
        var v :| Has(objs, v) && Linked(v) && v.name == n && !Renames(v, cfg, defined);
        var d := DefinitionBehind(objs, cfg, n);
        LossyIsIdentityOnUtf8(d.name);
        SameNameFollows(objs, cfg, d, v);
      }
    }
  }

  // ---- the bytes of the archive's members ----------------------------------

  ghost predicate ParsedAs(files: seq<seq<byte>>, objs: seq<Object>) {
    |files| == |objs| && forall i :: 0 <= i < |files| ==> Parse(files[i]) == Ok(objs[i])
  }

  ghost predicate AllRelocatable(files: seq<seq<byte>>, objs: seq<Object>, cfg: Config, defined: set<Name>)
    requires ParsedAs(files, objs)
  {
    forall i :: 0 <= i < |files| ==> Relocatable(files[i], objs[i], cfg, defined)
  }

  ghost predicate SameBinding(o: Object, u: Object, k: nat, o': Object, u': Object, l: nat) {
    k < |o.syms| && k < |u.syms| && l < |o'.syms| && l < |u'.syms|
    && (u.syms[k].name == u'.syms[l].name <==> o.syms[k].name == o'.syms[l].name)
  }

  /** Every linked symbol of one member against every visible definition of another. */
  ghost predicate BindsAsBefore(o: Object, u: Object, o': Object, u': Object) {
    forall k, l | 0 <= k < |o.syms| && Linked(o.syms[k]) && 0 <= l < |o'.syms| && VisibleDef(o'.syms[l]) ::
      SameBinding(o, u, k, o', u', l)
  }

  /** Link preservation at byte level: the scoped members all read back, and
      their references and visible definitions bind as they did before exactly
      when the input names are separable. */
  lemma ScopedArchiveLinks(files: seq<seq<byte>>, objs: seq<Object>, cfg: Config) returns (scoped: seq<Object>)
    requires ParsedAs(files, objs) && AllRelocatable(files, objs, cfg, ArchiveDefined(objs, cfg.keep))
    ensures |scoped| == |objs| == |files|
    ensures forall i :: 0 <= i < |objs| ==>
      ReadsBack(files[i], objs[i], scoped[i], cfg, ArchiveDefined(objs, cfg.keep))
    ensures Separable(objs, cfg) <==>
      forall i, j :: 0 <= i < |objs| && 0 <= j < |objs| ==> BindsAsBefore(objs[i], scoped[i], objs[j], scoped[j])
  {
    hide Relocatable, Separable, LinksPreserved, Parse, ScopeObject, BindsAsBefore, ScopedView, ArchiveDefined;
    scoped := MembersReadBack(files, objs, cfg, ArchiveDefined(objs, cfg.keep));
    forall i | 0 <= i < |objs| ensures ScopedView(objs[i], scoped[i], cfg, ArchiveDefined(objs, cfg.keep)) {
      assert ReadsBack(files[i], objs[i], scoped[i], cfg, ArchiveDefined(objs, cfg.keep));
    }
    LinkPreservation(objs, cfg);
    BindingsAre(objs, scoped, cfg);
  }

  lemma MembersReadBack(files: seq<seq<byte>>, objs: seq<Object>, cfg: Config, defined: set<Name>)
      returns (scoped: seq<Object>)
    requires ParsedAs(files, objs) && AllRelocatable(files, objs, cfg, defined)
    ensures |scoped| == |objs| == |files|
    ensures forall i :: 0 <= i < |objs| ==> ReadsBack(files[i], objs[i], scoped[i], cfg, defined)
  {
    hide Relocatable, ReadsBack, Parse, ReadSymtab, ReadSyms, ReadSym;
    scoped := [];
    for i := 0 to |files|
      invariant |scoped| == i
      invariant forall j :: 0 <= j < i ==> ReadsBack(files[j], objs[j], scoped[j], cfg, defined)
    {
      var u := ParseBack(files[i], objs[i], cfg, defined);
      scoped := scoped + [u];
    }
  }

  lemma BindingsAre(objs: seq<Object>, scoped: seq<Object>, cfg: Config)
    requires |scoped| == |objs|
    requires forall i :: 0 <= i < |objs| ==> ScopedView(objs[i], scoped[i], cfg, ArchiveDefined(objs, cfg.keep))
    ensures LinksPreserved(objs, cfg) <==>
      forall i, j :: 0 <= i < |objs| && 0 <= j < |objs| ==> BindsAsBefore(objs[i], scoped[i], objs[j], scoped[j])
  {
    hide ArchiveDefined, ScopedView, BindsAsBefore;
    if LinksPreserved(objs, cfg) {
      forall i, j | 0 <= i < |objs| && 0 <= j < |objs|
        ensures BindsAsBefore(objs[i], scoped[i], objs[j], scoped[j])
      {
        PreservedBinds(objs, scoped, cfg, i, j);
      }
    }
    if forall i, j :: 0 <= i < |objs| && 0 <= j < |objs| ==> BindsAsBefore(objs[i], scoped[i], objs[j], scoped[j]) {
      forall s, d | Has(objs, s) && Linked(s) && Has(objs, d) && VisibleDef(d) ensures Agrees(objs, cfg, s, d) {
        var i :| 0 <= i < |objs| && s in objs[i].syms;
        var j :| 0 <= j < |objs| && d in objs[j].syms;
        BindsPreserve(objs, scoped, cfg, i, j, s, d);
      }
    }
  }

  lemma PreservedBinds(objs: seq<Object>, scoped: seq<Object>, cfg: Config, i: nat, j: nat)
    requires |scoped| == |objs| && i < |objs| && j < |objs| && LinksPreserved(objs, cfg)
    requires ScopedView(objs[i], scoped[i], cfg, ArchiveDefined(objs, cfg.keep))
    requires ScopedView(objs[j], scoped[j], cfg, ArchiveDefined(objs, cfg.keep))
    ensures BindsAsBefore(objs[i], scoped[i], objs[j], scoped[j])
  {
    hide ArchiveDefined, ScopedView, Linked, VisibleDef, Agrees, SameBinding;
    forall k, l | 0 <= k < |objs[i].syms| && Linked(objs[i].syms[k]) && 0 <= l < |objs[j].syms| && VisibleDef(objs[j].syms[l])
      ensures SameBinding(objs[i], scoped[i], k, objs[j], scoped[j], l)
    {
      BindingIs(objs, scoped, cfg, i, k, j, l);
      assert Has(objs, objs[i].syms[k]) && Has(objs, objs[j].syms[l]);
    }
  }

  lemma BindsPreserve(objs: seq<Object>, scoped: seq<Object>, cfg: Config, i: nat, j: nat, s: Sym, d: Sym)
    requires |scoped| == |objs| && i < |objs| && j < |objs|
    requires s in objs[i].syms && Linked(s) && d in objs[j].syms && VisibleDef(d)
    requires ScopedView(objs[i], scoped[i], cfg, ArchiveDefined(objs, cfg.keep))
    requires ScopedView(objs[j], scoped[j], cfg, ArchiveDefined(objs, cfg.keep))
    requires BindsAsBefore(objs[i], scoped[i], objs[j], scoped[j])
    ensures Agrees(objs, cfg, s, d)
  {
    hide ArchiveDefined, ScopedView, Linked, VisibleDef, Agrees, SameBinding;
    var k :| 0 <= k < |objs[i].syms| && objs[i].syms[k] == s;
    var l :| 0 <= l < |objs[j].syms| && objs[j].syms[l] == d;
    BindingIs(objs, scoped, cfg, i, k, j, l);
  }

  lemma BindingIs(objs: seq<Object>, scoped: seq<Object>, cfg: Config, i: nat, k: nat, j: nat, l: nat)
    requires |scoped| == |objs| && i < |objs| && j < |objs|
    requires ScopedView(objs[i], scoped[i], cfg, ArchiveDefined(objs, cfg.keep))
    requires ScopedView(objs[j], scoped[j], cfg, ArchiveDefined(objs, cfg.keep))
    requires k < |objs[i].syms| && l < |objs[j].syms|
    ensures SameBinding(objs[i], scoped[i], k, objs[j], scoped[j], l)
      <==> Agrees(objs, cfg, objs[i].syms[k], objs[j].syms[l])
  {
    hide NewName, ArchiveDefined;
    assert Succeeds(objs[i].syms[k], scoped[i].syms[k], cfg, ArchiveDefined(objs, cfg.keep));
    assert Succeeds(objs[j].syms[l], scoped[j].syms[l], cfg, ArchiveDefined(objs, cfg.keep));
  }

  // ---- rescoping -----------------------------------------------------------

  /** The internal prefix is itself under the keep prefix, as the defaults are. */
  ghost predicate PrefixIsKept(cfg: Config) {
    IsUtf8(cfg.prefix) && Trim(cfg.prefix) != [] && cfg.keep <= Trim(cfg.prefix)
  }

  lemma {:induction false} TrimConcat(a: seq<byte>, b: seq<byte>)
    requires Trim(a) != []
    ensures Trim(a + b) == Trim(a) + b
  {
    if a[0] == UNDERSCORE {
      assert (a + b)[1..] == a[1..] + b;
      TrimConcat(a[1..], b);
    }
  }

  /** A scoped name is never renamed again. */
  lemma ScopedNameIsKept(name: Name, cfg: Config)
    requires PrefixIsKept(cfg)
    ensures !RenamesDef(ScopedName(name, cfg.prefix), cfg.keep)
  {
    hide IsUtf8, Lossy, Trim;
    LossyIsUtf8(name);
    ConcatUtf8(cfg.prefix, Lossy(name));
    TrimConcat(cfg.prefix, Lossy(name));
  }

  /** Pass A over a scoped archive finds nothing to rename. */
  lemma {:induction false} NothingLeft(objs: seq<Object>, scoped: seq<Object>, cfg: Config, defined: set<Name>)
    requires PrefixIsKept(cfg) && |scoped| == |objs|
    requires forall i :: 0 <= i < |objs| ==> ScopedView(objs[i], scoped[i], cfg, defined)
    ensures ArchiveDefined(scoped, cfg.keep) == {}
  {
    hide PrefixIsKept, RenamesDef, LossyName, ScopedName, ArchiveDefined, DefinedNames;
    forall x: Name ensures x !in ArchiveDefined(scoped, cfg.keep) {
      ArchiveDefinedAre(scoped, cfg.keep, x);
      forall t | Has(scoped, t) ensures !RenamedDef(t, cfg.keep) {
        var i :| 0 <= i < |scoped| && t in scoped[i].syms;
        var k :| 0 <= k < |scoped[i].syms| && scoped[i].syms[k] == t;
        var s := objs[i].syms[k];
        assert Succeeds(s, t, cfg, defined);
        ScopedNameIsKept(s.name, cfg);
      }
    }
  }

  /** Scoping an archive a second time is byte-identical on every member. */
  lemma RescopeIsIdentity(files: seq<seq<byte>>, objs: seq<Object>, cfg: Config, i: nat)
    requires ParsedAs(files, objs) && AllRelocatable(files, objs, cfg, ArchiveDefined(objs, cfg.keep))
    requires PrefixIsKept(cfg) && i < |files|
    ensures var first := ScopeObject(files[i], cfg, ArchiveDefined(objs, cfg.keep)).value;
      var again := ScopeObject(first.bytes, cfg, {});
      again.Ok? && again.value.bytes == first.bytes && again.value.renamed == 0
  {
    hide Relocatable, PrefixIsKept, Parse, ScopeObject, ArchiveDefined, RenamesDef, ScopedName, LossyName;
    var defined := ArchiveDefined(objs, cfg.keep);
    var u := ParseBack(files[i], objs[i], cfg, defined);
    var out := ScopeObject(files[i], cfg, defined).value.bytes;
    forall t | t in u.syms ensures !Renames(t, cfg, {}) {
      var k :| 0 <= k < |u.syms| && u.syms[k] == t;
      assert Succeeds(objs[i].syms[k], t, cfg, defined);
      ScopedNameIsKept(objs[i].syms[k].name, cfg);
    }
    Frame(out, u, cfg, {});
  }

  // ---- the tool's defaults -------------------------------------------------

  const KEEP_PREFIX: seq<byte> := Ascii("tebako_")
  const SCOPE_PREFIX: seq<byte> := Ascii("__tebako_internal_")

  function Defaults(): (cfg: Config)
  {
    Config(KEEP_PREFIX, SCOPE_PREFIX)
  }

  lemma DefaultsAreKept()
    ensures PrefixIsKept(Defaults())
  {
    hide IsUtf8, Trim;
    AsciiIsUtf8(SCOPE_PREFIX);
    DefaultNames();
    TrimTwo(INTERNAL);
  }

  const INTERNAL: seq<byte> := Ascii("tebako_internal_")

  lemma DefaultNames()
    ensures SCOPE_PREFIX == [UNDERSCORE, UNDERSCORE] + INTERNAL && KEEP_PREFIX <= INTERNAL
    ensures INTERNAL != [] && INTERNAL[0] != UNDERSCORE
  {
    assert KEEP_PREFIX == INTERNAL[..7];
  }

  lemma TrimTwo(s: seq<byte>)
    requires s != [] && s[0] != UNDERSCORE
    ensures Trim([UNDERSCORE, UNDERSCORE] + s) == s
  {
    hide Trim;
    var u := [UNDERSCORE, UNDERSCORE] + s;
    TrimHead(u);
    TrimHead(u[1..]);
    assert u[1..][1..] == s;
    TrimNone(s);
  }

  lemma TrimHead(u: seq<byte>)
    requires u != [] && u[0] == UNDERSCORE
    ensures Trim(u) == Trim(u[1..])
  {
  }

  lemma TrimNone(s: seq<byte>)
    requires s != [] && s[0] != UNDERSCORE
    ensures Trim(s) == s
  {
  }

  lemma {:induction false} AsciiIsUtf8(s: seq<byte>)
    requires forall k :: 0 <= k < |s| ==> s[k] < 128
    ensures IsUtf8(s)
  {
    if s != [] {
      AsciiIsUtf8(s[1..]);
    }
  }
}
