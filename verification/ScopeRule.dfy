/** Which symbols the scoper renames, and to what, in the terms of the names
    themselves, with the tool's own prefixes. */
module ScopeRule {
  import opened Bytes
  import opened Utf8
  import opened MachO
  import opened Scope
  import opened Linking

  /** A name of the public surface: all its leading underscores, then the keep prefix. */
  ghost predicate Public(name: seq<byte>, keep: seq<byte>) {
    exists n: nat :: PublicAt(name, keep, n)
  }

  predicate PublicAt(name: seq<byte>, keep: seq<byte>, n: nat) {
    && n <= |name| && (forall k :: 0 <= k < n ==> name[k] == 95) && (n < |name| ==> name[n] != 95)
    && keep <= name[n..]
  }

  /** The names definitions keep: those that are UTF-8 and public. A name that
      is not UTF-8 has nothing for a prefix to match. */
  ghost predicate KeepsName(name: seq<byte>, keep: seq<byte>) {
    if IsUtf8(name) then Public(name, keep) else keep == []
  }

  lemma KeptExactly(name: Name, keep: Name)
    ensures !RenamesDef(name, keep) <==> KeepsName(name, keep)
  {
    hide IsUtf8, Trim;
    var n := TrimIsRest(name);
    NothingTrimmed();
    if keep <= Trim(name) {
      assert PublicAt(name, keep, n);
    }
    forall m: nat | PublicAt(name, keep, m) ensures m == n {
    }
  }

  lemma NothingTrimmed()
    ensures Trim([]) == []
  {
  }

  /** With the tool's own prefixes: what is kept, and what a renamed name becomes. */
  lemma DefaultRule(name: Name)
    ensures !RenamesDef(name, Defaults().keep) <==> IsUtf8(name) && Public(name, Ascii("tebako_"))
    ensures IsUtf8(name) ==> ScopedName(name, Defaults().prefix) == Ascii("__tebako_internal_") + name
  {
    hide IsUtf8, RenamesDef;
    assert Ascii("tebako_") != [];
    KeptExactly(name, KEEP_PREFIX);
    LossyIsIdentityOnUtf8(name);
  }

  /** A visible definition outside the public surface. */
  ghost predicate Internal(d: Sym, keep: seq<byte>) {
    d.IsDef() && d.IsVisible() && !KeepsName(d.name, keep)
  }

  /** Which symbols of an archive are renamed: the internal definitions, and
      the references whose lossy name is that of one, in any member. */
  lemma RenamedExactly(objs: seq<Object>, s: Sym, cfg: Config)
    ensures Renames(s, cfg, ArchiveDefined(objs, cfg.keep)) <==>
      if s.IsDef() then Internal(s, cfg.keep)
      else exists d :: Has(objs, d) && Internal(d, cfg.keep) && Lossy(d.name) == Lossy(s.name)
  {
    hide IsUtf8, RenamesDef, Lossy, KeepsName, ArchiveDefined;
    KeptExactly(s.name, cfg.keep);
    ArchiveDefinedAre(objs, cfg.keep, LossyName(s.name));
    forall d ensures RenamedDef(d, cfg.keep) <==> Internal(d, cfg.keep) {
      KeptExactly(d.name, cfg.keep);
    }
  }

  /** The renamed symbols among the first `n`. */
  ghost function RenamedAmong(syms: seq<Sym>, cfg: Config, defined: set<Name>, n: nat): set<int>
    requires n <= |syms|
  {
    set i | 0 <= i < n && Renames(syms[i], cfg, defined)
  }

  /** The visible definitions among the first `n` that keep their name. */
  ghost function KeptAmong(syms: seq<Sym>, cfg: Config, defined: set<Name>, n: nat): set<int>
    requires n <= |syms|
  {
    set i | 0 <= i < n && VisibleDef(syms[i]) && !Renames(syms[i], cfg, defined)
  }

  lemma OneMoreRenamed(syms: seq<Sym>, cfg: Config, defined: set<Name>, n: nat)
    requires n < |syms|
    ensures |RenamedAmong(syms, cfg, defined, n + 1)| ==
      |RenamedAmong(syms, cfg, defined, n)| + if Renames(syms[n], cfg, defined) then 1 else 0
  {
    hide Renames;
    var a, b := RenamedAmong(syms, cfg, defined, n), RenamedAmong(syms, cfg, defined, n + 1);
    assert n !in a;
    assert b == if Renames(syms[n], cfg, defined) then a + {n} else a;
  }

  lemma OneMoreKept(syms: seq<Sym>, cfg: Config, defined: set<Name>, n: nat)
    requires n < |syms|
    ensures |KeptAmong(syms, cfg, defined, n + 1)| ==
      |KeptAmong(syms, cfg, defined, n)| + if VisibleDef(syms[n]) && !Renames(syms[n], cfg, defined) then 1 else 0
  {
    hide Renames, VisibleDef;
    var a, b := KeptAmong(syms, cfg, defined, n), KeptAmong(syms, cfg, defined, n + 1);
    assert n !in a;
    assert b == if VisibleDef(syms[n]) && !Renames(syms[n], cfg, defined) then a + {n} else a;
  }

  /** The two counts of the report: the symbols renamed, and the visible definitions kept. */
  lemma {:induction false} CountsAre(p: Patch, syms: seq<Sym>, cfg: Config, defined: set<Name>, n: nat)
    requires n <= |syms| && InFile(p, syms)
    ensures var q := Applied(p, syms, cfg, defined, n);
      && q.renamed == p.renamed + |RenamedAmong(syms, cfg, defined, n)|
      && q.kept == p.kept + |KeptAmong(syms, cfg, defined, n)|
  {
    hide Renames, PutU32, TableEntry, ExportOf, RenamedAmong, KeptAmong;
    if n == 0 {
      NoneYet(syms, cfg, defined);
    } else {
      CountsAre(p, syms, cfg, defined, n - 1);
      OneMoreRenamed(syms, cfg, defined, n - 1);
      OneMoreKept(syms, cfg, defined, n - 1);
    }
  }

  lemma NoneYet(syms: seq<Sym>, cfg: Config, defined: set<Name>)
    ensures RenamedAmong(syms, cfg, defined, 0) == {} && KeptAmong(syms, cfg, defined, 0) == {}
  {
  }
}
