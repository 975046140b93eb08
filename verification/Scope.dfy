/** Scoping one Mach-O object: visible definitions outside the keep prefix,
    and the references to them, take the internal prefix. The new names go
    into a copy of the string table appended to the file. */
module Scope {
  import opened Wrappers
  import opened Bytes
  import opened Utf8
  import opened MachO

  datatype Config = Config(keep: Name, prefix: Name)

  const UNDERSCORE: byte := 95

  function Trim(s: seq<byte>): seq<byte> {
    if s != [] && s[0] == UNDERSCORE then Trim(s[1..]) else s
  }

  /** What is left is the rest of the name from its first other byte on. */
  lemma {:induction false} TrimIsRest(s: seq<byte>) returns (n: nat)
    ensures n <= |s| && Trim(s) == s[n..] && (n < |s| ==> s[n] != UNDERSCORE)
    ensures forall k :: 0 <= k < n ==> s[k] == UNDERSCORE
  {
    if s != [] && s[0] == UNDERSCORE {
      var m := TrimIsRest(s[1..]);
      n := m + 1;
    } else {
      n := 0;
    }
  }

  /** The rename rule both passes share. A name that is not UTF-8 has the
      empty logical name. */
  predicate RenamesDef(name: Name, keep: Name) {
    var logical := if IsUtf8(name) then name else [];
    !(keep <= Trim(logical))
  }

  function ScopedName(name: Name, prefix: Name): Name {
    LossyIsUtf8(name);
    prefix + Lossy(name)
  }

  function LossyName(name: Name): Name {
    LossyIsUtf8(name);
    Lossy(name)
  }

  predicate Renames(s: Sym, cfg: Config, defined: set<Name>) {
    if s.IsDef() then s.IsVisible() && RenamesDef(s.name, cfg.keep)
    else LossyName(s.name) in defined
  }

  /** The name a symbol carries after scoping. */
  function NewName(s: Sym, cfg: Config, defined: set<Name>): Name {
    if Renames(s, cfg, defined) then ScopedName(s.name, cfg.prefix) else s.name
  }

  // ---- pass A -------------------------------------------------------------

  /** A definition the rename rule takes. */
  predicate RenamedDef(s: Sym, keep: Name) {
    s.IsDef() && s.IsVisible() && RenamesDef(s.name, keep)
  }

  /** The lossy names of the definitions that the rename rule takes. */
  function DefinedNames(syms: seq<Sym>, keep: Name): set<Name> {
    if syms == [] then {}
    else
      var s, rest := syms[|syms| - 1], DefinedNames(syms[..|syms| - 1], keep);
      if RenamedDef(s, keep) then rest + {LossyName(s.name)} else rest
  }

  lemma {:induction false} DefinedNamesAre(syms: seq<Sym>, keep: Name, x: Name)
    ensures x in DefinedNames(syms, keep)
      <==> exists s :: s in syms && RenamedDef(s, keep) && LossyName(s.name) == x
  {
    if syms != [] {
      var init, last := syms[..|syms| - 1], syms[|syms| - 1];
      assert syms == init + [last];
      DefinedNamesAre(init, keep, x);
    }
  }

  function Defined(b: seq<byte>, keep: Name): Result<set<Name>, Error> {
    var o :- Parse(b);
    Ok(DefinedNames(o.syms, keep))
  }

  method CollectDefined(b: seq<byte>, keep: Name) returns (r: Result<set<Name>, Error>)
    ensures r == Defined(b, keep)
  {
    hide ReadSymtab, ReadSyms, LossyName, RenamedDef;
    var t :- LocateSymtab(b);
    var syms :- DecodeSymbols(b, t);
    var out: set<Name> := {};
    for i := 0 to |syms|
      invariant out == DefinedNames(syms[..i], keep)
    {
      assert syms[..i + 1][..i] == syms[..i];
      if RenamedDef(syms[i], keep) {
        out := out + {LossyName(syms[i].name)};
      }
    }
    assert syms[..|syms|] == syms;
    return Ok(out);
  }

  // ---- pass B -------------------------------------------------------------

  /** The state of the rewrite: the patched file, the growing string table,
      the archive-index names, and the two counts. */
  datatype Patch = Patch(out: seq<byte>, strtab: seq<byte>, exported: seq<Name>, renamed: nat, kept: nat)

  /** The archive-index name of a symbol, when it is a visible definition. */
  function ExportOf(s: Sym, cfg: Config): seq<Name> {
    if !s.IsDef() || !s.IsVisible() then []
    else if RenamesDef(s.name, cfg.keep) then [ScopedName(s.name, cfg.prefix)]
    else [LossyName(s.name)]
  }

  function TableEntry(s: Sym, cfg: Config, defined: set<Name>): seq<byte> {
    if Renames(s, cfg, defined) then ScopedName(s.name, cfg.prefix) + [0] else []
  }

  function ApplySym(p: Patch, s: Sym, cfg: Config, defined: set<Name>): Patch
    requires s.at + 4 <= |p.out|
  {
    var rename := Renames(s, cfg, defined);
    Patch(if rename then PutU32(p.out, s.at, Low32(|p.strtab|)) else p.out,
          p.strtab + TableEntry(s, cfg, defined),
          p.exported + ExportOf(s, cfg),
          p.renamed + (if rename then 1 else 0),
          p.kept + (if s.IsDef() && s.IsVisible() && !rename then 1 else 0))
  }

  predicate InFile(p: Patch, syms: seq<Sym>) {
    forall i :: 0 <= i < |syms| ==> syms[i].at + 4 <= |p.out|
  }

  /** The rewrite state after the first `n` symbols. */
  function Applied(p: Patch, syms: seq<Sym>, cfg: Config, defined: set<Name>, n: nat): (q: Patch)
    requires n <= |syms| && InFile(p, syms)
    ensures |q.out| == |p.out|
  {
    if n == 0 then p
    else ApplySym(Applied(p, syms, cfg, defined, n - 1), syms[n - 1], cfg, defined)
  }

  lemma AppliedNone(p: Patch, syms: seq<Sym>, cfg: Config, defined: set<Name>)
    requires InFile(p, syms)
    ensures Applied(p, syms, cfg, defined, 0) == p
  {
  }

  lemma AppliedStep(p: Patch, syms: seq<Sym>, cfg: Config, defined: set<Name>, n: nat)
    requires n < |syms| && InFile(p, syms)
    ensures Applied(p, syms, cfg, defined, n + 1) == ApplySym(Applied(p, syms, cfg, defined, n), syms[n], cfg, defined)
  {
  }

  function Start(b: seq<byte>, t: Symtab): Patch
    requires t.stroff + t.strsize <= |b|
  {
    Patch(b, b[t.stroff..t.stroff + t.strsize], [], 0, 0)
  }

  datatype Scoped = Scoped(bytes: seq<byte>, exported: seq<Name>, renamed: nat, kept: nat)

  /** The relocated string table goes to the end of the file, and LC_SYMTAB points to it. */
  function Relocate(out: seq<byte>, strtab: seq<byte>, lc: nat): (r: seq<byte>)
    requires lc + 24 <= |out|
    ensures |r| == |out| + |strtab|
  {
    PutU32(PutU32(out + strtab, lc + 16, Low32(|out|)), lc + 20, Low32(|strtab|))
  }

  lemma SymsInFile(b: seq<byte>, o: Object)
    requires Parse(b) == Ok(o)
    ensures forall i :: 0 <= i < |o.syms| ==> o.syms[i].at == o.tab.symoff + 16 * i && o.syms[i].at + 16 <= |b|
  {
    forall i | 0 <= i < |o.syms|
      ensures o.syms[i].at == o.tab.symoff + 16 * i && o.syms[i].at + 16 <= |b|
    {
      assert ReadSym(b, o.tab, i) == Ok(o.syms[i]);
    }
  }

  function ScopeObject(b: seq<byte>, cfg: Config, defined: set<Name>): Result<Scoped, Error> {
    var o :- Parse(b);
    SymsInFile(b, o);
    var p := Applied(Start(b, o.tab), o.syms, cfg, defined, |o.syms|);
    Ok(Scoped(if p.renamed > 0 then Relocate(p.out, p.strtab, o.tab.lc) else p.out, p.exported, p.renamed, p.kept))
  }

  method PutField(a: array<byte>, at: nat, v: nat)
    requires at + 4 <= a.Length && v < U32
    modifies a
    ensures a[..] == PutU32(old(a[..]), at, v)
  {
    var f := LeBytes(v);
    a[at], a[at + 1], a[at + 2], a[at + 3] := f[0], f[1], f[2], f[3];
    assert a[..] == PutU32(old(a[..]), at, v);
  }

  method Thaw(b: seq<byte>) returns (a: array<byte>)
    ensures fresh(a) && a[..] == b
  {
    a := new byte[|b|](i requires 0 <= i < |b| => b[i]);
  }

  method AppendTable(patched: array<byte>, strtab: seq<byte>, lc: nat) returns (out: array<byte>)
    requires lc + 24 <= patched.Length
    ensures fresh(out)
    ensures out[..] == Relocate(patched[..], strtab, lc)
  {
    var newStroff := Low32(patched.Length);
    out := Thaw(patched[..] + strtab);
    PutField(out, lc + 16, newStroff);
    PutField(out, lc + 20, Low32(|strtab|));
  }

  /** The symbol loop of pass B, patching the copied file in place. */
  method PatchSymbols(out: array<byte>, table: seq<byte>, syms: seq<Sym>, cfg: Config, defined: set<Name>)
      returns (strtab: seq<byte>, exported: seq<Name>, renamed: nat, kept: nat)
    requires InFile(Patch(out[..], table, [], 0, 0), syms)
    modifies out
    ensures Patch(out[..], strtab, exported, renamed, kept)
         == Applied(Patch(old(out[..]), table, [], 0, 0), syms, cfg, defined, |syms|)
  {
    hide PutU32, ScopedName, LossyName, RenamesDef, Low32, Applied;
    ghost var start := Patch(out[..], table, [], 0, 0);
    strtab, exported, renamed, kept := table, [], 0, 0;
    AppliedNone(start, syms, cfg, defined);
    for i := 0 to |syms|
      invariant Patch(out[..], strtab, exported, renamed, kept) == Applied(start, syms, cfg, defined, i)
    {
      var s := syms[i];
      AppliedStep(start, syms, cfg, defined, i);
      var rename;
      if s.IsDef() {
        if !s.IsVisible() {
          continue;
        }
        rename := RenamesDef(s.name, cfg.keep);
        if rename {
          exported := exported + [ScopedName(s.name, cfg.prefix)];
        } else {
          exported := exported + [LossyName(s.name)];
          kept := kept + 1;
        }
      } else {
        // A reference rides the prefix when its target does.
        rename := LossyName(s.name) in defined;
      }
      if !rename {
        continue;
      }
      renamed := renamed + 1;
      var newStrx := Low32(|strtab|);
      strtab := strtab + (ScopedName(s.name, cfg.prefix) + [0]);
      PutField(out, s.at, newStrx);
    }
  }

  /** The rewrite of one object. */
  method RewriteObject(b: seq<byte>, cfg: Config, defined: set<Name>) returns (r: Result<Scoped, Error>)
    ensures r == ScopeObject(b, cfg, defined)
  {
    hide ReadSymtab, ReadSyms, Applied, Relocate;
    var t :- LocateSymtab(b);
    var syms :- DecodeSymbols(b, t);
    SymsInFile(b, Object(t, syms));
    var out := Thaw(b);
    var strtab, exported, renamed, kept :=
      PatchSymbols(out, b[t.stroff..t.stroff + t.strsize], syms, cfg, defined);
    if renamed > 0 {
      out := AppendTable(out, strtab, t.lc);
    }
    return Ok(Scoped(out[..], exported, renamed, kept));
  }
}
