/** The reader of a Mach-O file against the file format: a chain of load
    commands, each starting where the one before it ends, and the fields at
    their fixed places. No statement here follows the reader's own walk. */
module LoadCommands {
  import opened Wrappers
  import opened Bytes
  import opened MachO

  /** Where the command after the one at `at` starts. */
  function Next(b: seq<byte>, at: nat): nat
    requires at + 8 <= |b|
  {
    at + ReadU32(b, at + 4)
  }

  /** The load commands at `ats`, one behind the other from `start` on: every
      header lies in the file and every command is as long as its header. */
  ghost predicate Chain(b: seq<byte>, start: nat, ats: seq<nat>) {
    && (forall k :: 0 <= k < |ats| ==> ats[k] + 8 <= |b| && ReadU32(b, ats[k] + 4) >= 8)
    && (|ats| > 0 ==> ats[0] == start)
    && (forall k :: 0 < k < |ats| ==> ats[k] == Next(b, ats[k - 1]))
  }

  /** None of the commands is LC_SYMTAB. */
  ghost predicate NoneHolds(b: seq<byte>, ats: seq<nat>) {
    forall k :: 0 <= k < |ats| ==> ats[k] + 8 <= |b| && ReadU32(b, ats[k]) != 2
  }

  /** Where a chain from `start` ends. */
  ghost function End(b: seq<byte>, start: nat, ats: seq<nat>): nat
    requires Chain(b, start, ats)
  {
    if ats == [] then start else Next(b, ats[|ats| - 1])
  }

  /** What the file holds at the end of a chain without LC_SYMTAB, `left`
      commands before the announced number of them. */
  ghost predicate Outcome(b: seq<byte>, at: nat, left: nat, r: Result<nat, Error>) {
    match r
    case Ok(lc) => left > 0 && lc == at && at + 8 <= |b| && ReadU32(b, at) == 2 && ReadU32(b, at + 4) >= 8
    case Err(NoSymtab) => left == 0
    case Err(MalformedCommand(x)) => left > 0 && x == at && at + 8 <= |b| && ReadU32(b, at + 4) < 8
    case Err(Truncated(x)) => left > 0 && (if at + 4 <= |b| then x == at + 4 && |b| < at + 8 else x == at)
    case _ => false
  }

  /** The search for LC_SYMTAB among `n` commands ends with `r` behind the commands `ats`. */
  ghost predicate EndsWith(b: seq<byte>, start: nat, n: nat, ats: seq<nat>, r: Result<nat, Error>) {
    && |ats| <= n && Chain(b, start, ats) && NoneHolds(b, ats)
    && Outcome(b, End(b, start, ats), n - |ats|, r)
  }

  /** The walk's answer is the one the chain of commands gives: LC_SYMTAB where
      the first such command stands, its absence from all announced commands, or
      the place where the chain breaks off. */
  lemma FindsByChain(b: seq<byte>, n: nat, r: Result<nat, Error>)
    ensures FindCommand(b, 32, n) == r <==> exists ats :: EndsWith(b, 32, n, ats, r)
  {
    hide FindCommand, EndsWith;
    if FindCommand(b, 32, n) == r {
      var ats := ChainTo(b, 32, n);
    }
    forall ats | EndsWith(b, 32, n, ats, r) ensures FindCommand(b, 32, n) == r {
      AlongChain(b, 32, n, ats, r);
    }
  }

  lemma {:induction false} AlongChain(b: seq<byte>, start: nat, n: nat, ats: seq<nat>, r: Result<nat, Error>)
    requires EndsWith(b, start, n, ats, r)
    ensures FindCommand(b, start, n) == r
    decreases n
  {
    hide ReadU32;
    if ats != [] {
      TailEnds(b, start, n, ats, r);
      AlongChain(b, Next(b, start), n - 1, ats[1..], r);
    }
  }

  lemma TailEnds(b: seq<byte>, start: nat, n: nat, ats: seq<nat>, r: Result<nat, Error>)
    requires EndsWith(b, start, n, ats, r) && ats != []
    ensures start + 8 <= |b| && EndsWith(b, Next(b, start), n - 1, ats[1..], r)
  {
    hide ReadU32, Outcome;
    var rest, at := ats[1..], Next(b, start);
    forall k | 0 < k < |rest| ensures rest[k] == Next(b, rest[k - 1]) {
      assert ats[k + 1] == Next(b, ats[k]);
    }
    assert Chain(b, at, rest) && NoneHolds(b, rest);
    assert End(b, at, rest) == End(b, start, ats);
  }

  lemma {:induction false} ChainTo(b: seq<byte>, start: nat, n: nat) returns (ats: seq<nat>)
    ensures EndsWith(b, start, n, ats, FindCommand(b, start, n))
    decreases n
  {
    hide ReadU32;
    if n == 0 || start + 8 > |b| || ReadU32(b, start + 4) < 8 || ReadU32(b, start) == 2 {
      ats := [];
    } else {
      var rest := ChainTo(b, Next(b, start), n - 1);
      ats := [start] + rest;
      HeadEnds(b, start, n, rest, FindCommand(b, start, n));
    }
  }

  lemma HeadEnds(b: seq<byte>, start: nat, n: nat, rest: seq<nat>, r: Result<nat, Error>)
    requires n > 0 && start + 8 <= |b| && ReadU32(b, start + 4) >= 8 && ReadU32(b, start) != 2
    requires EndsWith(b, Next(b, start), n - 1, rest, r)
    ensures EndsWith(b, start, n, [start] + rest, r)
  {
    hide ReadU32, Outcome;
    var ats := [start] + rest;
    forall k | 0 < k < |ats| ensures ats[k] == Next(b, ats[k - 1]) {
      assert ats[k] == rest[k - 1];
      if k > 1 {
        assert rest[k - 1] == Next(b, rest[k - 2]) && ats[k - 1] == rest[k - 2];
      }
    }
    assert Chain(b, start, ats) && NoneHolds(b, ats);
    assert End(b, start, ats) == End(b, Next(b, start), rest);
  }

  // ---- the symbol table ----------------------------------------------------

  /** What the LC_SYMTAB at `lc` announces: the four words behind its header,
      or the first of them that is not in the file. */
  ghost predicate FieldsGive(b: seq<byte>, lc: nat, r: Result<Symtab, Error>) {
    if lc + 24 > |b| then
      && r.Err? && r.error.Truncated? && r.error.at in {lc + 8, lc + 12, lc + 16, lc + 20}
      && r.error.at + 4 > |b| && (r.error.at > lc + 8 ==> r.error.at <= |b|)
    else
      var t := Symtab(lc, ReadU32(b, lc + 8), ReadU32(b, lc + 12), ReadU32(b, lc + 16), ReadU32(b, lc + 20));
      if t.symoff + 16 * t.nsyms <= |b| && t.stroff + t.strsize <= |b| then r == Ok(t) else r == Err(RangesOutOfBounds)
  }

  /** What the search for LC_SYMTAB leads to. */
  ghost predicate FoundGives(b: seq<byte>, found: Result<nat, Error>, r: Result<Symtab, Error>) {
    match found
    case Ok(lc) => FieldsGive(b, lc, r)
    case Err(e) => r == Err(e)
  }

  /** The symbol table of a file: a 32-byte header with the magic number and the number of commands. */
  ghost predicate TableIs(b: seq<byte>, r: Result<Symtab, Error>) {
    if |b| < 32 || ReadU32(b, 0) != 0xfeedfacf then r == Err(NotMachO)
    else exists found, ats :: EndsWith(b, 32, ReadU32(b, 16), ats, found) && FoundGives(b, found, r)
  }

  lemma FieldsAre(b: seq<byte>, r: Result<Symtab, Error>)
    requires |b| >= 32 && ReadU32(b, 0) == 0xfeedfacf
    ensures ReadSymtab(b) == r <==> FoundGives(b, FindCommand(b, 32, ReadU32(b, 16)), r)
  {
    hide FindCommand, ReadU32;
  }

  /** The reader returns the symbol table, or the failure, that the file's format gives. */
  lemma TableExactly(b: seq<byte>, r: Result<Symtab, Error>)
    ensures ReadSymtab(b) == r <==> TableIs(b, r)
  {
    hide ReadU32, EndsWith, FoundGives, FindCommand;
    if |b| < 32 || ReadU32(b, 0) != 0xfeedfacf {
    } else {
      hide ReadSymtab;
      var n := ReadU32(b, 16);
      FieldsAre(b, r);
      FindsByChain(b, n, FindCommand(b, 32, n));
      forall found, ats | EndsWith(b, 32, n, ats, found) ensures found == FindCommand(b, 32, n) {
        FindsByChain(b, n, found);
      }
    }
  }

  // ---- the symbols ---------------------------------------------------------

  /** Entry `i` of the symbol table: a string offset, a type byte, three bytes
      the reader ignores, and eight value bytes. A common symbol has zero N_TYPE
      bits, those of 0x0e, and a value. */
  ghost predicate EntryIs(b: seq<byte>, t: Symtab, i: nat, s: Sym)
    requires t.symoff + 16 * i + 16 <= |b|
  {
    && s.at == t.symoff + 16 * i
    && ReadU32(b, s.at) < t.strsize && s.nameAt == t.stroff + ReadU32(b, s.at)
    && NameIsAt(b, s.nameAt, s.name)
    && s.nType == b[s.at + 4]
    && (s.common <==> s.nType % 16 < 2 && b[s.at + 8..s.at + 16] != [0, 0, 0, 0, 0, 0, 0, 0])
  }

  /** The type byte bit by bit: N_TYPE is the bits 1 to 3, N_EXT bit 0 and N_PEXT bit 4. */
  lemma TypeBits(s: Sym, stab: nat, pext: nat, nTypeBits: nat, ext: nat)
    requires s.nType == 32 * stab + 16 * pext + 2 * nTypeBits + ext
    requires pext < 2 && nTypeBits < 8 && ext < 2
    ensures s.IsUndf() <==> nTypeBits == 0
    ensures s.IsVisible() <==> ext == 1 || pext == 1
  {
    DivRest(2, 8 * (2 * stab + pext) + nTypeBits, ext, s.nType);
    DivRest(8, 2 * stab + pext, nTypeBits, s.nType / 2);
    DivRest(16, 2 * stab + pext, 2 * nTypeBits + ext, s.nType);
    DivRest(2, stab, pext, s.nType / 16);
  }

  lemma DivRest(d: nat, q: nat, r: nat, n: nat)
    requires d in {2, 8, 16} && r < d && n == d * q + r
    ensures n / d == q && n % d == r
  {
    if d == 2 {
      assert n == 2 * q + r;
    } else if d == 8 {
      assert n == 8 * q + r;
    } else {
      assert n == 16 * q + r;
    }
  }

  lemma MiddleBits(n: byte)
    ensures n / 2 % 8 == 0 <==> n % 16 < 2
  {
  }

  lemma EntryExactly(b: seq<byte>, t: Symtab, i: nat, s: Sym)
    requires i < t.nsyms && t.symoff + 16 * t.nsyms <= |b| && t.stroff + t.strsize <= |b|
    ensures ReadSym(b, t, i) == Ok(s) <==> EntryIs(b, t, i, s)
  {
    hide ReadU32, NameIsAt, FindNul;
    MiddleBits(b[t.symoff + 16 * i + 4]);
    ZeroBytes(b[t.symoff + 16 * i + 8..t.symoff + 16 * i + 16]);
    if EntryIs(b, t, i, s) {
      ReadSymIs(b, t, i, s.name);
    }
  }

  lemma ZeroBytes(v: seq<byte>)
    requires |v| == 8
    ensures AnyNonZero(v) <==> v != [0, 0, 0, 0, 0, 0, 0, 0]
  {
  }

  /** A file is read as the object that its format gives, and refused otherwise. */
  lemma ParsesExactly(b: seq<byte>, o: Object)
    ensures Parse(b) == Ok(o) <==>
      && TableIs(b, Ok(o.tab)) && |o.syms| == o.tab.nsyms
      && o.tab.symoff + 16 * o.tab.nsyms <= |b|
      && forall i :: 0 <= i < |o.syms| ==> EntryIs(b, o.tab, i, o.syms[i])
  {
    hide TableIs, ReadSymtab, ReadSym, EntryIs;
    TableExactly(b, Ok(o.tab));
    if ReadSymtab(b) == Ok(o.tab) && |o.syms| == o.tab.nsyms {
      forall i | 0 <= i < |o.syms| ensures ReadSym(b, o.tab, i) == Ok(o.syms[i]) <==> EntryIs(b, o.tab, i, o.syms[i]) {
        EntryExactly(b, o.tab, i, o.syms[i]);
      }
      if forall i :: 0 <= i < |o.syms| ==> ReadSym(b, o.tab, i) == Ok(o.syms[i]) {
        ParseIs(b, o);
      }
    }
  }
}
