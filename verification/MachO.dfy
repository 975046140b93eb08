/** The symbol-table view of a 64-bit little-endian Mach-O object: the load
    command walk that finds LC_SYMTAB, and the decoded nlist entries. */
module MachO {
  import opened Wrappers
  import opened Bytes

  const MH_MAGIC_64: nat := 0xfeedfacf
  const LC_SYMTAB: nat := 2

  /** The named failures of the reader, with the offset or symbol they name. */
  datatype Error =
    | NotMachO
    | Truncated(at: nat)
    | MalformedCommand(at: nat)
    | NoSymtab
    | RangesOutOfBounds
    | StrxOutOfBounds(i: nat)
    | Unterminated(i: nat)

  type Name = s: seq<byte> | NulFree(s)

  /** Where LC_SYMTAB is, and the four fields it holds. */
  datatype Symtab = Symtab(lc: nat, symoff: nat, nsyms: nat, stroff: nat, strsize: nat)

  /** One nlist entry, decoded; `name` is the slice of the file at `nameAt`. */
  datatype Sym = Sym(at: nat, nameAt: nat, name: Name, nType: byte, common: bool) {
    /** The N_TYPE bits (0x0e) are zero for an undefined symbol. */
    predicate IsUndf() { nType / 2 % 8 == 0 }

    predicate IsDef() { !IsUndf() || common }

    /** N_EXT (0x01) or N_PEXT (0x10). */
    predicate IsVisible() { nType % 2 == 1 || nType / 16 % 2 == 1 }
  }

  /** A parsed object: its symbol table and its symbols. */
  datatype Object = Object(tab: Symtab, syms: seq<Sym>)

  function LeU32(b: seq<byte>, at: nat): Result<nat, Error> {
    if at + 4 <= |b| then Ok(ReadU32(b, at)) else Err(Truncated(at))
  }

  /** The load-command walk: the first LC_SYMTAB among `left` commands. */
  function FindCommand(b: seq<byte>, at: nat, left: nat): (r: Result<nat, Error>)
    ensures r.Ok? ==> at <= r.value && r.value + 8 <= |b|
    decreases left
  {
    if left == 0 then Err(NoSymtab)
    else
      var cmd :- LeU32(b, at);
      var size :- LeU32(b, at + 4);
      if size < 8 then Err(MalformedCommand(at))
      else if cmd == LC_SYMTAB then Ok(at)
      else FindCommand(b, at + size, left - 1)
  }

  function ReadSymtab(b: seq<byte>): (r: Result<Symtab, Error>)
    ensures r.Ok? ==>
      var t := r.value;
      32 <= t.lc && t.lc + 24 <= |b| && t.symoff + 16 * t.nsyms <= |b| && t.stroff + t.strsize <= |b|
  {
    if |b| < 32 || ReadU32(b, 0) != MH_MAGIC_64 then Err(NotMachO)
    else
      var lc :- FindCommand(b, 32, ReadU32(b, 16));
      var symoff :- LeU32(b, lc + 8);
      var nsyms :- LeU32(b, lc + 12);
      var stroff :- LeU32(b, lc + 16);
      var strsize :- LeU32(b, lc + 20);
      if symoff + nsyms * 16 > |b| || stroff + strsize > |b| then Err(RangesOutOfBounds)
      else Ok(Symtab(lc, symoff, nsyms, stroff, strsize))
  }

  predicate AnyNonZero(b: seq<byte>) {
    exists k :: 0 <= k < |b| && b[k] != 0
  }

  /** A NUL-terminated name starts at `at`. */
  predicate NameIsAt(b: seq<byte>, at: nat, name: Name) {
    at + |name| < |b| && b[at..at + |name|] == name && b[at + |name|] == 0
  }

  /** The i-th nlist entry. The name search runs to the end of the file, not
      to the end of the string table. */
  function ReadSym(b: seq<byte>, t: Symtab, i: nat): (r: Result<Sym, Error>)
    requires i < t.nsyms
    requires t.symoff + 16 * t.nsyms <= |b| && t.stroff + t.strsize <= |b|
    ensures r.Ok? ==>
      var s := r.value;
      s.at == t.symoff + 16 * i && t.stroff <= s.nameAt < t.stroff + t.strsize && NameIsAt(b, s.nameAt, s.name)
  {
    var at := t.symoff + i * 16;
    var strx := ReadU32(b, at);
    if strx >= t.strsize then Err(StrxOutOfBounds(i))
    else
      var n := FindNul(b, t.stroff + strx);
      if n < 0 then Err(Unterminated(i))
      else
        var nType := b[at + 4];
        var name := b[t.stroff + strx..t.stroff + strx + n];
        Ok(Sym(at, t.stroff + strx, name, nType, nType / 2 % 8 == 0 && AnyNonZero(b[at + 8..at + 16])))
  }

  /** The entries below `n`, or the first failure among them. */
  function ReadSyms(b: seq<byte>, t: Symtab, n: nat): (r: Result<seq<Sym>, Error>)
    requires n <= t.nsyms
    requires t.symoff + 16 * t.nsyms <= |b| && t.stroff + t.strsize <= |b|
    ensures r.Ok? ==> |r.value| == n && forall i :: 0 <= i < n ==> ReadSym(b, t, i) == Ok(r.value[i])
  {
    hide ReadSym;
    if n == 0 then Ok([])
    else
      var init :- ReadSyms(b, t, n - 1);
      var s :- ReadSym(b, t, n - 1);
      Ok(init + [s])
  }

  function Parse(b: seq<byte>): (r: Result<Object, Error>)
    ensures r.Ok? ==> ReadSymtab(b) == Ok(r.value.tab) && |r.value.syms| == r.value.tab.nsyms
    ensures r.Ok? ==> forall i :: 0 <= i < |r.value.syms| ==> ReadSym(b, r.value.tab, i) == Ok(r.value.syms[i])
  {
    var t :- ReadSymtab(b);
    var syms :- ReadSyms(b, t, t.nsyms);
    Ok(Object(t, syms))
  }

  // ---- the loops of the reader -------------------------------------------

  /** The LC_SYMTAB locator, as the command loop runs it. */
  method LocateSymtab(b: seq<byte>) returns (r: Result<Symtab, Error>)
    ensures r == ReadSymtab(b)
  {
    hide ReadU32;
    if |b| < 32 || ReadU32(b, 0) != MH_MAGIC_64 {
      return Err(NotMachO);
    }
    var ncmds := ReadU32(b, 16);
    var lc: Option<nat> := None;
    var at: nat := 32;
    for k := 0 to ncmds
      invariant lc.None? && FindCommand(b, 32, ncmds) == FindCommand(b, at, ncmds - k)
    {
      var cmd :- LeU32(b, at);
      var cmdsize :- LeU32(b, at + 4);
      if cmdsize < 8 {
        return Err(MalformedCommand(at));
      }
      if cmd == LC_SYMTAB {
        lc := Some(at);
        break;
      }
      at := at + cmdsize;
    }
    if lc.None? {
      return Err(NoSymtab);
    }
    var symoff :- LeU32(b, lc.value + 8);
    var nsyms :- LeU32(b, lc.value + 12);
    var stroff :- LeU32(b, lc.value + 16);
    var strsize :- LeU32(b, lc.value + 20);
    if symoff + nsyms * 16 > |b| || stroff + strsize > |b| {
      return Err(RangesOutOfBounds);
    }
    return Ok(Symtab(lc.value, symoff, nsyms, stroff, strsize));
  }

  /** The nlist scan. */
  method DecodeSymbols(b: seq<byte>, t: Symtab) returns (r: Result<seq<Sym>, Error>)
    requires t.symoff + 16 * t.nsyms <= |b| && t.stroff + t.strsize <= |b|
    ensures r == ReadSyms(b, t, t.nsyms)
  {
    var out: seq<Sym> := [];
    for i := 0 to t.nsyms
      invariant ReadSyms(b, t, i) == Ok(out)
    {
      var s := ReadSym(b, t, i);
      if s.Err? {
        ReadSymsFails(b, t, i + 1, t.nsyms);
        return Err(s.error);
      }
      out := out + [s.value];
    }
    return Ok(out);
  }

  lemma {:induction false} ReadSymsFails(b: seq<byte>, t: Symtab, m: nat, n: nat)
    requires m <= n <= t.nsyms
    requires t.symoff + 16 * t.nsyms <= |b| && t.stroff + t.strsize <= |b|
    requires ReadSyms(b, t, m).Err?
    ensures ReadSyms(b, t, n) == ReadSyms(b, t, m)
    decreases n
  {
    hide ReadSym;
    if m < n {
      ReadSymsFails(b, t, m, n - 1);
    }
  }

  /** A scan whose every entry decodes succeeds. */
  lemma {:induction false} ReadSymsOk(b: seq<byte>, t: Symtab, syms: seq<Sym>, n: nat)
    requires n <= t.nsyms == |syms|
    requires t.symoff + 16 * t.nsyms <= |b| && t.stroff + t.strsize <= |b|
    requires forall i :: 0 <= i < t.nsyms ==> ReadSym(b, t, i) == Ok(syms[i])
    ensures ReadSyms(b, t, n) == Ok(syms[..n])
  {
    hide ReadSym;
    if n > 0 {
      ReadSymsOk(b, t, syms, n - 1);
      assert syms[..n] == syms[..n - 1] + [syms[n - 1]];
    }
  }

  // ---- what the reader depends on ----------------------------------------

  /** The command walk reads nothing at or beyond the end of the eight-byte
      header of the command it finds. */
  lemma {:induction false} FindCommandFrame(b: seq<byte>, c: seq<byte>, at: nat, left: nat)
    requires FindCommand(b, at, left).Ok?
    requires FindCommand(b, at, left).value + 8 <= |c|
    requires forall k :: 0 <= k < FindCommand(b, at, left).value + 8 ==> b[k] == c[k]
    ensures FindCommand(c, at, left) == FindCommand(b, at, left)
    decreases left
  {
    hide LeValue;
    assert b[at..at + 4] == c[at..at + 4];
    assert b[at + 4..at + 8] == c[at + 4..at + 8];
    if ReadU32(b, at) != LC_SYMTAB {
      FindCommandFrame(b, c, at + ReadU32(b, at + 4), left - 1);
    }
  }

  /** A walk that finds no LC_SYMTAB finds none in a longer file either. */
  lemma {:induction false} NoCommandFrame(b: seq<byte>, z: seq<byte>, at: nat, left: nat)
    requires FindCommand(b, at, left) == Err(NoSymtab)
    ensures FindCommand(b + z, at, left) == Err(NoSymtab)
    decreases left
  {
    hide LeValue;
    if left > 0 {
      assert (b + z)[at..at + 4] == b[at..at + 4];
      assert (b + z)[at + 4..at + 8] == b[at + 4..at + 8];
      NoCommandFrame(b, z, at + ReadU32(b, at + 4), left - 1);
    }
  }

  /** The header fields ReadSymtab uses are those below the end of LC_SYMTAB. */
  lemma SymtabFrame(b: seq<byte>, c: seq<byte>)
    requires ReadSymtab(b).Ok? && |c| >= |b|
    requires forall k :: 0 <= k < ReadSymtab(b).value.lc + 24 ==> b[k] == c[k]
    ensures ReadSymtab(c) == ReadSymtab(b)
  {
    hide LeValue, FindCommand;
    var lc := ReadSymtab(b).value.lc;
    assert c[0..4] == b[0..4] && c[16..20] == b[16..20];
    FindCommandFrame(b, c, 32, ReadU32(b, 16));
    assert c[lc + 8..lc + 12] == b[lc + 8..lc + 12];
    assert c[lc + 12..lc + 16] == b[lc + 12..lc + 16];
    assert c[lc + 16..lc + 20] == b[lc + 16..lc + 20];
    assert c[lc + 20..lc + 24] == b[lc + 20..lc + 24];
  }

  /** What an entry decodes to, from the bytes it is made of. */
  lemma ReadSymIs(b: seq<byte>, t: Symtab, i: nat, name: Name)
    requires i < t.nsyms && t.symoff + 16 * t.nsyms <= |b| && t.stroff + t.strsize <= |b|
    requires var strx := ReadU32(b, t.symoff + 16 * i); strx < t.strsize && NameIsAt(b, t.stroff + strx, name)
    ensures var at := t.symoff + 16 * i;
      ReadSym(b, t, i) == Ok(Sym(at, t.stroff + ReadU32(b, at), name, b[at + 4],
                                 b[at + 4] / 2 % 8 == 0 && AnyNonZero(b[at + 8..at + 16])))
  {
    hide ReadU32, FindNul;
    NameIsFound(b, t.stroff + ReadU32(b, t.symoff + 16 * i), name);
  }

  lemma SymSlack(b: seq<byte>, z: seq<byte>, t: Symtab, i: nat)
    requires i < t.nsyms && t.symoff + 16 * t.nsyms <= |b| && t.stroff + t.strsize <= |b|
    requires ReadSym(b, t, i).Ok?
    ensures ReadSym(b + z, t, i) == ReadSym(b, t, i)
  {
    hide LeValue, FindNul, AnyNonZero;
    var c, s := b + z, ReadSym(b, t, i).value;
    assert c[s.at..s.at + 4] == b[s.at..s.at + 4];
    assert c[s.at + 8..s.at + 16] == b[s.at + 8..s.at + 16];
    assert c[s.nameAt..s.nameAt + |s.name|] == b[s.nameAt..s.nameAt + |s.name|];
    ReadSymIs(c, t, i, s.name);
  }

  lemma NameIsFound(b: seq<byte>, at: nat, name: Name)
    requires NameIsAt(b, at, name)
    ensures FindNul(b, at) == |name|
  {
    forall k | at <= k < at + |name| ensures b[k] != 0 {
      assert b[k] == b[at..at + |name|][k - at];
    }
    FindNulUnique(b, at, |name|);
  }

  /** Parsing succeeds exactly when every step does. */
  lemma ParseIs(b: seq<byte>, o: Object)
    requires ReadSymtab(b) == Ok(o.tab) && |o.syms| == o.tab.nsyms
    requires forall i :: 0 <= i < |o.syms| ==> ReadSym(b, o.tab, i) == Ok(o.syms[i])
    ensures Parse(b) == Ok(o)
  {
    ReadSymsOk(b, o.tab, o.syms, o.tab.nsyms);
    assert o.syms[..o.tab.nsyms] == o.syms;
  }

  /** Trailing bytes are slack to a Mach-O object: they change neither the
      symbol table, nor any symbol, nor any name. */
  lemma TrailingSlack(b: seq<byte>, z: seq<byte>)
    requires Parse(b).Ok?
    ensures Parse(b + z) == Parse(b)
  {
    var o, c := Parse(b).value, b + z;
    SymtabFrame(b, c);
    forall i | 0 <= i < |o.syms| ensures ReadSym(c, o.tab, i) == Ok(o.syms[i]) {
      assert ReadSym(b, o.tab, i) == Ok(o.syms[i]);
      SymSlack(b, z, o.tab, i);
    }
    ParseIs(c, o);
  }
}
