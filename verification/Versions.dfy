/** Dotted-version comparison and the pessimistic requirement operator. */
module Versions {
  import opened Wrappers
  import opened Text
  import opened Decimal

  const U64: nat := 0x1_0000_0000_0000_0000

  datatype Order = Less | Equal | Greater {
    function Flip(): Order {
      match this
      case Less => Greater
      case Equal => Equal
      case Greater => Less
    }
  }

  /** `str::parse::<u64>`: an optional plus sign, then digits, below 2^64. */
  function ParseU64(s: string): (r: Option<nat>)
    ensures r.Some? ==> r.value < U64
  {
    var d := if s != "" && s[0] == '+' then s[1..] else s;
    if d == "" || !AllDigits(d) || Value(TextDigits(d)) >= U64 then None
    else Some(Value(TextDigits(d)))
  }

  function NatCmp(x: nat, y: nat): Order {
    if x < y then Less else if x == y then Equal else Greater
  }

  /** The lexical order of `str::cmp`. */
  function Lex(a: string, b: string): Order {
    if a == "" then (if b == "" then Equal else Less)
    else if b == "" then Greater
    else if a[0] < b[0] then Less
    else if b[0] < a[0] then Greater
    else Lex(a[1..], b[1..])
  }

  /** One segment against another: numbers by value, before everything else, which goes by text. */
  function SegCmp(a: string, b: string): Order {
    var x, y := ParseU64(a), ParseU64(b);
    if x.Some? && y.Some? then NatCmp(x.value, y.value)
    else if x.Some? then Less
    else if y.Some? then Greater
    else Lex(a, b)
  }

  /** A missing segment counts as 0. */
  function Head(p: seq<string>): string { if p == [] then "0" else p[0] }

  function Tail(p: seq<string>): seq<string> { if p == [] then [] else p[1..] }

  function CmpSegs(a: seq<string>, b: seq<string>): Order
    decreases |a| + |b|
  {
    if a == [] && b == [] then Equal
    else if SegCmp(Head(a), Head(b)) != Equal then SegCmp(Head(a), Head(b))
    else CmpSegs(Tail(a), Tail(b))
  }

  predicate IsDot(c: char) { c == '.' }

  function Segments(v: string): (r: seq<string>)
    ensures r != []
  {
    Split(v, IsDot)
  }

  function VersionCmp(a: string, b: string): Order {
    CmpSegs(Segments(a), Segments(b))
  }

  /** The comparison as the program runs it, segment index by segment index. */
  method CompareVersions(a: string, b: string) returns (r: Order)
    ensures r == VersionCmp(a, b)
  {
    hide SegCmp;
    var pa, pb := Segments(a), Segments(b);
    var n := if |pa| > |pb| then |pa| else |pb|;
    assert pa[0..] == pa && pb[0..] == pb;
    for i := 0 to n
      invariant CmpSegs(From(pa, i), From(pb, i)) == CmpSegs(pa, pb)
    {
      var sa := if i < |pa| then pa[i] else "0";
      var sb := if i < |pb| then pb[i] else "0";
      var ord := SegCmp(sa, sb);
      FromStep(pa, i);
      FromStep(pb, i);
      if ord != Equal {
        return ord;
      }
    }
    return Equal;
  }

  function From(p: seq<string>, i: nat): seq<string> {
    if i <= |p| then p[i..] else []
  }

  lemma FromStep(p: seq<string>, i: nat)
    ensures Head(From(p, i)) == if i < |p| then p[i] else "0"
    ensures Tail(From(p, i)) == From(p, i + 1)
  {
    if i < |p| {
      assert p[i..][1..] == p[i + 1..];
    }
  }

  // ---- the order -----------------------------------------------------------

  lemma {:induction false} LexSwap(a: string, b: string)
    ensures Lex(b, a) == Lex(a, b).Flip()
    ensures Lex(a, b) == Equal <==> a == b
  {
    if a != "" && b != "" {
      LexSwap(a[1..], b[1..]);
      if a[0] == b[0] {
        assert a == [a[0]] + a[1..] && b == [b[0]] + b[1..];
      }
    }
  }

  lemma {:induction false} LexTransitive(a: string, b: string, c: string)
    requires Lex(a, b) != Greater && Lex(b, c) != Greater
    ensures Lex(a, c) != Greater
    ensures Lex(a, b) == Less || Lex(b, c) == Less ==> Lex(a, c) == Less
  {
    if a != "" && b != "" && c != "" {
      if a[0] == b[0] == c[0] {
        LexTransitive(a[1..], b[1..], c[1..]);
      }
    }
  }

  lemma SegSwap(a: string, b: string)
    ensures SegCmp(b, a) == SegCmp(a, b).Flip()
    ensures SegCmp(a, a) == Equal
  {
    hide ParseU64;
    LexSwap(a, b);
    LexSwap(a, a);
  }

  lemma SegTransitive(a: string, b: string, c: string)
    requires SegCmp(a, b) != Greater && SegCmp(b, c) != Greater
    ensures SegCmp(a, c) != Greater
    ensures SegCmp(a, b) == Less || SegCmp(b, c) == Less ==> SegCmp(a, c) == Less
  {
    hide ParseU64, Lex;
    if ParseU64(a).None? && ParseU64(b).None? && ParseU64(c).None? {
      LexTransitive(a, b, c);
    }
  }

  lemma {:induction false} SegsSwap(a: seq<string>, b: seq<string>)
    ensures CmpSegs(b, a) == CmpSegs(a, b).Flip()
    ensures CmpSegs(a, a) == Equal
    decreases |a| + |b|
  {
    hide SegCmp;
    SegSwap(Head(a), Head(b));
    if a != [] || b != [] {
      SegsSwap(Tail(a), Tail(b));
      if a == [] {
        assert CmpSegs(a, a) == Equal;
      }
    }
  }

  lemma {:induction false} SegsTransitive(a: seq<string>, b: seq<string>, c: seq<string>)
    requires CmpSegs(a, b) != Greater && CmpSegs(b, c) != Greater
    ensures CmpSegs(a, c) != Greater
    ensures CmpSegs(a, b) == Less || CmpSegs(b, c) == Less ==> CmpSegs(a, c) == Less
    decreases |a| + |b| + |c|
  {
    hide SegCmp;
    if a != [] || b != [] || c != [] {
      ZerosAreEqual();
      HeadsNotGreater(a, b);
      HeadsNotGreater(b, c);
      SegTransitive(Head(a), Head(b), Head(c));
      if SegCmp(Head(a), Head(b)) == Equal && SegCmp(Head(b), Head(c)) == Equal {
        EqualSegments(Head(a), Head(b), Head(c));
        SegsTransitive(Tail(a), Tail(b), Tail(c));
      }
    }
  }

  lemma ZerosAreEqual()
    ensures SegCmp("0", "0") == Equal
  {
    SegSwap("0", "0");
  }

  lemma HeadsNotGreater(a: seq<string>, b: seq<string>)
    requires CmpSegs(a, b) != Greater
    ensures SegCmp(Head(a), Head(b)) != Greater
    ensures SegCmp(Head(a), Head(b)) == Equal ==> CmpSegs(Tail(a), Tail(b)) == CmpSegs(a, b)
  {
    hide SegCmp;
    ZerosAreEqual();
  }

  lemma EqualSegments(a: string, b: string, c: string)
    requires SegCmp(a, b) == Equal && SegCmp(b, c) == Equal
    ensures SegCmp(a, c) == Equal
  {
    hide SegCmp;
    SegTransitive(a, b, c);
    SegSwap(a, b);
    SegSwap(b, c);
    SegSwap(a, c);
    SegTransitive(c, b, a);
  }

  /** The comparison is a total preorder: swapping the operands flips it, and
      it is transitive, strictly so where one step is strict. */
  lemma VersionOrder(a: string, b: string, c: string)
    ensures VersionCmp(a, a) == Equal && VersionCmp(b, a) == VersionCmp(a, b).Flip()
    ensures VersionCmp(a, b) != Greater && VersionCmp(b, c) != Greater ==>
      VersionCmp(a, c) != Greater
      && (VersionCmp(a, b) == Less || VersionCmp(b, c) == Less ==> VersionCmp(a, c) == Less)
  {
    hide CmpSegs;
    SegsSwap(Segments(a), Segments(b));
    if VersionCmp(a, b) != Greater && VersionCmp(b, c) != Greater {
      SegsTransitive(Segments(a), Segments(b), Segments(c));
    }
  }

  /** A segment that counts as 0: `0`, `00`, `+0`. */
  predicate IsZero(seg: string) { ParseU64(seg) == Some(0) }

  lemma ZeroIsZero(z: string)
    requires IsZero(z)
    ensures IsZero("0") && SegCmp(z, "0") == Equal
    ensures forall x :: SegCmp(z, x) == SegCmp("0", x)
  {
    assert "0" == DecText(0);
    ParsePrinted(0);
  }

  lemma {:induction false} ZerosAreMissing(zs: seq<string>, b: seq<string>)
    requires forall i :: 0 <= i < |zs| ==> IsZero(zs[i])
    ensures CmpSegs(zs, b) == CmpSegs([], b)
    decreases |zs|
  {
    hide SegCmp, IsZero;
    if zs != [] {
      ZeroIsZero(zs[0]);
      ZerosAreEqual();
      ZerosAreMissing(zs[1..], Tail(b));
      if b == [] {
        assert CmpSegs(zs[1..], []) == Equal;
      }
    }
  }

  lemma {:induction false} ZeroTail(a: seq<string>, zs: seq<string>, b: seq<string>)
    requires forall i :: 0 <= i < |zs| ==> IsZero(zs[i])
    ensures CmpSegs(a + zs, b) == CmpSegs(a, b)
    decreases |a|
  {
    hide SegCmp, IsZero;
    if a == [] {
      assert a + zs == zs;
      ZerosAreMissing(zs, b);
    } else {
      assert (a + zs)[1..] == a[1..] + zs && (a + zs)[0] == a[0];
      ZeroTail(a[1..], zs, Tail(b));
    }
  }

  /** The text of further segments behind a version. */
  function Dotted(zs: seq<string>): string {
    if zs == [] then "" else "." + zs[0] + Dotted(zs[1..])
  }

  /** Trailing segments that parse to 0 do not matter, on either side, however many and however spelled. */
  lemma TrailingZeros(a: string, zs: seq<string>, b: string)
    requires forall i :: 0 <= i < |zs| ==> IsZero(zs[i])
    ensures VersionCmp(a + Dotted(zs), b) == VersionCmp(a, b)
    ensures VersionCmp(b, a + Dotted(zs)) == VersionCmp(b, a)
  {
    hide CmpSegs, IsZero, Segments;
    SegmentsOfDotted(a, zs);
    ZeroTail(Segments(a), zs, Segments(b));
    SegsSwap(Segments(a + Dotted(zs)), Segments(b));
    SegsSwap(Segments(a), Segments(b));
  }

  lemma {:induction false} SegmentsOfDotted(a: string, zs: seq<string>)
    requires forall i :: 0 <= i < |zs| ==> IsZero(zs[i])
    ensures Segments(a + Dotted(zs)) == Segments(a) + zs
    decreases |zs|
  {
    hide Segments, IsZero;
    if zs == [] {
      assert a + Dotted(zs) == a && Segments(a) + zs == Segments(a);
    } else {
      var front := a + "." + zs[0];
      assert a + Dotted(zs) == front + Dotted(zs[1..]);
      ZeroHasNoDot(zs[0]);
      SegmentsOfOne(a, zs[0]);
      SegmentsOfDotted(front, zs[1..]);
      assert Segments(a) + [zs[0]] + zs[1..] == Segments(a) + zs;
    }
  }

  lemma ZeroHasNoDot(z: string)
    requires IsZero(z)
    ensures Free(z, IsDot)
  {
    var d := if z != "" && z[0] == '+' then z[1..] else z;
    assert AllDigits(d);
    forall k | 0 <= k < |z| ensures !IsDot(z[k]) {
      if d != z && k > 0 {
        assert z[k] == d[k - 1];
      }
    }
  }

  lemma SegmentsOfOne(a: string, z: string)
    requires Free(z, IsDot)
    ensures Segments(a + "." + z) == Segments(a) + [z]
  {
    hide Split, Join;
    var p := Segments(a);
    SplitIsFree(a, IsDot);
    JoinSplit(a, '.', IsDot);
    JoinSnoc(p, z, '.');
    assert a + "." + z == Join(p, '.') + ['.'] + z;
    SplitJoin(p + [z], '.', IsDot);
  }

  // ---- the pessimistic requirement -----------------------------------------

  /** How many leading segments `~>` holds fixed: all but the last, or the only one. */
  function Fixed(segs: seq<string>): nat {
    if |segs| < 2 then |segs| else |segs| - 1
  }

  function NumberOf(s: string): nat {
    if ParseU64(s).Some? then ParseU64(s).value else 0
  }

  /** The upper bound: the fixed segments as numbers, the last of them bumped,
      wrapping at 2^64 as unsigned addition does without overflow checks. */
  function Upper(segs: seq<string>, m: nat): (u: seq<string>)
    requires 0 < m <= |segs|
    ensures |u| == m
  {
    if m == 1 then [DecText((NumberOf(segs[0]) + 1) % U64)]
    else [DecText(NumberOf(segs[0]))] + Upper(segs[1..], m - 1)
  }

  function UpperBound(v: string): string {
    var segs := Segments(v);
    Join(Upper(segs, Fixed(segs)), '.')
  }

  /** `~> v`. */
  predicate Pessimistic(version: string, v: string) {
    VersionCmp(version, v) != Less && VersionCmp(version, UpperBound(v)) == Less
  }

  /** The two agree on the first `m` segments, missing ones counting as 0. */
  predicate AgreeOn(a: seq<string>, b: seq<string>, m: nat) {
    m == 0 || (SegCmp(Head(a), Head(b)) == Equal && AgreeOn(Tail(a), Tail(b), m - 1))
  }

  predicate Agrees(version: string, v: string) {
    AgreeOn(Segments(version), Segments(v), Fixed(Segments(v)))
  }

  /** The fixed segments are numbers, and the last of them can be bumped. */
  predicate Bumpable(segs: seq<string>, m: nat)
    requires 0 < m <= |segs|
  {
    ParseU64(segs[0]).Some? && if m == 1 then NumberOf(segs[0]) + 1 < U64 else Bumpable(segs[1..], m - 1)
  }

  lemma ParsePrinted(n: nat)
    requires n < U64
    ensures ParseU64(DecText(n)) == Some(n)
  {
    TextValueIs(n);
    assert DecText(n)[0] != '+';
  }

  lemma {:induction false} UpperIsDotFree(segs: seq<string>, m: nat)
    requires 0 < m <= |segs|
    ensures AllFree(Upper(segs, m), IsDot)
  {
    hide NumberOf;
    if m > 1 {
      UpperIsDotFree(segs[1..], m - 1);
    }
  }

  lemma UpperSegments(v: string)
    ensures Segments(UpperBound(v)) == Upper(Segments(v), Fixed(Segments(v)))
  {
    hide Split, Join, Upper;
    var segs := Segments(v);
    UpperIsDotFree(segs, Fixed(segs));
    SplitJoin(Upper(segs, Fixed(segs)), '.', IsDot);
  }

  /** No version is below the absent rest of another. */
  lemma {:induction false} NeverBelowNothing(a: seq<string>)
    ensures CmpSegs(a, []) != Less
  {
    if a != [] {
      assert ParseU64("0") == Some(0) by {
        assert "0" == DecText(0);
        ParsePrinted(0);
      }
      NeverBelowNothing(a[1..]);
    }
  }

  lemma BumpHead(x: string, k: nat)
    requires k + 1 < U64
    ensures SegCmp(x, DecText(k)) == Equal ==> SegCmp(x, DecText(k + 1)) == Less
    ensures SegCmp(x, DecText(k)) == Greater ==> SegCmp(x, DecText(k + 1)) != Less
  {
    hide ParseU64, DecText;
    ParsePrinted(k);
    ParsePrinted(k + 1);
  }

  lemma SameNumber(x: string, s: string)
    requires ParseU64(s).Some?
    ensures SegCmp(x, s) == SegCmp(x, DecText(NumberOf(s)))
  {
    hide DecText;
    ParsePrinted(NumberOf(s));
  }

  /** Below the bumped bound, given at least the requirement, means agreement on the fixed segments. */
  lemma {:induction false} BoundIsPrefix(a: seq<string>, segs: seq<string>, m: nat)
    requires 0 < m <= |segs| && Bumpable(segs, m) && CmpSegs(a, segs) != Less
    ensures CmpSegs(a, Upper(segs, m)) == Less <==> AgreeOn(a, segs, m)
    decreases m
  {
    hide SegCmp, ParseU64, DecText, NumberOf;
    var x, k := Head(a), NumberOf(segs[0]);
    SameNumber(x, segs[0]);
    if m == 1 {
      BumpHead(x, k);
      NeverBelowNothing(Tail(a));
      assert Tail(Upper(segs, m)) == [];
      assert AgreeOn(Tail(a), Tail(segs), 0);
    } else if SegCmp(x, segs[0]) == Equal {
      BoundIsPrefix(Tail(a), segs[1..], m - 1);
      assert Tail(Upper(segs, m)) == Upper(segs[1..], m - 1);
    }
  }

  /** Where some fixed segment cannot be bumped, a version equal to the requirement is refused. */
  lemma {:induction false} RefusesItself(segs: seq<string>, m: nat)
    requires 0 < m <= |segs| && !Bumpable(segs, m)
    ensures CmpSegs(segs, Upper(segs, m)) != Less
    decreases m
  {
    hide DecText, ParseU64, Lex;
    var s := segs[0];
    SegSwap(s, s);
    if ParseU64(s).None? {
      ParsePrinted(0);
      ParsePrinted(1);
    } else if m > 1 {
      SameNumber(s, s);
      RefusesItself(segs[1..], m - 1);
      assert Tail(Upper(segs, m)) == Upper(segs[1..], m - 1);
    } else {
      assert (NumberOf(s) + 1) % U64 == 0;
      ParsePrinted(0);
    }
  }

  lemma {:induction false} AgreesItself(a: seq<string>, m: nat)
    ensures AgreeOn(a, a, m)
  {
    hide SegCmp;
    if m > 0 {
      SegSwap(Head(a), Head(a));
      AgreesItself(Tail(a), m - 1);
    }
  }

  /** `~> v` means at least v and equal to v on all segments but the last (on
      the only one, when there is one) for every version, exactly when the
      fixed segments of v are numbers and the last of them can be bumped
      below 2^64. */
  lemma PessimisticIsPrefix(v: string)
    ensures (forall version :: Pessimistic(version, v) <==> (VersionCmp(version, v) != Less && Agrees(version, v)))
      <==> Bumpable(Segments(v), Fixed(Segments(v)))
  {
    hide CmpSegs, Upper, Bumpable, AgreeOn, UpperBound;
    var segs := Segments(v);
    var m := Fixed(segs);
    UpperSegments(v);
    if Bumpable(segs, m) {
      forall version ensures Pessimistic(version, v) <==> (VersionCmp(version, v) != Less && Agrees(version, v)) {
        if VersionCmp(version, v) != Less {
          BoundIsPrefix(Segments(version), segs, m);
        }
      }
    } else {
      RefusesItself(segs, m);
      SegsSwap(segs, segs);
      AgreesItself(segs, m);
      assert !Pessimistic(v, v) && VersionCmp(v, v) != Less && Agrees(v, v);
    }
  }

  // ---- requirements --------------------------------------------------------

  datatype Op = Eq | NotEq | Gt | Lt | Ge | Le | Pess

  predicate Holds(op: Op, version: string, v: string) {
    var ord := VersionCmp(version, v);
    match op
    case Eq => ord == Equal
    case NotEq => ord != Equal
    case Gt => ord == Greater
    case Lt => ord == Less
    case Ge => ord != Less
    case Le => ord != Greater
    case Pess => Pessimistic(version, v)
  }

  method SatisfiedBy(constraints: seq<(Op, string)>, version: string) returns (r: bool)
    ensures r <==> forall i :: 0 <= i < |constraints| ==> Holds(constraints[i].0, version, constraints[i].1)
  {
    hide VersionCmp, Pessimistic;
    for i := 0 to |constraints|
      invariant forall j :: 0 <= j < i ==> Holds(constraints[j].0, version, constraints[j].1)
    {
      var (op, v) := constraints[i];
      var ok := OneConstraint(op, version, v);
      if !ok {
        return false;
      }
    }
    return true;
  }

  method OneConstraint(op: Op, version: string, v: string) returns (r: bool)
    ensures r == Holds(op, version, v)
  {
    hide VersionCmp, UpperBound;
    var ord := CompareVersions(version, v);
    match op {
      case Eq => r := ord == Equal;
      case NotEq => r := ord != Equal;
      case Gt => r := ord == Greater;
      case Lt => r := ord == Less;
      case Ge => r := ord != Less;
      case Le => r := ord != Greater;
      case Pess =>
        if ord == Less {
          return false;
        }
        var upper := BumpedBound(v);
        var below := CompareVersions(version, upper);
        r := below == Less;
    }
  }

  /** The bound as the program builds it: parse, pad to two, truncate, bump, print. */
  method BumpedBound(v: string) returns (s: string)
    ensures s == UpperBound(v)
  {
    var segs := Segments(v);
    var upper: seq<nat> := seq(|segs|, i requires 0 <= i < |segs| => NumberOf(segs[i]));
    if |upper| < 2 {
      upper := upper + seq(2 - |upper|, i => 0);
    }
    var bump := |upper| - 2;
    upper := upper[..bump + 1];
    upper := upper[bump := (upper[bump] + 1) % U64];
    PrintedUpper(segs, Fixed(segs), upper);
    s := Join(Printed(upper), '.');
  }

  function Printed(ns: seq<nat>): seq<string> {
    seq(|ns|, i requires 0 <= i < |ns| => DecText(ns[i]))
  }

  lemma {:induction false} PrintedUpper(segs: seq<string>, m: nat, ns: seq<nat>)
    requires 0 < m <= |segs| && |ns| == m
    requires forall i :: 0 <= i < m ==> ns[i] == if i == m - 1 then (NumberOf(segs[i]) + 1) % U64 else NumberOf(segs[i])
    ensures Printed(ns) == Upper(segs, m)
    decreases m
  {
    hide NumberOf, DecText;
    if m > 1 {
      PrintedUpper(segs[1..], m - 1, ns[1..]);
      assert Printed(ns) == [DecText(ns[0])] + Printed(ns[1..]);
    }
  }
}
