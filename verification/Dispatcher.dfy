/** The version comparison of the dispatcher, which the install uses: two
    numbers go by value, everything else by text. On some sets of versions it
    is no order; this says exactly on which. */
module Dispatcher {
  import opened Wrappers
  import opened Text
  import opened Decimal
  import opened Versions

  predicate Number(s: string) { ParseU64(s).Some? }

  function MixedSegCmp(a: string, b: string): Order {
    var x, y := ParseU64(a), ParseU64(b);
    if x.Some? && y.Some? then NatCmp(x.value, y.value) else Lex(a, b)
  }

  function MixedCmp(a: seq<string>, b: seq<string>): Order
    decreases |a| + |b|
  {
    if a == [] && b == [] then Equal
    else if MixedSegCmp(Head(a), Head(b)) != Equal then MixedSegCmp(Head(a), Head(b))
    else MixedCmp(Tail(a), Tail(b))
  }

  function DispatchCmp(a: string, b: string): Order {
    MixedCmp(Segments(a), Segments(b))
  }

  /** The comparison as the program runs it. */
  method CompareDispatch(a: string, b: string) returns (r: Order)
    ensures r == DispatchCmp(a, b)
  {
    hide MixedSegCmp;
    var pa, pb := Segments(a), Segments(b);
    var n := if |pa| > |pb| then |pa| else |pb|;
    assert pa[0..] == pa && pb[0..] == pb;
    for i := 0 to n
      invariant MixedCmp(From(pa, i), From(pb, i)) == MixedCmp(pa, pb)
    {
      var x := if i < |pa| then pa[i] else "0";
      var y := if i < |pb| then pb[i] else "0";
      var ord := MixedSegCmp(x, y);
      FromStep(pa, i);
      FromStep(pb, i);
      if ord != Equal {
        return ord;
      }
    }
    return Equal;
  }

  // ---- segments ------------------------------------------------------------

  lemma MixedSegSwap(a: string, b: string)
    ensures MixedSegCmp(b, a) == MixedSegCmp(a, b).Flip()
    ensures MixedSegCmp(a, a) == Equal
  {
    hide ParseU64;
    LexSwap(a, b);
    LexSwap(a, a);
  }

  /** Two numbers with a text between them that sorts behind the larger and
      before the smaller, by their spellings. */
  predicate Between(a: string, b: string, c: string) {
    Number(a) && Number(b) && !Number(c) && Lex(b, c) == Less && Lex(c, a) == Less
  }

  /** Three segments in a circle are equal, or two are numbers and the third a
      text between them. */
  lemma CircleOfSegments(p: string, q: string, r: string)
    requires MixedSegCmp(p, q) != Greater && MixedSegCmp(q, r) != Greater && MixedSegCmp(r, p) != Greater
    ensures (MixedSegCmp(p, q) == Equal && MixedSegCmp(q, r) == Equal && MixedSegCmp(r, p) == Equal)
      || Between(p, q, r) || Between(q, r, p) || Between(r, p, q)
  {
    hide ParseU64, Lex;
    LexSwap(p, q);
    LexSwap(q, r);
    LexSwap(r, p);
    if Number(p) == Number(q) == Number(r) {
      if !Number(p) {
        LexCircle(p, q, r);
      }
    } else if !Number(p) && !Number(q) {
      LexCircle(p, q, r);
    } else if !Number(q) && !Number(r) {
      LexCircle(p, q, r);
    } else if !Number(r) && !Number(p) {
      LexCircle(p, q, r);
    }
  }

  lemma LexCircle(p: string, q: string, r: string)
    requires Lex(p, q) != Greater && Lex(q, r) != Greater && Lex(r, p) != Greater
    ensures p == q == r
  {
    hide Lex;
    LexSwap(p, q);
    LexSwap(q, r);
    LexSwap(r, p);
    LexTransitive(p, q, r);
  }

  /** The numbers `a` and `b`, in order by value, with a text between them by spelling. */
  predicate SegTrap(a: string, b: string, c: string) {
    Between(a, b, c) && MixedSegCmp(a, b) != Greater
  }

  ghost predicate SegsOrdered(segs: set<string>) {
    forall x, y, z | x in segs && y in segs && z in segs && MixedSegCmp(x, y) != Greater && MixedSegCmp(y, z) != Greater ::
      MixedSegCmp(x, z) != Greater
  }

  /** The segment comparison is an order on a set of segments if and only if
      no text of the set sorts, by spelling, behind one number and before
      another that is not larger. */
  lemma SegmentsOrderedExactly(segs: set<string>)
    ensures SegsOrdered(segs) <==> forall a, b, c :: a in segs && b in segs && c in segs ==> !SegTrap(a, b, c)
  {
    hide MixedSegCmp, Between;
    if forall a, b, c :: a in segs && b in segs && c in segs ==> !SegTrap(a, b, c) {
      forall x, y, z | x in segs && y in segs && z in segs && MixedSegCmp(x, y) != Greater && MixedSegCmp(y, z) != Greater
        ensures MixedSegCmp(x, z) != Greater
      {
        MixedSegSwap(x, z);
        if MixedSegCmp(x, z) == Greater {
          CircleOfSegments(x, y, z);
        }
      }
    }
    if SegsOrdered(segs) {
      forall a, b, c | a in segs && b in segs && c in segs ensures !SegTrap(a, b, c) {
        if Between(a, b, c) {
          BetweenIsText(a, b, c);
        }
      }
    }
  }

  lemma BetweenIsText(a: string, b: string, c: string)
    requires Between(a, b, c)
    ensures MixedSegCmp(b, c) == Less && MixedSegCmp(c, a) == Less && MixedSegCmp(a, c) == Greater
  {
    hide ParseU64;
    LexSwap(c, a);
  }

  // ---- versions ------------------------------------------------------------

  lemma {:induction false} MixedSwap(a: seq<string>, b: seq<string>)
    ensures MixedCmp(b, a) == MixedCmp(a, b).Flip()
    ensures MixedCmp(a, a) == Equal
    decreases |a| + |b|
  {
    hide MixedSegCmp;
    MixedSegSwap(Head(a), Head(b));
    if a != [] || b != [] {
      MixedSwap(Tail(a), Tail(b));
      if a == [] {
        assert MixedCmp(a, a) == Equal;
      }
    }
  }

  /** The comparison is its heads' unless they are equal, and its tails' then. */
  lemma MixedUnfold(a: seq<string>, b: seq<string>)
    ensures MixedCmp(a, b) ==
      if MixedSegCmp(Head(a), Head(b)) != Equal then MixedSegCmp(Head(a), Head(b)) else MixedCmp(Tail(a), Tail(b))
  {
    hide MixedSegCmp;
    MixedSegSwap("0", "0");
  }

  /** Three versions that are equal up to segment `k` and there hold two
      numbers and a text between them, the first version not above the second. */
  predicate Trap(a: seq<string>, b: seq<string>, c: seq<string>, k: nat)
    decreases k
  {
    if k == 0 then Between(Head(a), Head(b), Head(c)) && MixedCmp(a, b) != Greater
    else
      && MixedSegCmp(Head(a), Head(b)) == Equal && MixedSegCmp(Head(b), Head(c)) == Equal
      && Trap(Tail(a), Tail(b), Tail(c), k - 1)
  }

  lemma EqualSegs(a: string, b: string, c: string)
    requires MixedSegCmp(a, b) == Equal && MixedSegCmp(b, c) == Equal
    ensures MixedSegCmp(a, c) == Equal
  {
    hide ParseU64, Lex;
    LexSwap(a, b);
    LexSwap(b, c);
    LexSwap(a, c);
  }

  /** A trap is a circle of versions. */
  lemma {:induction false} TrapIsCircle(a: seq<string>, b: seq<string>, c: seq<string>, k: nat)
    requires Trap(a, b, c, k)
    ensures MixedCmp(a, b) != Greater && MixedCmp(b, c) == Less && MixedCmp(a, c) == Greater
    decreases k
  {
    hide MixedSegCmp, Between, MixedCmp;
    MixedUnfold(a, b);
    MixedUnfold(b, c);
    MixedUnfold(a, c);
    if k == 0 {
      BetweenIsText(Head(a), Head(b), Head(c));
    } else {
      EqualSegs(Head(a), Head(b), Head(c));
      TrapIsCircle(Tail(a), Tail(b), Tail(c), k - 1);
    }
  }

  lemma NotGreaterHeads(a: seq<string>, b: seq<string>)
    requires MixedCmp(a, b) != Greater
    ensures MixedSegCmp(Head(a), Head(b)) != Greater
  {
    hide MixedSegCmp;
    MixedUnfold(a, b);
  }

  /** Every circle of versions that is not all equal is a trap. */
  lemma {:induction false} CircleIsTrap(x: seq<string>, y: seq<string>, z: seq<string>) returns (k: nat)
    requires MixedCmp(x, y) != Greater && MixedCmp(y, z) != Greater && MixedCmp(z, x) == Less
    ensures Trap(x, y, z, k) || Trap(y, z, x, k) || Trap(z, x, y, k)
    decreases |x| + |z|
  {
    hide MixedSegCmp, Between, MixedCmp;
    NotGreaterHeads(x, y);
    NotGreaterHeads(y, z);
    NotGreaterHeads(z, x);
    CircleOfSegments(Head(x), Head(y), Head(z));
    if Between(Head(x), Head(y), Head(z)) || Between(Head(y), Head(z), Head(x)) || Between(Head(z), Head(x), Head(y)) {
      k := 0;
    } else {
      MixedUnfold(x, y);
      MixedUnfold(y, z);
      MixedUnfold(z, x);
      NotBothEmpty(z, x);
      var t := CircleIsTrap(Tail(x), Tail(y), Tail(z));
      k := t + 1;
    }
  }

  lemma NotBothEmpty(a: seq<string>, b: seq<string>)
    requires MixedCmp(a, b) == Less
    ensures |Tail(a)| + |Tail(b)| < |a| + |b|
  {
  }

  /** The comparison is transitive on a set of versions. */
  ghost predicate Ordered(vs: set<string>) {
    forall x, y, z | x in vs && y in vs && z in vs && DispatchCmp(x, y) != Greater && DispatchCmp(y, z) != Greater ::
      DispatchCmp(x, z) != Greater
  }

  ghost predicate TrapFree(vs: set<string>) {
    forall a, b, c, k: nat :: a in vs && b in vs && c in vs ==> !Trap(Segments(a), Segments(b), Segments(c), k)
  }

  /** The dispatcher's comparison is a total preorder on a set of versions if
      and only if the set holds no trap; that it flips when its operands are
      swapped is true of all versions. */
  lemma OrderedExactly(vs: set<string>)
    ensures Ordered(vs) <==> TrapFree(vs)
    ensures forall x, y :: DispatchCmp(y, x) == DispatchCmp(x, y).Flip()
  {
    hide MixedCmp, Trap, Segments;
    forall x, y ensures DispatchCmp(y, x) == DispatchCmp(x, y).Flip() {
      MixedSwap(Segments(x), Segments(y));
    }
    if TrapFree(vs) {
      forall x, y, z | x in vs && y in vs && z in vs && DispatchCmp(x, y) != Greater && DispatchCmp(y, z) != Greater
        ensures DispatchCmp(x, z) != Greater
      {
        if DispatchCmp(x, z) == Greater {
          var k := CircleIsTrap(Segments(x), Segments(y), Segments(z));
        }
      }
    }
    if Ordered(vs) {
      forall a, b, c, k: nat | a in vs && b in vs && c in vs ensures !Trap(Segments(a), Segments(b), Segments(c), k) {
        if Trap(Segments(a), Segments(b), Segments(c), k) {
          TrapIsCircle(Segments(a), Segments(b), Segments(c), k);
        }
      }
    }
  }

  /** Versions of numbers only hold no trap. */
  lemma NumericIsTrapFree(vs: set<string>)
    requires forall v, i :: v in vs && 0 <= i < |Segments(v)| ==> Number(Segments(v)[i])
    ensures TrapFree(vs)
  {
    hide Number, Segments, Trap;
    forall a, b, c, k: nat | a in vs && b in vs && c in vs ensures !Trap(Segments(a), Segments(b), Segments(c), k) {
      NumericNoTrap(Segments(a), Segments(b), Segments(c), k);
    }
  }

  lemma {:induction false} NumericNoTrap(a: seq<string>, b: seq<string>, c: seq<string>, k: nat)
    requires forall i :: 0 <= i < |c| ==> Number(c[i])
    ensures !Trap(a, b, c, k)
    decreases k
  {
    hide Number, MixedSegCmp, MixedCmp;
    if k == 0 {
      assert Number("0") by {
        ZeroIsNumber();
      }
    } else {
      NumericNoTrap(Tail(a), Tail(b), Tail(c), k - 1);
    }
  }

  lemma ZeroIsNumber()
    ensures Number("0")
  {
    assert "0" == DecText(0);
    ParsePrinted(0);
  }

  /** A circle that registries may offer: 2 < 10 < 1a < 2. */
  lemma MixedOrderCycles()
    ensures DispatchCmp("2", "10") == Less && DispatchCmp("10", "1a") == Less && DispatchCmp("1a", "2") == Less
    ensures Trap(Segments("2"), Segments("10"), Segments("1a"), 0)
  {
    hide Lex, Split;
    assert "2" == DecText(2);
    assert Digits(10) == Digits(1) + [0];
    assert "10" == DecText(10);
    ParsePrinted(2);
    ParsePrinted(10);
    assert !IsDigitChar("1a"[1]);
    LexSteps();
    SplitWhole("2", IsDot);
    SplitWhole("10", IsDot);
    SplitWhole("1a", IsDot);
  }

  lemma LexSteps()
    ensures Lex("10", "1a") == Less && Lex("1a", "2") == Less
  {
    assert "10"[1..] == "0" && "1a"[1..] == "a";
    assert Lex("0", "a") == Less;
  }
}
