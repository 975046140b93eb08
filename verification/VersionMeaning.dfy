/** What the two version comparisons mean, told without their recursion: how a
    segment reads, which of two segments is below the other, and which segment
    decides between two versions. */
module VersionMeaning {
  import opened Wrappers
  import opened Text
  import opened Decimal
  import opened Versions
  import opened Dispatcher

  // ---- segments ------------------------------------------------------------

  /** The segment spells `n`: perhaps a plus sign, perhaps zeros, and the numeral, below 2^64. */
  ghost predicate Reads(s: string, n: nat) {
    && n < 18446744073709551616
    && exists plus: string, zeros: string :: plus in {"", "+"} && Zeros(zeros) && s == plus + zeros + DecText(n)
  }

  predicate Zeros(z: string) {
    forall k :: 0 <= k < |z| ==> z[k] == '0'
  }

  lemma {:induction false} ZeroDigits(zeros: seq<digit>, d: seq<digit>)
    requires forall k :: 0 <= k < |zeros| ==> zeros[k] == 0
    ensures Value(zeros + d) == Value(d)
  {
    if d != [] {
      ZeroDigits(zeros, d[..|d| - 1]);
      assert (zeros + d)[..|zeros + d| - 1] == zeros + d[..|d| - 1];
    } else if zeros != [] {
      ZeroDigits(zeros[..|zeros| - 1], []);
      assert zeros + [] == zeros && zeros[..|zeros| - 1] + [] == zeros[..|zeros| - 1];
    }
  }

  /** Digits without a leading zero are the numeral of their value. */
  lemma {:induction false} NumeralIs(d: seq<digit>)
    requires d != [] && (|d| > 1 ==> d[0] != 0)
    ensures Digits(Value(d)) == d && (|d| > 1 ==> Value(d) >= 10)
  {
    var init, last := d[..|d| - 1], d[|d| - 1];
    if |d| == 1 {
      assert init == [] && Value(init) == 0;
      assert d == [last];
    } else {
      NumeralIs(init);
      if |init| == 1 {
        assert Value(init) == init[0] as int by {
          assert init[..0] == [];
        }
      }
      assert Value(d) / 10 == Value(init) && Value(d) % 10 == last as int;
      assert d == init + [last];
    }
  }

  /** A text of digits is zeros and the numeral of its value. */
  lemma DigitsRead(s: string) returns (zeros: string)
    requires s != "" && AllDigits(s)
    ensures Zeros(zeros) && s == zeros + DecText(Value(TextDigits(s)))
  {
    var z := 0;
    while z < |s| - 1 && s[z] == '0'
      invariant z <= |s| - 1 && Zeros(s[..z])
    {
      z := z + 1;
    }
    zeros := s[..z];
    var rest := s[z..];
    assert s == zeros + rest;
    ZerosFirst(zeros, rest);
    NumeralRead(rest);
  }

  lemma ZerosFirst(zeros: string, rest: string)
    requires Zeros(zeros) && AllDigits(rest)
    ensures AllDigits(zeros + rest) && Value(TextDigits(zeros + rest)) == Value(TextDigits(rest))
  {
    hide Value;
    assert AllDigits(zeros);
    assert TextDigits(zeros + rest) == TextDigits(zeros) + TextDigits(rest);
    ZeroDigits(TextDigits(zeros), TextDigits(rest));
  }

  lemma NumeralRead(s: string)
    requires s != "" && AllDigits(s) && (|s| > 1 ==> s[0] != '0')
    ensures DecText(Value(TextDigits(s))) == s
  {
    hide Value, Digits;
    NumeralIs(TextDigits(s));
  }

  lemma NumeralText(zeros: string, n: nat)
    requires Zeros(zeros)
    ensures var s := zeros + DecText(n); s != "" && s[0] != '+' && AllDigits(s) && Value(TextDigits(s)) == n
  {
    var s := zeros + DecText(n);
    TextValueIs(n);
    assert AllDigits(s);
    assert TextDigits(s) == TextDigits(zeros) + TextDigits(DecText(n));
    ZeroDigits(TextDigits(zeros), TextDigits(DecText(n)));
  }

  lemma ParsedIsSpelled(s: string, n: nat)
    requires ParseU64(s) == Some(n)
    ensures Reads(s, n)
  {
    hide Value, DecText, TextDigits;
    var plus := if s != "" && s[0] == '+' then "+" else "";
    var d := s[|plus|..];
    var zeros := DigitsRead(d);
    assert s == plus + d;
    assert s == plus + zeros + DecText(n);
  }

  lemma SpelledIsParsed(s: string, n: nat)
    requires Reads(s, n)
    ensures ParseU64(s) == Some(n)
  {
    hide Value, DecText, TextDigits, AllDigits;
    var plus: string, zeros: string :| plus in {"", "+"} && Zeros(zeros) && s == plus + zeros + DecText(n);
    NumeralText(zeros, n);
    assert s == plus + (zeros + DecText(n));
    Unsigned(plus, zeros + DecText(n));
  }

  /** The parser accepts exactly the spellings of a number. */
  lemma ParseExactly(s: string, n: nat)
    ensures ParseU64(s) == Some(n) <==> Reads(s, n)
  {
    hide ParseU64, Reads;
    if ParseU64(s) == Some(n) {
      ParsedIsSpelled(s, n);
    }
    if Reads(s, n) {
      SpelledIsParsed(s, n);
    }
  }

  lemma Unsigned(plus: string, d: string)
    requires plus in {"", "+"} && d != "" && d[0] != '+'
    ensures var s := plus + d; (if s != "" && s[0] == '+' then s[1..] else s) == d
  {
  }

  /** `a` comes before `b` in a dictionary. */
  ghost predicate SpelledBelow(a: string, b: string) {
    exists k: nat :: SpelledBelowAt(a, b, k)
  }

  predicate SpelledBelowAt(a: string, b: string, k: nat) {
    k <= |a| && k < |b| && a[..k] == b[..k] && (k < |a| ==> a[k] < b[k])
  }

  lemma {:induction false} LexExactly(a: string, b: string)
    ensures Lex(a, b) == Less <==> SpelledBelow(a, b)
    decreases |a|
  {
    if b == "" {
      assert forall k: nat :: !SpelledBelowAt(a, b, k);
    } else if a == "" {
      assert SpelledBelowAt(a, b, 0);
    } else {
      LexExactly(a[1..], b[1..]);
      if a[0] == b[0] {
        forall k: nat | k > 0 ensures SpelledBelowAt(a, b, k) <==> SpelledBelowAt(a[1..], b[1..], k - 1) {
          OneOn(a, b, k);
        }
        assert !SpelledBelowAt(a, b, 0);
        if k: nat :| SpelledBelowAt(a[1..], b[1..], k) {
          assert SpelledBelowAt(a, b, k + 1);
        }
      } else if a[0] < b[0] {
        assert SpelledBelowAt(a, b, 0);
      } else {
        forall k: nat ensures !SpelledBelowAt(a, b, k) {
          if k > 0 && k <= |a| && k < |b| {
            assert a[..k][0] != b[..k][0];
          }
        }
      }
    }
  }

  lemma OneOn(a: string, b: string, k: nat)
    requires a != "" && b != "" && a[0] == b[0] && k > 0
    ensures SpelledBelowAt(a, b, k) <==> SpelledBelowAt(a[1..], b[1..], k - 1)
  {
    if k <= |a| && k <= |b| {
      var x, y := a[1..][..k - 1], b[1..][..k - 1];
      assert a[..k] == [a[0]] + x && b[..k] == [b[0]] + y;
      assert x == a[..k][1..] && y == b[..k][1..];
      assert k < |a| ==> a[k] == a[1..][k - 1];
      assert k < |b| ==> b[k] == b[1..][k - 1];
    }
  }

  /** Of two segments, numbers go by value and come before texts, which go by spelling. */
  ghost predicate SegBelow(a: string, b: string) {
    || (exists m: nat, n: nat :: Reads(a, m) && Reads(b, n) && m < n)
    || ((exists m: nat :: Reads(a, m)) && forall n: nat :: !Reads(b, n))
    || ((forall m: nat :: !Reads(a, m)) && (forall n: nat :: !Reads(b, n)) && SpelledBelow(a, b))
  }

  /** In the dispatcher two numbers go by value, any other two segments by spelling. */
  ghost predicate MixedBelow(a: string, b: string) {
    || (exists m: nat, n: nat :: Reads(a, m) && Reads(b, n) && m < n)
    || (((forall m: nat :: !Reads(a, m)) || (forall n: nat :: !Reads(b, n))) && SpelledBelow(a, b))
  }

  lemma ParsedReads(s: string)
    ensures ParseU64(s).Some? ==> Reads(s, ParseU64(s).value)
    ensures forall n: nat :: Reads(s, n) <==> ParseU64(s) == Some(n)
  {
    hide ParseU64, Reads;
    forall n: nat ensures Reads(s, n) <==> ParseU64(s) == Some(n) {
      ParseExactly(s, n);
    }
  }

  lemma SegExactly(a: string, b: string)
    ensures SegCmp(a, b) == Less <==> SegBelow(a, b)
    ensures MixedSegCmp(a, b) == Less <==> MixedBelow(a, b)
  {
    hide ParseU64, Reads, Lex, SpelledBelow;
    ParsedReads(a);
    ParsedReads(b);
    LexExactly(a, b);
  }

  // ---- versions ------------------------------------------------------------

  /** Segment `i`, or 0 when the version is shorter. */
  function At(p: seq<string>, i: nat): string {
    if i < |p| then p[i] else "0"
  }

  /** Segment `i` decides: it is below, and no earlier one differs. */
  ghost predicate Decides(p: seq<string>, q: seq<string>, i: nat) {
    SegBelow(At(p, i), At(q, i))
    && forall k: nat :: k < i ==> !SegBelow(At(p, k), At(q, k)) && !SegBelow(At(q, k), At(p, k))
  }

  ghost predicate MixedDecides(p: seq<string>, q: seq<string>, i: nat) {
    MixedBelow(At(p, i), At(q, i))
    && forall k: nat :: k < i ==> !MixedBelow(At(p, k), At(q, k)) && !MixedBelow(At(q, k), At(p, k))
  }

  lemma TailAt(p: seq<string>)
    ensures forall i: nat :: At(Tail(p), i) == At(p, i + 1)
    ensures At(p, 0) == Head(p)
  {
  }

  lemma NothingBelowZero()
    ensures !SegBelow("0", "0") && !MixedBelow("0", "0")
  {
    hide SegCmp, MixedSegCmp, SegBelow, MixedBelow;
    SegExactly("0", "0");
    SegSwap("0", "0");
    MixedSegSwap("0", "0");
  }

  /** One step: segment 0 decides, or the rest of the segments do. */
  lemma DecidesStep(p: seq<string>, q: seq<string>)
    ensures (exists i: nat :: Decides(p, q, i)) <==>
      SegBelow(Head(p), Head(q)) || (!SegBelow(Head(q), Head(p)) && exists i: nat :: Decides(Tail(p), Tail(q), i))
  {
    hide SegBelow, At;
    TailAt(p);
    TailAt(q);
    if i: nat :| Decides(p, q, i) {
      if i > 0 {
        forall k: nat | k < i - 1
          ensures !SegBelow(At(Tail(p), k), At(Tail(q), k)) && !SegBelow(At(Tail(q), k), At(Tail(p), k))
        {
          assert At(Tail(p), k) == At(p, k + 1) && At(Tail(q), k) == At(q, k + 1);
        }
        assert Decides(Tail(p), Tail(q), i - 1);
      }
    }
    if SegBelow(Head(p), Head(q)) {
      assert Decides(p, q, 0);
    } else if !SegBelow(Head(q), Head(p)) {
      if i: nat :| Decides(Tail(p), Tail(q), i) {
        forall k: nat | k < i + 1 ensures !SegBelow(At(p, k), At(q, k)) && !SegBelow(At(q, k), At(p, k)) {
          if k > 0 {
            assert At(Tail(p), k - 1) == At(p, k) && At(Tail(q), k - 1) == At(q, k);
          }
        }
        assert Decides(p, q, i + 1);
      }
    }
  }

  lemma {:induction false} CmpExactly(p: seq<string>, q: seq<string>)
    ensures CmpSegs(p, q) == Less <==> exists i: nat :: Decides(p, q, i)
    decreases |p| + |q|
  {
    hide SegCmp, SegBelow, Decides;
    if p == [] && q == [] {
      NoneDecides();
    } else {
      CmpExactly(Tail(p), Tail(q));
      DecidesStep(p, q);
      SegExactly(Head(p), Head(q));
      SegExactly(Head(q), Head(p));
      SegSwap(Head(p), Head(q));
    }
  }

  lemma NoneDecides()
    ensures !exists i: nat :: Decides([], [], i)
    ensures !exists i: nat :: MixedDecides([], [], i)
  {
    hide SegBelow, MixedBelow;
    NothingBelowZero();
  }

  lemma MixedStep(p: seq<string>, q: seq<string>)
    ensures (exists i: nat :: MixedDecides(p, q, i)) <==>
      MixedBelow(Head(p), Head(q)) || (!MixedBelow(Head(q), Head(p)) && exists i: nat :: MixedDecides(Tail(p), Tail(q), i))
  {
    hide MixedBelow, At;
    TailAt(p);
    TailAt(q);
    if i: nat :| MixedDecides(p, q, i) {
      if i > 0 {
        forall k: nat | k < i - 1
          ensures !MixedBelow(At(Tail(p), k), At(Tail(q), k)) && !MixedBelow(At(Tail(q), k), At(Tail(p), k))
        {
          assert At(Tail(p), k) == At(p, k + 1) && At(Tail(q), k) == At(q, k + 1);
        }
        assert MixedDecides(Tail(p), Tail(q), i - 1);
      }
    }
    if MixedBelow(Head(p), Head(q)) {
      assert MixedDecides(p, q, 0);
    } else if !MixedBelow(Head(q), Head(p)) {
      if i: nat :| MixedDecides(Tail(p), Tail(q), i) {
        forall k: nat | k < i + 1 ensures !MixedBelow(At(p, k), At(q, k)) && !MixedBelow(At(q, k), At(p, k)) {
          if k > 0 {
            assert At(Tail(p), k - 1) == At(p, k) && At(Tail(q), k - 1) == At(q, k);
          }
        }
        assert MixedDecides(p, q, i + 1);
      }
    }
  }

  lemma {:induction false} MixedCmpExactly(p: seq<string>, q: seq<string>)
    ensures MixedCmp(p, q) == Less <==> exists i: nat :: MixedDecides(p, q, i)
    decreases |p| + |q|
  {
    hide MixedSegCmp, MixedBelow, MixedDecides;
    if p == [] && q == [] {
      NoneDecides();
    } else {
      MixedCmpExactly(Tail(p), Tail(q));
      MixedStep(p, q);
      SegExactly(Head(p), Head(q));
      SegExactly(Head(q), Head(p));
      MixedSegSwap(Head(p), Head(q));
    }
  }

  /** One version is below another: some segment decides, missing ones counting as 0. */
  ghost predicate VersionBelow(a: string, b: string) {
    var p, q := Split(a, c => c == '.'), Split(b, c => c == '.');
    exists i: nat :: Decides(p, q, i)
  }

  /** The same by the dispatcher's rule. */
  ghost predicate DispatchBelow(a: string, b: string) {
    var p, q := Split(a, c => c == '.'), Split(b, c => c == '.');
    exists i: nat :: MixedDecides(p, q, i)
  }

  lemma {:induction false} SplitAtDots(s: string)
    ensures Split(s, c => c == '.') == Segments(s)
  {
    SplitIsFree(s, IsDot);
    JoinSplit(s, '.', IsDot);
    SplitJoin(Segments(s), '.', c => c == '.');
  }

  /** Every answer of the scenario's comparison, by which version is below which. */
  lemma VersionCmpExactly(a: string, b: string)
    ensures VersionCmp(a, b) == if VersionBelow(a, b) then Less else if VersionBelow(b, a) then Greater else Equal
  {
    hide CmpSegs, Decides, Segments;
    SplitAtDots(a);
    SplitAtDots(b);
    CmpExactly(Segments(a), Segments(b));
    CmpExactly(Segments(b), Segments(a));
    SegsSwap(Segments(a), Segments(b));
  }

  /** Every answer of the dispatcher's comparison. */
  lemma DispatchCmpExactly(a: string, b: string)
    ensures DispatchCmp(a, b) == if DispatchBelow(a, b) then Less else if DispatchBelow(b, a) then Greater else Equal
  {
    hide MixedCmp, MixedDecides, Segments;
    SplitAtDots(a);
    SplitAtDots(b);
    MixedCmpExactly(Segments(a), Segments(b));
    MixedCmpExactly(Segments(b), Segments(a));
    MixedSwap(Segments(a), Segments(b));
  }

  /** On every segment below `m`, neither is below the other. */
  ghost predicate SameUpTo(p: seq<string>, q: seq<string>, m: nat) {
    forall i: nat :: i < m ==> !SegBelow(At(p, i), At(q, i)) && !SegBelow(At(q, i), At(p, i))
  }

  lemma {:induction false} AgreeExactly(p: seq<string>, q: seq<string>, m: nat)
    ensures AgreeOn(p, q, m) <==> SameUpTo(p, q, m)
    decreases m
  {
    hide SegBelow, At, SegCmp;
    TailAt(p);
    TailAt(q);
    if m > 0 {
      AgreeExactly(Tail(p), Tail(q), m - 1);
      SegExactly(Head(p), Head(q));
      SegExactly(Head(q), Head(p));
      SegSwap(Head(p), Head(q));
      if SameUpTo(p, q, m) {
        forall i: nat | i < m - 1
          ensures !SegBelow(At(Tail(p), i), At(Tail(q), i)) && !SegBelow(At(Tail(q), i), At(Tail(p), i))
        {
          assert At(Tail(p), i) == At(p, i + 1) && At(Tail(q), i) == At(q, i + 1);
        }
      }
      if SameUpTo(Tail(p), Tail(q), m - 1) && SegCmp(Head(p), Head(q)) == Equal {
        forall i: nat | i < m ensures !SegBelow(At(p, i), At(q, i)) && !SegBelow(At(q, i), At(p, i)) {
          if i > 0 {
            assert At(Tail(p), i - 1) == At(p, i) && At(Tail(q), i - 1) == At(q, i);
          }
        }
      }
    }
  }

  /** What `~>` holds fixed: all segments but the last, and the only one. */
  lemma FixedAre(version: string, v: string)
    ensures var p, q := Split(version, c => c == '.'), Split(v, c => c == '.');
      Agrees(version, v) <==> SameUpTo(p, q, if |q| == 1 then 1 else |q| - 1)
  {
    hide AgreeOn, SameUpTo, Segments;
    SplitAtDots(version);
    SplitAtDots(v);
    AgreeExactly(Segments(version), Segments(v), Fixed(Segments(v)));
  }

  /** The seven operators of a requirement, by the same relation. */
  lemma OperatorsMean(version: string, v: string)
    ensures Holds(Lt, version, v) <==> VersionBelow(version, v)
    ensures Holds(Gt, version, v) <==> VersionBelow(v, version)
    ensures Holds(Ge, version, v) <==> !VersionBelow(version, v)
    ensures Holds(Le, version, v) <==> !VersionBelow(v, version)
    ensures Holds(Eq, version, v) <==> !VersionBelow(version, v) && !VersionBelow(v, version)
    ensures Holds(NotEq, version, v) <==> VersionBelow(version, v) || VersionBelow(v, version)
    ensures Holds(Pess, version, v) ==> !VersionBelow(version, v)
    ensures Bumpable(Segments(v), Fixed(Segments(v))) ==>
      var p, q := Split(version, c => c == '.'), Split(v, c => c == '.');
      (Holds(Pess, version, v) <==> !VersionBelow(version, v) && SameUpTo(p, q, if |q| == 1 then 1 else |q| - 1))
  {
    hide VersionCmp, VersionBelow, UpperBound, Agrees, Bumpable, Segments, SameUpTo;
    FixedAre(version, v);
    VersionCmpExactly(version, v);
    VersionCmpExactly(v, version);
    VersionOrder(version, v, v);
    PessimisticIsPrefix(v);
  }
}
