/** The lexical path cleaner, as it runs on POSIX hosts. Both slashes separate. */
module CleanPath {
  import opened Text

  predicate IsSlash(c: char) { c == '/' || c == '\\' }

  /** One part against the stack of parts kept so far. */
  function Step(absolute: bool, out: seq<string>, part: string): seq<string> {
    if part == "" || part == "." then out
    else if part == ".." then
      if out != [] && out[|out| - 1] != ".." then out[..|out| - 1]
      else if !absolute then out + [".."]
      else out
    else out + [part]
  }

  function Cleaned(absolute: bool, parts: seq<string>): seq<string> {
    if parts == [] then []
    else Step(absolute, Cleaned(absolute, parts[..|parts| - 1]), parts[|parts| - 1])
  }

  predicate Absolute(p: string) { p != "" && p[0] == '/' }

  function Rendered(absolute: bool, out: seq<string>): string {
    var joined := Join(out, '/');
    if absolute then "/" + joined
    else if joined == "" then "."
    else joined
  }

  function Clean(p: string): string {
    Rendered(Absolute(p), Cleaned(Absolute(p), Split(p, IsSlash)))
  }

  /** The stack as the program keeps it. */
  method CleanPathOf(p: string) returns (r: string)
    ensures r == Clean(p)
  {
    hide Rendered, Split;
    var absolute := Absolute(p);
    var parts := Split(p, IsSlash);
    var out: seq<string> := [];
    for i := 0 to |parts|
      invariant out == Cleaned(absolute, parts[..i])
    {
      assert parts[..i + 1][..i] == parts[..i];
      var part := parts[i];
      if part == "" || part == "." {
      } else if part == ".." {
        if |out| > 0 && out[|out| - 1] != ".." {
          out := out[..|out| - 1];
        } else if !absolute {
          out := out + [".."];
        }
      } else {
        out := out + [part];
      }
    }
    assert parts[..|parts|] == parts;
    r := Rendered(absolute, out);
  }

  // ---- normal form ---------------------------------------------------------

  /** No empty part, no `.`, and `..` only as a leading run of a relative path. */
  ghost predicate Tidy(absolute: bool, out: seq<string>) {
    && (forall i :: 0 <= i < |out| ==> out[i] != "" && out[i] != ".")
    && (forall i :: 0 <= i < |out| && out[i] == ".." ==> !absolute && (i == 0 || out[i - 1] == ".."))
  }

  ghost predicate Normal(absolute: bool, out: seq<string>) {
    Tidy(absolute, out) && AllFree(out, IsSlash)
  }

  lemma {:induction false} CleanedIsTidy(absolute: bool, parts: seq<string>)
    ensures Tidy(absolute, Cleaned(absolute, parts))
  {
    if parts != [] {
      CleanedIsTidy(absolute, parts[..|parts| - 1]);
    }
  }

  lemma {:induction false} CleanedIsNormal(absolute: bool, parts: seq<string>)
    requires AllFree(parts, IsSlash)
    ensures Normal(absolute, Cleaned(absolute, parts))
  {
    CleanedIsTidy(absolute, parts);
    if parts != [] {
      CleanedIsNormal(absolute, parts[..|parts| - 1]);
    }
  }

  /** Cleaning keeps a stack in normal form as it is. */
  lemma {:induction false} NormalStays(absolute: bool, out: seq<string>)
    requires Normal(absolute, out)
    ensures Cleaned(absolute, out) == out
  {
    if out != [] {
      var init, last := out[..|out| - 1], out[|out| - 1];
      NormalStays(absolute, init);
      assert out == init + [last];
      if last == ".." && init != [] {
        assert init[|init| - 1] == out[|out| - 2] == "..";
      }
    }
  }

  lemma {:induction false} SkipsEmpty(absolute: bool, parts: seq<string>)
    ensures Cleaned(absolute, [""] + parts) == Cleaned(absolute, parts)
  {
    if parts == [] {
      assert [""] + parts == [""] && [""][..0] == [];
      assert Cleaned(absolute, [""]) == Step(absolute, [], "");
    } else {
      assert ([""] + parts)[..|parts|] == [""] + parts[..|parts| - 1];
      SkipsEmpty(absolute, parts[..|parts| - 1]);
    }
  }

  /** The parts of a rendered path: an absolute one starts with an empty part. */
  function RenderedParts(absolute: bool, out: seq<string>): seq<string> {
    if absolute then [""] + (if out == [] then [""] else out)
    else if out == [] then ["."]
    else out
  }

  /** Splitting a rendered path gives exactly the parts of its stack. */
  lemma RenderedSplits(absolute: bool, out: seq<string>)
    requires Normal(absolute, out)
    ensures Absolute(Rendered(absolute, out)) == absolute
    ensures Split(Rendered(absolute, out), IsSlash) == RenderedParts(absolute, out)
  {
    hide Split;
    var joined := Join(out, '/');
    if out == [] {
      EmptyStack(absolute);
    } else {
      SplitJoin(out, '/', IsSlash);
      JoinStarts(out);
      if absolute {
        assert "" + ['/'] + joined == "/" + joined;
        SplitFront("", '/', joined, IsSlash);
      }
    }
  }

  lemma EmptyStack(absolute: bool)
    ensures Absolute(Rendered(absolute, [])) == absolute
    ensures Split(Rendered(absolute, []), IsSlash) == RenderedParts(absolute, [])
  {
    hide Split;
    assert "/" + "" == "/" && "" + ['/'] + "" == "/";
    SplitFront("", '/', "", IsSlash);
    SplitWhole("", IsSlash);
    SplitWhole(".", IsSlash);
  }

  /** Cleaning the parts of a rendered stack gives the stack back. */
  lemma CleansBack(absolute: bool, out: seq<string>)
    requires Normal(absolute, out)
    ensures Cleaned(absolute, RenderedParts(absolute, out)) == out
  {
    hide Cleaned;
    NormalStays(absolute, out);
    SkipsEmpty(absolute, out);
    SkipsEmpty(absolute, [""]);
    OneDot(absolute);
  }

  lemma OneDot(absolute: bool)
    ensures Cleaned(absolute, [""]) == [] && Cleaned(absolute, ["."]) == []
  {
    assert [""][..0] == [] && ["."][..0] == [];
  }

  lemma JoinStarts(out: seq<string>)
    requires out != [] && out[0] != "" && Free(out[0], IsSlash)
    ensures Join(out, '/') != "" && !IsSlash(Join(out, '/')[0])
  {
  }

  /** A path in normal form, told from its own parts: the root, the dot, or
      parts that are tidy, behind the empty part that an absolute path starts with. */
  ghost predicate NormalPath(p: string) {
    var parts := Split(p, IsSlash);
    if Absolute(p) then p == "/" || (|parts| > 1 && Tidy(true, parts[1..]))
    else p == "." || (p != "" && Tidy(false, parts))
  }

  /** The output is in normal form, is absolute exactly when the input is, and
      splitting it gives the parts of the stack. */
  lemma OutputIsNormal(p: string)
    ensures NormalPath(Clean(p)) && Absolute(Clean(p)) == Absolute(p)
    ensures Split(Clean(p), IsSlash) == RenderedParts(Absolute(p), Cleaned(Absolute(p), Split(p, IsSlash)))
  {
    hide Cleaned, Split, Tidy;
    var absolute, out := Absolute(p), Cleaned(Absolute(p), Split(p, IsSlash));
    SplitIsFree(p, IsSlash);
    CleanedIsNormal(absolute, Split(p, IsSlash));
    RenderedSplits(absolute, out);
    if out == [] {
      assert "/" + "" == "/";
    } else {
      assert absolute ==> RenderedParts(absolute, out)[1..] == out;
      FirstPart(absolute, out);
      JoinStarts(out);
    }
  }

  lemma FirstPart(absolute: bool, out: seq<string>)
    requires Normal(absolute, out) && out != []
    ensures out[0] != "" && Free(out[0], IsSlash)
  {
  }

  /** Cleaning a clean path changes nothing. */
  lemma CleanIsIdempotent(p: string)
    ensures Clean(Clean(p)) == Clean(p)
  {
    hide Cleaned, Split, Rendered, RenderedParts;
    OutputIsNormal(p);
    SplitIsFree(p, IsSlash);
    CleanedIsNormal(Absolute(p), Split(p, IsSlash));
    CleansBack(Absolute(p), Cleaned(Absolute(p), Split(p, IsSlash)));
  }

  // ---- the location a path denotes -----------------------------------------

  /** One part, from a directory given by its path from the root. */
  function Move(dir: seq<string>, part: string): seq<string> {
    if part == "" || part == "." then dir
    else if part == ".." then (if dir == [] then [] else dir[..|dir| - 1])
    else dir + [part]
  }

  function Walk(dir: seq<string>, parts: seq<string>): seq<string> {
    if parts == [] then dir else Move(Walk(dir, parts[..|parts| - 1]), parts[|parts| - 1])
  }

  /** The location a path denotes from a base directory, by its text alone,
      where `isSep` separates the parts. */
  function Denotes(base: seq<string>, p: string, isSep: char -> bool): seq<string> {
    Walk(if Absolute(p) then [] else base, Split(p, isSep))
  }

  lemma WalkSnoc(dir: seq<string>, parts: seq<string>, part: string)
    ensures Walk(dir, parts + [part]) == Move(Walk(dir, parts), part)
  {
    assert (parts + [part])[..|parts|] == parts;
  }

  lemma StepDenotes(absolute: bool, dir: seq<string>, out: seq<string>, part: string)
    requires Tidy(absolute, out) && (absolute ==> dir == [])
    ensures Walk(dir, Step(absolute, out, part)) == Move(Walk(dir, out), part)
  {
    if part == "" || part == "." {
    } else if part == ".." {
      if out != [] {
        var init, last := out[..|out| - 1], out[|out| - 1];
        if last != ".." {
          assert Walk(dir, out) == Walk(dir, init) + [last];
        } else {
          WalkSnoc(dir, out, "..");
        }
      } else {
        WalkSnoc(dir, out, "..");
      }
    } else {
      WalkSnoc(dir, out, part);
    }
  }

  lemma {:induction false} CleanedDenotes(absolute: bool, dir: seq<string>, parts: seq<string>)
    requires absolute ==> dir == []
    ensures Walk(dir, Cleaned(absolute, parts)) == Walk(dir, parts)
  {
    hide Step, Move, Tidy;
    if parts != [] {
      var init := parts[..|parts| - 1];
      CleanedDenotes(absolute, dir, init);
      CleanedIsTidy(absolute, init);
      StepDenotes(absolute, dir, Cleaned(absolute, init), parts[|parts| - 1]);
    }
  }

  /** Where both slashes separate, the cleaned path denotes the same location
      as the path, from any base. */
  lemma CleanDenotes(base: seq<string>, p: string)
    ensures Denotes(base, Clean(p), IsSlash) == Denotes(base, p, IsSlash)
  {
    hide Cleaned, Split, Rendered, Walk, RenderedParts;
    var absolute, dir, parts := Absolute(p), if Absolute(p) then [] else base, Split(p, IsSlash);
    OutputIsNormal(p);
    SplitIsFree(p, IsSlash);
    CleanedIsNormal(absolute, parts);
    CleansBack(absolute, Cleaned(absolute, parts));
    CleanedDenotes(absolute, dir, parts);
    CleanedDenotes(absolute, dir, Split(Clean(p), IsSlash));
  }

  // ---- where only the forward slash separates ------------------------------

  /** The separator of a POSIX path; a backslash is a character of a name there. */
  predicate IsPosixSlash(c: char) { c == '/' }

  predicate IsBackslash(c: char) { c == '\\' }

  lemma {:induction false} SameSplit(p: string)
    requires Free(p, IsBackslash)
    ensures Split(p, IsSlash) == Split(p, IsPosixSlash)
  {
    if p != "" {
      SameSplit(p[1..]);
      assert !IsBackslash(p[0]);
    }
  }

  /** The cleaner prints no backslash. */
  lemma CleanHasNoBackslash(p: string)
    ensures Free(Clean(p), IsBackslash)
  {
    hide Cleaned, Split, Join, Tidy;
    var absolute, parts := Absolute(p), Split(p, IsSlash);
    SplitIsFree(p, IsSlash);
    CleanedIsNormal(absolute, parts);
    NoSlashNoBackslash(Cleaned(absolute, parts));
    JoinKeepsFree(Cleaned(absolute, parts), '/', IsBackslash);
  }

  lemma NoSlashNoBackslash(parts: seq<string>)
    requires AllFree(parts, IsSlash)
    ensures AllFree(parts, IsBackslash)
  {
    forall i | 0 <= i < |parts| ensures Free(parts[i], IsBackslash) {
      assert Free(parts[i], IsSlash);
    }
  }

  /** The stack the cleaner keeps, and the one it would keep if only the forward slash separated. */
  function Kept(p: string): seq<string> {
    Cleaned(Absolute(p), Split(p, IsSlash))
  }

  function PosixKept(p: string): seq<string> {
    Cleaned(Absolute(p), Split(p, IsPosixSlash))
  }

  lemma PosixLocations(base: seq<string>, p: string)
    ensures var dir := if Absolute(p) then [] else base;
      && Denotes(base, Clean(p), IsPosixSlash) == Walk(dir, Kept(p))
      && Denotes(base, p, IsPosixSlash) == Walk(dir, PosixKept(p))
  {
    hide Cleaned, Split, Rendered, Walk, RenderedParts;
    var absolute, dir := Absolute(p), if Absolute(p) then [] else base;
    CleanHasNoBackslash(p);
    SameSplit(Clean(p));
    OutputIsNormal(p);
    SplitIsFree(p, IsSlash);
    CleanedIsNormal(absolute, Split(p, IsSlash));
    CleansBack(absolute, Kept(p));
    CleanedDenotes(absolute, dir, Split(Clean(p), IsSlash));
    CleanedDenotes(absolute, dir, Split(p, IsPosixSlash));
  }

  /** A directory, by the names that lead to it from the root. */
  ghost predicate RealDir(dir: seq<string>) {
    forall i :: 0 <= i < |dir| ==> dir[i] != "" && dir[i] != "." && dir[i] != ".." && Free(dir[i], IsPosixSlash)
  }

  /** How many leading `..` a tidy stack has. */
  function Ups(out: seq<string>): (n: nat)
    ensures n <= |out|
  {
    if out == [] then 0 else if out[|out| - 1] == ".." then |out| else Ups(out[..|out| - 1])
  }

  lemma {:induction false} UpsAre(absolute: bool, out: seq<string>)
    requires Tidy(absolute, out)
    ensures forall i :: 0 <= i < |out| ==> (out[i] == ".." <==> i < Ups(out))
    ensures absolute ==> Ups(out) == 0
  {
    if out != [] {
      var init := out[..|out| - 1];
      UpsAre(absolute, init);
      if out[|out| - 1] == ".." && init != [] {
        assert init[|init| - 1] == "..";
      }
    }
  }

  lemma UpsOfInit(absolute: bool, out: seq<string>)
    requires Tidy(absolute, out) && out != []
    ensures Tidy(absolute, out[..|out| - 1])
    ensures Ups(out[..|out| - 1]) == if out[|out| - 1] == ".." then |out| - 1 else Ups(out)
  {
    var init := out[..|out| - 1];
    if out[|out| - 1] == ".." && init != [] {
      assert init[|init| - 1] == "..";
    }
  }

  /** One name more at the end of a climb. */
  lemma ClimbStep(dir: seq<string>, k: nat, init: seq<string>, last: string)
    requires k <= |init| && k <= |dir| && last != "" && last != "." && last != ".."
    ensures Move(dir[..|dir| - k] + init[k..], last) == dir[..|dir| - k] + (init + [last])[k..]
  {
    assert (init + [last])[k..] == init[k..] + [last];
  }

  lemma ClimbUp(dir: seq<string>, init: seq<string>)
    requires |init| < |dir|
    ensures Move(dir[..|dir| - |init|] + init[|init|..], "..") == dir[..|dir| - |init| - 1]
  {
    assert dir[..|dir| - |init|] + init[|init|..] == dir[..|dir| - |init|];
  }

  /** A tidy stack goes up by its leading `..` and then down by its names. */
  lemma {:induction false} WalkTidy(absolute: bool, dir: seq<string>, out: seq<string>)
    requires Tidy(absolute, out) && Ups(out) <= |dir|
    ensures Walk(dir, out) == dir[..|dir| - Ups(out)] + out[Ups(out)..]
  {
    hide Move;
    if out == [] {
      assert dir[..|dir|] + [] == dir;
    } else {
      var init, last := out[..|out| - 1], out[|out| - 1];
      UpsOfInit(absolute, out);
      WalkTidy(absolute, dir, init);
      assert out == init + [last];
      if last == ".." {
        ClimbUp(dir, init);
      } else {
        ClimbStep(dir, Ups(out), init, last);
      }
    }
  }

  /** A name that is none of the parts. */
  function Fresh(parts: seq<string>): (x: string)
    ensures |x| >= 3 && forall i :: 0 <= i < |x| ==> x[i] == 'x'
    ensures forall i :: 0 <= i < |parts| ==> |parts[i]| < |x|
  {
    if parts == [] then "xxx"
    else
      var x := Fresh(parts[1..]);
      if |parts[0]| < |x| then x else seq(|parts[0]| + 1, i => 'x')
  }

  function Repeat(x: string, n: nat): (r: seq<string>)
    ensures |r| == n && forall i :: 0 <= i < n ==> r[i] == x
  {
    seq(n, i => x)
  }

  /** Two tidy stacks that lead to the same place from every directory are the same. */
  lemma TidyIsUnique(absolute: bool, a: seq<string>, b: seq<string>)
    requires Tidy(absolute, a) && Tidy(absolute, b)
    requires forall base :: RealDir(base) ==> Walk(if absolute then [] else base, a) == Walk(if absolute then [] else base, b)
    ensures a == b
  {
    hide Tidy, Walk;
    UpsAre(absolute, a);
    UpsAre(absolute, b);
    var x := Fresh(a + b);
    var n := if absolute then 0 else Ups(a) + Ups(b);
    var base := Repeat(x, n);
    assert RealDir(base);
    WalkTidy(absolute, base, a);
    WalkTidy(absolute, base, b);
    assert absolute ==> base == [];
    FreshIsNone(a, b);
    SameClimb(x, n, Ups(a), a[Ups(a)..], Ups(b), b[Ups(b)..]);
    SameStack(a, b, Ups(a));
  }

  lemma FreshIsNone(a: seq<string>, b: seq<string>)
    ensures Fresh(a + b) !in a && Fresh(a + b) !in b
  {
    assert forall i :: 0 <= i < |a| ==> a[i] == (a + b)[i];
    assert forall i :: 0 <= i < |b| ==> b[i] == (a + b)[|a| + i];
  }

  lemma SameStack(a: seq<string>, b: seq<string>, k: nat)
    requires k <= |a| && k <= |b| && a[k..] == b[k..]
    requires forall i :: 0 <= i < k ==> a[i] == b[i]
    ensures a == b
  {
    assert a == a[..k] + a[k..] && b == b[..k] + b[k..] && a[..k] == b[..k];
  }

  lemma SameClimb(x: string, n: nat, k: nat, a: seq<string>, m: nat, b: seq<string>)
    requires k <= n && m <= n && x !in a && x !in b
    requires Repeat(x, n)[..n - k] + a == Repeat(x, n)[..n - m] + b
    ensures k == m && a == b
  {
    if k < m {
      HigherClimb(x, n, k, a, m, b);
    } else if m < k {
      HigherClimb(x, n, m, b, k, a);
    } else {
      assert a == (Repeat(x, n)[..n - k] + a)[n - k..] && b == (Repeat(x, n)[..n - m] + b)[n - m..];
    }
  }

  lemma HigherClimb(x: string, n: nat, k: nat, a: seq<string>, m: nat, b: seq<string>)
    requires k < m <= n && x !in b
    ensures Repeat(x, n)[..n - k] + a != Repeat(x, n)[..n - m] + b
  {
    var l, r := Repeat(x, n)[..n - k] + a, Repeat(x, n)[..n - m] + b;
    if |l| == |r| {
      assert l[n - m] == x && r[n - m] == b[0];
    }
  }

  /** Under POSIX resolution the cleaned path denotes the same location as the
      path, from every directory, if and only if the cleaner keeps the same
      stack as it would with the forward slash alone. */
  lemma PosixExactly(p: string)
    ensures (forall base :: RealDir(base) ==> Denotes(base, Clean(p), IsPosixSlash) == Denotes(base, p, IsPosixSlash))
      <==> Kept(p) == PosixKept(p)
  {
    hide Kept, PosixKept, Denotes, Clean, Tidy, RealDir, Walk;
    forall base {
      PosixLocations(base, p);
    }
    KeptIsTidy(p);
    if forall base :: RealDir(base) ==> Denotes(base, Clean(p), IsPosixSlash) == Denotes(base, p, IsPosixSlash) {
      TidyIsUnique(Absolute(p), Kept(p), PosixKept(p));
    }
  }

  lemma KeptIsTidy(p: string)
    ensures Tidy(Absolute(p), Kept(p)) && Tidy(Absolute(p), PosixKept(p))
  {
    hide Tidy, Cleaned, Split;
    CleanedIsTidy(Absolute(p), Split(p, IsSlash));
    CleanedIsTidy(Absolute(p), Split(p, IsPosixSlash));
  }

  /** So it does for every path without a backslash, from any base. */
  lemma PosixWithoutBackslash(base: seq<string>, p: string)
    requires Free(p, IsBackslash)
    ensures Denotes(base, Clean(p), IsPosixSlash) == Denotes(base, p, IsPosixSlash)
  {
    hide Denotes, Clean, Cleaned;
    PosixLocations(base, p);
    SameSplit(p);
  }

  lemma {:induction false} NamesStay(absolute: bool, parts: seq<string>, i: nat)
    requires i < |parts| && parts[i] != "" && parts[i] != "." && ".." !in parts
    ensures parts[i] in Cleaned(absolute, parts)
  {
    var init, last := parts[..|parts| - 1], parts[|parts| - 1];
    assert last in parts;
    if i < |init| {
      assert forall q :: q in init ==> q in parts;
      NamesStay(absolute, init, i);
    }
  }

  /** And it never does where a name with a backslash is left after resolution. */
  lemma BackslashNameIsLost(p: string, i: nat)
    requires i < |PosixKept(p)| && !Free(PosixKept(p)[i], IsBackslash)
    ensures Kept(p) != PosixKept(p)
  {
    hide Cleaned, Split;
    SplitIsFree(p, IsSlash);
    CleanedIsNormal(Absolute(p), Split(p, IsSlash));
    NoSlashNoBackslash(Kept(p));
  }

  /** Without `..` in the path no name is dropped again: there the condition is
      that the path has no backslash. */
  lemma PosixWithoutUps(p: string)
    requires ".." !in Split(p, IsPosixSlash)
    ensures Kept(p) == PosixKept(p) <==> Free(p, IsBackslash)
  {
    hide Cleaned, Split, Join;
    var parts := Split(p, IsPosixSlash);
    if Free(p, IsBackslash) {
      SameSplit(p);
    } else {
      JoinSplit(p, '/', IsPosixSlash);
      if AllFree(parts, IsBackslash) {
        JoinKeepsFree(parts, '/', IsBackslash);
      }
      var i :| 0 <= i < |parts| && !Free(parts[i], IsBackslash);
      NamesStay(Absolute(p), parts, i);
      var k :| 0 <= k < |PosixKept(p)| && PosixKept(p)[k] == parts[i];
      BackslashNameIsLost(p, k);
    }
  }

  /** A file whose name has a backslash is taken for a file in a directory. */
  lemma BackslashIsSplit()
    ensures Clean("a\\b") == "a/b"
    ensures Denotes([], "a\\b", IsPosixSlash) == ["a\\b"]
    ensures Denotes([], Clean("a\\b"), IsPosixSlash) == ["a", "b"]
  {
    hide Split;
    var p := "a\\b";
    assert p == "a" + ['\\'] + "b" && "a/b" == "a" + ['/'] + "b";
    SplitFront("a", '\\', "b", IsSlash);
    SplitWhole("b", IsSlash);
    SplitWhole(p, IsPosixSlash);
    SplitFront("a", '/', "b", IsPosixSlash);
    SplitWhole("b", IsPosixSlash);
    TwoNames("a", "b");
    assert Walk([], [p]) == Move(Walk([], []), p) by {
      assert [p][..0] == [];
    }
  }

  lemma TwoNames(a: string, b: string)
    requires a != "" && a != "." && a != ".." && b != "" && b != "." && b != ".."
    ensures Cleaned(false, [a] + [b]) == [a, b] && Walk([], [a] + [b]) == [a, b] && Join([a, b], '/') == a + ['/'] + b
  {
    var two := [a] + [b];
    assert two[..1] == [a] && [a][..0] == [] && [a, b][1..] == [b];
    assert Cleaned(false, [a]) == [a] && Walk([], [a]) == [a];
  }

  /** A backslash does no harm where what it splits is dropped again. */
  lemma BackslashMayAgree()
    ensures var p := ".\\x/.."; Kept(p) == PosixKept(p) && !Free(p, IsBackslash)
  {
    hide Kept, PosixKept;
    KeptOfDots();
    PosixKeptOfDots();
    assert ".\\x/.."[1] == '\\';
  }

  lemma KeptOfDots()
    ensures Kept(".\\x/..") == []
  {
    hide Split, Cleaned;
    var p := ".\\x/..";
    assert p == "." + ['\\'] + "x/.." && "x/.." == "x" + ['/'] + "..";
    SplitFront(".", '\\', "x/..", IsSlash);
    SplitFront("x", '/', "..", IsSlash);
    SplitWhole("..", IsSlash);
    UpDrops(["."], "x");
    assert ["."] + (["x"] + [".."]) == ["."] + ["x"] + [".."];
  }

  lemma PosixKeptOfDots()
    ensures PosixKept(".\\x/..") == []
  {
    hide Split, Cleaned;
    var p := ".\\x/..";
    assert p == ".\\x" + ['/'] + "..";
    SplitFront(".\\x", '/', "..", IsPosixSlash);
    SplitWhole("..", IsPosixSlash);
    UpDrops([], ".\\x");
    assert [] + [".\\x"] + [".."] == [".\\x"] + [".."];
  }

  lemma UpDrops(front: seq<string>, name: string)
    requires (front == [] || front == ["."]) && name != "" && name != "." && name != ".."
    ensures Cleaned(false, front + [name] + [".."]) == []
  {
    var two := front + [name];
    assert (two + [".."])[..|two|] == two && two[..|front|] == front && ["."][..0] == [];
    assert Cleaned(false, front) == [];
    assert Cleaned(false, two) == [name];
  }
}
