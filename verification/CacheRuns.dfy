/** Runs of the cache protocol, step by step: what collides, what an image
    without its marker allows, and the exact conditions of safety. */
module CacheRuns {
  import opened Wrappers
  import opened CacheProtocol

  function Last(run: seq<State>): State
    requires run != []
  {
    run[|run| - 1]
  }

  lemma Extend(H: Content -> Digest, N: Names, run: seq<State>, p: Pid, a: Action) returns (r: seq<State>)
    requires IsRun(H, N, run) && Enabled(H, N, Last(run), p, a)
    ensures IsRun(H, N, r) && run < r && Last(r) == Apply(N, Last(run), p, a)
  {
    hide Enabled, Apply, Init;
    r := run + [Apply(N, Last(run), p, a)];
    forall i | 0 <= i < |r| - 1 ensures Next(H, N, r[i], r[i + 1]) {
      if i < |run| - 1 {
        assert Next(H, N, run[i], run[i + 1]);
      }
    }
  }

  /** A process that can start a job which will find its artifact missing. */
  predicate Ready(N: Names, s: State, p: Pid, job: Job) {
    s.lock.None? && s.StageOf(p).Idle? && N.Admits(job) && !s.Present(N, job) && (job.Exe? <==> !s.dir)
  }

  /** Lock, look, fetch and verify. */
  lemma StageRun(H: Content -> Digest, N: Names, run: seq<State>, p: Pid, job: Job, c: Content) returns (r: seq<State>)
    requires IsRun(H, N, run) && Ready(N, Last(run), p, job)
    ensures IsRun(H, N, r) && run < r && SameEntry(Last(run), Last(r))
    ensures Last(r).lock == Some(p) && Last(r).StageOf(p) == Verified(job, c, H(c))
  {
    hide IsRun;
    r := Extend(H, N, run, p, Acquire(job));
    r := Extend(H, N, r, p, SeeMissing);
    r := Extend(H, N, r, p, Fetch(c));
    r := Extend(H, N, r, p, Verify(H(c)));
  }

  /** Up to the rename, and a crash right behind it. */
  lemma CrashRun(H: Content -> Digest, N: Names, run: seq<State>, p: Pid, job: Job, c: Content) returns (r: seq<State>)
    requires IsRun(H, N, run) && Ready(N, Last(run), p, job)
    ensures IsRun(H, N, r) && run < r && Last(r).lock.None? && Last(r).StageOf(p).Idle? && Last(r).dir
    ensures var renamed := Renamed(N, Last(run), job, c, H(c));
      Last(r).files == renamed.files && Last(r).published == renamed.published
  {
    hide IsRun;
    r := StageRun(H, N, run, p, job, c);
    r := Extend(H, N, r, p, Publish);
    r := Extend(H, N, r, p, Crash);
  }

  /** A whole install of an image or a DLL: rename, marker, origin note, release. */
  lemma BesideRun(H: Content -> Digest, N: Names, run: seq<State>, p: Pid, job: Job, c: Content, text: Content)
      returns (r: seq<State>)
    requires IsRun(H, N, run) && Ready(N, Last(run), p, job) && !job.Exe?
    ensures IsRun(H, N, r) && run < r && Last(r).lock.None? && Last(r).StageOf(p).Idle? && Last(r).dir
    ensures var s, t, path := Last(run), Last(r), N.PathOf(job);
      && t.files == s.files[path := c][Marker(path) := text][Origin(path) := text]
      && t.published == s.published[path := Publication(job, H(c))] - {Marker(path)} - {Origin(path)}
  {
    hide IsRun, Marker, Origin;
    r := StageRun(H, N, run, p, job, c);
    r := Extend(H, N, r, p, Publish);
    r := Extend(H, N, r, p, Mark(Some(text)));
    r := Extend(H, N, r, p, Note(Some(text)));
    r := Extend(H, N, r, p, Release);
  }

  /** The install of the executable on a fresh root. */
  lemma FirstRun(H: Content -> Digest, N: Names, p: Pid, c: Content) returns (r: seq<State>)
    ensures IsRun(H, N, r) && r != [] && Last(r).lock.None? && Last(r).StageOf(p).Idle? && Last(r).dir
    ensures Last(r).files == map[N.ExeName() := c]
    ensures Last(r).published == map[N.ExeName() := Publication(Exe, H(c))]
  {
    hide IsRun;
    var fresh0 := State(None, false, map[], map[], map[]);
    r := [fresh0];
    assert IsRun(H, N, r) by {
      FreshIsRun(H, N, fresh0);
    }
    r := CrashRun(H, N, r, p, Exe, c);
  }

  lemma FreshIsRun(H: Content -> Digest, N: Names, s: State)
    requires Init(s)
    ensures IsRun(H, N, [s])
  {
  }

  // ---- names that collide --------------------------------------------------

  /** A declared name that leaves the executable and the image alone: neither
      the DLL nor its two notes land on the executable, and the DLL lands
      neither on the image nor on the image's marker. */
  predicate Clear(N: Names, d: string) {
    && N.ExeName() != d && N.ExeName() != Marker(d) && N.ExeName() != Origin(d)
    && d != N.ImageName() && d != Marker(N.ImageName())
  }

  /** The DLL, or one of its two notes, is written over the executable. */
  lemma ExeIsOverwritten(H: Content -> Digest, N: Names, d: string)
    requires N.Admits(Dll(d)) && N.ExeName() in N.Writes(Dll(d))
    ensures !Safe(H, N, Exe)
  {
    hide IsRun, Safe, Renamed, Marker, Origin;
    var exe := N.ExeName();
    MarkerIsLonger(d);
    var run := FirstRun(H, N, 0, "exe");
    var r := BesideRun(H, N, run, 0, Dll(d), "dll", "note");
    assert Last(r).files[exe] != "exe";
    Unsafe(H, N, Exe, r, |run| - 1, |r| - 1);
  }

  lemma Unsafe(H: Content -> Digest, N: Names, job: Job, run: seq<State>, i: nat, j: nat)
    requires IsRun(H, N, run) && i <= j < |run| && Vouched(N, job, run[i]) && !Trusted(H, N, job, run[i], run[j])
    ensures !Safe(H, N, job)
  {
    hide IsRun, Vouched, Trusted;
  }

  /** The DLL lands on the image and its marker on the image's marker, or the DLL is the image's marker. */
  lemma ImageIsMistaken(H: Content -> Digest, N: Names, d: string)
    requires N.Valid() && N.Admits(Dll(d)) && (d == N.ImageName() || d == Marker(N.ImageName()))
    ensures !Safe(H, N, Image)
  {
    hide IsRun, Safe, Renamed;
    MarkerIsLonger(d);
    ImageIsNotExe(N);
    var run := FirstRun(H, N, 0, "exe");
    var r := BesideRun(H, N, run, 0, Dll(d), "dll", "note");
    Unsafe(H, N, Image, r, |r| - 1, |r| - 1);
  }

  lemma ImageIsNotExe(N: Names)
    requires N.Valid()
    ensures N.ImageName() != N.ExeName() && Marker(N.ImageName()) != N.ExeName() && Origin(N.ImageName()) != N.ExeName()
  {
    var image, exe := N.ImageName(), N.ExeName();
    if |exe| == |image| {
      assert exe[|N.base| + 1] == 'e' && image[|N.base| + 1] == 't';
    }
  }

  lemma SuffixesDiffer(N: Names, d: string)
    ensures Marker(d) != N.ImageName() && Origin(d) != N.ImageName() && Origin(d) != Marker(N.ImageName())
    ensures Marker(d) == Marker(N.ImageName()) ==> d == N.ImageName()
  {
    var image := N.ImageName();
    assert image[|image| - 1] == 's';
    assert Marker(d)[|Marker(d)| - 1] == Marker(image)[|Marker(image)| - 1] == '6';
    assert Origin(d)[|Origin(d)| - 1] == 'n';
    if Marker(d) == Marker(image) {
      assert d == Marker(d)[..|Marker(d)| - 7] && image == Marker(image)[..|Marker(image)| - 7];
    }
  }

  /** The executable is safe over all runs, crashes included, exactly when no
      declared name puts the DLL or one of its notes at the executable's path. */
  lemma ExeSafety(H: Content -> Digest, N: Names)
    requires N.Valid()
    ensures Safe(H, N, Exe) <==> forall d :: N.Admits(Dll(d)) ==> N.ExeName() !in N.Writes(Dll(d))
  {
    hide Safe, Marker, Origin;
    if forall d :: N.Admits(Dll(d)) ==> N.ExeName() !in N.Writes(Dll(d)) {
      ImageIsNotExe(N);
      assert Guarded(N, Exe);
      GuardedIsSafe(H, N, Exe);
    } else {
      var d :| N.Admits(Dll(d)) && N.ExeName() in N.Writes(Dll(d));
      ExeIsOverwritten(H, N, d);
    }
  }

  /** An existing image marker means that the image is there, verified as the
      image and never replaced, exactly when no declared name is that of the
      image or of its marker. So under that condition the unlocked look is sound. */
  lemma ImageSafety(H: Content -> Digest, N: Names)
    requires N.Valid()
    ensures Safe(H, N, Image) <==> forall d :: N.Admits(Dll(d)) ==> d != N.ImageName() && d != Marker(N.ImageName())
  {
    hide Safe, Marker, Origin;
    if forall d :: N.Admits(Dll(d)) ==> d != N.ImageName() && d != Marker(N.ImageName()) {
      ImageIsGuarded(N);
      GuardedIsSafe(H, N, Image);
    } else {
      var d :| N.Admits(Dll(d)) && (d == N.ImageName() || d == Marker(N.ImageName()));
      ImageIsMistaken(H, N, d);
    }
  }

  lemma ImageIsGuarded(N: Names)
    requires N.Valid() && forall d :: N.Admits(Dll(d)) ==> d != N.ImageName() && d != Marker(N.ImageName())
    ensures Guarded(N, Image)
  {
    hide Marker, Origin;
    ImageIsNotExe(N);
    forall other | N.Admits(other) && other != Image
      ensures other.Exe? || N.ImageName() !in N.Writes(other)
      ensures Marker(N.ImageName()) !in N.Writes(other)
    {
      if other.Dll? {
        SuffixesDiffer(N, other.installAs);
      }
    }
  }

  /** Both together: safety over every run, exactly when every declared name is clear. */
  lemma NamesDecideSafety(H: Content -> Digest, N: Names)
    requires N.Valid()
    ensures Safe(H, N, Exe) && Safe(H, N, Image) <==> forall d :: N.Admits(Dll(d)) ==> Clear(N, d)
  {
    hide Safe, Marker, Origin;
    ExeSafety(H, N);
    ImageSafety(H, N);
  }

  predicate EndsIn(s: string, tail: string) {
    |s| >= |tail| && s[|s| - |tail|..] == tail
  }

  /** Where the executable's name does not end like a note's, a name is clear
      when it is not that of the executable, the image or the image's marker. */
  lemma ClearNames(N: Names, d: string)
    requires !EndsIn(N.ExeName(), ".sha256") && !EndsIn(N.ExeName(), ".origin")
    ensures Clear(N, d) <==> d != N.base + N.suffix && d != N.base + ".tfs" && d != N.base + ".tfs.sha256"
  {
    assert N.base + ".tfs" + ".sha256" == N.base + ".tfs.sha256";
    assert EndsIn(Marker(d), ".sha256") && EndsIn(Origin(d), ".origin");
  }

  /** With one declared name, the DLL itself is safe over every run exactly when
      the name is none of the three the image writes, and its marker is not the
      executable. The executable's own name does the DLL no harm. */
  lemma DllSafety(H: Content -> Digest, N: Names, d: string)
    requires N.Valid() && N.dlls == {d} && Bare(d)
    ensures Safe(H, N, Dll(d)) <==> d !in N.Writes(Image) && Marker(d) != N.ExeName()
  {
    hide Safe, Marker, Origin;
    if d in N.Writes(Image) {
      DllIsReplaced(H, N, d);
    } else if Marker(d) == N.ExeName() {
      DllIsImagined(H, N, d);
    } else {
      SuffixesDiffer(N, d);
      MarkersDiffer(d, N.ImageName());
      forall other | N.Admits(other) && other != Dll(d)
        ensures other.Exe? || d !in N.Writes(other)
        ensures Marker(d) !in N.Writes(other)
      {
      }
      GuardedIsSafe(H, N, Dll(d));
    }
  }

  /** The executable stands where the DLL's marker is looked for. */
  lemma DllIsImagined(H: Content -> Digest, N: Names, d: string)
    requires N.Admits(Dll(d)) && Marker(d) == N.ExeName()
    ensures !Safe(H, N, Dll(d))
  {
    hide IsRun, Safe, Renamed;
    MarkerIsLonger(d);
    var run := FirstRun(H, N, 0, "exe");
    Unsafe(H, N, Dll(d), run, |run| - 1, |run| - 1);
  }

  /** The DLL is the image, or one of its notes, and an image is installed. */
  lemma DllIsReplaced(H: Content -> Digest, N: Names, d: string)
    requires N.Valid() && N.Admits(Dll(d)) && d in N.Writes(Image)
    ensures !Safe(H, N, Dll(d))
  {
    hide Safe, Marker, Origin;
    if d == N.ImageName() {
      ImageInstead(H, N, d);
    } else {
      NoteOverDll(H, N, d);
    }
  }

  lemma ImageInstead(H: Content -> Digest, N: Names, d: string)
    requires N.Valid() && d == N.ImageName()
    ensures !Safe(H, N, Dll(d))
  {
    hide IsRun, Safe, Renamed;
    MarkerIsLonger(d);
    ImageIsNotExe(N);
    var run := FirstRun(H, N, 0, "exe");
    var r := BesideRun(H, N, run, 0, Image, "image", "note");
    assert Last(r).published[d].job == Image;
    Unsafe(H, N, Dll(d), r, |r| - 1, |r| - 1);
  }

  lemma NoteOverDll(H: Content -> Digest, N: Names, d: string)
    requires N.Valid() && N.Admits(Dll(d)) && (d == Marker(N.ImageName()) || d == Origin(N.ImageName()))
    ensures !Safe(H, N, Dll(d))
  {
    hide IsRun, Safe, Renamed, Marker, Origin;
    var image := N.ImageName();
    MarkerIsLonger(d);
    MarkerIsLonger(image);
    ImageIsNotExe(N);
    SuffixesDiffer(N, d);
    var run := FirstRun(H, N, 0, "exe");
    var first := BesideRun(H, N, run, 0, Dll(d), "dll", "note");
    var r := BesideRun(H, N, first, 0, Image, "image", "text");
    assert Last(r).files[d] == "text";
    Unsafe(H, N, Dll(d), r, |first| - 1, |r| - 1);
  }

  lemma MarkersDiffer(d: string, e: string)
    ensures Marker(d) != Origin(e)
  {
    assert Marker(d)[|Marker(d)| - 1] == '6' && Origin(e)[|Origin(e)| - 1] == 'n';
  }

  // ---- an artifact without its marker --------------------------------------

  /** Whoever holds the lock crashes; then anyone can take it. */
  lemma Quiesce(H: Content -> Digest, N: Names, run: seq<State>) returns (r: seq<State>, p: Pid)
    requires IsRun(H, N, run)
    ensures IsRun(H, N, r) && run <= r && SameEntry(Last(run), Last(r))
    ensures Last(r).lock.None? && Last(r).StageOf(p).Idle?
  {
    hide IsRun, StageSound;
    RunIsNotEmpty(H, N, run);
    RunBase(H, N, run, |run| - 1);
    if Last(run).lock.Some? {
      p := Last(run).lock.value;
      r := Extend(H, N, run, p, Crash);
    } else {
      p, r := 0, run;
      assert Last(run).lock == Some(p) <==> !Last(run).StageOf(p).Idle?;
    }
  }

  lemma RunIsNotEmpty(H: Content -> Digest, N: Names, run: seq<State>)
    requires IsRun(H, N, run)
    ensures run != []
  {
  }

  /** Some continuation of the run changes the content at the job's path. */
  ghost predicate Replaceable(H: Content -> Digest, N: Names, job: Job, run: seq<State>)
    requires run != []
  {
    var path := N.PathOf(job);
    exists r :: IsRun(H, N, r) && run <= r && path in Last(run).files && path in Last(r).files
             && Last(r).files[path] != Last(run).files[path]
  }

  /** After any run, a guarded artifact that is there can be replaced later if
      and only if its marker is absent. */
  lemma ReplaceableUntilMarked(H: Content -> Digest, N: Names, job: Job, run: seq<State>)
    requires IsRun(H, N, run) && Guarded(N, job) && N.Admits(job) && !job.Exe?
    requires run != [] && N.PathOf(job) in Last(run).files
    ensures Replaceable(H, N, job, run) <==> Marker(N.PathOf(job)) !in Last(run).files
  {
    hide IsRun, Guarded, Marker, StageSound, LockHeld;
    var path, s := N.PathOf(job), Last(run);
    RunBase(H, N, run, |run| - 1);
    if Marker(path) in s.files {
      forall r | IsRun(H, N, r) && run <= r && path in Last(r).files ensures Last(r).files[path] == s.files[path] {
        assert r[|run| - 1] == s;
        RunKeeps(H, N, job, r, |run| - 1, |r| - 1);
      }
    } else {
      var quiet, p := Quiesce(H, N, run);
      var c := if s.files[path] == "" then "new" else "";
      var r := CrashRun(H, N, quiet, p, job, c);
      assert Last(r).files[path] == c;
    }
  }

  /** Such a state is reached: an image is renamed into place, and its process crashes before the marker. */
  lemma CrashLeavesUnmarked(H: Content -> Digest, N: Names) returns (run: seq<State>)
    requires N.Valid()
    ensures IsRun(H, N, run) && run != []
    ensures N.ImageName() in Last(run).files && Marker(N.ImageName()) !in Last(run).files
  {
    hide IsRun;
    ImageIsNotExe(N);
    MarkerIsLonger(N.ImageName());
    run := FirstRun(H, N, 0, "exe");
    run := CrashRun(H, N, run, 0, Image, "image");
  }
}
