/** The four installers of the bootstrap, step by step against the shared cache
    entry. Other processes may take any steps between two of theirs; every call
    into the outside world may fail. Each atomic step is one of the protocol. */
module Installers {
  import opened Wrappers
  import opened CacheProtocol

  /** The named exit codes an installer can end with. */
  datatype Code = Io | Unavailable | BadRuntimeRef | BadManifest | ShaMismatch | Contract

  /** While the lock is held nothing a step depends on changes. */
  lemma EnabledStays(H: Content -> Digest, N: Names, s: State, t: State, me: Pid, a: Action)
    requires Enabled(H, N, s, me, a) && !a.Acquire? && t.StageOf(me) == s.StageOf(me) && SameEntry(s, t)
    ensures Enabled(H, N, t, me, a) && Apply(N, t, me, a).StageOf(me) == Apply(N, s, me, a).StageOf(me)
  {
  }

  lemma LockIsMine(H: Content -> Digest, N: Names, s: State, me: Pid)
    requires Base(H, N, s) && !s.StageOf(me).Idle?
    ensures s.lock == Some(me)
  {
  }

  /** The file at the job's path is what the job published under `expected`. */
  predicate Installed(H: Content -> Digest, N: Names, s: State, job: Job, expected: Digest) {
    var path := N.PathOf(job);
    && path in s.files && H(s.files[path]) == expected
    && path in s.published && s.published[path] == Publication(job, expected)
  }

  /** What the publishing rename does to the entry. */
  lemma PublishStep(H: Content -> Digest, N: Names, s: State, p: Pid)
    requires s.StageOf(p).Verified? && H(s.StageOf(p).content) == s.StageOf(p).expected
    ensures var v, t := s.StageOf(p), Apply(N, s, p, Publish);
      && Installed(H, N, t, v.job, v.expected) && N.PathOf(v.job) in t.files
      && t.files[N.PathOf(v.job)] == v.content
      && t.StageOf(p) == (if v.job.Exe? then Leaving else Marking(v.job))
  {
  }

  /** A note beside an artifact leaves the artifact as it is. */
  lemma NoteStep(H: Content -> Digest, N: Names, s: State, p: Pid, a: Action, job: Job, expected: Digest)
    requires Installed(H, N, s, job, expected)
    requires (a.Mark? && s.StageOf(p) == Marking(job)) || (a.Note? && s.StageOf(p) == Noting(job))
    ensures Installed(H, N, Apply(N, s, p, a), job, expected)
    ensures Apply(N, s, p, a).StageOf(p) == if a.Mark? then Noting(job) else Leaving
  {
    MarkerIsLonger(N.PathOf(job));
  }

  lemma SameInstalled(H: Content -> Digest, N: Names, s: State, t: State, job: Job, expected: Digest)
    requires SameEntry(s, t)
    ensures Installed(H, N, s, job, expected) <==> Installed(H, N, t, job, expected)
    ensures s.Present(N, job) <==> t.Present(N, job)
  {
  }

  lemma BareMeans(name: string)
    ensures Bare(name) <==> '/' !in name && '\\' !in name
  {
  }

  class Process {
    const H: Content -> Digest
    const N: Names
    const me: Pid
    var st: State
    ghost var log: seq<Action>
    /** The shared state when this process last took the lock, and when it last gave it back. */
    ghost var atLock: State
    ghost var atRelease: State

    constructor (H: Content -> Digest, N: Names, me: Pid, st: State)
      requires Base(H, N, st)
      ensures this.H == H && this.N == N && this.me == me && this.st == st && log == []
    {
      this.H, this.N, this.me, this.st := H, N, me, st;
      log, atLock, atRelease := [], st, st;
    }

    /** Not installing, and so not holding the lock. */
    ghost predicate Free()
      reads this
    {
      Base(H, N, st) && st.StageOf(me).Idle?
    }

    /** Installing `stage`'s job under the lock, with the entry as it was found. */
    ghost predicate Holds(stage: Stage)
      reads this
    {
      !stage.Idle? && Base(H, N, st) && st.StageOf(me) == stage && SameEntry(atLock, st)
    }

    /** This process has changed nothing in the entry since `before`. */
    ghost predicate Quiet(before: seq<Action>)
      reads this
    {
      before <= log && forall k :: |before| <= k < |log| ==> !Changing(log[k])
    }

    /** The end of an error path: the lock is free of this process, it has
        published nothing, and the entry it gave back is the entry it found. */
    ghost predicate Refused(before: seq<Action>)
      reads this
    {
      Free() && Quiet(before) && SameEntry(atLock, atRelease)
    }

    /** Other processes run. This body is one thing they may do; what a caller
        knows is the contract, which any run of theirs meets. */
    method Interfere()
      requires Base(H, N, st)
      modifies this`st
      ensures Rely(H, N, old(st), st, me)
    {
      RelyItself(H, N, st, me);
    }

    /** One atomic step of this process. */
    method Do(a: Action)
      requires Base(H, N, st) && Enabled(H, N, st, me, a)
      modifies this`st, this`log
      ensures st == Apply(N, old(st), me, a) && log == old(log) + [a]
      ensures Base(H, N, st)
      ensures !Changing(a) ==> SameEntry(old(st), st)
    {
      StepBase(H, N, st, me, a);
      if !Changing(a) {
        QuietStep(N, st, me, a);
      }
      st := Apply(N, st, me, a);
      log := log + [a];
    }

    /** A quiet step taken while holding the lock, after the others had their turn. */
    method Advance(a: Action)
      requires Holds(st.StageOf(me)) && Enabled(H, N, st, me, a) && !Changing(a) && !a.Acquire? && !a.Release? && !a.Crash?
      modifies this`st, this`log
      ensures Holds(Apply(N, old(st), me, a).StageOf(me)) && SameEntry(old(st), st) && log == old(log) + [a]
    {
      hide Base, Enabled, Preserves;
      LockIsMine(H, N, st, me);
      Interfere();
      EnabledStays(H, N, old(st), st, me, a);
      Do(a);
    }

    /** Lock release. */
    method Unlock()
      requires Base(H, N, st) && st.StageOf(me).Leaving?
      modifies this`st, this`log, this`atRelease
      ensures Free() && log == old(log) + [Release]
      ensures SameEntry(old(st), atRelease) && SameEntry(old(st), st)
    {
      hide Base, Preserves;
      LockIsMine(H, N, st, me);
      Interfere();
      atRelease := st;
      Do(Release);
    }

    /** Staging swept, lock released. */
    method Leave()
      requires Base(H, N, st) && !st.StageOf(me).Idle?
      modifies this`st, this`log, this`atRelease
      ensures Free() && log == old(log) + [Abandon, Release]
      ensures SameEntry(old(st), atRelease) && SameEntry(old(st), st)
    {
      hide Base, Preserves;
      LockIsMine(H, N, st, me);
      Interfere();
      Do(Abandon);
      Unlock();
    }

    /** The cache directories and the lock, polled until its deadline. */
    method TakeLock(job: Job) returns (r: Result<(), Code>)
      requires Free() && N.Admits(job)
      modifies this
      ensures Quiet(old(log))
      ensures r.Err? ==> Refused(old(log))
      ensures r.Ok? ==> Holds(Locked(job))
    {
      hide Base, Preserves;
      atLock, atRelease := st, st;
      var noDirs: bool := *;
      if noDirs {
        return Err(Io);
      }
      Interfere();
      var noLock: bool := *;
      if st.lock.Some? || noLock {
        var timedOut: bool := *;
        return Err(if timedOut then Unavailable else Io);
      }
      Do(Acquire(job));
      atLock := st;
      return Ok(());
    }

    /** The lock, the re-check under it, and the private staging directory.
        Ok(true): proceed, the lock is held. Ok(false): the artifact appeared
        meanwhile, the lock is free. */
    method LockAndStage(job: Job) returns (r: Result<bool, Code>)
      requires Free() && N.Admits(job)
      modifies this
      ensures Quiet(old(log))
      ensures r.Err? ==> Refused(old(log))
      ensures r == Ok(false) ==> Free() && st.Present(N, job)
      ensures r == Ok(true) ==> Holds(Staging(job))
    {
      hide Base;
      var locked :- TakeLock(job);
      if st.Present(N, job) {
        Advance(SeePresent);
        Unlock();
        return Ok(false);
      }
      Advance(SeeMissing);
      var noStaging: bool := *;
      if noStaging {
        Leave();
        return Err(Io);
      }
      return Ok(true);
    }

    /** The digest of the staged file against the expected one. */
    method CheckDigest(job: Job, content: Content, expected: Digest, ghost before: seq<Action>) returns (r: Result<(), Code>)
      requires Holds(Fetched(job, content)) && Quiet(before)
      modifies this`st, this`log, this`atRelease
      ensures r.Err? ==> Refused(before)
      ensures r.Ok? ==> Holds(Verified(job, content, expected)) && Quiet(before) && H(content) == expected
    {
      hide Base;
      var unreadable: bool := *;
      if unreadable {
        Leave();
        return Err(Io);
      }
      if expected != H(content) {
        Leave();
        return Err(ShaMismatch);
      }
      Advance(Verify(expected));
      return Ok(());
    }

    /** The rename of the staged executable's directory into the cache. An
        entry directory without the executable is user state and refused. */
    method PublishEntry(content: Content, expected: Digest, ghost before: seq<Action>) returns (r: Result<(), Code>)
      requires Holds(Verified(Exe, content, expected)) && Quiet(before) && H(content) == expected
      modifies this
      ensures r.Err? ==> Refused(before)
      ensures r.Ok? ==> Free() && Installed(H, N, st, Exe, expected) && st.files[N.ExeName()] == content
    {
      hide Base, Preserves;
      LockIsMine(H, N, st, me);
      Interfere();
      var renameFails: bool := *;
      if st.dir || renameFails {
        Leave();
        return Err(Io);
      }
      PublishStep(H, N, st, me);
      Do(Publish);
      Unlock();
      return Ok(());
    }

    /** The fat package's payload slot, checked against the digest its runtime_ref carries. */
    method InstallPayload(expected: Option<Digest>) returns (r: Result<(), Code>)
      requires Free()
      modifies this
      ensures r.Err? ==> Refused(old(log))
      ensures r.Ok? ==> Free() && st.Present(N, Exe)
      ensures r.Ok? && !Quiet(old(log)) ==> expected.Some? && Installed(H, N, st, Exe, expected.value)
      ensures expected.None? ==> r == Err(BadRuntimeRef)
    {
      hide Base;
      if expected.None? {
        atLock, atRelease := st, st;
        return Err(BadRuntimeRef);
      }
      var begun :- LockAndStage(Exe);
      if !begun {
        return Ok(());
      }
      var extractFails: bool, outOfBounds: bool := *, *;
      if extractFails {
        Leave();
        return Err(if outOfBounds then BadManifest else Io);
      }
      var content: Content := *;
      Advance(Fetch(content));
      var checked :- CheckDigest(Exe, content, expected.value, old(log));
      r := PublishEntry(content, expected.value, old(log));
    }

    /** The downloaded executable, checked against the release's checksum;
        `expected` is what the manifest or the checksum file names, if either does.
        `gate` says that the release card can be read and its contract is met. */
    method DownloadExecutable(offline: bool, gate: bool, expected: Option<Digest>) returns (r: Result<(), Code>)
      requires Free()
      modifies this
      ensures r.Err? ==> Refused(old(log))
      ensures r.Ok? ==> Free() && st.Present(N, Exe)
      ensures r.Ok? && !Quiet(old(log)) ==> gate && expected.Some? && Installed(H, N, st, Exe, expected.value)
      ensures offline ==> r == Err(Unavailable)
    {
      hide Base;
      if offline {
        atLock, atRelease := st, st;
        return Err(Unavailable);
      }
      var begun :- LockAndStage(Exe);
      if !begun {
        return Ok(());
      }
      if !gate {
        Leave();
        return Err(Contract);
      }
      var downloadFails: bool := *;
      if downloadFails {
        Leave();
        return Err(Unavailable);
      }
      var content: Content := *;
      Advance(Fetch(content));
      if expected.None? {
        Leave();
        return Err(Unavailable);
      }
      var checked :- CheckDigest(Exe, content, expected.value, old(log));
      r := PublishEntry(content, expected.value, old(log));
    }

    /** The rename into the entry, then the trust marker. The marker is best
        effort: without it the artifact is installed again. */
    method PublishBeside(job: Job, content: Content, expected: Digest, ghost before: seq<Action>) returns (r: Result<(), Code>)
      requires Holds(Verified(job, content, expected)) && !job.Exe? && Quiet(before) && H(content) == expected
      modifies this
      ensures r.Err? ==> Refused(before)
      ensures r.Ok? ==> Free() && !Quiet(before) && Installed(H, N, st, job, expected)
    {
      hide Base, Preserves, Installed;
      LockIsMine(H, N, st, me);
      Interfere();
      var renameFails: bool := *;
      if !st.dir || renameFails {
        Leave();
        return Err(Io);
      }
      PublishStep(H, N, st, me);
      ghost var at := |log|;
      Do(Publish);
      assert Changing(log[at]);
      MarkAndLeave(job, expected);
      assert Changing(log[at]);
      return Ok(());
    }

    /** The marker and the origin note, each written or not, and the release. */
    method MarkAndLeave(job: Job, expected: Digest)
      requires Base(H, N, st) && st.StageOf(me) == Marking(job) && Installed(H, N, st, job, expected)
      modifies this`st, this`log, this`atRelease
      ensures Free() && Installed(H, N, st, job, expected) && old(log) <= log
    {
      hide Base, Preserves, Installed, Apply;
      var marker: Option<Content>, note: Option<Content> := *, *;
      NoteUnderLock(Mark(marker), job, expected);
      NoteUnderLock(Note(note), job, expected);
      ghost var done := st;
      Unlock();
      SameInstalled(H, N, done, st, job, expected);
    }

    method NoteUnderLock(a: Action, job: Job, expected: Digest)
      requires Base(H, N, st) && Installed(H, N, st, job, expected)
      requires (a.Mark? && st.StageOf(me) == Marking(job)) || (a.Note? && st.StageOf(me) == Noting(job))
      modifies this`st, this`log
      ensures Base(H, N, st) && Installed(H, N, st, job, expected) && log == old(log) + [a]
      ensures st.StageOf(me) == if a.Mark? then Noting(job) else Leaving
    {
      hide Base, Preserves, Installed, Apply;
      LockIsMine(H, N, st, me);
      Interfere();
      SameInstalled(H, N, old(st), st, job, expected);
      NoteStep(H, N, st, me, a, job, expected);
      Do(a);
    }

    /** Download, verify and install one artifact beside the executable, from
        the staged state on: rename into the entry, then the trust marker. */
    method InstallBeside(job: Job, expected: Option<Digest>, ghost before: seq<Action>) returns (r: Result<(), Code>)
      requires Holds(Staging(job)) && !job.Exe? && Quiet(before)
      modifies this
      ensures r.Err? ==> Refused(before)
      ensures r.Ok? ==> Free() && !Quiet(before) && expected.Some? && Installed(H, N, st, job, expected.value)
    {
      hide Base;
      var downloadFails: bool := *;
      if downloadFails {
        Leave();
        return Err(Unavailable);
      }
      var content: Content := *;
      Advance(Fetch(content));
      if expected.None? {
        Leave();
        return Err(Unavailable);
      }
      var checked :- CheckDigest(job, content, expected.value, before);
      r := PublishBeside(job, content, expected.value, before);
    }

    /** The runtime image. The first look is taken without the lock; `gate` as for the executable. */
    method ResolveImage(offline: bool, gate: bool, expected: Option<Digest>) returns (r: Result<(), Code>)
      requires Free()
      modifies this
      ensures r.Err? ==> Refused(old(log))
      ensures r.Ok? ==> Free() && N.ImageName() in st.files
      ensures r.Ok? && Quiet(old(log)) ==> st.Present(N, Image)
      ensures r.Ok? && !Quiet(old(log)) ==> gate && expected.Some? && Installed(H, N, st, Image, expected.value)
      ensures old(st.Present(N, Image)) || offline ==>
        st == old(st) && log == old(log) && r == if old(st.Present(N, Image)) then Ok(()) else Err(Unavailable)
    {
      hide Base;
      atLock, atRelease := st, st;
      if st.Present(N, Image) {
        return Ok(());
      }
      if offline {
        return Err(Unavailable);
      }
      var begun :- LockAndStage(Image);
      if !begun {
        return Ok(());
      }
      if !gate {
        Leave();
        return Err(Contract);
      }
      r := InstallBeside(Image, expected, old(log));
    }

    /** The runtime DLL. The cached release index, if there is one, declares
        the file name; `declared` is the digest of its dll facet. Ok(false)
        when nothing is declared. */
    method ResolveDll(installAs: Option<string>, offline: bool, declared: Option<Digest>) returns (r: Result<bool, Code>)
      requires Free() && (installAs.Some? ==> installAs.value in N.dlls)
      modifies this
      ensures r.Err? ==> Refused(old(log))
      ensures r.Ok? ==> Free()
      ensures installAs.None? ==> r == Ok(false)
      ensures r == Ok(true) ==> installAs.Some? && installAs.value in st.files
      ensures r == Ok(true) && Quiet(old(log)) ==> st.Present(N, Dll(installAs.value))
      ensures r.Ok? && !Quiet(old(log)) ==>
        && r.value && '/' !in installAs.value && '\\' !in installAs.value
        && declared.Some? && Installed(H, N, st, Dll(installAs.value), declared.value)
      ensures installAs.Some? ==>
        var present := old(st).Present(N, Dll(installAs.value));
        (present || declared.None? || offline || '/' in installAs.value || '\\' in installAs.value ==>
          && st == old(st) && log == old(log)
          && r == if present then Ok(true) else if declared.None? then Ok(false) else Err(Unavailable))
    {
      hide Base;
      atLock, atRelease := st, st;
      if installAs.None? {
        return Ok(false);
      }
      var job := Dll(installAs.value);
      if st.Present(N, job) {
        return Ok(true);
      }
      if declared.None? {
        return Ok(false);
      }
      BareMeans(installAs.value);
      if !Bare(installAs.value) || offline {
        return Err(Unavailable);
      }
      var begun :- LockAndStage(job);
      if !begun {
        return Ok(true);
      }
      var installed :- InstallBeside(job, declared, old(log));
      return Ok(true);
    }
  }
}
