/** The runtime-cache install protocol of one cache entry, as a transition
    system: any number of processes share the entry under one lock, stage
    privately, verify, publish by rename and then write the trust marker. A
    process may crash between any two steps, and readers take no lock. All
    files of the entry share one directory, and the release index chooses the
    name of the DLL, so names can collide. */
module CacheProtocol {
  import opened Wrappers

  type Pid = nat
  type Content = string
  type Digest = string

  /** What a process installs: the executable, the image, or the DLL under the name the index declares. */
  datatype Job = Exe | Image | Dll(installAs: string)

  /** The file names of an entry. `dlls` are all the names that any index the
      processes read may declare. That includes what a DLL declares which is
      itself installed in place of the index. */
  datatype Names = Names(base: string, suffix: string, dlls: set<string>) {
    predicate Valid() { suffix == "" || suffix == ".exe" }

    function ExeName(): string { base + suffix }

    function ImageName(): string { base + ".tfs" }

    function PathOf(job: Job): string {
      match job
      case Exe => ExeName()
      case Image => ImageName()
      case Dll(d) => d
    }

    /** The jobs that can reach the install: a declared name must be a bare file name. */
    predicate Admits(job: Job) {
      job.Dll? ==> job.installAs in dlls && Bare(job.installAs)
    }

    /** The paths a job writes. */
    function Writes(job: Job): set<string> {
      var path := PathOf(job);
      if job.Exe? then {path} else {path, Marker(path), Origin(path)}
    }
  }

  predicate Bare(name: string) {
    forall k :: 0 <= k < |name| ==> name[k] != '/' && name[k] != '\\'
  }

  function Marker(name: string): string { name + ".sha256" }

  function Origin(name: string): string { name + ".origin" }

  /** Where a process is in its install. Staged content is in a directory of its own. */
  datatype Stage =
    | Idle
    | Locked(job: Job)
    | Staging(job: Job)
    | Fetched(job: Job, content: Content)
    | Verified(job: Job, content: Content, expected: Digest)
    | Marking(job: Job)
    | Noting(job: Job)
    | Leaving

  /** Which job renamed a file into place, and the digest it had compared. */
  datatype Publication = Publication(job: Job, digest: Digest)

  /** The shared state. `dir` is the entry directory, which the rename of the
      executable's staging directory creates. A file has no publication when
      a marker or an origin note was written at its path. */
  datatype State = State(
    lock: Option<Pid>,
    dir: bool,
    files: map<string, Content>,
    published: map<string, Publication>,
    procs: map<Pid, Stage>)
  {
    function StageOf(p: Pid): Stage {
      if p in procs then procs[p] else Idle
    }

    function At(p: Pid, stage: Stage): State {
      this.(procs := procs[p := stage])
    }

    /** A small file written in place; a failed write changes nothing. */
    function Written(name: string, text: Option<Content>): State {
      if text.None? then this
      else this.(files := files[name := text.value], published := published - {name})
    }

    /** What a process looks for before it installs. */
    predicate Present(N: Names, job: Job) {
      N.PathOf(job) in files && (job.Exe? || Marker(N.PathOf(job)) in files)
    }
  }

  datatype Action =
    | Acquire(job: Job)
    | SeePresent
    | SeeMissing
    | Fetch(content: Content)
    | Verify(expected: Digest)
    | Publish
    | Mark(text: Option<Content>)
    | Note(text: Option<Content>)
    | Abandon
    | Release
    | Crash

  /** When process `p` can take an action. */
  predicate Enabled(H: Content -> Digest, N: Names, s: State, p: Pid, a: Action) {
    var stage := s.StageOf(p);
    match a
    case Acquire(job) => stage.Idle? && s.lock.None? && N.Admits(job)
    case SeePresent => stage.Locked? && s.Present(N, stage.job)
    case SeeMissing => stage.Locked? && !s.Present(N, stage.job)
    case Fetch(_) => stage.Staging?
    case Verify(expected) => stage.Fetched? && H(stage.content) == expected
    case Publish => stage.Verified? && (stage.job.Exe? <==> !s.dir)
    case Mark(_) => stage.Marking?
    case Note(_) => stage.Noting?
    case Abandon => !stage.Idle?
    case Release => stage.Leaving?
    case Crash => true
  }

  /** The publishing rename: of the whole directory for the executable, of one file otherwise. */
  function Renamed(N: Names, s: State, job: Job, content: Content, digest: Digest): State {
    var path := N.PathOf(job);
    if job.Exe? then s.(dir := true, files := map[path := content], published := map[path := Publication(job, digest)])
    else s.(files := s.files[path := content], published := s.published[path := Publication(job, digest)])
  }

  function Apply(N: Names, s: State, p: Pid, a: Action): State {
    var stage := s.StageOf(p);
    match a
    case Acquire(job) => s.(lock := Some(p)).At(p, Locked(job))
    case SeePresent => s.At(p, Leaving)
    case SeeMissing => if stage.Locked? then s.At(p, Staging(stage.job)) else s
    case Fetch(content) => if stage.Staging? then s.At(p, Fetched(stage.job, content)) else s
    case Verify(expected) => if stage.Fetched? then s.At(p, Verified(stage.job, stage.content, expected)) else s
    case Publish =>
      if !stage.Verified? then s
      else Renamed(N, s, stage.job, stage.content, stage.expected).At(p, if stage.job.Exe? then Leaving else Marking(stage.job))
    case Mark(text) => if stage.Marking? then s.Written(Marker(N.PathOf(stage.job)), text).At(p, Noting(stage.job)) else s
    case Note(text) => if stage.Noting? then s.Written(Origin(N.PathOf(stage.job)), text).At(p, Leaving) else s
    case Abandon => s.At(p, Leaving)
    case Release => s.(lock := None).At(p, Idle)
    case Crash => s.(lock := if s.lock == Some(p) then None else s.lock).At(p, Idle)
  }

  /** A fresh root. The entry directory may be there, empty. */
  ghost predicate Init(s: State) {
    s.lock.None? && s.files == map[] && s.published == map[] && forall p: Pid :: s.StageOf(p) == Idle
  }

  // ---- what every step keeps, whatever the names ---------------------------

  /** A process holds the lock exactly while it is installing. */
  ghost predicate LockHeld(s: State) {
    forall p: Pid :: s.lock == Some(p) <==> !s.StageOf(p).Idle?
  }

  /** What a process knows from its own earlier steps. */
  ghost predicate StageSound(H: Content -> Digest, N: Names, s: State, stage: Stage) {
    && (stage.Idle? || stage.Leaving? || N.Admits(stage.job))
    && (stage.Staging? || stage.Fetched? || stage.Verified? ==> !s.Present(N, stage.job))
    && (stage.Verified? ==> H(stage.content) == stage.expected)
    && (stage.Marking? || stage.Noting? ==> s.dir && !stage.job.Exe?)
  }

  ghost predicate Base(H: Content -> Digest, N: Names, s: State) {
    && LockHeld(s)
    && (!s.dir ==> s.files == map[])
    && forall p: Pid :: StageSound(H, N, s, s.StageOf(p))
  }

  ghost predicate SameEntry(s: State, t: State) {
    t.dir == s.dir && t.files == s.files && t.published == s.published
  }

  lemma InitBase(H: Content -> Digest, N: Names, s: State)
    requires Init(s)
    ensures Base(H, N, s)
  {
  }

  /** The actions that change the entry. */
  predicate Changing(a: Action) { a.Publish? || a.Mark? || a.Note? }

  lemma QuietStep(N: Names, s: State, p: Pid, a: Action)
    requires !Changing(a)
    ensures SameEntry(s, Apply(N, s, p, a))
  {
  }

  lemma StepLock(H: Content -> Digest, N: Names, s: State, p: Pid, a: Action)
    requires LockHeld(s) && Enabled(H, N, s, p, a)
    ensures LockHeld(Apply(N, s, p, a))
  {
    var t := Apply(N, s, p, a);
    forall q: Pid ensures t.lock == Some(q) <==> !t.StageOf(q).Idle? {
      assert s.lock == Some(q) <==> !s.StageOf(q).Idle?;
      assert s.lock == Some(p) <==> !s.StageOf(p).Idle?;
    }
  }

  /** A process that is not idle is the only one that takes steps other than crashes. */
  lemma OnlyCrashes(H: Content -> Digest, N: Names, s: State, p: Pid, a: Action, q: Pid)
    requires LockHeld(s) && Enabled(H, N, s, p, a) && q != p && !s.StageOf(q).Idle?
    ensures a.Crash?
  {
    assert s.lock == Some(q) <==> !s.StageOf(q).Idle?;
    assert s.lock == Some(p) <==> !s.StageOf(p).Idle?;
  }

  lemma StepStages(H: Content -> Digest, N: Names, s: State, p: Pid, a: Action, q: Pid)
    requires Base(H, N, s) && Enabled(H, N, s, p, a)
    ensures StageSound(H, N, Apply(N, s, p, a), Apply(N, s, p, a).StageOf(q))
  {
    var t := Apply(N, s, p, a);
    assert StageSound(H, N, s, s.StageOf(p)) && StageSound(H, N, s, s.StageOf(q));
    if q != p {
      assert t.StageOf(q) == s.StageOf(q);
      if !s.StageOf(q).Idle? {
        OnlyCrashes(H, N, s, p, a, q);
        QuietStep(N, s, p, a);
      }
    }
  }

  lemma StepDir(H: Content -> Digest, N: Names, s: State, p: Pid, a: Action)
    requires Base(H, N, s) && Enabled(H, N, s, p, a)
    ensures var t := Apply(N, s, p, a); !t.dir ==> t.files == map[]
  {
    assert StageSound(H, N, s, s.StageOf(p));
  }

  /** The base invariant is kept by every step, whatever names the index declares. */
  lemma StepBase(H: Content -> Digest, N: Names, s: State, p: Pid, a: Action)
    requires Base(H, N, s) && Enabled(H, N, s, p, a)
    ensures Base(H, N, Apply(N, s, p, a))
  {
    hide LockHeld, StageSound, Enabled, Apply;
    StepLock(H, N, s, p, a);
    StepDir(H, N, s, p, a);
    forall q: Pid ensures StageSound(H, N, Apply(N, s, p, a), Apply(N, s, p, a).StageOf(q)) {
      StepStages(H, N, s, p, a, q);
    }
  }

  // ---- what every step keeps of one artifact -------------------------------

  /** What a reader takes for the artifact being there: the executable's file, or a marker. */
  predicate Vouched(N: Names, job: Job, s: State) {
    if job.Exe? then N.ExeName() in s.files else Marker(N.PathOf(job)) in s.files
  }

  /** No other job writes the artifact's marker, and none that is installed
      beside others writes the artifact. The executable comes with a fresh
      directory, so it replaces nothing. */
  ghost predicate Guarded(N: Names, job: Job) {
    forall other :: N.Admits(other) && other != job ==>
      && (other.Exe? || N.PathOf(job) !in N.Writes(other))
      && (job.Exe? || Marker(N.PathOf(job)) !in N.Writes(other))
  }

  /** The file at the artifact's path was published by its own job, with the
      digest that job compared. */
  ghost predicate Authentic(H: Content -> Digest, N: Names, job: Job, s: State) {
    var path := N.PathOf(job);
    && path in s.files && path in s.published
    && s.published[path].job == job && H(s.files[path]) == s.published[path].digest
  }

  /** What is vouched for is authentic, and what is about to be marked is authentic and has no marker. */
  ghost predicate Sound(H: Content -> Digest, N: Names, job: Job, s: State) {
    && (Vouched(N, job, s) ==> Authentic(H, N, job, s))
    && (forall p: Pid :: s.StageOf(p) == Marking(job) ==> Authentic(H, N, job, s) && !Vouched(N, job, s))
  }

  /** What is present stays, with its content and its publication. */
  ghost predicate Keeps(N: Names, job: Job, s: State, t: State) {
    var path := N.PathOf(job);
    && (path in s.files ==> path in t.files)
    && (s.Present(N, job) ==> t.Present(N, job) && t.files[path] == s.files[path])
    && (s.Present(N, job) && path in s.published ==> path in t.published && t.published[path] == s.published[path])
  }

  lemma MarkerIsLonger(name: string)
    ensures Marker(name) != name && Origin(name) != name && Origin(name) != Marker(name)
  {
    assert Marker(name)[|name| + 1] == 's' && Origin(name)[|name| + 1] == 'o';
  }

  lemma WrittenElsewhere(H: Content -> Digest, N: Names, job: Job, s: State, name: string, text: Option<Content>)
    requires name != N.PathOf(job)
    ensures Authentic(H, N, job, s) ==> Authentic(H, N, job, s.Written(name, text))
  {
  }

  /** The rename of the artifact itself, or of one that does not touch it. */
  lemma PublishSound(H: Content -> Digest, N: Names, job: Job, s: State, p: Pid)
    requires Base(H, N, s) && Sound(H, N, job, s) && Guarded(N, job) && Enabled(H, N, s, p, Publish)
    ensures Sound(H, N, job, Apply(N, s, p, Publish)) && Keeps(N, job, s, Apply(N, s, p, Publish))
  {
    hide LockHeld;
    var stage, t := s.StageOf(p), Apply(N, s, p, Publish);
    assert StageSound(H, N, s, stage);
    MarkerIsLonger(N.PathOf(job));
    if stage.job != job {
      assert N.PathOf(stage.job) in N.Writes(stage.job);
    }
    OthersNotMarking(H, N, s, p, Publish, job);
  }

  /** While one process publishes, marks or notes, no other is about to mark. */
  lemma OthersNotMarking(H: Content -> Digest, N: Names, s: State, p: Pid, a: Action, job: Job)
    requires Base(H, N, s) && Enabled(H, N, s, p, a) && Changing(a)
    ensures forall q: Pid :: Apply(N, s, p, a).StageOf(q) == Marking(job) ==> q == p
  {
    hide StageSound;
    forall q: Pid | q != p ensures Apply(N, s, p, a).StageOf(q) != Marking(job) {
      if !s.StageOf(q).Idle? {
        OnlyCrashes(H, N, s, p, a, q);
      }
    }
  }

  lemma NoteSound(H: Content -> Digest, N: Names, job: Job, s: State, p: Pid, a: Action)
    requires Base(H, N, s) && Sound(H, N, job, s) && Guarded(N, job) && Enabled(H, N, s, p, a) && (a.Mark? || a.Note?)
    ensures Sound(H, N, job, Apply(N, s, p, a)) && Keeps(N, job, s, Apply(N, s, p, a))
  {
    hide LockHeld, Authentic, Marker, Origin;
    var stage := s.StageOf(p);
    var at, path := N.PathOf(stage.job), N.PathOf(job);
    var name := if a.Mark? then Marker(at) else Origin(at);
    assert StageSound(H, N, s, stage);
    MarkerIsLonger(path);
    if stage.job != job {
      assert name in N.Writes(stage.job);
    }
    WrittenElsewhere(H, N, job, s, name, a.text);
    OthersNotMarking(H, N, s, p, a, job);
    SameAuthentic(H, N, job, s.Written(name, a.text), Apply(N, s, p, a));
  }

  lemma SameAuthentic(H: Content -> Digest, N: Names, job: Job, s: State, t: State)
    requires SameEntry(s, t)
    ensures Authentic(H, N, job, s) <==> Authentic(H, N, job, t)
  {
  }

  lemma QuietSound(H: Content -> Digest, N: Names, job: Job, s: State, p: Pid, a: Action)
    requires Sound(H, N, job, s) && Enabled(H, N, s, p, a) && !Changing(a)
    ensures Sound(H, N, job, Apply(N, s, p, a)) && Keeps(N, job, s, Apply(N, s, p, a))
  {
    hide Authentic;
    var t := Apply(N, s, p, a);
    QuietStep(N, s, p, a);
    SameAuthentic(H, N, job, s, t);
    forall q: Pid | t.StageOf(q) == Marking(job) ensures s.StageOf(q) == Marking(job) {
    }
  }

  /** The invariant of a guarded artifact is kept by every step of every
      process, and so is the artifact once it is present. */
  lemma StepSound(H: Content -> Digest, N: Names, job: Job, s: State, p: Pid, a: Action)
    requires Base(H, N, s) && Sound(H, N, job, s) && Guarded(N, job) && Enabled(H, N, s, p, a)
    ensures Sound(H, N, job, Apply(N, s, p, a)) && Keeps(N, job, s, Apply(N, s, p, a))
  {
    hide Base, Sound, Keeps, Guarded, Apply;
    match a {
      case Publish => PublishSound(H, N, job, s, p);
      case Mark(_) => NoteSound(H, N, job, s, p, a);
      case Note(_) => NoteSound(H, N, job, s, p, a);
      case _ => QuietSound(H, N, job, s, p, a);
    }
  }

  lemma InitSound(H: Content -> Digest, N: Names, job: Job, s: State)
    requires Init(s)
    ensures Sound(H, N, job, s)
  {
  }

  lemma KeepsItself(N: Names, job: Job, s: State)
    ensures Keeps(N, job, s, s)
  {
  }

  lemma KeepsChain(N: Names, job: Job, s: State, t: State, u: State)
    requires Keeps(N, job, s, t) && Keeps(N, job, t, u)
    ensures Keeps(N, job, s, u)
  {
  }

  // ---- whole runs ----------------------------------------------------------

  ghost predicate Next(H: Content -> Digest, N: Names, s: State, t: State) {
    exists p, a :: Enabled(H, N, s, p, a) && t == Apply(N, s, p, a)
  }

  ghost predicate IsRun(H: Content -> Digest, N: Names, run: seq<State>) {
    && |run| > 0 && Init(run[0])
    && forall i :: 0 <= i < |run| - 1 ==> Next(H, N, run[i], run[i + 1])
  }

  lemma {:induction false} RunBase(H: Content -> Digest, N: Names, run: seq<State>, i: nat)
    requires IsRun(H, N, run) && i < |run|
    ensures Base(H, N, run[i])
  {
    hide Init, Base, Enabled;
    if i == 0 {
      InitBase(H, N, run[0]);
    } else {
      RunBase(H, N, run, i - 1);
      assert Next(H, N, run[i - 1], run[i - 1 + 1]);
      var p, a :| Enabled(H, N, run[i - 1], p, a) && run[i] == Apply(N, run[i - 1], p, a);
      StepBase(H, N, run[i - 1], p, a);
    }
  }

  lemma {:induction false} RunSound(H: Content -> Digest, N: Names, job: Job, run: seq<State>, i: nat)
    requires IsRun(H, N, run) && i < |run| && Guarded(N, job)
    ensures Sound(H, N, job, run[i])
  {
    hide Init, Base, Enabled, Sound, Guarded, Apply;
    if i == 0 {
      InitSound(H, N, job, run[0]);
    } else {
      RunSound(H, N, job, run, i - 1);
      RunBase(H, N, run, i - 1);
      assert Next(H, N, run[i - 1], run[i - 1 + 1]);
      var p, a :| Enabled(H, N, run[i - 1], p, a) && run[i] == Apply(N, run[i - 1], p, a);
      StepSound(H, N, job, run[i - 1], p, a);
    }
  }

  lemma {:induction false} RunKeeps(H: Content -> Digest, N: Names, job: Job, run: seq<State>, i: nat, j: nat)
    requires IsRun(H, N, run) && i <= j < |run| && Guarded(N, job)
    ensures Keeps(N, job, run[i], run[j])
    decreases j
  {
    hide Init, Base, Enabled, Sound, Guarded, Apply, Keeps;
    if i == j {
      KeepsItself(N, job, run[i]);
    } else {
      RunKeeps(H, N, job, run, i, j - 1);
      RunSound(H, N, job, run, j - 1);
      RunBase(H, N, run, j - 1);
      assert Next(H, N, run[j - 1], run[j - 1 + 1]);
      var p, a :| Enabled(H, N, run[j - 1], p, a) && run[j] == Apply(N, run[j - 1], p, a);
      StepSound(H, N, job, run[j - 1], p, a);
      KeepsChain(N, job, run[i], run[j - 1], run[j]);
    }
  }

  /** The artifact a reader finds vouched for in `s` is authentic there, and the same in `t`. */
  ghost predicate Trusted(H: Content -> Digest, N: Names, job: Job, s: State, t: State) {
    var path := N.PathOf(job);
    Authentic(H, N, job, s) && Authentic(H, N, job, t) && Vouched(N, job, t)
    && t.files[path] == s.files[path] && t.published[path] == s.published[path]
  }

  /** Over every run, crashes included, an artifact that is vouched for can be trusted ever after. */
  ghost predicate Safe(H: Content -> Digest, N: Names, job: Job) {
    forall run, i: nat, j: nat :: IsRun(H, N, run) && i <= j < |run| && Vouched(N, job, run[i]) ==>
      Trusted(H, N, job, run[i], run[j])
  }

  /** A guarded artifact is safe: the executable, and the unlocked look at an
      image or DLL and its marker, in whatever order it is taken. */
  lemma GuardedIsSafe(H: Content -> Digest, N: Names, job: Job)
    requires Guarded(N, job)
    ensures Safe(H, N, job)
  {
    hide Guarded, IsRun;
    forall run, i: nat, j: nat | IsRun(H, N, run) && i <= j < |run| && Vouched(N, job, run[i])
      ensures Trusted(H, N, job, run[i], run[j])
    {
      RunSound(H, N, job, run, i);
      RunSound(H, N, job, run, j);
      RunKeeps(H, N, job, run, i, j);
    }
  }

  // ---- what the others may do while one process installs --------------------

  /** `t` comes after `n` steps of processes other than `me`. */
  ghost predicate OthersReach(H: Content -> Digest, N: Names, s: State, t: State, me: Pid, n: nat)
    decreases n
  {
    if n == 0 then t == s
    else exists mid, p, a :: OthersReach(H, N, s, mid, me, n - 1) && OtherStep(H, N, mid, t, me, p, a)
  }

  ghost predicate OtherStep(H: Content -> Digest, N: Names, s: State, t: State, me: Pid, p: Pid, a: Action) {
    p != me && Enabled(H, N, s, p, a) && t == Apply(N, s, p, a)
  }

  /** Every guarded artifact stays sound, and present once it is. */
  ghost predicate Preserves(H: Content -> Digest, N: Names, s: State, t: State) {
    forall job :: Guarded(N, job) && Sound(H, N, job, s) ==> Sound(H, N, job, t) && Keeps(N, job, s, t)
  }

  /** What a process can rely on across any steps of the others: the base
      invariant, its own stage, every guarded artifact, and while it holds the
      lock the whole entry. */
  ghost predicate Rely(H: Content -> Digest, N: Names, s: State, t: State, me: Pid) {
    && Base(H, N, t) && t.StageOf(me) == s.StageOf(me) && Preserves(H, N, s, t)
    && (s.lock == Some(me) ==> t.lock == Some(me) && SameEntry(s, t))
  }

  lemma RelyItself(H: Content -> Digest, N: Names, s: State, me: Pid)
    requires Base(H, N, s)
    ensures Rely(H, N, s, s, me)
  {
    hide Base, Guarded, Sound;
  }

  lemma StepPreserves(H: Content -> Digest, N: Names, s: State, t: State, p: Pid, a: Action)
    requires Base(H, N, t) && Preserves(H, N, s, t) && Enabled(H, N, t, p, a)
    ensures Preserves(H, N, s, Apply(N, t, p, a))
  {
    hide Base, Guarded, Sound, Keeps, Enabled, Apply;
    forall job | Guarded(N, job) && Sound(H, N, job, s)
      ensures Sound(H, N, job, Apply(N, t, p, a)) && Keeps(N, job, s, Apply(N, t, p, a))
    {
      StepSound(H, N, job, t, p, a);
      KeepsChain(N, job, s, t, Apply(N, t, p, a));
    }
  }

  /** A step of another process does not touch this one, nor the entry while this one holds the lock. */
  lemma OtherIsQuiet(H: Content -> Digest, N: Names, s: State, me: Pid, p: Pid, a: Action)
    requires LockHeld(s) && p != me && Enabled(H, N, s, p, a)
    ensures Apply(N, s, p, a).StageOf(me) == s.StageOf(me)
    ensures s.lock == Some(me) ==> Apply(N, s, p, a).lock == Some(me) && SameEntry(s, Apply(N, s, p, a))
  {
    assert s.lock == Some(me) <==> !s.StageOf(me).Idle?;
    assert s.lock == Some(p) <==> !s.StageOf(p).Idle?;
  }

  lemma RelyStep(H: Content -> Digest, N: Names, s: State, t: State, me: Pid, p: Pid, a: Action)
    requires Rely(H, N, s, t, me) && p != me && Enabled(H, N, t, p, a)
    ensures Rely(H, N, s, Apply(N, t, p, a), me)
  {
    hide Preserves, StageSound, Enabled, Apply, LockHeld;
    StepBase(H, N, t, p, a);
    StepPreserves(H, N, s, t, p, a);
    OtherIsQuiet(H, N, t, me, p, a);
  }

  /** The rely holds across any number of steps of the others. */
  lemma {:induction false} OthersRely(H: Content -> Digest, N: Names, s: State, t: State, me: Pid, n: nat)
    requires OthersReach(H, N, s, t, me, n) && Base(H, N, s)
    ensures Rely(H, N, s, t, me)
    decreases n
  {
    hide Base, Rely, Enabled, Apply;
    if n == 0 {
      RelyItself(H, N, s, me);
    } else {
      var mid, p, a :| OthersReach(H, N, s, mid, me, n - 1) && OtherStep(H, N, mid, t, me, p, a);
      OthersRely(H, N, s, mid, me, n - 1);
      RelyStep(H, N, s, mid, me, p, a);
    }
  }
}
