/** The analyzer fan-in of one version: uploads, reanalysis, per-file jobs with retries and the
    rollup job over one shared Redis counter, one step per command in any interleaving. */
module FanIn {
  import opened Sorting

  type FileId = string

  const MAX_ATTEMPTS := 5

  /** Where the queue's job for a file stands; `attempts` counts the attempts already made. */
  datatype Phase =
    | Waiting(attempts: nat)
    | Persisted(ok: bool, attempts: nat)
    | Decremented(ok: bool, attempts: nat, remaining: int)
    | Cleared(ok: bool, attempts: nat)
    | Finished

  /** Where the version's one rollup job stands: not known to the queue, waiting to read the
      results, or past that and still held. */
  datatype Rollup = Absent | Queued | Held

  /** Uploads and reanalysis add to the counter and enqueue one job per file; every attempt of a job
      persists its result, decrements the counter and, at zero or below, deletes the key and adds
      the rollup job. An absent key and the value 0 behave alike under INCR, DECR, SET and DEL. The
      queue drops an add whose job id it still holds, and it holds ids of finished jobs for a day.
      `owed` are the adds a producer has counted but not yet enqueued; a job id present in `jobs`
      is held by the queue. `unrolled` is history: the files with a result persisted since a rollup
      last read the results. */
  datatype State = State(counter: int, owed: multiset<FileId>, jobs: map<FileId, Phase>, unrolled: set<FileId>, rollup: Rollup)

  datatype Step =
    | Incr(f: FileId)                 // an upload completes: INCR
    | Reset(files: set<FileId>)       // reanalysis: SET to the number of files it read
    | Enqueue(f: FileId)              // add the job; dropped when the queue holds its id
    | Persist(f: FileId, ok: bool)    // an attempt ends: result or failure hint written
    | Decr(f: FileId)
    | Delete(f: FileId)               // DEL, taken when the decrement returned 0 or less
    | Request(f: FileId)              // add the rollup job, then return or rethrow
    | Return(f: FileId)               // the decrement stayed above 0: return or rethrow
    | Evict(f: FileId)                // the queue forgets a finished job id
    | Vanish(f: FileId)               // the file row is gone: the job ends without decrementing
    | RunRollup                       // the rollup reads all results persisted so far
    | EvictRollup                     // the queue forgets the rollup's job id

  const Init := State(0, multiset{}, map[], {}, Absent)

  predicate Retries(ok: bool, attempts: nat) {
    !ok && attempts < MAX_ATTEMPTS
  }

  function Settled(ok: bool, attempts: nat): Phase {
    if Retries(ok, attempts) then Waiting(attempts) else Finished
  }

  /** The job will decrement (again). */
  predicate Pending(p: Phase) {
    match p
    case Waiting(_) => true
    case Persisted(_, _) => true
    case Decremented(ok, attempts, _) => Retries(ok, attempts)
    case Cleared(ok, attempts) => Retries(ok, attempts)
    case Finished => false
  }

  function Outstanding(s: State): set<FileId> {
    PendingJobs(s.jobs) + Owing(s.owed)
  }

  function PendingJobs(jobs: map<FileId, Phase>): set<FileId> {
    set f | f in jobs && Pending(jobs[f])
  }

  function Owing(owed: multiset<FileId>): set<FileId> {
    set f | f in owed
  }

  predicate Enabled(s: State, step: Step) {
    match step
    case Incr(_) => true
    case Reset(files) => files != {}
    case Enqueue(f) => f in s.owed
    case Persist(f, _) => f in s.jobs && s.jobs[f].Waiting?
    case Decr(f) => f in s.jobs && s.jobs[f].Persisted?
    case Delete(f) => f in s.jobs && s.jobs[f].Decremented? && s.jobs[f].remaining <= 0
    case Request(f) => f in s.jobs && s.jobs[f].Cleared?
    case Return(f) => f in s.jobs && s.jobs[f].Decremented? && s.jobs[f].remaining > 0
    case Evict(f) => f in s.jobs && s.jobs[f].Finished?
    case Vanish(f) => f in s.jobs && s.jobs[f].Waiting?
    case RunRollup => s.rollup.Queued?
    case EvictRollup => s.rollup.Held?
  }

  function Next(s: State, step: Step): State
    requires Enabled(s, step)
  {
    match step
    case Incr(f) => s.(counter := s.counter + 1, owed := s.owed + multiset{f})
    case Reset(files) => s.(counter := |files|, owed := s.owed + multiset(files))
    case Enqueue(f) =>
      s.(owed := s.owed - multiset{f}, jobs := if f in s.jobs then s.jobs else s.jobs[f := Waiting(0)])
    case Persist(f, ok) =>
      s.(jobs := s.jobs[f := Persisted(ok, s.jobs[f].attempts + 1)], unrolled := s.unrolled + {f})
    case Decr(f) =>
      var p := s.jobs[f];
      s.(counter := s.counter - 1, jobs := s.jobs[f := Decremented(p.ok, p.attempts, s.counter - 1)])
    case Delete(f) =>
      s.(counter := 0, jobs := s.jobs[f := Cleared(s.jobs[f].ok, s.jobs[f].attempts)])
    case Request(f) =>
      s.(jobs := s.jobs[f := Settled(s.jobs[f].ok, s.jobs[f].attempts)],
         rollup := if s.rollup.Absent? then Queued else s.rollup)
    case Return(f) => s.(jobs := s.jobs[f := Settled(s.jobs[f].ok, s.jobs[f].attempts)])
    case Evict(f) => s.(jobs := s.jobs - {f})
    case Vanish(f) => s.(jobs := s.jobs[f := Finished])
    case RunRollup => s.(rollup := Held, unrolled := {})
    case EvictRollup => s.(rollup := Absent)
  }

  // ---------------------------------------------------------------- never sticks

  /** No counted unit of work is lost: an upload completes a file that is not already being
      analysed, an add is dropped only when the job it would repeat still has to decrement, and
      no outstanding file is deleted. */
  predicate Accounted(s: State, step: Step)
    requires Enabled(s, step)
  {
    match step
    case Incr(f) => f !in Outstanding(s)
    case Enqueue(f) => f !in s.jobs || Pending(s.jobs[f]) || s.owed[f] > 1
    case Vanish(f) => f in s.owed
    case _ => true
  }

  /** And no rollup request is dropped on a job that has already read the results. */
  predicate Clean(s: State, step: Step)
    requires Enabled(s, step)
  {
    Accounted(s, step) && (step.Request? ==> !s.rollup.Held?)
  }

  predicate Requesting(p: Phase) {
    p.Cleared? || (p.Decremented? && p.remaining <= 0)
  }

  function Requesters(s: State): set<FileId> {
    set f | f in s.jobs && Requesting(s.jobs[f])
  }

  ghost predicate Inv(s: State) {
    && s.counter <= |Outstanding(s)|
    && (Outstanding(s) == {} ==> s.unrolled == {} || Requesters(s) != {} || s.rollup.Queued?)
  }

  lemma JobMoves(jobs: map<FileId, Phase>, f: FileId, p: Phase)
    ensures PendingJobs(jobs[f := p]) == if Pending(p) then PendingJobs(jobs) + {f} else PendingJobs(jobs) - {f}
  {
  }

  lemma OwedMoves(owed: multiset<FileId>, f: FileId, files: set<FileId>)
    ensures Owing(owed + multiset{f}) == Owing(owed) + {f}
    ensures Owing(owed + multiset(files)) == Owing(owed) + files
    ensures Owing(owed - multiset{f}) == if owed[f] > 1 then Owing(owed) else Owing(owed) - {f}
  {
    assert forall g :: g != f ==> (owed - multiset{f})[g] == owed[g];
  }

  /** How a step moves the outstanding set. */
  function Moved(s: State, step: Step): set<FileId>
    requires Enabled(s, step)
  {
    match step
    case Incr(f) => Outstanding(s) + {f}
    case Reset(files) => Outstanding(s) + files
    case Enqueue(f) => if Accounted(s, step) then Outstanding(s) else Outstanding(s) - {f}
    case Decr(f) =>
      if f in s.owed || Retries(s.jobs[f].ok, s.jobs[f].attempts) then Outstanding(s) else Outstanding(s) - {f}
    case Vanish(f) => if f in s.owed then Outstanding(s) else Outstanding(s) - {f}
    case _ => Outstanding(s)
  }

  lemma WorkerMoves(s: State, f: FileId, p: Phase)
    requires f in s.jobs
    ensures PendingJobs(s.jobs[f := p]) + Owing(s.owed) ==
      if Pending(p) || f in s.owed then Outstanding(s) + {f} else Outstanding(s) - {f}
  {
    JobMoves(s.jobs, f, p);
  }

  lemma EnqueueMoves(s: State, f: FileId)
    requires f in s.owed
    ensures Outstanding(Next(s, Enqueue(f))) == Moved(s, Enqueue(f))
  {
    OwedMoves(s.owed, f, {});
    JobMoves(s.jobs, f, Waiting(0));
  }

  lemma OutstandingNext(s: State, step: Step)
    requires Enabled(s, step)
    ensures Outstanding(Next(s, step)) == Moved(s, step)
  {
    var t := Next(s, step);
    match step
    case Incr(f) => OwedMoves(s.owed, f, {});
    case Reset(files) => OwedMoves(s.owed, "", files);
    case Enqueue(f) => EnqueueMoves(s, f);
    case Evict(f) => assert PendingJobs(t.jobs) == PendingJobs(s.jobs);
    case Persist(f, _) => WorkerMoves(s, f, t.jobs[f]); assert Pending(s.jobs[f]);
    case Decr(f) => WorkerMoves(s, f, t.jobs[f]); assert Pending(s.jobs[f]);
    case Delete(f) => WorkerMoves(s, f, t.jobs[f]); assert Pending(s.jobs[f]) == Pending(t.jobs[f]);
    case Request(f) => WorkerMoves(s, f, t.jobs[f]); assert Pending(s.jobs[f]) == Pending(t.jobs[f]);
    case Return(f) => WorkerMoves(s, f, t.jobs[f]); assert Pending(s.jobs[f]) == Pending(t.jobs[f]);
    case Vanish(f) => WorkerMoves(s, f, t.jobs[f]); assert Pending(s.jobs[f]);
    case RunRollup =>
    case EvictRollup =>
  }

  /** How a step moves the set of jobs about to request a rollup. */
  lemma RequestersNext(s: State, step: Step)
    requires Enabled(s, step)
    ensures Requesters(Next(s, step)) ==
      match step
      case Decr(f) => if s.counter <= 1 then Requesters(s) + {f} else Requesters(s)
      case Request(f) => Requesters(s) - {f}
      case _ => Requesters(s)
  {
  }

  lemma InvPreserved(s: State, step: Step)
    requires Inv(s) && Enabled(s, step) && Clean(s, step)
    ensures Inv(Next(s, step))
  {
    OutstandingNext(s, step);
    RequestersNext(s, step);
    match step
    case Reset(files) => SubsetSize(files, Moved(s, step));
    case Decr(f) => assert f in Outstanding(s);
    case Delete(f) => assert f in Requesters(s);
    case Persist(f, _) => assert f in Outstanding(s);
    case _ =>
  }

  ghost predicate Run(s: State, steps: seq<Step>, t: State)
    decreases |steps|
  {
    if |steps| == 0 then s == t else Enabled(s, steps[0]) && Run(Next(s, steps[0]), steps[1..], t)
  }

  ghost predicate CleanRun(s: State, steps: seq<Step>, t: State)
    decreases |steps|
  {
    if |steps| == 0 then s == t
    else Enabled(s, steps[0]) && Clean(s, steps[0]) && CleanRun(Next(s, steps[0]), steps[1..], t)
  }

  lemma {:induction false} InvReached(s: State, steps: seq<Step>, t: State)
    requires Inv(s) && CleanRun(s, steps, t)
    ensures Inv(t)
    decreases |steps|
  {
    if |steps| > 0 {
      InvPreserved(s, steps[0]);
      InvReached(Next(s, steps[0]), steps[1..], t);
    }
  }

  /** Nothing is owed, no job is under way and no rollup waits. */
  predicate Quiet(s: State) {
    s.owed == multiset{} && !s.rollup.Queued? && forall f :: f in s.jobs ==> s.jobs[f].Finished?
  }

  /** In every interleaving the counter stays at or below the number of outstanding files, the
      decrement that retires the last of them is told to request a rollup, and once everything has
      come to rest every persisted result has been read by a later rollup. */
  lemma NeverSticks(steps: seq<Step>, t: State)
    requires CleanRun(Init, steps, t)
    ensures t.counter <= |Outstanding(t)|
    ensures forall f :: Enabled(t, Decr(f)) && Outstanding(Next(t, Decr(f))) == {} ==> Enabled(Next(t, Decr(f)), Delete(f))
    ensures Quiet(t) ==> t.unrolled == {} && t.counter <= 0
  {
    assert Outstanding(Init) == {};
    InvReached(Init, steps, t);
    forall f | Enabled(t, Decr(f)) && Outstanding(Next(t, Decr(f))) == {}
      ensures Enabled(Next(t, Decr(f)), Delete(f))
    {
      InvPreserved(t, Decr(f));
    }
    if Quiet(t) {
      QuietRequests(t);
    }
  }

  // ---------------------------------------------------------------- every upload is analysed and read

  /** The step counts a unit of work for the file. */
  predicate Counts(step: Step, f: FileId) {
    step == Incr(f) || (step.Reset? && f in step.files)
  }

  /** The file's work has been counted and no attempt has ended since. */
  predicate Due(s: State, f: FileId) {
    (f in s.owed && (f in s.jobs && Pending(s.jobs[f]) ==> s.jobs[f].Waiting?)) || (f in s.jobs && s.jobs[f].Waiting?)
  }

  lemma DueBegins(s: State, step: Step, f: FileId)
    requires Enabled(s, step) && Counts(step, f) && f !in Outstanding(s)
    ensures Due(Next(s, step), f)
  {
    assert f in Next(s, step).owed;
    assert f in s.jobs && Pending(s.jobs[f]) ==> f in PendingJobs(s.jobs);
  }

  lemma DueStays(s: State, step: Step, f: FileId)
    requires Enabled(s, step) && Accounted(s, step) && Due(s, f)
    requires !(step.Persist? && step.f == f)
    ensures Due(Next(s, step), f)
  {
  }

  /** Some attempt of the file ends in a clean run from where it is due to where all is at rest. */
  lemma {:induction false} DueEnds(s: State, steps: seq<Step>, t: State, f: FileId) returns (j: nat, u: State)
    requires Due(s, f) && CleanRun(s, steps, t) && Quiet(t)
    ensures j < |steps| && steps[j].Persist? && steps[j].f == f
    ensures CleanRun(u, steps[j + 1..], t) && f in u.unrolled
    decreases |steps|
  {
    assert |steps| > 0;
    u := Next(s, steps[0]);
    if steps[0].Persist? && steps[0].f == f {
      return 0, u;
    }
    DueStays(s, steps[0], f);
    var i;
    i, u := DueEnds(u, steps[1..], t, f);
    assert steps[1..][i + 1..] == steps[i + 2..];
    return i + 1, u;
  }

  /** A result not read yet that has been read in the end was read by a rollup. */
  lemma {:induction false} ReadByRollup(s: State, steps: seq<Step>, t: State, f: FileId) returns (k: nat)
    requires CleanRun(s, steps, t) && f in s.unrolled && f !in t.unrolled
    ensures k < |steps| && steps[k].RunRollup?
    decreases |steps|
  {
    if steps[0].RunRollup? {
      return 0;
    }
    k := ReadByRollup(Next(s, steps[0]), steps[1..], t, f);
    return k + 1;
  }

  lemma {:induction false} CleanSplit(s: State, before: seq<Step>, u: State, after: seq<Step>, t: State)
    requires CleanRun(s, before, u) && CleanRun(u, after, t)
    ensures CleanRun(s, before + after, t)
    decreases |before|
  {
    if |before| == 0 {
      assert before + after == after;
    } else {
      CleanSplit(Next(s, before[0]), before[1..], u, after, t);
      assert (before + after)[1..] == before[1..] + after;
    }
  }

  /** In a clean run that comes to rest, every file counted, by an upload or by a reanalysis and not
      being analysed already, has an attempt that ends afterwards and a rollup that runs after that. */
  lemma EveryFileAnalysed(before: seq<Step>, s: State, step: Step, f: FileId, after: seq<Step>, t: State) returns (j: nat, k: nat)
    requires CleanRun(Init, before, s) && Enabled(s, step) && Clean(s, step) && CleanRun(Next(s, step), after, t)
    requires Counts(step, f) && f !in Outstanding(s) && Quiet(t)
    ensures j < k < |after| && after[j].Persist? && after[j].f == f && after[k].RunRollup?
  {
    DueBegins(s, step, f);
    var u;
    j, u := DueEnds(Next(s, step), after, t, f);
    assert CleanRun(s, [step] + after, t) by {
      assert ([step] + after)[1..] == after;
    }
    CleanSplit(Init, before, s, [step] + after, t);
    NeverSticks(before + ([step] + after), t);
    k := ReadByRollup(u, after[j + 1..], t, f);
    k := k + j + 1;
  }

  // ---------------------------------------------------------------- five attempts

  /** The ending of the attempt in progress, and its number; a waiting job has none. */
  predicate Numbered(p: Phase) {
    match p
    case Waiting(n) => n < 5
    case Persisted(_, n) => 1 <= n <= 5
    case Decremented(_, n, _) => 1 <= n <= 5
    case Cleared(_, n) => 1 <= n <= 5
    case Finished => true
  }

  lemma {:induction false} AttemptsNumbered(s: State, steps: seq<Step>, t: State)
    requires Run(s, steps, t) && forall f :: f in s.jobs ==> Numbered(s.jobs[f])
    ensures forall f :: f in t.jobs ==> Numbered(t.jobs[f])
    decreases |steps|
  {
    if |steps| > 0 {
      AttemptsNumbered(Next(s, steps[0]), steps[1..], t);
    }
  }

  /** In any run an attempt over is followed by another if and only if it failed and was not the
      fifth. */
  lemma RetriedExactly(steps: seq<Step>, s: State, step: Step)
    requires Run(Init, steps, s) && Enabled(s, step) && (step.Return? || step.Request?)
    ensures var ok, n := s.jobs[step.f].ok, s.jobs[step.f].attempts;
      1 <= n <= 5 && Next(s, step).jobs[step.f] == if !ok && n < 5 then Waiting(n) else Finished
  {
    AttemptsNumbered(Init, steps, s);
  }

  // ---------------------------------------------------------------- the conditions are exact

  /** The count's condition is exact, step by step: where the counter equals the outstanding files,
      a step keeps it at or below them if and only if it is accounted for. */
  lemma CleanIsExact(s: State, step: Step)
    requires Enabled(s, step) && s.counter == |Outstanding(s)|
    ensures Next(s, step).counter <= |Outstanding(Next(s, step))| <==> Accounted(s, step)
  {
    OutstandingNext(s, step);
    match step
    case Reset(files) => SubsetSize(files, Outstanding(s) + files);
    case Decr(f) => assert f in Outstanding(s);
    case Enqueue(f) => assert f in Outstanding(s);
    case Vanish(f) => assert f in Outstanding(s);
    case _ =>
  }

  /** The steps that keep the counter equal to the outstanding files: what is counted is not
      outstanding yet, a reanalysis covers all that is, an attempt that decrements is the last one
      of its file, and the key is deleted at 0. */
  predicate Balanced(s: State, step: Step)
    requires Enabled(s, step)
  {
    && Accounted(s, step)
    && (step.Reset? ==> Outstanding(s) <= step.files)
    && (step.Decr? ==> step.f !in s.owed && !Retries(s.jobs[step.f].ok, s.jobs[step.f].attempts))
    && (step.Delete? ==> s.counter == 0)
  }

  /** And exactly those: the first other step of a run makes the counter differ. */
  lemma BalancedExactly(s: State, step: Step)
    requires Enabled(s, step) && s.counter == |Outstanding(s)|
    ensures Next(s, step).counter == |Outstanding(Next(s, step))| <==> Balanced(s, step)
  {
    match step
    case Incr(f) => BalancedIncr(s, f);
    case Reset(files) => BalancedReset(s, files);
    case Decr(f) => BalancedDecr(s, f);
    case Enqueue(f) => BalancedEnqueue(s, f);
    case Vanish(f) => BalancedVanish(s, f);
    case _ => OutstandingNext(s, step);
  }

  ghost predicate Keeps(s: State, step: Step)
    requires Enabled(s, step)
  {
    Next(s, step).counter == |Outstanding(Next(s, step))|
  }

  lemma BalancedIncr(s: State, f: FileId)
    requires s.counter == |Outstanding(s)|
    ensures Keeps(s, Incr(f)) <==> Balanced(s, Incr(f))
  {
    OutstandingNext(s, Incr(f));
    OneMore(Outstanding(s), f);
  }

  lemma BalancedReset(s: State, files: set<FileId>)
    requires Enabled(s, Reset(files)) && s.counter == |Outstanding(s)|
    ensures Keeps(s, Reset(files)) <==> Balanced(s, Reset(files))
  {
    OutstandingNext(s, Reset(files));
    Covers(Outstanding(s), files);
  }

  lemma BalancedDecr(s: State, f: FileId)
    requires Enabled(s, Decr(f)) && s.counter == |Outstanding(s)|
    ensures Keeps(s, Decr(f)) <==> Balanced(s, Decr(f))
  {
    OutstandingNext(s, Decr(f));
    StillPending(s, f);
    OneLess(Outstanding(s), f);
  }

  lemma BalancedEnqueue(s: State, f: FileId)
    requires Enabled(s, Enqueue(f)) && s.counter == |Outstanding(s)|
    ensures Keeps(s, Enqueue(f)) <==> Balanced(s, Enqueue(f))
  {
    OutstandingNext(s, Enqueue(f));
    StillOwed(s, f);
    OneLess(Outstanding(s), f);
  }

  lemma BalancedVanish(s: State, f: FileId)
    requires Enabled(s, Vanish(f)) && s.counter == |Outstanding(s)|
    ensures Keeps(s, Vanish(f)) <==> Balanced(s, Vanish(f))
  {
    OutstandingNext(s, Vanish(f));
    StillPending(s, f);
    OneLess(Outstanding(s), f);
  }

  lemma StillPending(s: State, f: FileId)
    requires f in s.jobs
    ensures Pending(s.jobs[f]) ==> f in Outstanding(s)
  {
    assert Pending(s.jobs[f]) ==> f in PendingJobs(s.jobs);
  }

  lemma StillOwed(s: State, f: FileId)
    requires f in s.owed
    ensures f in Outstanding(s)
  {
    assert f in Owing(s.owed);
  }

  lemma OneMore(a: set<FileId>, f: FileId)
    ensures |a + {f}| == |a| + 1 <==> f !in a
  {
    if f in a {
      assert a + {f} == a;
    }
  }

  lemma OneLess(a: set<FileId>, f: FileId)
    ensures f in a ==> |a - {f}| == |a| - 1
  {
  }

  lemma Covers(a: set<FileId>, files: set<FileId>)
    ensures |files| == |a + files| <==> a <= files
  {
    if |files| == |a + files| {
      SameSize(files, a + files);
    }
    if a <= files {
      assert a + files == files;
    }
  }

  /** With the counter exact, a decrement is told to request a rollup while a file is outstanding
      if and only if its own file is the only one and is still to be analysed again. */
  lemma EarlyExactly(s: State, f: FileId)
    requires Enabled(s, Decr(f)) && s.counter == |Outstanding(s)|
    ensures Enabled(Next(s, Decr(f)), Delete(f)) && Outstanding(Next(s, Decr(f))) != {} <==>
      Outstanding(s) == {f} && (f in s.owed || Retries(s.jobs[f].ok, s.jobs[f].attempts))
  {
    OutstandingNext(s, Decr(f));
    assert f in Outstanding(s);
    if |Outstanding(s)| <= 1 {
      SameSize({f}, Outstanding(s));
    }
  }

  ghost predicate NothingNew(steps: seq<Step>) {
    forall k :: 0 <= k < |steps| ==> !steps[k].Incr? && !steps[k].Reset?
  }

  /** With nothing outstanding and nobody about to request, only a waiting rollup reads results. */
  lemma {:induction false} AtRest(s: State, steps: seq<Step>, t: State)
    requires Outstanding(s) == {} && Requesters(s) == {} && NothingNew(steps) && Run(s, steps, t)
    requires !t.rollup.Queued?
    ensures t.unrolled == if s.rollup.Queued? then {} else s.unrolled
    decreases |steps|
  {
    if |steps| > 0 {
      RestKept(s, steps[0]);
      AtRest(Next(s, steps[0]), steps[1..], t);
    }
  }

  lemma RestKept(s: State, step: Step)
    requires Enabled(s, step) && Outstanding(s) == {} && Requesters(s) == {} && !step.Incr? && !step.Reset?
    ensures var t := Next(s, step);
      && Outstanding(t) == {} && Requesters(t) == {}
      && (if step.RunRollup? then s.rollup.Queued? && t.unrolled == {} && !t.rollup.Queued?
          else t.unrolled == s.unrolled && t.rollup.Queued? == s.rollup.Queued?)
  {
    RestSteps(s, step);
    OutstandingNext(s, step);
    RequestersNext(s, step);
  }

  lemma RestSteps(s: State, step: Step)
    requires Enabled(s, step) && Outstanding(s) == {} && Requesters(s) == {} && !step.Incr? && !step.Reset?
    ensures step.Return? || step.Evict? || step.RunRollup? || step.EvictRollup?
  {
    assert forall f :: f in s.owed ==> f in Owing(s.owed);
    assert forall f :: f in s.jobs && Pending(s.jobs[f]) ==> f in PendingJobs(s.jobs);
    assert forall f :: f in s.jobs && Requesting(s.jobs[f]) ==> f in Requesters(s);
  }

  /** When the last file's request is made and nothing is counted afterwards, its results are read
      by a rollup if and only if there were none left to read or the queue is not past the rollup
      job it holds: whatever happens later, a request dropped on a held job stays dropped. */
  lemma RequestHeardExactly(s: State, f: FileId, steps: seq<Step>, t: State)
    requires Enabled(s, Request(f)) && Outstanding(s) == {} && Requesters(s) == {f}
    requires Run(Next(s, Request(f)), steps, t) && NothingNew(steps) && Quiet(t)
    ensures t.unrolled == {} <==> s.unrolled == {} || !s.rollup.Held?
  {
    OutstandingNext(s, Request(f));
    RequestersNext(s, Request(f));
    AtRest(Next(s, Request(f)), steps, t);
  }

  // ---------------------------------------------------------------- exact

  /** Between a decrement that reached zero and its DEL. */
  function Zeroed(s: State): set<FileId> {
    set f | f in s.jobs && s.jobs[f].Decremented? && s.jobs[f].remaining <= 0
  }

  /** No attempt fails, nothing is counted between a zero decrement and its DEL, and reanalysis
      starts with nothing outstanding. */
  predicate Strict(s: State, step: Step)
    requires Enabled(s, step)
  {
    && Accounted(s, step)
    && (step.Persist? ==> step.ok)
    && (step.Incr? || step.Reset? ==> Zeroed(s) == {})
    && (step.Reset? ==> Outstanding(s) == {})
  }

  predicate Succeeded(p: Phase) {
    match p
    case Persisted(ok, _) => ok
    case Decremented(ok, _, _) => ok
    case Cleared(ok, _) => ok
    case _ => true
  }

  /** The counter is exactly `surplus` above the outstanding files. */
  ghost predicate ExactInv(s: State, surplus: nat) {
    && s.counter == |Outstanding(s)| + surplus
    && (Zeroed(s) != {} ==> Outstanding(s) == {} && surplus == 0)
    && (forall f :: f in s.jobs ==> Succeeded(s.jobs[f]))
    && (forall f :: f in s.owed ==> s.owed[f] == 1 && f !in PendingJobs(s.jobs))
  }

  lemma ZeroedNext(s: State, step: Step)
    requires Enabled(s, step)
    ensures Zeroed(Next(s, step)) ==
      match step
      case Decr(f) => if s.counter <= 1 then Zeroed(s) + {f} else Zeroed(s)
      case Delete(f) => Zeroed(s) - {f}
      case _ => Zeroed(s)
  {
  }

  lemma OwedFrame(s: State, step: Step, surplus: nat)
    requires ExactInv(s, surplus) && Enabled(s, step) && Strict(s, step) && (step.Reset? ==> surplus == 0)
    requires step.Incr? || step.Reset? || step.Enqueue?
    ensures forall f :: f in Next(s, step).owed ==> Next(s, step).owed[f] == 1 && f !in PendingJobs(Next(s, step).jobs)
  {
    var t := Next(s, step);
    match step
    case Incr(f) =>
      assert forall g :: g != f ==> t.owed[g] == s.owed[g];
      assert f !in Owing(s.owed);
    case Reset(files) =>
      assert Owing(s.owed) == {} && PendingJobs(s.jobs) == {};
      assert forall g :: g !in s.owed;
    case Enqueue(f) =>
      assert forall g :: g != f ==> t.owed[g] == s.owed[g];
      JobMoves(s.jobs, f, Waiting(0));
  }

  lemma ExactProducer(s: State, step: Step, surplus: nat)
    requires ExactInv(s, surplus) && Enabled(s, step) && Strict(s, step) && (step.Reset? ==> surplus == 0)
    requires step.Incr? || step.Reset? || step.Enqueue?
    ensures ExactInv(Next(s, step), surplus)
  {
    OwedFrame(s, step, surplus);
    ExactCount(s, step, surplus);
  }

  ghost predicate CountExact(s: State, surplus: nat) {
    s.counter == |Outstanding(s)| + surplus && (Zeroed(s) != {} ==> Outstanding(s) == {} && surplus == 0)
  }

  lemma ExactEnqueue(s: State, f: FileId, surplus: nat)
    requires ExactInv(s, surplus) && Enabled(s, Enqueue(f)) && Strict(s, Enqueue(f))
    ensures CountExact(Next(s, Enqueue(f)), surplus)
  {
    OutstandingNext(s, Enqueue(f));
    ZeroedNext(s, Enqueue(f));
    assert f in Outstanding(s);
  }

  lemma ExactIncr(s: State, f: FileId, surplus: nat)
    requires ExactInv(s, surplus) && Enabled(s, Incr(f)) && Strict(s, Incr(f))
    ensures CountExact(Next(s, Incr(f)), surplus)
  {
    OutstandingNext(s, Incr(f));
    ZeroedNext(s, Incr(f));
  }

  lemma ExactReset(s: State, files: set<FileId>)
    requires ExactInv(s, 0) && Enabled(s, Reset(files)) && Strict(s, Reset(files))
    ensures CountExact(Next(s, Reset(files)), 0)
  {
    OutstandingNext(s, Reset(files));
    ZeroedNext(s, Reset(files));
  }

  lemma ExactCount(s: State, step: Step, surplus: nat)
    requires ExactInv(s, surplus) && Enabled(s, step) && Strict(s, step) && (step.Reset? ==> surplus == 0)
    requires step.Incr? || step.Reset? || step.Enqueue?
    ensures CountExact(Next(s, step), surplus) && forall f :: f in Next(s, step).jobs ==> Succeeded(Next(s, step).jobs[f])
  {
    match step
    case Incr(f) => ExactIncr(s, f, surplus);
    case Reset(files) => ExactReset(s, files);
    case Enqueue(f) => ExactEnqueue(s, f, surplus);
  }

  lemma ExactDecr(s: State, f: FileId, surplus: nat)
    requires ExactInv(s, surplus) && Enabled(s, Decr(f))
    ensures ExactInv(Next(s, Decr(f)), surplus)
    ensures Next(s, Decr(f)).counter <= 0 <==> Outstanding(Next(s, Decr(f))) == {} && surplus == 0
    ensures s.counter <= 1 <==> Outstanding(Next(s, Decr(f))) == {} && surplus == 0
  {
    assert f in PendingJobs(s.jobs) && f !in s.owed;
    OutstandingNext(s, Decr(f));
    ZeroedNext(s, Decr(f));
    JobMoves(s.jobs, f, Next(s, Decr(f)).jobs[f]);
  }

  lemma ExactPreserved(s: State, step: Step, surplus: nat)
    requires ExactInv(s, surplus) && Enabled(s, step) && Strict(s, step) && (step.Reset? ==> surplus == 0)
    ensures ExactInv(Next(s, step), surplus)
  {
    if step.Incr? || step.Reset? || step.Enqueue? {
      ExactProducer(s, step, surplus);
    } else if step.Decr? {
      ExactDecr(s, step.f, surplus);
    } else if step.RunRollup? || step.EvictRollup? {
      assert Outstanding(Next(s, step)) == Outstanding(s) && Zeroed(Next(s, step)) == Zeroed(s);
    } else {
      ExactOther(s, step, surplus);
    }
  }

  lemma ExactOther(s: State, step: Step, surplus: nat)
    requires ExactInv(s, surplus) && Enabled(s, step) && Strict(s, step) && (step.Reset? ==> surplus == 0)
    requires step.Persist? || step.Delete? || step.Request? || step.Return? || step.Evict? || step.Vanish?
    ensures ExactInv(Next(s, step), surplus)
  {
    OutstandingNext(s, step);
    ZeroedNext(s, step);
    var f := step.f;
    assert Pending(s.jobs[f]) ==> f in PendingJobs(s.jobs);
    if step.Delete? {
      assert f in Zeroed(s);
    }
  }

  ghost predicate StrictRun(s: State, steps: seq<Step>, t: State)
    decreases |steps|
  {
    if |steps| == 0 then s == t
    else Enabled(s, steps[0]) && Strict(s, steps[0]) && StrictRun(Next(s, steps[0]), steps[1..], t)
  }

  /** How often a decrement retired the last outstanding file. */
  ghost function Drains(s: State, steps: seq<Step>, t: State): nat
    requires StrictRun(s, steps, t)
    decreases |steps|
  {
    if |steps| == 0 then 0
    else
      var s' := Next(s, steps[0]);
      (if steps[0].Decr? && Outstanding(s') == {} then 1 else 0) + Drains(s', steps[1..], t)
  }

  ghost function Rollups(steps: seq<Step>): nat {
    if |steps| == 0 then 0 else (if steps[0].Request? then 1 else 0) + Rollups(steps[1..])
  }

  lemma {:induction false} ExactReached(s: State, steps: seq<Step>, t: State)
    requires ExactInv(s, 0) && StrictRun(s, steps, t)
    ensures ExactInv(t, 0)
    ensures Drains(s, steps, t) + |Requesters(s)| == Rollups(steps) + |Requesters(t)|
    decreases |steps|
  {
    if |steps| > 0 {
      ExactPreserved(s, steps[0], 0);
      DrainRequests(s, steps[0]);
      ExactReached(Next(s, steps[0]), steps[1..], t);
    }
  }

  /** A step drains the version exactly when it sends a job to request the rollup. */
  lemma DrainRequests(s: State, step: Step)
    requires ExactInv(s, 0) && Enabled(s, step) && Strict(s, step)
    ensures var t := Next(s, step);
      (if step.Decr? && Outstanding(t) == {} then 1 else 0) + |Requesters(s)| == (if step.Request? then 1 else 0) + |Requesters(t)|
  {
    RequestersNext(s, step);
    match step
    case Decr(f) => ExactDecr(s, f, 0); assert f !in Requesters(s);
    case Request(f) => assert f in Requesters(s);
    case _ =>
  }

  /** The decrement of `f`, if due, goes on to request a rollup iff it retires the last file. */
  ghost predicate RequestsWhenLast(t: State, f: FileId) {
    Enabled(t, Decr(f)) ==>
      var t' := Next(t, Decr(f)); Enabled(t', Delete(f)) <==> Outstanding(t') == {}
  }

  lemma ExactInit()
    ensures ExactInv(Init, 0) && Requesters(Init) == {}
  {
    assert Outstanding(Init) == {} && Zeroed(Init) == {};
  }

  lemma QuietRequests(t: State)
    requires Quiet(t)
    ensures Requesters(t) == {} && Outstanding(t) == {}
  {
    assert forall f :: f in t.jobs ==> t.jobs[f].Finished?;
  }

  lemma ExactDecrement(t: State, f: FileId)
    requires ExactInv(t, 0)
    ensures RequestsWhenLast(t, f)
  {
    if Enabled(t, Decr(f)) {
      ExactDecr(t, f, 0);
      ToldByCounter(t, f);
    }
  }

  lemma ToldByCounter(t: State, f: FileId)
    requires Enabled(t, Decr(f)) && (Next(t, Decr(f)).counter <= 0 <==> Outstanding(Next(t, Decr(f))) == {})
    ensures RequestsWhenLast(t, f)
  {
    assert Next(t, Decr(f)).jobs[f].remaining == Next(t, Decr(f)).counter;
  }

  /** Without those disturbances the counter is the number of outstanding files, a decrement is
      told to request a rollup exactly when it retires the last of them (never early), and each
      such drain leads to exactly one request: made, or about to be made by one job. */
  lemma FanInExact(steps: seq<Step>, t: State)
    requires StrictRun(Init, steps, t)
    ensures t.counter == |Outstanding(t)|
    ensures forall f :: RequestsWhenLast(t, f)
    ensures Drains(Init, steps, t) == Rollups(steps) + |Requesters(t)|
    ensures Quiet(t) ==> Drains(Init, steps, t) == Rollups(steps)
  {
    ExactInit();
    ExactReached(Init, steps, t);
    forall f ensures RequestsWhenLast(t, f) {
      ExactDecrement(t, f);
    }
    if Quiet(t) {
      QuietRequests(t);
    }
  }

  /** A counter left too high stays too high: from rest, no run of undisturbed uploads requests a
      rollup any more, until a reanalysis sets the counter again. */
  lemma {:induction false} SurplusStays(s: State, steps: seq<Step>, t: State, surplus: nat)
    requires surplus > 0 && ExactInv(s, surplus) && Requesters(s) == {} && StrictRun(s, steps, t)
    requires forall k :: 0 <= k < |steps| ==> !steps[k].Reset?
    ensures t.counter == |Outstanding(t)| + surplus && Requesters(t) == {} && Rollups(steps) == 0
    decreases |steps|
  {
    if |steps| > 0 {
      ExactPreserved(s, steps[0], surplus);
      RequestersNext(s, steps[0]);
      if steps[0].Decr? {
        ExactDecr(s, steps[0].f, surplus);
      }
      assert forall f :: f in s.jobs && Requesting(s.jobs[f]) ==> f in Requesters(s);
      SurplusStays(Next(s, steps[0]), steps[1..], t, surplus);
    }
  }

  lemma StuckAtRest(s: State, steps: seq<Step>, t: State)
    requires Quiet(s) && s.counter > 0 && StrictRun(s, steps, t)
    requires forall k :: 0 <= k < |steps| ==> !steps[k].Reset?
    ensures t.counter > |Outstanding(t)| && Rollups(steps) == 0
  {
    QuietRequests(s);
    assert Zeroed(s) == {} && forall f :: f !in s.owed;
    SurplusStays(s, steps, t, s.counter);
  }

  // ---------------------------------------------------------------- what the conditions rule out

  /** A run with one fault: every step but `fault` is clean. */
  ghost predicate OneFault(before: seq<Step>, u: State, fault: Step, after: seq<Step>, t: State) {
    CleanRun(Init, before, u) && Enabled(u, fault) && !Clean(u, fault) && CleanRun(Next(u, fault), after, t)
  }

  lemma Then(s: State, steps: seq<Step>, t: State, step: Step, t': State) returns (steps': seq<Step>)
    requires CleanRun(s, steps, t) && Enabled(t, step) && Clean(t, step) && t' == Next(t, step)
    ensures CleanRun(s, steps', t') && steps' == steps + [step]
  {
    CleanSplit(s, steps, t, [step], t');
    return steps + [step];
  }

  /** A further upload with nothing outstanding, up to the request its decrement calls for. */
  lemma Upload(s: State, before: seq<Step>, jobs: map<FileId, Phase>, b: FileId, r: Rollup) returns (steps: seq<Step>)
    requires b !in jobs && (forall f :: f in jobs ==> jobs[f].Finished?)
    requires CleanRun(s, before, State(0, multiset{}, jobs, {}, r))
    ensures CleanRun(s, steps, State(0, multiset{}, jobs[b := Cleared(true, 1)], {b}, r))
    ensures steps == before + UploadSteps(b)
  {
    var none: multiset<FileId> := multiset{};
    steps := Then(s, before, State(0, none, jobs, {}, r), Incr(b), State(1, multiset{b}, jobs, {}, r));
    steps := Then(s, steps, State(1, multiset{b}, jobs, {}, r), Enqueue(b), State(1, none, jobs[b := Waiting(0)], {}, r));
    steps := Analysed(s, steps, jobs, b, r);
    assert steps == before + UploadSteps(b);
  }

  function UploadSteps(b: FileId): seq<Step> {
    [Incr(b), Enqueue(b), Persist(b, true), Decr(b), Delete(b)]
  }

  lemma Analysed(s: State, before: seq<Step>, jobs: map<FileId, Phase>, b: FileId, r: Rollup) returns (steps: seq<Step>)
    requires CleanRun(s, before, State(1, multiset{}, jobs[b := Waiting(0)], {}, r))
    ensures CleanRun(s, steps, State(0, multiset{}, jobs[b := Cleared(true, 1)], {b}, r))
    ensures steps == before + [Persist(b, true), Decr(b), Delete(b)]
  {
    var none: multiset<FileId> := multiset{};
    steps := Then(s, before, State(1, none, jobs[b := Waiting(0)], {}, r), Persist(b, true), State(1, none, jobs[b := Persisted(true, 1)], {b}, r));
    steps := Then(s, steps, State(1, none, jobs[b := Persisted(true, 1)], {b}, r), Decr(b), State(0, none, jobs[b := Decremented(true, 1, 0)], {b}, r));
    steps := Then(s, steps, State(0, none, jobs[b := Decremented(true, 1, 0)], {b}, r), Delete(b), State(0, none, jobs[b := Cleared(true, 1)], {b}, r));
  }

  /** One upload, analysed and rolled up; the queue still holds both job ids. */
  lemma OneUpload(a: FileId) returns (steps: seq<Step>)
    ensures CleanRun(Init, steps, State(0, multiset{}, map[a := Finished], {}, Held))
    ensures steps == UploadSteps(a) + [Request(a), RunRollup]
  {
    var none: multiset<FileId> := multiset{};
    steps := Upload(Init, [], map[], a, Absent);
    steps := Then(Init, steps, State(0, none, map[a := Cleared(true, 1)], {a}, Absent), Request(a), State(0, none, map[a := Finished], {a}, Queued));
    steps := Then(Init, steps, State(0, none, map[a := Finished], {a}, Queued), RunRollup, State(0, none, map[a := Finished], {}, Held));
  }

  /** Two uploads one after the other, each up to its request, with nothing else wrong: the second
      request is dropped, because the queue still holds the rollup job that served the first, and
      the second upload's result is never rolled up. */
  lemma SecondUploadSticks(a: FileId, b: FileId) returns (before: seq<Step>, u: State, t: State)
    requires a != b
    ensures before == UploadSteps(a) + [Request(a), RunRollup] + UploadSteps(b)
    ensures OneFault(before, u, Request(b), [], t) && u.rollup.Held? && t.rollup.Held?
    ensures Quiet(t) && t.counter == 0 && t.unrolled == {b}
  {
    var none: multiset<FileId> := multiset{};
    var jobs: map<FileId, Phase> := map[a := Finished];
    before := OneUpload(a);
    before := Upload(Init, before, jobs, b, Held);
    u := State(0, none, jobs[b := Cleared(true, 1)], {b}, Held);
    t := State(0, none, jobs[b := Finished], {b}, Held);
  }

  /** Reanalysis of a file whose finished job id the queue still holds, with nothing else wrong:
      the add that follows the SET is dropped, the counter comes to rest one too high, and a later
      upload is analysed but never rolled up. */
  lemma RetainedIdSticks(a: FileId, b: FileId) returns (before: seq<Step>, u: State, after: seq<Step>, t: State)
    requires a != b
    ensures |before| > 0 && before[|before| - 1] == Reset({a})
    ensures OneFault(before, u, Enqueue(a), after, t) && a in u.jobs && u.jobs[a].Finished?
    ensures Next(u, Enqueue(a)).jobs == u.jobs && Quiet(Next(u, Enqueue(a))) && Next(u, Enqueue(a)).counter == 1
    ensures Quiet(t) && t.counter == 1 && t.unrolled == {b}
  {
    var none: multiset<FileId> := multiset{};
    var jobs: map<FileId, Phase> := map[a := Finished];
    before := OneUpload(a);
    before := Then(Init, before, State(0, none, jobs, {}, Held), EvictRollup, State(0, none, jobs, {}, Absent));
    u := State(1, multiset{a}, jobs, {}, Absent);
    before := Then(Init, before, State(0, none, jobs, {}, Absent), Reset({a}), u);
    t := State(1, none, jobs[b := Finished], {b}, Absent);
    after := StuckUpload(jobs, b);
  }

  /** With the counter one too high, an upload is analysed without a rollup request. */
  lemma StuckUpload(jobs: map<FileId, Phase>, b: FileId) returns (steps: seq<Step>)
    requires b !in jobs && forall f :: f in jobs ==> jobs[f].Finished?
    ensures CleanRun(State(1, multiset{}, jobs, {}, Absent), steps, State(1, multiset{}, jobs[b := Finished], {b}, Absent))
  {
    var none: multiset<FileId> := multiset{};
    var s := State(1, none, jobs, {}, Absent);
    steps := Then(s, [], s, Incr(b), State(2, multiset{b}, jobs, {}, Absent));
    steps := Then(s, steps, State(2, multiset{b}, jobs, {}, Absent), Enqueue(b), State(2, none, jobs[b := Waiting(0)], {}, Absent));
    steps := StuckJob(s, steps, jobs, b);
  }

  lemma StuckJob(s: State, before: seq<Step>, jobs: map<FileId, Phase>, b: FileId) returns (steps: seq<Step>)
    requires CleanRun(s, before, State(2, multiset{}, jobs[b := Waiting(0)], {}, Absent))
    ensures CleanRun(s, steps, State(1, multiset{}, jobs[b := Finished], {b}, Absent))
  {
    var none: multiset<FileId> := multiset{};
    steps := Then(s, before, State(2, none, jobs[b := Waiting(0)], {}, Absent), Persist(b, true), State(2, none, jobs[b := Persisted(true, 1)], {b}, Absent));
    steps := Then(s, steps, State(2, none, jobs[b := Persisted(true, 1)], {b}, Absent), Decr(b), State(1, none, jobs[b := Decremented(true, 1, 1)], {b}, Absent));
    steps := Then(s, steps, State(1, none, jobs[b := Decremented(true, 1, 1)], {b}, Absent), Return(b), State(1, none, jobs[b := Finished], {b}, Absent));
  }

  /** Reanalysis counts a file whose upload is still in flight, with nothing else wrong: completing
      the upload counts it again while its job waits, so its one decrement does not reach zero. */
  lemma ReanalysisDuringUploadSticks(a: FileId) returns (u: State, after: seq<Step>, t: State)
    ensures OneFault([Reset({a}), Enqueue(a)], u, Incr(a), after, t) && Outstanding(u) == {a}
    ensures Next(u, Incr(a)).counter == 2 && Outstanding(Next(u, Incr(a))) == {a}
    ensures Quiet(t) && t.counter == 1 && t.unrolled == {a}
  {
    var none: multiset<FileId> := multiset{};
    var waiting: map<FileId, Phase> := map[a := Waiting(0)];
    u := State(1, none, waiting, {}, Absent);
    var before := Then(Init, [], Init, Reset({a}), State(1, multiset{a}, map[], {}, Absent));
    before := Then(Init, before, State(1, multiset{a}, map[], {}, Absent), Enqueue(a), u);
    var v := State(2, multiset{a}, waiting, {}, Absent);
    assert waiting == map[][a := Waiting(0)];
    assert none + multiset{a} == multiset{a};
    assert Next(u, Incr(a)) == v;
    after := Then(v, [], v, Enqueue(a), State(2, none, waiting, {}, Absent));
    after := StuckJob(v, after, map[], a);
    t := State(1, none, map[][a := Finished], {a}, Absent);
    assert PendingJobs(waiting) == {a};
    assert Owing(multiset{a}) == {a} && Owing(none) == {};
  }

  /** A file deleted while its job waits, with nothing else wrong: it takes its decrement with it,
      the counter comes to rest one too high, and a later upload is never rolled up. */
  lemma DeletedFileSticks(a: FileId, b: FileId) returns (u: State, after: seq<Step>, t: State)
    requires a != b
    ensures OneFault([Incr(a), Enqueue(a)], u, Vanish(a), after, t)
    ensures Quiet(Next(u, Vanish(a))) && Next(u, Vanish(a)).counter == 1
    ensures Quiet(t) && t.counter == 1 && t.unrolled == {b}
  {
    var none: multiset<FileId> := multiset{};
    u := State(1, none, map[a := Waiting(0)], {}, Absent);
    var before := Then(Init, [], Init, Incr(a), State(1, multiset{a}, map[], {}, Absent));
    before := Then(Init, before, State(1, multiset{a}, map[], {}, Absent), Enqueue(a), u);
    t := State(1, none, map[a := Finished][b := Finished], {b}, Absent);
    assert u.jobs[a := Finished] == map[a := Finished];
    after := StuckUpload(map[a := Finished], b);
  }

  // ---------------------------------------------------------------- an early rollup

  lemma {:induction false} StrictThen(s: State, steps: seq<Step>, t: State, step: Step)
    requires StrictRun(s, steps, t) && Enabled(t, step) && Strict(t, step)
    ensures StrictRun(s, steps + [step], Next(t, step))
    decreases |steps|
  {
    if |steps| == 0 {
      assert (steps + [step])[1..] == [];
    } else {
      StrictThen(Next(s, steps[0]), steps[1..], t, step);
      assert (steps + [step])[1..] == steps[1..] + [step];
    }
  }

  lemma ThenStrictly(s: State, steps: seq<Step>, t: State, step: Step, t': State) returns (steps': seq<Step>)
    requires StrictRun(s, steps, t) && Enabled(t, step) && Strict(t, step) && t' == Next(t, step)
    ensures StrictRun(s, steps', t') && steps' == steps + [step]
  {
    StrictThen(s, steps, t, step);
    return steps + [step];
  }

  /** Two files uploaded, one failed attempt and nothing else wrong: its decrement counts for the
      other file, so the rollup is about to be requested while that file has not been analysed. */
  lemma RetryRollsUpEarly(a: FileId, b: FileId) returns (u: State, after: seq<Step>, t: State)
    requires a != b
    ensures StrictRun(Init, [Incr(a), Enqueue(a), Incr(b), Enqueue(b)], u)
    ensures Enabled(u, Persist(a, false)) && !Strict(u, Persist(a, false))
    ensures after == [Decr(a), Return(a), Persist(a, true), Decr(a), Delete(a)]
    ensures StrictRun(Next(u, Persist(a, false)), after, t)
    ensures Enabled(t, Request(a)) && Outstanding(t) == {b} && t.unrolled == {a}
  {
    var none: multiset<FileId> := multiset{};
    u := TwoUploads(a, b);
    var jobs: map<FileId, Phase> := map[b := Waiting(0)];
    after := FailOnce(jobs, a);
    var v := State(2, none, jobs[a := Persisted(false, 1)], {a}, Absent);
    after, t := ThenSucceed(v, after, jobs, a);
    assert u.jobs[a := Persisted(false, 1)] == v.jobs;
    assert Next(u, Persist(a, false)) == v;
    assert PendingJobs(t.jobs) == {b} && Owing(none) == {};
  }

  /** An upload begins on a strict run with nothing owed. */
  lemma Begun(before: seq<Step>, s: State, f: FileId, t: State)
    requires StrictRun(Init, before, s) && s.owed == multiset{} && f !in s.jobs && Zeroed(s) == {}
    requires t == s.(counter := s.counter + 1, jobs := s.jobs[f := Waiting(0)])
    ensures StrictRun(Init, before + [Incr(f), Enqueue(f)], t)
  {
    var u := s.(counter := s.counter + 1, owed := multiset{f});
    assert multiset{} + multiset{f} == multiset{f} && f !in Outstanding(s);
    StrictThen(Init, before, s, Incr(f));
    StrictThen(Init, before + [Incr(f)], u, Enqueue(f));
    assert before + [Incr(f)] + [Enqueue(f)] == before + [Incr(f), Enqueue(f)];
  }

  lemma TwoUploads(a: FileId, b: FileId) returns (u: State)
    requires a != b
    ensures u == State(2, multiset{}, map[b := Waiting(0)][a := Waiting(0)], {}, Absent)
    ensures StrictRun(Init, [Incr(a), Enqueue(a), Incr(b), Enqueue(b)], u)
  {
    u := State(2, multiset{}, map[b := Waiting(0)][a := Waiting(0)], {}, Absent);
    var one := State(1, multiset{}, map[a := Waiting(0)], {}, Absent);
    Begun([], Init, a, one);
    assert [] + [Incr(a), Enqueue(a)] == [Incr(a), Enqueue(a)];
    assert map[a := Waiting(0)][b := Waiting(0)] == map[b := Waiting(0)][a := Waiting(0)];
    Begun([Incr(a), Enqueue(a)], one, b, u);
    assert [Incr(a), Enqueue(a)] + [Incr(b), Enqueue(b)] == [Incr(a), Enqueue(a), Incr(b), Enqueue(b)];
  }

  lemma FailOnce(jobs: map<FileId, Phase>, a: FileId) returns (steps: seq<Step>)
    ensures steps == [Decr(a), Return(a)]
    ensures StrictRun(State(2, multiset{}, jobs[a := Persisted(false, 1)], {a}, Absent), steps,
                      State(1, multiset{}, jobs[a := Waiting(1)], {a}, Absent))
  {
    var none: multiset<FileId> := multiset{};
    var v := State(2, none, jobs[a := Persisted(false, 1)], {a}, Absent);
    steps := ThenStrictly(v, [], v, Decr(a), State(1, none, jobs[a := Decremented(false, 1, 1)], {a}, Absent));
    steps := ThenStrictly(v, steps, State(1, none, jobs[a := Decremented(false, 1, 1)], {a}, Absent), Return(a), State(1, none, jobs[a := Waiting(1)], {a}, Absent));
  }

  lemma ThenSucceed(v: State, before: seq<Step>, jobs: map<FileId, Phase>, a: FileId) returns (steps: seq<Step>, t: State)
    requires StrictRun(v, before, State(1, multiset{}, jobs[a := Waiting(1)], {a}, Absent))
    ensures t == State(0, multiset{}, jobs[a := Cleared(true, 2)], {a}, Absent) && StrictRun(v, steps, t)
    ensures steps == before + [Persist(a, true), Decr(a), Delete(a)]
  {
    var none: multiset<FileId> := multiset{};
    steps := ThenStrictly(v, before, State(1, none, jobs[a := Waiting(1)], {a}, Absent), Persist(a, true), State(1, none, jobs[a := Persisted(true, 2)], {a}, Absent));
    steps := ThenStrictly(v, steps, State(1, none, jobs[a := Persisted(true, 2)], {a}, Absent), Decr(a), State(0, none, jobs[a := Decremented(true, 2, 0)], {a}, Absent));
    t := State(0, none, jobs[a := Cleared(true, 2)], {a}, Absent);
    steps := ThenStrictly(v, steps, State(0, none, jobs[a := Decremented(true, 2, 0)], {a}, Absent), Delete(a), t);
  }
}
