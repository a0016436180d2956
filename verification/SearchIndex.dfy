/** The search index: services write rows and queue mark jobs, a job adds its asset to a dirty set in
    Redis, and one batch worker at a time drains the set and rebuilds the marked assets' documents.
    One step per command. */
module SearchIndex {

  type Id = string
  datatype Locale = En | Indonesian

  /** An asset row with its relations; `base` stands for everything a document copies that does
      not depend on the locale. */
  datatype Row = Row(published: bool, translations: map<Locale, string>, categoryName: map<Locale, string>,
                     categorySlug: string, base: string)
  datatype Doc = Doc(shortDescription: string, categoryName: string, base: string)
  type Docs = map<Locale, Doc>

  /** The name in the locale, else in English, else the slug. */
  function CategoryName(row: Row, l: Locale): string {
    if l in row.categoryName then row.categoryName[l]
    else if En in row.categoryName then row.categoryName[En]
    else row.categorySlug
  }

  /** `buildDocsForAsset`: one document per translation of a published asset. */
  function BuildDocs(rows: map<Id, Row>, id: Id): Docs {
    if id in rows && rows[id].published then
      map l | l in rows[id].translations :: Doc(rows[id].translations[l], CategoryName(rows[id], l), rows[id].base)
    else map[]
  }

  /** What a document has to say, read off the row: only a published asset has any, one for each of
      its translations; the category is named in the locale, for want of that in English, and for
      want of both by its slug. */
  predicate Documented(rows: map<Id, Row>, id: Id, l: Locale, d: Doc) {
    && id in rows && rows[id].published && l in rows[id].translations
    && d.shortDescription == rows[id].translations[l] && d.base == rows[id].base
    && (l in rows[id].categoryName ==> d.categoryName == rows[id].categoryName[l])
    && (l !in rows[id].categoryName && En in rows[id].categoryName ==> d.categoryName == rows[id].categoryName[En])
    && (l !in rows[id].categoryName && En !in rows[id].categoryName ==> d.categoryName == rows[id].categorySlug)
  }

  lemma BuiltExactly(rows: map<Id, Row>, id: Id, l: Locale, d: Doc)
    ensures l in BuildDocs(rows, id) && BuildDocs(rows, id)[l] == d <==> Documented(rows, id, l, d)
  {
  }

  lemma NothingBuilt(rows: map<Id, Row>, id: Id)
    ensures BuildDocs(rows, id) == map[] <==> id !in rows || !rows[id].published || rows[id].translations == map[]
  {
    if id in rows && rows[id].published && rows[id].translations != map[] {
      var l :| l in rows[id].translations;
      assert l in BuildDocs(rows, id);
    }
  }

  type Reason = string

  /** A mark job; the queue knows it by both. */
  datatype Job = Job(id: Id, reason: Reason)

  /** `Read` is after SMEMBERS; `Building` after DEL; `Added` after the documents are upserted. */
  datatype Batch =
    | Idle
    | Read(ids: set<Id>)
    | Building(todo: set<Id>, docs: map<Id, Docs>)
    | Added(docs: map<Id, Docs>)

  /** `waiting` are the queued mark jobs and `held` the finished ones whose id the queue still holds.
      Two sets are history: `escaped`, the ids DEL took from the dirty set that SMEMBERS had not
      returned, and `unmarked`, those whose row was written; both until they are marked (again). */
  datatype State = State(rows: map<Id, Row>, index: map<Id, Docs>, waiting: set<Job>, held: set<Job>, dirty: set<Id>,
                         batch: Batch, escaped: set<Id>, unmarked: set<Id>)

  datatype Step =
    | Write(id: Id, row: Row)   // the row, or what its documents copy of other tables, is written
    | Queue(job: Job)           // a service adds a mark job, if it does at all
    | Mark(job: Job)            // SADD, and the job is finished
    | Expire(job: Job)          // the queue forgets a finished job
    | Smembers
    | Del
    | Build(id: Id)
    | AddDocuments
    | DeleteDocuments

  const Init := State(map[], map[], {}, {}, {}, Idle, {}, {})

  function Indexed(index: map<Id, Docs>, id: Id): Docs {
    if id in index then index[id] else map[]
  }

  /** Translations are only ever added. */
  predicate Enabled(s: State, step: Step) {
    match step
    case Write(id, row) => id in s.rows ==> s.rows[id].translations.Keys <= row.translations.Keys
    case Queue(_) => true
    case Mark(job) => job in s.waiting
    case Expire(job) => job in s.held
    case Smembers => s.batch.Idle? && s.dirty != {}
    case Del => s.batch.Read?
    case Build(id) => s.batch.Building? && id in s.batch.todo
    case AddDocuments => s.batch.Building? && s.batch.todo == {}
    case DeleteDocuments => s.batch.Added?
  }

  /** A job is refused while the queue holds one of its id; if that one is still waiting nothing is
      lost, its mark being yet to come. */
  predicate Accepted(s: State, job: Job) {
    job !in s.held
  }

  function Next(s: State, step: Step): State
    requires Enabled(s, step)
  {
    match step
    case Write(id, row) => s.(rows := s.rows[id := row], unmarked := s.unmarked + {id})
    case Queue(job) => if Accepted(s, job) then s.(waiting := s.waiting + {job}) else s
    case Mark(job) =>
      s.(waiting := s.waiting - {job}, held := s.held + {job}, dirty := s.dirty + {job.id},
         escaped := s.escaped - {job.id}, unmarked := s.unmarked - {job.id})
    case Expire(job) => s.(held := s.held - {job})
    case Smembers => s.(batch := Read(s.dirty))
    case Del => s.(dirty := {}, escaped := s.escaped + (s.dirty - s.batch.ids), batch := Building(s.batch.ids, map[]))
    case Build(id) => s.(batch := Building(s.batch.todo - {id}, s.batch.docs[id := BuildDocs(s.rows, id)]))
    case AddDocuments => s.(index := Upserted(s.index, s.batch.docs), batch := Added(s.batch.docs))
    case DeleteDocuments => s.(index := Cleaned(s.index, s.batch.docs), batch := Idle)
  }

  function Upserted(index: map<Id, Docs>, docs: map<Id, Docs>): map<Id, Docs> {
    map id | id in index.Keys + docs.Keys :: if id in docs then Indexed(index, id) + docs[id] else index[id]
  }

  /** Both locales of every asset that built to nothing are removed. */
  function Cleaned(index: map<Id, Docs>, docs: map<Id, Docs>): map<Id, Docs> {
    map id | id in index :: if id in docs && docs[id] == map[] then map[] else index[id]
  }

  // ---------------------------------------------------------------- agreement

  /** Exactly one document per translation if published, none otherwise. */
  predicate Mirrored(s: State, id: Id) {
    Indexed(s.index, id) == BuildDocs(s.rows, id)
  }

  ghost predicate MarkWaits(s: State, id: Id) {
    exists job :: job in s.waiting && job.id == id
  }

  /** The asset was written after its last mark, or that mark has escaped. */
  predicate Lost(s: State, id: Id) {
    id in s.escaped || id in s.unmarked
  }

  predicate Awaited(s: State, id: Id) {
    id in s.dirty || Lost(s, id)
  }

  predicate InBatch(b: Batch, id: Id) {
    match b
    case Idle => false
    case Read(ids) => id in ids
    case Building(todo, docs) => id in todo || id in docs
    case Added(docs) => id in docs
  }

  function Locales(s: State, id: Id): set<Locale> {
    if id in s.rows then s.rows[id].translations.Keys else {}
  }

  /** What the batch knows of an asset is what its row says, or the row has changed since. */
  predicate BatchCurrent(s: State, id: Id) {
    match s.batch
    case Idle => true
    case Read(ids) => id in ids ==> id in s.dirty
    case Building(_, docs) => id in docs ==> docs[id].Keys <= Locales(s, id) && (docs[id] == BuildDocs(s.rows, id) || Awaited(s, id))
    case Added(docs) =>
      id in docs ==>
        Awaited(s, id) || (if docs[id] == map[] then BuildDocs(s.rows, id) == map[] else Mirrored(s, id))
  }

  predicate Agrees(s: State, id: Id) {
    Mirrored(s, id) || Awaited(s, id) || InBatch(s.batch, id)
  }

  ghost predicate InvAt(s: State, id: Id) {
    Agrees(s, id) && BatchCurrent(s, id) && Indexed(s.index, id).Keys <= Locales(s, id)
  }

  ghost predicate Inv(s: State) {
    forall id :: InvAt(s, id)
  }

  lemma WriteKeeps(s: State, step: Step, id: Id)
    requires Enabled(s, step) && InvAt(s, id) && step.Write?
    ensures InvAt(Next(s, step), id)
  {
    assert id != step.id ==> BuildDocs(Next(s, step).rows, id) == BuildDocs(s.rows, id);
  }

  lemma InvPreservedAt(s: State, step: Step, id: Id)
    requires Enabled(s, step) && InvAt(s, id)
    ensures InvAt(Next(s, step), id)
  {
    if step.Write? {
      WriteKeeps(s, step, id);
    }
  }

  ghost predicate Run(s: State, steps: seq<Step>, t: State)
    decreases |steps|
  {
    if |steps| == 0 then s == t else Enabled(s, steps[0]) && Run(Next(s, steps[0]), steps[1..], t)
  }

  lemma {:induction false} InvReached(s: State, steps: seq<Step>, t: State)
    requires Inv(s) && Run(s, steps, t)
    ensures Inv(t)
    decreases |steps|
  {
    if |steps| > 0 {
      forall id ensures InvAt(Next(s, steps[0]), id) {
        InvPreservedAt(s, steps[0], id);
      }
      InvReached(Next(s, steps[0]), steps[1..], t);
    }
  }

  /** Nothing of the asset is on its way. */
  ghost predicate Settled(s: State, id: Id) {
    !MarkWaits(s, id) && id !in s.dirty && !InBatch(s.batch, id)
  }

  /** In every interleaving, SMEMBERS and DEL being separate commands and a write and the job that
      follows it too, if one does, each asset is mirrored exactly, or dirty or in the running batch,
      or was written after its last mark, or that mark has escaped. */
  lemma IndexAgreement(steps: seq<Step>, t: State)
    requires Run(Init, steps, t)
    ensures forall id :: Agrees(t, id)
    ensures forall id :: Settled(t, id) && !Lost(t, id) ==> Mirrored(t, id)
  {
    assert Inv(Init);
    InvReached(Init, steps, t);
    forall id ensures Agrees(t, id) && (Settled(t, id) && !Lost(t, id) ==> Mirrored(t, id)) {
      assert InvAt(t, id);
    }
  }

  /** So an asset at rest that was not written after its last mark, nor had that mark escape, has just
      the documents its row calls for. */
  lemma IndexShowsExactly(steps: seq<Step>, t: State, id: Id, l: Locale, d: Doc)
    requires Run(Init, steps, t) && Settled(t, id) && id !in t.unmarked && id !in t.escaped
    ensures id in t.index && l in t.index[id] && t.index[id][l] == d <==> Documented(t.rows, id, l, d)
  {
    IndexAgreement(steps, t);
    BuiltExactly(t.rows, id, l, d);
  }

  /** The drain as one step: nothing happens between SMEMBERS and DEL. */
  ghost predicate AtomicRun(s: State, steps: seq<Step>, t: State)
    decreases |steps|
  {
    if |steps| == 0 then s == t
    else Enabled(s, steps[0]) && (s.batch.Read? ==> steps[0].Del?) && AtomicRun(Next(s, steps[0]), steps[1..], t)
  }

  lemma {:induction false} AtomicKeeps(s: State, steps: seq<Step>, t: State)
    requires AtomicRun(s, steps, t) && s.escaped == {} && (s.batch.Read? ==> s.batch.ids == s.dirty)
    ensures Run(s, steps, t) && t.escaped == {}
    decreases |steps|
  {
    if |steps| > 0 {
      AtomicKeeps(Next(s, steps[0]), steps[1..], t);
    }
  }

  /** With an atomic drain no mark escapes: what is stale at rest was written after its last mark. */
  lemma AtomicAgreement(steps: seq<Step>, t: State)
    requires AtomicRun(Init, steps, t)
    ensures forall id :: Mirrored(t, id) || id in t.dirty || InBatch(t.batch, id) || id in t.unmarked
    ensures forall id :: Settled(t, id) && id !in t.unmarked ==> Mirrored(t, id)
  {
    AtomicKeeps(Init, steps, t);
    IndexAgreement(steps, t);
    forall id ensures Mirrored(t, id) || id in t.dirty || InBatch(t.batch, id) || id in t.unmarked {
      assert Agrees(t, id);
    }
  }

  // ---------------------------------------------------------------- what escapes

  /** The states a run goes through. */
  ghost predicate Trace(states: seq<State>, steps: seq<Step>) {
    |states| == |steps| + 1
    && forall k :: 0 <= k < |steps| ==> Enabled(states[k], steps[k]) && states[k + 1] == Next(states[k], steps[k])
  }

  predicate Marks(step: Step, id: Id) {
    step.Mark? && step.job.id == id
  }

  /** Step `i` is the first mark of the asset, between SMEMBERS and DEL. */
  predicate MarkedInGap(states: seq<State>, steps: seq<Step>, i: nat, id: Id)
    requires i < |steps| && i < |states|
  {
    states[i].batch.Read? && id !in states[i].dirty && Marks(steps[i], id)
  }

  predicate NoDel(steps: seq<Step>, i: int, n: int) {
    forall m :: i < m < n && 0 <= m < |steps| ==> !steps[m].Del?
  }

  predicate NoMark(steps: seq<Step>, j: int, n: int, id: Id) {
    forall m :: j < m < n && 0 <= m < |steps| ==> !Marks(steps[m], id)
  }

  /** Among the first `n` steps the asset was marked in a gap that is still open. */
  ghost predicate OpenGap(states: seq<State>, steps: seq<Step>, n: nat, id: Id)
    requires n <= |steps| < |states|
  {
    exists i :: 0 <= i < n && MarkedInGap(states, steps, i, id) && NoDel(steps, i, n)
  }

  /** Among the first `n` steps the asset was marked in a gap, the next DEL is the `j`-th step, and
      no mark of the asset follows it. */
  ghost predicate GapClosed(states: seq<State>, steps: seq<Step>, n: nat, id: Id, i: nat, j: nat)
    requires n <= |steps| < |states|
  {
    && i < j < n && MarkedInGap(states, steps, i, id)
    && steps[j].Del? && NoDel(steps, i, j) && NoMark(steps, j, n, id)
  }

  ghost predicate Escapes(states: seq<State>, steps: seq<Step>, n: nat, id: Id)
    requires n <= |steps| < |states|
  {
    exists i: nat, j: nat :: GapClosed(states, steps, n, id, i, j)
  }

  /** What the state after `n` steps says of the gap. */
  ghost predicate InGap(s: State, id: Id) {
    s.batch.Read? && id in s.dirty && id !in s.batch.ids
  }

  lemma {:induction false} ReadIsDirty(states: seq<State>, steps: seq<Step>, n: nat)
    requires Trace(states, steps) && states[0] == Init && n <= |steps|
    ensures states[n].batch.Read? ==> states[n].batch.ids <= states[n].dirty
  {
    if n > 0 {
      ReadIsDirty(states, steps, n - 1);
      assert states[n] == Next(states[n - 1], steps[n - 1]);
    }
  }

  lemma GapStep(s: State, step: Step, t: State, id: Id)
    requires Enabled(s, step) && t == Next(s, step) && (s.batch.Read? ==> s.batch.ids <= s.dirty)
    ensures InGap(t, id) <==> (s.batch.Read? && id !in s.dirty && Marks(step, id)) || (InGap(s, id) && !step.Del?)
    ensures id in t.escaped <==> (step.Del? && InGap(s, id)) || (id in s.escaped && !Marks(step, id))
  {
  }

  lemma OpenGapStep(states: seq<State>, steps: seq<Step>, n: nat, id: Id)
    requires n < |steps| < |states|
    ensures OpenGap(states, steps, n + 1, id) <==>
      MarkedInGap(states, steps, n, id) || (OpenGap(states, steps, n, id) && !steps[n].Del?)
  {
    if i :| 0 <= i < n && MarkedInGap(states, steps, i, id) && NoDel(steps, i, n) && !steps[n].Del? {
      assert NoDel(steps, i, n + 1);
    }
    if i :| 0 <= i < n && MarkedInGap(states, steps, i, id) && NoDel(steps, i, n + 1) {
      assert NoDel(steps, i, n);
    }
    if MarkedInGap(states, steps, n, id) {
      assert NoDel(steps, n, n + 1);
    }
  }

  lemma EscapesStep(states: seq<State>, steps: seq<Step>, n: nat, id: Id)
    requires n < |steps| < |states|
    ensures Escapes(states, steps, n + 1, id) <==>
      (steps[n].Del? && OpenGap(states, steps, n, id)) || (Escapes(states, steps, n, id) && !Marks(steps[n], id))
  {
    if Escapes(states, steps, n + 1, id) {
      var i: nat, j: nat :| GapClosed(states, steps, n + 1, id, i, j);
      assert j < n ==> GapClosed(states, steps, n, id, i, j) && !Marks(steps[n], id);
    }
    if steps[n].Del? && OpenGap(states, steps, n, id) {
      var i :| 0 <= i < n && MarkedInGap(states, steps, i, id) && NoDel(steps, i, n);
      assert GapClosed(states, steps, n + 1, id, i, n);
    }
    if Escapes(states, steps, n, id) && !Marks(steps[n], id) {
      var i: nat, j: nat :| GapClosed(states, steps, n, id, i, j);
      assert GapClosed(states, steps, n + 1, id, i, j);
    }
  }

  /** A mark escapes exactly if it is the asset's first between SMEMBERS and the next DEL, and the
      asset has not been marked since. */
  lemma {:induction false} EscapedExactly(states: seq<State>, steps: seq<Step>, n: nat, id: Id)
    requires Trace(states, steps) && states[0] == Init && n <= |steps|
    ensures id in states[n].escaped <==> Escapes(states, steps, n, id)
    ensures InGap(states[n], id) <==> OpenGap(states, steps, n, id)
  {
    if n > 0 {
      EscapedExactly(states, steps, n - 1, id);
      ReadIsDirty(states, steps, n - 1);
      GapStep(states[n - 1], steps[n - 1], states[n], id);
      OpenGapStep(states, steps, n - 1, id);
      EscapesStep(states, steps, n - 1, id);
    }
  }

  lemma {:induction false} RunTrace(s: State, steps: seq<Step>, t: State) returns (states: seq<State>)
    requires Run(s, steps, t)
    ensures Trace(states, steps) && states[0] == s && states[|steps|] == t
    decreases |steps|
  {
    if |steps| == 0 {
      return [s];
    }
    var rest := RunTrace(Next(s, steps[0]), steps[1..], t);
    states := [s] + rest;
    forall k | 0 <= k < |steps| ensures Enabled(states[k], steps[k]) && states[k + 1] == Next(states[k], steps[k]) {
      if k > 0 {
        assert steps[k] == steps[1..][k - 1];
      }
    }
  }

  /** So at the end of any run. */
  lemma LostInGap(steps: seq<Step>, t: State, id: Id) returns (states: seq<State>)
    requires Run(Init, steps, t)
    ensures Trace(states, steps) && states[0] == Init && states[|steps|] == t
    ensures id in t.escaped <==> Escapes(states, steps, |steps|, id)
  {
    states := RunTrace(Init, steps, t);
    EscapedExactly(states, steps, |steps|, id);
  }

  // ---------------------------------------------------------------- what is never marked

  /** Step `i` writes the asset, and no mark of it follows among the first `n` steps. */
  predicate WrittenLast(steps: seq<Step>, i: nat, n: nat, id: Id) {
    i < n <= |steps| && steps[i].Write? && steps[i].id == id && NoMark(steps, i, n, id)
  }

  lemma {:induction false} UnmarkedExactly(states: seq<State>, steps: seq<Step>, n: nat, id: Id)
    requires Trace(states, steps) && states[0] == Init && n <= |steps|
    ensures id in states[n].unmarked <==> exists i: nat :: WrittenLast(steps, i, n, id)
  {
    if n > 0 {
      UnmarkedExactly(states, steps, n - 1, id);
      assert states[n] == Next(states[n - 1], steps[n - 1]);
      if i: nat :| WrittenLast(steps, i, n, id) {
        assert i == n - 1 || (WrittenLast(steps, i, n - 1, id) && !Marks(steps[n - 1], id));
      }
      if id in states[n].unmarked {
        if id in states[n - 1].unmarked {
          var i: nat :| WrittenLast(steps, i, n - 1, id);
          assert WrittenLast(steps, i, n, id);
        } else {
          assert WrittenLast(steps, n - 1, n, id);
        }
      }
    }
  }

  predicate Queues(step: Step, id: Id) {
    step.Queue? && step.job.id == id
  }

  /** From step `i` up to step `n` no job of the asset was waiting or was accepted. */
  ghost predicate NothingQueued(states: seq<State>, steps: seq<Step>, i: nat, n: nat, id: Id)
    requires i <= n <= |steps| < |states|
  {
    !MarkWaits(states[i], id) && forall k :: i <= k < n && Queues(steps[k], id) ==> !Accepted(states[k], steps[k].job)
  }

  lemma {:induction false} StillWaits(states: seq<State>, steps: seq<Step>, i: nat, n: nat, job: Job)
    requires Trace(states, steps) && i <= n <= |steps| && job in states[i].waiting && NoMark(steps, i - 1, n, job.id)
    ensures job in states[n].waiting
    decreases n
  {
    if i < n {
      StillWaits(states, steps, i, n - 1, job);
      assert states[n] == Next(states[n - 1], steps[n - 1]) && !Marks(steps[n - 1], job.id);
    }
  }

  lemma {:induction false} NoneWaits(states: seq<State>, steps: seq<Step>, i: nat, n: nat, id: Id)
    requires Trace(states, steps) && i <= n <= |steps| && NothingQueued(states, steps, i, n, id)
    ensures !MarkWaits(states[n], id) && NoMark(steps, i - 1, n, id)
    decreases n
  {
    if i < n {
      NoneWaits(states, steps, i, n - 1, id);
      assert Enabled(states[n - 1], steps[n - 1]) && states[n] == Next(states[n - 1], steps[n - 1]);
    }
  }

  /** At rest, an asset was written after its last mark exactly if at some write of it none of its
      jobs was waiting and none has been accepted since: because none was added, or because the
      queue held the id of each. */
  lemma UnmarkedAtRestExactly(states: seq<State>, steps: seq<Step>, id: Id)
    requires Trace(states, steps) && states[0] == Init && Settled(states[|steps|], id)
    ensures id in states[|steps|].unmarked <==>
      exists i :: 0 <= i < |steps| && steps[i].Write? && steps[i].id == id && NothingQueued(states, steps, i, |steps|, id)
  {
    var n := |steps|;
    UnmarkedExactly(states, steps, n, id);
    if i: nat :| WrittenLast(steps, i, n, id) {
      NotQueuedSince(states, steps, i, id);
    }
    if i :| 0 <= i < n && steps[i].Write? && steps[i].id == id && NothingQueued(states, steps, i, n, id) {
      NoneWaits(states, steps, i, n, id);
      assert WrittenLast(steps, i, n, id);
    }
  }

  lemma NotQueuedSince(states: seq<State>, steps: seq<Step>, i: nat, id: Id)
    requires Trace(states, steps) && Settled(states[|steps|], id) && WrittenLast(steps, i, |steps|, id)
    ensures NothingQueued(states, steps, i, |steps|, id)
  {
    var n := |steps|;
    assert !Marks(steps[i], id);
    if job :| job in states[i].waiting && job.id == id {
      StillWaits(states, steps, i, n, job);
    }
    forall k | i <= k < n && Queues(steps[k], id) ensures !Accepted(states[k], steps[k].job) {
      assert states[k + 1] == Next(states[k], steps[k]);
      if Accepted(states[k], steps[k].job) {
        StillWaits(states, steps, k + 1, n, steps[k].job);
      }
    }
  }

  // ---------------------------------------------------------------- when a write shows

  ghost predicate NoWrite(steps: seq<Step>, id: Id) {
    forall k :: 0 <= k < |steps| ==> !(steps[k].Write? && steps[k].id == id)
  }

  /** The step marks the asset for a batch to come or one that has read it already: not in the gap of
      one that has not. */
  predicate MarkCounts(s: State, step: Step, id: Id) {
    Marks(step, id) && (s.batch.Read? ==> id in s.batch.ids)
  }

  ghost predicate SomeMarkCounts(s: State, steps: seq<Step>, t: State, id: Id)
    requires Run(s, steps, t)
    decreases |steps|
  {
    |steps| > 0 && (MarkCounts(s, steps[0], id) || SomeMarkCounts(Next(s, steps[0]), steps[1..], t, id))
  }

  /** The index still shows the asset as `docs`; no batch has it, and a mark of it has come in the
      gap of one at most. */
  predicate Untouched(s: State, id: Id, docs: Docs) {
    Indexed(s.index, id) == docs && !InBatch(s.batch, id) && (id in s.dirty ==> s.batch.Read?)
  }

  lemma UntouchedStep(s: State, step: Step, id: Id, docs: Docs)
    requires Untouched(s, id, docs) && Enabled(s, step) && !(step.Write? && step.id == id) && !MarkCounts(s, step, id)
    ensures Untouched(Next(s, step), id, docs)
    ensures BuildDocs(Next(s, step).rows, id) == BuildDocs(s.rows, id)
  {
  }

  lemma {:induction false} UntouchedRun(s: State, steps: seq<Step>, t: State, id: Id, docs: Docs)
    requires Untouched(s, id, docs) && Run(s, steps, t) && NoWrite(steps, id) && !SomeMarkCounts(s, steps, t, id)
    ensures Untouched(t, id, docs) && BuildDocs(t.rows, id) == BuildDocs(s.rows, id)
    decreases |steps|
  {
    if |steps| > 0 {
      UntouchedStep(s, steps[0], id, docs);
      UntouchedRun(Next(s, steps[0]), steps[1..], t, id, docs);
    }
  }

  /** The asset is dirty outside any gap, or a batch will yet write or delete its present documents,
      or the index has them and no batch has it. */
  predicate OnItsWay(s: State, id: Id) {
    var now := BuildDocs(s.rows, id);
    && Indexed(s.index, id).Keys <= Locales(s, id)
    && (s.batch.Read? ==> s.batch.ids <= s.dirty)
    && (|| (id in s.dirty && (s.batch.Read? ==> id in s.batch.ids))
        || (s.batch.Building? && (id in s.batch.todo || (id in s.batch.docs && s.batch.docs[id] == now)))
        || (s.batch.Added? && id in s.batch.docs && s.batch.docs[id] == now && (now == map[] || Mirrored(s, id)))
        || (Mirrored(s, id) && !InBatch(s.batch, id)))
    && (s.batch.Building? && id in s.batch.docs ==> s.batch.docs[id].Keys <= Locales(s, id))
  }

  lemma OnItsWayStep(s: State, step: Step, id: Id)
    requires OnItsWay(s, id) && Enabled(s, step) && !(step.Write? && step.id == id)
    ensures OnItsWay(Next(s, step), id)
  {
    assert BuildDocs(Next(s, step).rows, id) == BuildDocs(s.rows, id);
  }

  lemma {:induction false} OnItsWayRun(s: State, steps: seq<Step>, t: State, id: Id)
    requires OnItsWay(s, id) && Run(s, steps, t) && NoWrite(steps, id)
    ensures OnItsWay(t, id)
    decreases |steps|
  {
    if |steps| > 0 {
      OnItsWayStep(s, steps[0], id);
      OnItsWayRun(Next(s, steps[0]), steps[1..], t, id);
    }
  }

  lemma {:induction false} CountedRun(s: State, steps: seq<Step>, t: State, id: Id)
    requires Inv(s) && Run(s, steps, t) && NoWrite(steps, id) && SomeMarkCounts(s, steps, t, id)
    ensures OnItsWay(t, id)
    decreases |steps|
  {
    var u := Next(s, steps[0]);
    InvReached(s, steps[..1], u);
    if MarkCounts(s, steps[0], id) {
      forall x | u.batch.Read? && x in u.batch.ids ensures x in u.dirty {
        assert InvAt(u, x);
      }
      assert InvAt(u, id) && OnItsWay(u, id);
      OnItsWayRun(u, steps[1..], t, id);
    } else {
      CountedRun(u, steps[1..], t, id);
    }
  }

  /** An asset at rest is written, and not again: when it has come to rest again, the index shows the
      write exactly if some mark of the asset since did not fall into the gap of a batch that had not
      read it, or if the write did not show in the documents. */
  lemma WriteShowsExactly(before: seq<Step>, s: State, write: Step, steps: seq<Step>, t: State)
    requires write.Write? && Run(Init, before, s) && Settled(s, write.id) && !Lost(s, write.id)
    requires Enabled(s, write) && Run(Next(s, write), steps, t) && NoWrite(steps, write.id) && Settled(t, write.id)
    ensures Mirrored(t, write.id) <==>
      SomeMarkCounts(Next(s, write), steps, t, write.id)
      || BuildDocs(s.rows, write.id) == BuildDocs(s.rows[write.id := write.row], write.id)
  {
    var id, u := write.id, Next(s, write);
    IndexAgreement(before, s);
    assert Inv(Init);
    InvReached(Init, before, s);
    if SomeMarkCounts(u, steps, t, id) {
      InvReached(s, [write], u);
      CountedRun(u, steps, t, id);
    } else {
      UntouchedRun(u, steps, t, id, Indexed(s.index, id));
    }
  }

  /** Every job of the asset that is added is refused. */
  ghost predicate AllRefused(s: State, steps: seq<Step>, t: State, id: Id)
    requires Run(s, steps, t)
    decreases |steps|
  {
    |steps| == 0 ||
    ((Queues(steps[0], id) ==> !Accepted(s, steps[0].job)) && AllRefused(Next(s, steps[0]), steps[1..], t, id))
  }

  lemma {:induction false} RefusedNotMarked(s: State, steps: seq<Step>, t: State, id: Id)
    requires Run(s, steps, t) && !MarkWaits(s, id) && AllRefused(s, steps, t, id)
    ensures !SomeMarkCounts(s, steps, t, id)
    decreases |steps|
  {
    if |steps| > 0 {
      RefusedNotMarked(Next(s, steps[0]), steps[1..], t, id);
    }
  }

  /** So a write shows, if at all, through a job that is accepted: with none added, or each refused
      on an id the queue holds, the index is right exactly if the documents are the same. */
  lemma RefusedShowsExactly(before: seq<Step>, s: State, write: Step, steps: seq<Step>, t: State)
    requires write.Write? && Run(Init, before, s) && Settled(s, write.id) && !Lost(s, write.id)
    requires Enabled(s, write) && Run(Next(s, write), steps, t) && NoWrite(steps, write.id) && Settled(t, write.id)
    requires AllRefused(Next(s, write), steps, t, write.id)
    ensures Mirrored(t, write.id) <==> BuildDocs(s.rows, write.id) == BuildDocs(s.rows[write.id := write.row], write.id)
  {
    RefusedNotMarked(Next(s, write), steps, t, write.id);
    WriteShowsExactly(before, s, write, steps, t);
  }

  // ---------------------------------------------------------------- assets left stale

  lemma {:induction false} RunThen(s: State, steps: seq<Step>, t: State, step: Step)
    requires Run(s, steps, t) && Enabled(t, step)
    ensures Run(s, steps + [step], Next(t, step))
    decreases |steps|
  {
    if |steps| == 0 {
      assert (steps + [step])[1..] == [];
    } else {
      RunThen(Next(s, steps[0]), steps[1..], t, step);
      assert (steps + [step])[1..] == steps[1..] + [step];
    }
  }

  lemma Then(steps: seq<Step>, t: State, step: Step, t': State) returns (steps': seq<Step>)
    requires Run(Init, steps, t) && Enabled(t, step) && t' == Next(t, step)
    ensures Run(Init, steps', t') && steps' == steps + [step]
  {
    RunThen(Init, steps, t, step);
    return steps + [step];
  }

  const UPDATE: Reason := "asset.update"
  const HIDDEN := Row(false, map[], map[], "", "")

  /** An asset written and marked. */
  lemma WrittenAndMarked(a: Id, row: Row, reason: Reason) returns (steps: seq<Step>)
    ensures Run(Init, steps, State(map[a := row], map[], {}, {Job(a, reason)}, {a}, Idle, {}, {}))
    ensures |steps| > 0 && steps[0] == Write(a, row)
  {
    var rows: map<Id, Row> := map[a := row];
    var m := Job(a, reason);
    steps := Then([], Init, Write(a, row), State(rows, map[], {}, {}, {}, Idle, {}, {a}));
    steps := Then(steps, State(rows, map[], {}, {}, {}, Idle, {}, {a}), Queue(m), State(rows, map[], {m}, {}, {}, Idle, {}, {a}));
    steps := Then(steps, State(rows, map[], {m}, {}, {}, Idle, {}, {a}), Mark(m), State(rows, map[], {}, {m}, {a}, Idle, {}, {}));
  }

  /** One mark escapes: everything comes to rest with a published asset missing from the index. */
  lemma MarkEscapes(a: Id, b: Id, row: Row) returns (steps: seq<Step>, t: State)
    requires a != b && row.published && En in row.translations
    ensures Run(Init, steps, t) && b in t.escaped && t.unmarked == {}
    ensures (forall id :: Settled(t, id)) && !Mirrored(t, b)
  {
    var one: map<Id, Row> := map[a := HIDDEN];
    var two := one[b := row];
    var m, n := Job(a, UPDATE), Job(b, UPDATE);
    steps := WrittenAndMarked(a, HIDDEN, UPDATE);
    steps := Then(steps, State(one, map[], {}, {m}, {a}, Idle, {}, {}), Write(b, row), State(two, map[], {}, {m}, {a}, Idle, {}, {b}));
    steps := Then(steps, State(two, map[], {}, {m}, {a}, Idle, {}, {b}), Queue(n), State(two, map[], {n}, {m}, {a}, Idle, {}, {b}));
    steps := GapEscape(steps, two, a, m, n);
    steps, t := DrainOne(steps, two, a, {m, n}, {b});
    assert BuildDocs(two, a) == map[];
    assert En in BuildDocs(two, b) && Indexed(t.index, b) == map[];
  }

  lemma GapEscape(before: seq<Step>, rows: map<Id, Row>, a: Id, m: Job, n: Job) returns (steps: seq<Step>)
    requires a != n.id && m != n && Run(Init, before, State(rows, map[], {n}, {m}, {a}, Idle, {}, {n.id}))
    ensures Run(Init, steps, State(rows, map[], {}, {m, n}, {}, Building({a}, map[]), {n.id}, {}))
  {
    var b := n.id;
    steps := Then(before, State(rows, map[], {n}, {m}, {a}, Idle, {}, {b}), Smembers, State(rows, map[], {n}, {m}, {a}, Read({a}), {}, {b}));
    steps := GapMark(steps, rows, a, m, n);
    steps := Then(steps, State(rows, map[], {}, {m, n}, {a, b}, Read({a}), {}, {}), Del, State(rows, map[], {}, {m, n}, {}, Building({a}, map[]), {b}, {}));
  }

  lemma GapMark(before: seq<Step>, rows: map<Id, Row>, a: Id, m: Job, n: Job) returns (steps: seq<Step>)
    requires m != n && Run(Init, before, State(rows, map[], {n}, {m}, {a}, Read({a}), {}, {n.id}))
    ensures Run(Init, steps, State(rows, map[], {}, {m, n}, {a, n.id}, Read({a}), {}, {}))
  {
    var s, t := State(rows, map[], {n}, {m}, {a}, Read({a}), {}, {n.id}), State(rows, map[], {}, {m, n}, {a, n.id}, Read({a}), {}, {});
    assert {n} - {n} == {} && {m} + {n} == {m, n} && {a} + {n.id} == {a, n.id};
    steps := Then(before, s, Mark(n), t);
  }

  lemma OneIndexed(a: Id, d: Docs)
    ensures Upserted(map[], map[a := d]) == map[a := d]
    ensures Cleaned(map[a := d], map[a := d]) == map[a := d]
  {
    assert Indexed(map[], a) + d == d;
  }

  lemma DrainOne(before: seq<Step>, rows: map<Id, Row>, a: Id, held: set<Job>, lost: set<Id>) returns (steps: seq<Step>, t: State)
    requires Run(Init, before, State(rows, map[], {}, held, {}, Building({a}, map[]), lost, {}))
    ensures Run(Init, steps, t) && t == State(rows, map[a := BuildDocs(rows, a)], {}, held, {}, Idle, lost, {})
    ensures before <= steps
  {
    var docs: map<Id, Docs> := map[a := BuildDocs(rows, a)];
    OneIndexed(a, BuildDocs(rows, a));
    assert ({a} - {a}) == {} && map[][a := BuildDocs(rows, a)] == docs;
    steps := Then(before, State(rows, map[], {}, held, {}, Building({a}, map[]), lost, {}), Build(a), State(rows, map[], {}, held, {}, Building({}, docs), lost, {}));
    steps := Then(steps, State(rows, map[], {}, held, {}, Building({}, docs), lost, {}), AddDocuments, State(rows, docs, {}, held, {}, Added(docs), lost, {}));
    t := State(rows, docs, {}, held, {}, Idle, lost, {});
    steps := Then(steps, State(rows, docs, {}, held, {}, Added(docs), lost, {}), DeleteDocuments, t);
  }

  /** An asset written, marked and indexed, with all at rest. */
  lemma WrittenAndIndexed(a: Id, row: Row, reason: Reason) returns (steps: seq<Step>, t: State)
    ensures Run(Init, steps, t) && |steps| > 0 && steps[0] == Write(a, row)
    ensures t == State(map[a := row], map[a := BuildDocs(map[a := row], a)], {}, {Job(a, reason)}, {}, Idle, {}, {})
  {
    var rows: map<Id, Row> := map[a := row];
    var m := Job(a, reason);
    steps := WrittenAndMarked(a, row, reason);
    steps := Then(steps, State(rows, map[], {}, {m}, {a}, Idle, {}, {}), Smembers, State(rows, map[], {}, {m}, {a}, Read({a}), {}, {}));
    steps := Then(steps, State(rows, map[], {}, {m}, {a}, Read({a}), {}, {}), Del, State(rows, map[], {}, {m}, {}, Building({a}, map[]), {}, {}));
    steps, t := DrainOne(steps, rows, a, {m}, {});
  }

  /** Some writes queue nothing: an asset indexed and then written in a way that shows, with no job
      added, is stale with all at rest. */
  lemma WriteUnqueued(a: Id, first: Row, second: Row, reason: Reason) returns (steps: seq<Step>, t: State)
    requires first.translations.Keys <= second.translations.Keys
    requires BuildDocs(map[a := first], a) != BuildDocs(map[a := second], a)
    ensures Run(Init, steps + [Write(a, second)], t) && |steps| > 0 && steps[0] == Write(a, first)
    ensures t.escaped == {} && t.unmarked == {a} && t.held == {Job(a, reason)}
    ensures (forall id :: Settled(t, id)) && !Mirrored(t, a)
  {
    var rest: State;
    steps, rest := WrittenAndIndexed(a, first, reason);
    t := State(map[a := second], rest.index, {}, rest.held, {}, Idle, {}, {a});
    assert rest.rows[a := second] == map[a := second] && Next(rest, Write(a, second)) == t;
    RunThen(Init, steps, rest, Write(a, second));
  }

  /** And one job is refused: of two changes of an asset for one reason within the day, the second
      never reaches the index. */
  lemma MarkDropped(a: Id, first: Row, second: Row, reason: Reason) returns (steps: seq<Step>, t: State)
    requires first.translations.Keys <= second.translations.Keys
    requires BuildDocs(map[a := first], a) != BuildDocs(map[a := second], a)
    ensures Run(Init, steps + [Write(a, second), Queue(Job(a, reason))], t) && |steps| > 0 && steps[0] == Write(a, first)
    ensures t.escaped == {} && t.unmarked == {a} && t.held == {Job(a, reason)}
    ensures (forall id :: Settled(t, id)) && !Mirrored(t, a)
  {
    steps, t := WriteUnqueued(a, first, second, reason);
    var refused := Queue(Job(a, reason));
    assert Next(t, refused) == t;
    RunThen(Init, steps + [Write(a, second)], t, refused);
    assert steps + [Write(a, second)] + [Queue(Job(a, reason))] == steps + [Write(a, second), Queue(Job(a, reason))];
  }

  // ---------------------------------------------------------------- the batch's loop

  datatype Key = Key(id: Id, locale: Locale)
  datatype Entry = Entry(key: Key, doc: Doc)

  predicate Known(l: Locale) {
    l == En || l == Indonesian
  }

  lemma TwoLocales()
    ensures forall l :: Known(l)
  {
    forall l ensures Known(l) {
      match l
      case En =>
      case Indonesian =>
    }
  }

  /** The documents of one asset as the list `buildDocsForAsset` returns. */
  function DocList(id: Id, docs: Docs): (r: seq<Entry>)
    ensures |r| == 0 <==> docs == map[]
    ensures forall e :: e in r <==> e.key.id == id && e.key.locale in docs && e.doc == docs[e.key.locale]
  {
    TwoLocales();
    assert forall l :: l in docs ==> Known(l);
    assert docs != map[] ==> exists l :: l in docs;
    (if En in docs then [Entry(Key(id, En), docs[En])] else []) +
    (if Indonesian in docs then [Entry(Key(id, Indonesian), docs[Indonesian])] else [])
  }

  /** The two lists one batch sends: what to upsert and which keys to delete. */
  method Collect(ids: seq<Id>, rows: map<Id, Row>) returns (docs: seq<Entry>, toRemove: seq<Key>)
    ensures forall e :: e in docs <==> e.key.id in ids && Documented(rows, e.key.id, e.key.locale, e.doc)
    ensures forall k :: k in toRemove <==>
      k.id in ids && (k.id !in rows || !rows[k.id].published || rows[k.id].translations == map[])
  {
    docs, toRemove := [], [];
    for i := 0 to |ids|
      invariant forall e :: e in docs <==> e.key.id in ids[..i] && Documented(rows, e.key.id, e.key.locale, e.doc)
      invariant forall k :: k in toRemove <==> k.id in ids[..i] && BuildDocs(rows, k.id) == map[]
    {
      assert ids[..i + 1] == ids[..i] + [ids[i]];
      var built := DocList(ids[i], BuildDocs(rows, ids[i]));
      forall e: Entry | e.key.id == ids[i] ensures e in built <==> Documented(rows, ids[i], e.key.locale, e.doc) {
        BuiltExactly(rows, ids[i], e.key.locale, e.doc);
      }
      if |built| == 0 {
        toRemove := toRemove + [Key(ids[i], En), Key(ids[i], Indonesian)];
        TwoLocales();
        assert forall k: Key :: k.id == ids[i] && Known(k.locale) ==> k == Key(ids[i], En) || k == Key(ids[i], Indonesian);
      } else {
        docs := docs + built;
      }
    }
    assert ids[..|ids|] == ids;
    forall id ensures BuildDocs(rows, id) == map[] <==> id !in rows || !rows[id].published || rows[id].translations == map[] {
      NothingBuilt(rows, id);
    }
  }
}
