/** Stale reads: the resolved timestamp is safe, so a read at or below it is complete without checking
    anything and without waiting for any lock. */
module StaleReads {
  import opened Prelude
  import opened MemoryLocks

  /** A lock that commits above `m`. */
  predicate SafeAt(m: nat, lock: Lock) { lock.ts >= m || lock.minCommitTs > m }

  /** What a writer has yet to write commits above `m`. */
  ghost predicate WriterSafe(m: nat, w: Writer) {
    match w
    case Entered(_, _) => true
    case InSection(_, _, seen) => seen >= m
    case Published(lock, written) => written || SafeAt(m, lock)
  }

  ghost predicate WritersSafe(s: State, m: nat) {
    s.maxTs >= m && s.tso >= m && forall k | k in s.writers :: WriterSafe(m, s.writers[k])
  }

  /** A written lock that commits above `m`: an ordinary one that has been granted no timestamp will be
      granted a later one. */
  ghost predicate EntrySafe(s: State, m: nat, k: Bytes)
    requires k in s.lockCf
  {
    SafeAt(m, s.lockCf[k]) || (!s.lockCf[k].asyncCommit && (k in s.granted ==> s.granted[k] > m))
  }

  /** The written locks commit above `m`, except those that `tracked` has. */
  ghost predicate LocksSafe(s: State, m: nat, tracked: map<Bytes, nat>) {
    forall k | k in s.lockCf && s.lockCf[k].WritesData() ::
      EntrySafe(s, m, k) || (k in tracked && tracked[k] == s.lockCf[k].ts)
  }

  /** What the resolver tracks once it has handled some tasks. */
  function HandleAll(tracked: map<Bytes, nat>, tasks: seq<Task>): map<Bytes, nat>
    decreases |tasks|
  {
    if tasks == [] then tracked else HandleAll(Handle(tracked, tasks[0]), tasks[1..])
  }

  lemma {:induction false} HandleAllAppend(tracked: map<Bytes, nat>, tasks: seq<Task>, task: Task)
    ensures HandleAll(tracked, tasks + [task]) == Handle(HandleAll(tracked, tasks), task)
    decreases |tasks|
  {
    if tasks == [] {
      assert [task][1..] == [];
    } else {
      assert (tasks + [task])[1..] == tasks[1..] + [task];
      HandleAllAppend(Handle(tracked, tasks[0]), tasks[1..], task);
    }
  }

  function DataLocks(lockCf: map<Bytes, Lock>): map<Bytes, nat> {
    map k | k in lockCf && lockCf[k].WritesData() :: lockCf[k].ts
  }

  /** An advance under way: the keys behind its cursor are safe. */
  ghost predicate AdvanceSafe(s: State) {
    match s.advance
    case Idle => true
    case Scanning(m, cursor) =>
      s.maxTs >= m && s.tso >= m && forall k | k in s.writers && !Beyond(cursor, k) :: WriterSafe(m, s.writers[k])
    case Confirming(m) => WritersSafe(s, m)
  }

  /** A queued advance: what is not safe at its timestamp will be tracked by the time it is handled. */
  ghost predicate QueueSafe(s: State) {
    forall i: nat | i < |s.tasks| && s.tasks[i].Resolve? ::
      WritersSafe(s, s.tasks[i].minTs) && LocksSafe(s, s.tasks[i].minTs, HandleAll(s.tracked, s.tasks[..i]))
  }

  ghost predicate ReaderComplete(req: Request, s: State) {
    req.stale ==>
      && (s.reader.Cleared? || s.reader.Passed? ==> req.startTs <= s.safeTs)
      && (s.reader.Passed? ==>
            forall c | c in s.committed && c.1.WritesData() :: c in s.reader.snapshot.commits || c.2 > req.startTs)
  }

  ghost predicate Inv(req: Request, s: State) {
    && Stamps(s)
    && WritersSafe(s, s.safeTs) && LocksSafe(s, s.safeTs, map[])
    && AdvanceSafe(s) && QueueSafe(s)
    && TrackingExact(s)
    && ReaderComplete(req, s)
  }

  lemma {:induction false} OldestExists(minTs: nat, tracked: map<Bytes, nat>) returns (ts: nat)
    ensures IsOldest(ts, minTs, tracked)
    decreases |tracked|
  {
    if tracked == map[] {
      ts := minTs;
    } else {
      var k :| k in tracked;
      var rest := tracked - {k};
      var r := OldestExists(minTs, rest);
      ts := Min(r, tracked[k]);
      assert forall j | j in tracked && j != k :: j in rest && rest[j] == tracked[j];
    }
  }

  /** Once the writers are safe at a timestamp they stay so: later ones see a maximum at least as large. */
  lemma WritersStaySafe(req: Request, s: State, step: Step, m: nat)
    requires Enabled(req, s, step) && WritersSafe(s, m)
    ensures WritersSafe(Apply(req, s, step), m)
  {
    if OnTable(step) {
      hide Ahead, Unscanned, Passes, Handle;
    } else {
      Frame(req, s, step);
      hide Apply, Enabled;
    }
  }

  /** So do the written locks, as new ones come from safe writers. */
  lemma LocksStaySafe(req: Request, s: State, step: Step, m: nat, tracked: map<Bytes, nat>)
    requires Enabled(req, s, step) && WritersSafe(s, m) && LocksSafe(s, m, tracked)
    ensures LocksSafe(Apply(req, s, step), m, tracked)
  {
    if OnStore(step) {
      hide Ahead, Unscanned, Passes, Handle;
    } else {
      Frame(req, s, step);
      hide Apply, Enabled;
    }
  }

  lemma LowerIsSafer(s: State, m: nat, m': nat)
    requires m' <= m && WritersSafe(s, m)
    ensures WritersSafe(s, m')
  {
  }

  lemma StoreQueuesChanges(req: Request, s: State, step: Step)
    requires Enabled(req, s, step) && !step.HandleTask? && !step.Confirm?
    ensures s.tasks <= Apply(req, s, step).tasks
    ensures forall i: nat | |s.tasks| <= i < |Apply(req, s, step).tasks| :: !Apply(req, s, step).tasks[i].Resolve?
  {
    if OnStore(step) {
      hide Ahead, Unscanned, Passes, Handle;
    } else {
      Frame(req, s, step);
      hide Apply, Enabled;
    }
  }

  /** A task at the end of the queue changes nothing for the advances before it. */
  lemma QueueStaysSafe(req: Request, s: State, step: Step)
    requires Enabled(req, s, step) && QueueSafe(s) && !step.HandleTask? && !step.Confirm?
    ensures QueueSafe(Apply(req, s, step))
  {
    var s' := Apply(req, s, step);
    Frame(req, s, step);
    StoreQueuesChanges(req, s, step);
    hide Apply, Enabled, WritersSafe, LocksSafe;
    forall i: nat | i < |s'.tasks| && s'.tasks[i].Resolve?
      ensures WritersSafe(s', s'.tasks[i].minTs)
      ensures LocksSafe(s', s'.tasks[i].minTs, HandleAll(s'.tracked, s'.tasks[..i]))
    {
      assert i < |s.tasks| && s'.tasks[..i] == s.tasks[..i];
      WritersStaySafe(req, s, step, s.tasks[i].minTs);
      LocksStaySafe(req, s, step, s.tasks[i].minTs, HandleAll(s.tracked, s.tasks[..i]));
    }
  }

  lemma ConfirmKeepsQueue(req: Request, s: State, leads: bool)
    requires Inv(req, s) && Enabled(req, s, Confirm(leads))
    ensures QueueSafe(Apply(req, s, Confirm(leads)))
  {
    var s' := Apply(req, s, Confirm(leads));
    hide WritersSafe, DataLocks;
    assert LocksSafe(s, s.advance.minTs, HandleAll(s.tracked, s.tasks)) by { TrackedIsEnough(s, s.advance.minTs); }
    forall i: nat | i < |s'.tasks| && s'.tasks[i].Resolve?
      ensures WritersSafe(s', s'.tasks[i].minTs)
      ensures LocksSafe(s', s'.tasks[i].minTs, HandleAll(s'.tracked, s'.tasks[..i]))
    {
      assert s'.tasks[..i] == s.tasks[..i];
      if i == |s.tasks| { assert s.tasks[..i] == s.tasks; }
      assert forall m :: WritersSafe(s', m) == WritersSafe(s, m) by { SameWriters(s, s'); }
    }
  }

  lemma SameWriters(s: State, s': State)
    requires s'.writers == s.writers && s'.maxTs == s.maxTs && s'.tso == s.tso
    ensures forall m :: WritersSafe(s', m) == WritersSafe(s, m)
  {
  }

  lemma TrackedIsEnough(s: State, m: nat)
    requires TrackingExact(s)
    ensures LocksSafe(s, m, HandleAll(s.tracked, s.tasks))
  {
  }

  lemma HandleKeepsQueue(req: Request, s: State, oldest: nat)
    requires QueueSafe(s) && Enabled(req, s, HandleTask(oldest))
    ensures QueueSafe(Apply(req, s, HandleTask(oldest)))
  {
    var s' := Apply(req, s, HandleTask(oldest));
    SameWriters(s, s');
    hide WritersSafe;
    forall i: nat | i < |s'.tasks| && s'.tasks[i].Resolve?
      ensures WritersSafe(s', s'.tasks[i].minTs)
      ensures LocksSafe(s', s'.tasks[i].minTs, HandleAll(s'.tracked, s'.tasks[..i]))
    {
      assert s.tasks[i + 1] == s'.tasks[i];
      assert s.tasks[..i + 1][1..] == s'.tasks[..i];
    }
  }

  /** Handling an advance moves the resolved timestamp only as far as is safe. */
  lemma ResolveIsSafe(req: Request, s: State, oldest: nat)
    requires Inv(req, s) && Enabled(req, s, HandleTask(oldest))
    ensures var s' := Apply(req, s, HandleTask(oldest));
      WritersSafe(s', s'.safeTs) && LocksSafe(s', s'.safeTs, map[])
  {
    var s' := Apply(req, s, HandleTask(oldest));
    SameWriters(s, s');
    if s.tasks[0].Resolve? && oldest > s.safeTs {
      var m := s.tasks[0].minTs;
      assert s.tasks[..0] == [];
      assert WritersSafe(s, m) && LocksSafe(s, m, s.tracked);
      LowerIsSafer(s, m, oldest);
    }
  }

  lemma ScanKeepsAdvance(req: Request, s: State, k: Bytes)
    requires AdvanceSafe(s) && Enabled(req, s, ScanKey(k))
    ensures AdvanceSafe(Apply(req, s, ScanKey(k)))
  {
    var s' := Apply(req, s, ScanKey(k));
    var m' := s'.advance.minTs;
    forall k' | k' in s'.writers && !Beyond(s'.advance.cursor, k') ensures WriterSafe(m', s'.writers[k']) {
      LessIsTotal(k, k');
      assert k' == k || !Unscanned(s, k');
    }
  }

  lemma ScannedStaysSafe(req: Request, s: State, step: Step, k: Bytes)
    requires Enabled(req, s, step) && AdvanceSafe(s) && s.advance.Scanning?
    requires k in Apply(req, s, step).writers && !Beyond(s.advance.cursor, k)
    ensures WriterSafe(s.advance.minTs, Apply(req, s, step).writers[k])
  {
    if OnTable(step) {
      hide Ahead, Unscanned, Passes, Handle;
    } else {
      Frame(req, s, step);
      hide Apply, Enabled;
    }
  }

  lemma AdvanceStaysSafe(req: Request, s: State, step: Step)
    requires Enabled(req, s, step) && AdvanceSafe(s)
    ensures AdvanceSafe(Apply(req, s, step))
  {
    if step.ScanKey? {
      ScanKeepsAdvance(req, s, step.k);
    } else if OnAdvance(step) {
      hide Ahead, Passes, Handle;
    } else if s.advance.Confirming? {
      Frame(req, s, step);
      WritersStaySafe(req, s, step, s.advance.minTs);
      hide Apply, Enabled;
    } else {
      Frame(req, s, step);
      if s.advance.Scanning? {
        forall k | k in Apply(req, s, step).writers && !Beyond(s.advance.cursor, k)
          ensures WriterSafe(s.advance.minTs, Apply(req, s, step).writers[k])
        {
          ScannedStaysSafe(req, s, step, k);
        }
      }
      hide Apply, Enabled;
    }
  }

  lemma DataLocksChange(lockCf: map<Bytes, Lock>, k: Bytes, lock: Lock)
    ensures DataLocks(lockCf - {k}) == DataLocks(lockCf) - {k}
    ensures lock.WritesData() ==> DataLocks(lockCf[k := lock]) == DataLocks(lockCf)[k := lock.ts]
    ensures !lock.WritesData() && k !in DataLocks(lockCf) ==> DataLocks(lockCf[k := lock]) == DataLocks(lockCf)
    ensures k !in DataLocks(lockCf) ==> DataLocks(lockCf) - {k} == DataLocks(lockCf)
  {
  }

  ghost predicate TrackingExact(s: State) { HandleAll(s.tracked, s.tasks) == DataLocks(s.lockCf) }

  lemma PersistedTracks(s: State, k: Bytes, lock: Lock)
    requires TrackingExact(s) && (k in s.lockCf ==> !s.lockCf[k].WritesData())
    ensures TrackingExact(Persisted(s, k, lock))
  {
    DataLocksChange(s.lockCf, k, lock);
    HandleAllAppend(s.tracked, s.tasks, Track(k, lock.ts));
    assert s.tasks + [] == s.tasks && k !in DataLocks(s.lockCf);
    hide HandleAll, DataLocks;
  }

  lemma RemovedTracks(s: State, k: Bytes)
    requires TrackingExact(s) && k in s.lockCf
    ensures TrackingExact(Removed(s, k))
  {
    DataLocksChange(s.lockCf, k, s.lockCf[k]);
    HandleAllAppend(s.tracked, s.tasks, Untrack(k));
    hide HandleAll, DataLocks;
  }

  lemma StoreStepTracks(req: Request, s: State, step: Step)
    requires Enabled(req, s, step) && TrackingExact(s) && OnStore(step)
    ensures TrackingExact(Apply(req, s, step))
  {
    if step.Persist? {
      PersistedTracks(s, step.k, s.writers[step.k].lock);
    } else if step.PlainWrite? {
      PersistedTracks(s, step.k, step.lock);
    } else if !step.GrantCommitTs? {
      RemovedTracks(s, step.k);
    }
    hide HandleAll, DataLocks, Persisted, Removed, WritersAfter;
  }

  /** The queue, once handled, tracks exactly the written data locks. */
  lemma TrackingStaysExact(req: Request, s: State, step: Step)
    requires Enabled(req, s, step) && TrackingExact(s)
    ensures TrackingExact(Apply(req, s, step))
  {
    assert s.tasks + [] == s.tasks;
    if OnStore(step) {
      StoreStepTracks(req, s, step);
    } else if step.Confirm? && step.leads {
      HandleAllAppend(s.tracked, s.tasks, Resolve(s.advance.minTs));
      hide HandleAll, DataLocks;
    } else if step.HandleTask? {
      hide DataLocks, IsOldest;
    } else {
      Frame(req, s, step);
      assert step.Confirm? ==> Apply(req, s, step).tasks == s.tasks;
      hide DataLocks, HandleAll, Apply, Enabled;
    }
  }

  /** Every data commit is above the resolved timestamp of the moment. */
  lemma CommitsAreAbove(req: Request, s: State, step: Step, c: Commit)
    requires Inv(req, s) && Enabled(req, s, step)
    requires c in Apply(req, s, step).committed && c !in s.committed && c.1.WritesData()
    ensures c.2 > s.safeTs
  {
    hide Ahead, Unscanned, QueueSafe, AdvanceSafe, TrackingExact, ReaderComplete, Handle;
    if !OnStore(step) {
      Frame(req, s, step);
      hide Apply, Enabled;
    }
  }

  lemma ReaderStaysComplete(req: Request, s: State, step: Step)
    requires Inv(req, s) && Enabled(req, s, step)
    ensures ReaderComplete(req, Apply(req, s, step))
  {
    var s' := Apply(req, s, step);
    assert ReaderComplete(req, s);
    Frame(req, s, step);
    hide Inv;
    if OnReader(step) {
      hide Ahead, Unscanned, Passes, Handle;
    } else {
      if req.stale && s.reader.Passed? {
        forall c | c in s'.committed && c.1.WritesData() ensures c in s.reader.snapshot.commits || c.2 > req.startTs {
          if c !in s.committed {
            CommitsAreAbove(req, s, step, c);
          }
        }
      }
      hide Apply, Enabled;
    }
  }

  lemma StepKeepsInv(req: Request, s: State, step: Step)
    requires Inv(req, s) && Enabled(req, s, step)
    ensures Inv(req, Apply(req, s, step))
  {
    StepKeepsStamps(req, s, step);
    ReaderStaysComplete(req, s, step);
    TrackingStaysExact(req, s, step);
    AdvanceStaysSafe(req, s, step);
    if step.HandleTask? {
      HandleKeepsQueue(req, s, step.oldest);
      ResolveIsSafe(req, s, step.oldest);
    } else {
      if step.Confirm? {
        ConfirmKeepsQueue(req, s, step.leads);
      } else {
        QueueStaysSafe(req, s, step);
      }
      WritersStaySafe(req, s, step, s.safeTs);
      LocksStaySafe(req, s, step, s.safeTs, map[]);
    }
    Frame(req, s, step);
    hide Stamps, ReaderComplete, TrackingExact, AdvanceSafe, QueueSafe, WritersSafe, LocksSafe, Enabled, Apply;
  }

  lemma {:induction false} RunKeepsInv(req: Request, s: State, steps: seq<Step>)
    requires Inv(req, s) && Legal(req, s, steps)
    ensures Inv(req, After(req, s, steps))
    decreases |steps|
  {
    hide Inv, Enabled, Apply;
    if steps != [] {
      StepKeepsInv(req, s, steps[0]);
      RunKeepsInv(req, Apply(req, s, steps[0]), steps[1..]);
    }
  }

  lemma InitialIsSafe(req: Request)
    ensures Inv(req, Initial)
  {
  }

  /** The resolved timestamp keeps its promise in every run: whatever is committed from any moment on is
      above it. */
  lemma ResolvedTsIsSafe(req: Request, steps: seq<Step>, step: Step, c: Commit)
    requires Legal(req, Initial, steps) && Enabled(req, After(req, Initial, steps), step)
    requires var s := After(req, Initial, steps); c in Apply(req, s, step).committed && c !in s.committed
    requires c.1.WritesData()
    ensures c.2 > After(req, Initial, steps).safeTs
  {
    hide Inv, Enabled, Apply, Legal, After;
    InitialIsSafe(req);
    RunKeepsInv(req, Initial, steps);
    CommitsAreAbove(req, After(req, Initial, steps), step, c);
  }

  /** A stale read that gets through the gate is complete: its snapshot has every data commit at or below
      its timestamp that is ever made, on any key, and no lock can add one. */
  lemma StaleReadIsComplete(req: Request, steps: seq<Step>, c: Commit)
    requires req.stale && Legal(req, Initial, steps) && After(req, Initial, steps).reader.Passed?
    requires c in After(req, Initial, steps).committed && c.1.WritesData() && c.2 <= req.startTs
    ensures c in After(req, Initial, steps).reader.snapshot.commits
  {
    RunKeepsInv(req, Initial, steps);
  }

  lemma StaleReadMissesNothing(req: Request, steps: seq<Step>)
    requires req.stale && Legal(req, Initial, steps)
    ensures NothingMissed(req, After(req, Initial, steps))
  {
    RunKeepsInv(req, Initial, steps);
  }

  // How far an advance gets

  /** The keys that a walk over the table has yet to visit. */
  ghost function Rest(writers: map<Bytes, Writer>, cursor: Option<Bytes>): set<Bytes> {
    set k | k in writers && Beyond(cursor, k)
  }

  lemma RestAfter(writers: map<Bytes, Writer>, cursor: Option<Bytes>, k: Bytes)
    requires k in Rest(writers, cursor) && forall k' | k' in Rest(writers, cursor) :: k' == k || Less(k, k')
    ensures Rest(writers, Some(k)) == Rest(writers, cursor) - {k}
  {
    if Less(k, k) { LessIsAsymmetric(k, k); }
    forall k' | k' in Rest(writers, Some(k)) ensures k' in Rest(writers, cursor) {
      if cursor.Some? { LessIsTransitive(cursor.value, k, k'); }
    }
  }

  ghost predicate Quiet(s: State) { forall k | k in s.writers :: !s.writers[k].InSection? }

  ghost predicate PublishedAt(s: State, keys: set<Bytes>, k: Bytes) {
    k in keys && k in s.writers && s.writers[k].Published?
  }

  /** The oldest of `minTs` and the start timestamps of the locks published on some keys. */
  ghost predicate OldestIn(s: State, keys: set<Bytes>, minTs: nat, m: nat) {
    && m <= minTs && (forall k | PublishedAt(s, keys, k) :: m <= s.writers[k].lock.ts)
    && (m == minTs || exists k | PublishedAt(s, keys, k) :: s.writers[k].lock.ts == m)
  }

  lemma OldestGoesOn(s: State, keys: set<Bytes>, k: Bytes, minTs: nat, m: nat)
    requires k in keys && k in s.writers
    requires OldestIn(s, keys - {k}, if s.writers[k].Published? then Min(minTs, s.writers[k].lock.ts) else minTs, m)
    ensures OldestIn(s, keys, minTs, m)
  {
    forall k' | PublishedAt(s, keys, k') ensures m <= s.writers[k'].lock.ts {
      assert k' == k || PublishedAt(s, keys - {k}, k');
    }
    if m != minTs {
      if s.writers[k].Published? && m == s.writers[k].lock.ts {
        assert PublishedAt(s, keys, k);
      } else {
        var k' :| PublishedAt(s, keys - {k}, k') && s.writers[k'].lock.ts == m;
        assert PublishedAt(s, keys, k');
      }
    }
  }

  lemma ScanStep(req: Request, s0: State, before: seq<Step>, s: State, m: nat, cursor: Option<Bytes>, k: Bytes)
    requires Quiet(s) && Runs(req, s0, before, s.(advance := Scanning(m, cursor)))
    requires k in Rest(s.writers, cursor) && forall k' | k' in Rest(s.writers, cursor) :: k' == k || Less(k, k')
    ensures var m' := if s.writers[k].Published? then Min(m, s.writers[k].lock.ts) else m;
      Runs(req, s0, before + [ScanKey(k)], s.(advance := Scanning(m', Some(k))))
  {
    hide Runs;
    var t := s.(advance := Scanning(m, cursor));
    forall k' | k' in t.writers && Unscanned(t, k') ensures !Less(k', k) {
      assert k' in Rest(s.writers, cursor);
      if k' == k && Less(k, k) { LessIsAsymmetric(k, k); }
      if k' != k { LessIsAsymmetric(k, k'); }
    }
    Then(req, s0, before, t, ScanKey(k));
  }

  lemma {:induction false} ScanAll(req: Request, s0: State, before: seq<Step>, s: State, m: nat,
                                   cursor: Option<Bytes>)
    returns (steps: seq<Step>, m': nat)
    requires Quiet(s) && Runs(req, s0, before, s.(advance := Scanning(m, cursor)))
    ensures Runs(req, s0, steps, s.(advance := Confirming(m'))) && OldestIn(s, Rest(s.writers, cursor), m, m')
    decreases |Rest(s.writers, cursor)|
  {
    hide Runs, Enabled, Apply;
    var rest := Rest(s.writers, cursor);
    if rest == {} {
      assert Enabled(req, s.(advance := Scanning(m, cursor)), EndScan) by { NothingLeft(req, s, m, cursor); }
      Then(req, s0, before, s.(advance := Scanning(m, cursor)), EndScan);
      EndScanIs(req, s, m, cursor);
      steps, m' := before + [EndScan], m;
    } else {
      var k := LeastKey(rest);
      ScanStep(req, s0, before, s, m, cursor, k);
      RestAfter(s.writers, cursor, k);
      var lower := if s.writers[k].Published? then Min(m, s.writers[k].lock.ts) else m;
      steps, m' := ScanAll(req, s0, before + [ScanKey(k)], s, lower, Some(k));
      OldestGoesOn(s, rest, k, m, m');
    }
  }

  lemma NothingLeft(req: Request, s: State, m: nat, cursor: Option<Bytes>)
    requires Rest(s.writers, cursor) == {}
    ensures Enabled(req, s.(advance := Scanning(m, cursor)), EndScan)
  {
    forall k | k in s.writers ensures !Beyond(cursor, k) { assert k !in Rest(s.writers, cursor); }
  }

  lemma EndScanIs(req: Request, s: State, m: nat, cursor: Option<Bytes>)
    requires Enabled(req, s.(advance := Scanning(m, cursor)), EndScan)
    ensures Apply(req, s.(advance := Scanning(m, cursor)), EndScan) == s.(advance := Confirming(m))
  {
  }

  lemma ResolveRun(req: Request, s: State, before: seq<Step>, t: State, ts: nat, oldest: nat)
    requires t.advance.Idle? && t.tasks == [] && IsOldest(oldest, ts, t.tracked)
    requires Runs(req, s, before, t.(advance := Confirming(ts)))
    ensures Runs(req, s, before + [Confirm(true)] + [HandleTask(oldest)], t.(safeTs := Max(t.safeTs, oldest)))
  {
    hide Runs, IsOldest;
    var t1, t2 := t.(advance := Confirming(ts)), t.(tasks := [Resolve(ts)]);
    Then(req, s, before, t1, Confirm(true));
    assert [] + [Resolve(ts)] == [Resolve(ts)];
    assert Apply(req, t1, Confirm(true)) == t2;
    Then(req, s, before + [Confirm(true)], t2, HandleTask(oldest));
    assert [Resolve(ts)][1..] == [];
    assert Apply(req, t2, HandleTask(oldest)) == t.(safeTs := Max(t.safeTs, oldest));
  }

  lemma BeginRun(req: Request, s: State)
    requires s.advance.Idle? && s.tso + 1 < TS_MAX
    ensures var ts := s.tso + 1;
      Runs(req, s, [BeginAdvance(ts, true)], s.(tso := ts, maxTs := Max(s.maxTs, ts), advance := Scanning(ts, None)))
  {
    var ts := s.tso + 1;
    assert Runs(req, s, [], s);
    Then(req, s, [], s, BeginAdvance(ts, true));
    assert [] + [BeginAdvance(ts, true)] == [BeginAdvance(ts, true)];
  }

  /** How far the resolved timestamp gets: an advance that nothing interrupts takes it exactly to the oldest
      of the placement driver's latest timestamp, the locks published in the table and the written ones,
      if it was not there already. So the gate opens. */
  lemma ResolvedTsAdvances(req: Request, s: State) returns (steps: seq<Step>, inTable: nat, oldest: nat)
    requires s.advance.Idle? && s.tso + 1 < TS_MAX && Quiet(s) && s.tasks == []
    ensures OldestIn(s, s.writers.Keys, s.tso + 1, inTable) && IsOldest(oldest, inTable, s.tracked)
    ensures Runs(req, s, steps,
                 s.(tso := s.tso + 1, maxTs := Max(s.maxTs, s.tso + 1), safeTs := Max(s.safeTs, oldest)))
  {
    hide Runs, OldestIn, IsOldest, Enabled, Apply;
    var ts := s.tso + 1;
    var t := s.(tso := ts, maxTs := Max(s.maxTs, ts));
    BeginRun(req, s);
    steps, inTable := ScanAll(req, s, [BeginAdvance(ts, true)], t, ts, None);
    assert OldestIn(s, s.writers.Keys, ts, inTable) by {
      assert Rest(t.writers, None) == s.writers.Keys;
      SameTable(s, t, ts, inTable);
    }
    oldest := OldestExists(inTable, s.tracked);
    ResolveRun(req, s, steps, t, inTable, oldest);
    steps := steps + [Confirm(true)] + [HandleTask(oldest)];
  }

  lemma SameTable(s: State, t: State, ts: nat, m: nat)
    requires s.writers == t.writers && OldestIn(t, t.writers.Keys, ts, m)
    ensures OldestIn(s, s.writers.Keys, ts, m)
  {
    forall k | PublishedAt(s, s.writers.Keys, k) ensures m <= s.writers[k].lock.ts {
      assert PublishedAt(t, t.writers.Keys, k);
    }
    if m != ts {
      var k :| PublishedAt(t, t.writers.Keys, k) && t.writers[k].lock.ts == m;
      assert PublishedAt(s, s.writers.Keys, k);
    }
  }
}
