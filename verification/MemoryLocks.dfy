/** Reads against transactions that commit: a reader raises the maximum timestamp and walks the in-memory
    lock table range by range, then takes a snapshot; a stale read passes a gate on the resolved
    timestamp instead. Async-commit and one-phase writers read the maximum timestamp and publish locks
    key by key; ordinary ones commit at a timestamp that the placement driver grants after their locks
    are written. The resolved timestamp is advanced from the lock table and from the log of written
    locks. */
module MemoryLocks {
  import opened Prelude

  const TS_MAX: nat := 0xFFFF_FFFF_FFFF_FFFF

  datatype LockType = PutLock | DeleteLock | LockOnly | Pessimistic

  datatype Lock = Lock(
    ts: nat,
    minCommitTs: nat,
    lockType: LockType,
    primary: Bytes,
    asyncCommit: bool,
    onePc: bool)
  {
    predicate WritesData() { lockType.PutLock? || lockType.DeleteLock? }
  }

  datatype Isolation = Si | Rc | RcCheckTs

  /** A key range; an empty bound is no bound. */
  datatype Range = Range(start: Bytes, end: Bytes) {
    predicate Contains(k: Bytes) {
      (start == [] || !Less(k, start)) && (end == [] || Less(k, end))
    }
  }

  datatype Request = Request(startTs: nat, stale: bool, iso: Isolation, bypass: set<nat>, ranges: seq<Range>) {
    predicate NeedsCheck() { iso.Si? || iso.RcCheckTs? }

    predicate Covers(k: Bytes) { exists j | 0 <= j < |ranges| :: ranges[j].Contains(k) }

    /** A read that the in-memory check protects. */
    predicate Checked() { !stale && startTs != TS_MAX && !iso.Rc? }
  }

  /** Whether the read may ignore a lock it meets. */
  predicate Passes(req: Request, key: Bytes, lock: Lock) {
    match req.iso
    case Si =>
      || lock.ts > req.startTs || !lock.WritesData()
      || lock.minCommitTs > req.startTs
      || lock.ts in req.bypass
      || (req.startTs == TS_MAX && key == lock.primary && !lock.asyncCommit && !lock.onePc)
    case RcCheckTs => !lock.WritesData() || lock.ts in req.bypass
    case Rc => true
  }

  /** A writer on one key. From `Entered` on its handle is in the lock table; `InSection` holds the
      handle's mutex, with the maximum timestamp it has read; a `Published` lock stays in the table
      until the writer leaves, also after it has been written to the store. */
  datatype Writer =
    | Entered(lock: Lock, forUpdateTs: nat)
    | InSection(lock: Lock, forUpdateTs: nat, seenMaxTs: nat)
    | Published(lock: Lock, written: bool)

  function Max(a: nat, b: nat): nat { if a < b then b else a }

  function Min(a: nat, b: nat): nat { if a < b then a else b }

  /** The lock that gets published: its commit timestamp will be above what the writer saw. */
  function Stamped(w: Writer): Lock
    requires w.InSection?
  {
    w.lock.(minCommitTs := Max(w.lock.minCommitTs, Max(Max(w.seenMaxTs, w.lock.ts), w.forUpdateTs) + 1))
  }

  /** The stamp is the least that is above what the writer saw, its own start and its pessimistic
      timestamp, and not below the one it had. */
  lemma StampIsLeast(w: Writer, ts: nat)
    requires w.InSection?
    ensures ts >= Stamped(w).minCommitTs <==>
      ts > w.seenMaxTs && ts > w.lock.ts && ts > w.forUpdateTs && ts >= w.lock.minCommitTs
    ensures Stamped(w) == w.lock.(minCommitTs := Stamped(w).minCommitTs)
  {
  }

  /** A range with a key inside splits there: every key is in one of the halves, and in one only. */
  lemma RangeSplits(a: Bytes, m: Bytes, b: Bytes, k: Bytes)
    requires m != [] && !Less(m, a) && (b == [] || Less(m, b))
    ensures Range(a, b).Contains(k) <==> Range(a, m).Contains(k) || Range(m, b).Contains(k)
    ensures !(Range(a, m).Contains(k) && Range(m, b).Contains(k))
    ensures Range([], []).Contains(k)
    ensures Range(m, b).Contains(m) && !Range(a, m).Contains(m)
  {
    if Less(m, m) { LessIsAsymmetric(m, m); }
    LessIsTotal(k, m);
    if Less(k, m) && b != [] { LessIsTransitive(k, m, b); }
    if Less(k, a) && Less(m, k) { LessIsTransitive(m, k, a); }
  }

  type Commit = (Bytes, Lock, nat)

  datatype Snapshot = Snapshot(locks: map<Bytes, Lock>, commits: set<Commit>) {
    predicate Shows(k: Bytes, lock: Lock) { k in locks && locks[k] == lock }
  }

  /** The reader: at `cursor` in range `next` of its check, past the check, or with its snapshot. */
  datatype Reader =
    | NotStarted
    | Checking(next: nat, cursor: Option<Bytes>)
    | Cleared
    | Passed(snapshot: Snapshot)
    | Rejected

  /** One advance of the resolved timestamp: a walk over the whole lock table, then the confirmation
      that this store still leads. */
  datatype Advance = Idle | Scanning(minTs: nat, cursor: Option<Bytes>) | Confirming(minTs: nat)

  /** The resolver's queue, in which the log of written locks and the advances come in order. */
  datatype Task = Track(key: Bytes, startTs: nat) | Untrack(key: Bytes) | Resolve(minTs: nat)

  /** `tso` is the last timestamp of the placement driver; `granted` are the commit timestamps it gave for
      written locks of ordinary transactions. */
  datatype State = State(
    tso: nat,
    maxTs: nat,
    writers: map<Bytes, Writer>,
    lockCf: map<Bytes, Lock>,
    granted: map<Bytes, nat>,
    committed: set<Commit>,
    advance: Advance,
    tasks: seq<Task>,
    tracked: map<Bytes, nat>,
    safeTs: nat,
    reader: Reader)

  const Initial := State(0, 0, map[], map[], map[], {}, Idle, [], map[], 0, NotStarted)

  datatype Step =
    | DrawTs(count: nat)
    | RaiseMaxTs(ts: nat)
    | Enter(k: Bytes, lock: Lock, forUpdateTs: nat)
    | StartSection(k: Bytes)
    | Publish(k: Bytes)
    | Fallback(k: Bytes)
    | Persist(k: Bytes)
    | Leave(k: Bytes)
    | PlainWrite(k: Bytes, lock: Lock)
    | GrantCommitTs(k: Bytes)
    | CommitLock(k: Bytes, ts: nat)
    | Rollback(k: Bytes)
    | BeginAdvance(ts: nat, accepted: bool)
    | ScanKey(k: Bytes)
    | EndScan
    | Confirm(leads: bool)
    | HandleTask(oldest: nat)
    | UpdateMaxTs(accepted: bool)
    | Visit(k: Bytes)
    | EndRange
    | FinishCheck
    | TakeSnapshot

  predicate Beyond(cursor: Option<Bytes>, k: Bytes) { cursor.Some? ==> Less(cursor.value, k) }

  /** The keys of the table that the reader has yet to visit in its current range. */
  predicate Ahead(req: Request, s: State, k: Bytes) {
    s.reader.Checking? && s.reader.next < |req.ranges|
    && k in s.writers && req.ranges[s.reader.next].Contains(k) && Beyond(s.reader.cursor, k)
  }

  predicate Unscanned(s: State, k: Bytes) {
    s.advance.Scanning? && k in s.writers && Beyond(s.advance.cursor, k)
  }

  /** What a queued change does to the locks the resolver tracks. */
  function Handle(tracked: map<Bytes, nat>, task: Task): map<Bytes, nat> {
    match task
    case Track(k, ts) => if k in tracked then tracked else tracked[k := ts]
    case Untrack(k) => tracked - {k}
    case Resolve(_) => tracked
  }

  /** The oldest of `minTs` and the start timestamps of the tracked locks. */
  ghost predicate IsOldest(ts: nat, minTs: nat, tracked: map<Bytes, nat>) {
    && ts <= minTs && (forall k | k in tracked :: ts <= tracked[k])
    && (ts == minTs || exists k | k in tracked :: tracked[k] == ts)
  }

  /** A read is at the maximum timestamp, in the past, or at a timestamp of the placement driver. */
  predicate Drawn(req: Request, s: State) { req.stale || req.startTs == TS_MAX || req.startTs <= s.tso }

  ghost predicate Enabled(req: Request, s: State, step: Step) {
    match step
    case DrawTs(_) => true
    case RaiseMaxTs(_) => true
    case Enter(k, lock, _) => k !in s.writers && (lock.asyncCommit || lock.onePc)
    case StartSection(k) => k in s.writers && s.writers[k].Entered?
    case Publish(k) => k in s.writers && s.writers[k].InSection?
    case Fallback(k) => k in s.writers && s.writers[k].InSection?
    case Persist(k) =>
      k in s.writers && s.writers[k].Published? && !s.writers[k].written
      && (k in s.lockCf ==> !s.lockCf[k].WritesData())
    case Leave(k) => k in s.writers && !s.writers[k].InSection?
    case PlainWrite(k, lock) => !lock.asyncCommit && !lock.onePc && (k in s.lockCf ==> !s.lockCf[k].WritesData())
    case GrantCommitTs(k) => k in s.lockCf && !s.lockCf[k].asyncCommit
    case CommitLock(k, ts) =>
      k in s.lockCf && s.lockCf[k].minCommitTs <= ts && s.lockCf[k].ts < ts
      && (!s.lockCf[k].asyncCommit ==> k in s.granted && s.granted[k] == ts)
    case Rollback(k) => k in s.lockCf
    case BeginAdvance(ts, _) => s.advance.Idle? && ts < TS_MAX && (ts == s.tso + 1 || ts == 0)
    case ScanKey(k) =>
      Unscanned(s, k) && !s.writers[k].InSection? && forall k' | k' in s.writers && Unscanned(s, k') :: !Less(k', k)
    case EndScan => s.advance.Scanning? && forall k | k in s.writers :: !Unscanned(s, k)
    case Confirm(_) => s.advance.Confirming?
    case HandleTask(oldest) =>
      s.tasks != [] && (s.tasks[0].Resolve? ==> IsOldest(oldest, s.tasks[0].minTs, s.tracked))
    case UpdateMaxTs(_) => s.reader.NotStarted? && Drawn(req, s)
    case Visit(k) =>
      Ahead(req, s, k) && !s.writers[k].InSection?
      && forall k' | k' in s.writers && Ahead(req, s, k') :: !Less(k', k)
    case EndRange =>
      s.reader.Checking? && s.reader.next < |req.ranges| && forall k | k in s.writers :: !Ahead(req, s, k)
    case FinishCheck => s.reader.Checking? && s.reader.next == |req.ranges|
    case TakeSnapshot => s.reader.Cleared?
  }

  /** The steps that change the lock table. */
  predicate OnTable(step: Step) {
    step.Enter? || step.StartSection? || step.Publish? || step.Fallback? || step.Persist? || step.Leave?
  }

  /** The steps that change the written locks and commits. */
  predicate OnStore(step: Step) {
    step.Persist? || step.PlainWrite? || step.GrantCommitTs? || step.CommitLock? || step.Rollback?
  }

  predicate OnReader(step: Step) {
    step.UpdateMaxTs? || step.Visit? || step.EndRange? || step.FinishCheck? || step.TakeSnapshot?
  }

  predicate OnAdvance(step: Step) {
    step.BeginAdvance? || step.ScanKey? || step.EndScan? || step.Confirm?
  }

  /** A written lock: a one-phase commit leaves no lock and no log entry. */
  function Persisted(s: State, k: Bytes, lock: Lock): State {
    if lock.onePc then
      s.(lockCf := s.lockCf - {k}, granted := s.granted - {k}, committed := s.committed + {(k, lock, lock.minCommitTs)})
    else
      s.(lockCf := s.lockCf[k := lock], granted := s.granted - {k},
         tasks := s.tasks + (if lock.WritesData() then [Track(k, lock.ts)] else []))
  }

  function Removed(s: State, k: Bytes): State {
    s.(lockCf := s.lockCf - {k}, granted := s.granted - {k}, tasks := s.tasks + [Untrack(k)])
  }

  ghost function WritersAfter(req: Request, s: State, step: Step): map<Bytes, Writer>
    requires Enabled(req, s, step) && OnTable(step)
  {
    match step
    case Enter(k, lock, forUpdateTs) => s.writers[k := Entered(lock, forUpdateTs)]
    case StartSection(k) => s.writers[k := InSection(s.writers[k].lock, s.writers[k].forUpdateTs, s.maxTs)]
    case Publish(k) => s.writers[k := Published(Stamped(s.writers[k]), false)]
    case Fallback(k) => s.writers - {k}
    case Persist(k) => s.writers[k := Published(s.writers[k].lock, true)]
    case Leave(k) => s.writers - {k}
  }

  /** The store after a step: only the locks, grants, commits and the log of changes move. */
  ghost function StoreAfter(req: Request, s: State, step: Step): (r: State)
    requires Enabled(req, s, step) && OnStore(step)
    ensures r == s.(tso := r.tso, lockCf := r.lockCf, granted := r.granted, committed := r.committed, tasks := r.tasks)
    ensures s.tso <= r.tso && s.tasks <= r.tasks
    ensures forall i: nat | |s.tasks| <= i < |r.tasks| :: !r.tasks[i].Resolve?
  {
    match step
    case Persist(k) => Persisted(s, k, s.writers[k].lock)
    case PlainWrite(k, lock) => Persisted(s, k, lock)
    case GrantCommitTs(k) => s.(tso := s.tso + 1, granted := s.granted[k := s.tso + 1])
    case CommitLock(k, ts) => Removed(s, k).(committed := s.committed + {(k, s.lockCf[k], ts)})
    case Rollback(k) => Removed(s, k)
  }

  ghost function AdvanceAfter(req: Request, s: State, step: Step): Advance
    requires Enabled(req, s, step) && OnAdvance(step)
  {
    match step
    case BeginAdvance(ts, accepted) => if accepted then Scanning(ts, None) else Idle
    case ScanKey(k) =>
      var m := s.advance.minTs;
      Scanning(if s.writers[k].Published? then Min(m, s.writers[k].lock.ts) else m, Some(k))
    case EndScan => Confirming(s.advance.minTs)
    case Confirm(_) => Idle
  }

  ghost function ReaderAfter(req: Request, s: State, step: Step): Reader
    requires Enabled(req, s, step) && OnReader(step)
  {
    match step
    case UpdateMaxTs(accepted) =>
      if !req.stale && req.startTs != TS_MAX && !accepted then Rejected
      else Checking(if req.NeedsCheck() then 0 else |req.ranges|, None)
    case Visit(k) =>
      if s.writers[k].Published? && !Passes(req, k, s.writers[k].lock) then Rejected
      else Checking(s.reader.next, Some(k))
    case EndRange => Checking(s.reader.next + 1, None)
    case FinishCheck => if req.stale && req.startTs > s.safeTs then Rejected else Cleared
    case TakeSnapshot =>
      if req.stale && req.startTs > s.safeTs then Rejected else Passed(Snapshot(s.lockCf, s.committed))
  }

  /** Whether the step raises the maximum timestamp, and to what. */
  function Raises(req: Request, step: Step): nat {
    match step
    case RaiseMaxTs(ts) => ts
    case BeginAdvance(ts, accepted) => if accepted then ts else 0
    case UpdateMaxTs(accepted) => if accepted && !req.stale && req.startTs != TS_MAX then req.startTs else 0
    case _ => 0
  }

  ghost function Apply(req: Request, s: State, step: Step): State
    requires Enabled(req, s, step)
  {
    var t := s.(maxTs := Max(s.maxTs, Raises(req, step)));
    if OnReader(step) then t.(reader := ReaderAfter(req, s, step))
    else if OnStore(step) then
      StoreAfter(req, s, step).(writers := if step.Persist? then WritersAfter(req, s, step) else s.writers)
    else if OnTable(step) then t.(writers := WritersAfter(req, s, step))
    else if OnAdvance(step) then
      t.(tso := if step.BeginAdvance? then Max(s.tso, step.ts) else s.tso,
         advance := AdvanceAfter(req, s, step),
         tasks := if step.Confirm? && step.leads then s.tasks + [Resolve(s.advance.minTs)] else s.tasks)
    else match step
      case DrawTs(count) => t.(tso := s.tso + count)
      case HandleTask(oldest) =>
        t.(tasks := s.tasks[1..], tracked := Handle(s.tracked, s.tasks[0]),
           safeTs := if s.tasks[0].Resolve? then Max(s.safeTs, oldest) else s.safeTs)
      case _ => t
  }

  ghost predicate Legal(req: Request, s: State, steps: seq<Step>)
    decreases |steps|
  {
    steps == [] || (Enabled(req, s, steps[0]) && Legal(req, Apply(req, s, steps[0]), steps[1..]))
  }

  ghost function After(req: Request, s: State, steps: seq<Step>): State
    requires Legal(req, s, steps)
    decreases |steps|
  {
    if steps == [] then s else After(req, Apply(req, s, steps[0]), steps[1..])
  }

  lemma {:induction false} RunExtends(req: Request, s: State, steps: seq<Step>, step: Step)
    requires Legal(req, s, steps) && Enabled(req, After(req, s, steps), step)
    ensures Legal(req, s, steps + [step])
    ensures After(req, s, steps + [step]) == Apply(req, After(req, s, steps), step)
    decreases |steps|
  {
    hide Enabled, Apply;
    if steps == [] {
      assert [step][1..] == [];
    } else {
      RunExtends(req, Apply(req, s, steps[0]), steps[1..], step);
      assert (steps + [step])[1..] == steps[1..] + [step];
    }
  }

  lemma CountersGrow(req: Request, s: State, step: Step)
    requires Enabled(req, s, step)
    ensures s.tso <= Apply(req, s, step).tso
    ensures s.maxTs <= Apply(req, s, step).maxTs
    ensures s.safeTs <= Apply(req, s, step).safeTs
  {
    hide Enabled, Raises, ReaderAfter, StoreAfter, WritersAfter, AdvanceAfter, Handle;
    var s' := Apply(req, s, step);
    if OnStore(step) {
      assert s'.maxTs == s.maxTs && s'.safeTs == s.safeTs;
    } else {
      assert s'.maxTs == Max(s.maxTs, Raises(req, step));
    }
  }

  lemma FrameOfTable(req: Request, s: State, step: Step)
    requires Enabled(req, s, step)
    ensures !OnTable(step) ==> Apply(req, s, step).writers == s.writers
    ensures !OnReader(step) ==> Apply(req, s, step).reader == s.reader
    ensures !OnAdvance(step) ==> Apply(req, s, step).advance == s.advance
  {
    hide Enabled, Raises, Max, ReaderAfter, StoreAfter, WritersAfter, AdvanceAfter, Handle;
  }

  lemma FrameOfStore(req: Request, s: State, step: Step)
    requires Enabled(req, s, step)
    ensures var s' := Apply(req, s, step);
      && (!OnStore(step) ==> s'.lockCf == s.lockCf && s'.granted == s.granted && s'.committed == s.committed)
      && (!step.HandleTask? ==> s'.tracked == s.tracked && s'.safeTs == s.safeTs)
      && (!step.HandleTask? && !OnStore(step) && !step.Confirm? ==> s'.tasks == s.tasks)
  {
    hide Enabled, Raises, Max, ReaderAfter, StoreAfter, WritersAfter, AdvanceAfter, Handle;
  }

  /** What a step leaves alone, and what never goes back. */
  lemma Frame(req: Request, s: State, step: Step)
    requires Enabled(req, s, step)
    ensures var s' := Apply(req, s, step);
      && s.tso <= s'.tso && s.maxTs <= s'.maxTs && s.safeTs <= s'.safeTs
      && (!OnTable(step) ==> s'.writers == s.writers)
      && (!OnReader(step) ==> s'.reader == s.reader)
      && (!OnAdvance(step) ==> s'.advance == s.advance)
      && (!OnStore(step) ==> s'.lockCf == s.lockCf && s'.granted == s.granted && s'.committed == s.committed)
      && (!step.HandleTask? ==> s'.tracked == s.tracked && s'.safeTs == s.safeTs)
      && (!step.HandleTask? && !OnStore(step) && !step.Confirm? ==> s'.tasks == s.tasks)
  {
    CountersGrow(req, s, step);
    FrameOfTable(req, s, step);
    FrameOfStore(req, s, step);
    hide Enabled, Apply;
  }

  /** A run from `s` to `t`. */
  ghost predicate Runs(req: Request, s: State, steps: seq<Step>, t: State) {
    Legal(req, s, steps) && After(req, s, steps) == t
  }

  lemma Then(req: Request, s: State, steps: seq<Step>, t: State, step: Step)
    requires Runs(req, s, steps, t) && Enabled(req, t, step)
    ensures Runs(req, s, steps + [step], Apply(req, t, step))
  {
    RunExtends(req, s, steps, step);
  }

  /** A commit the read should have seen and did not: on one of its keys, at or below its timestamp,
      of data, that its snapshot shows neither as a commit nor as a lock, and that it was not told to
      bypass. */
  ghost predicate Missed(req: Request, s: State, k: Bytes, lock: Lock, ts: nat) {
    && s.reader.Passed? && (k, lock, ts) in s.committed
    && req.Covers(k) && ts <= req.startTs && lock.WritesData()
    && (k, lock, ts) !in s.reader.snapshot.commits && !s.reader.snapshot.Shows(k, lock)
    && lock.ts !in req.bypass
  }

  ghost predicate NothingMissed(req: Request, s: State) {
    forall k: Bytes, lock: Lock, ts: nat :: !Missed(req, s, k, lock, ts)
  }

  /** The shape of what the writers publish and what gets committed: a commit follows its start. */
  ghost predicate Stamps(s: State) {
    && (forall k | k in s.writers && s.writers[k].Published? :: s.writers[k].lock.ts < s.writers[k].lock.minCommitTs)
    && (forall c | c in s.committed :: c.1.ts < c.2)
  }

  lemma StepKeepsStamps(req: Request, s: State, step: Step)
    requires Stamps(s) && Enabled(req, s, step)
    ensures Stamps(Apply(req, s, step))
  {
    if OnTable(step) || OnStore(step) {
      hide Ahead, Unscanned, Passes, Handle;
    } else {
      Frame(req, s, step);
      hide Apply, Enabled;
    }
  }

  lemma {:induction false} RunKeepsStamps(req: Request, s: State, steps: seq<Step>)
    requires Stamps(s) && Legal(req, s, steps)
    ensures Stamps(After(req, s, steps))
    decreases |steps|
  {
    hide Stamps, Enabled, Apply;
    if steps != [] {
      StepKeepsStamps(req, s, steps[0]);
      RunKeepsStamps(req, Apply(req, s, steps[0]), steps[1..]);
    }
  }
}
