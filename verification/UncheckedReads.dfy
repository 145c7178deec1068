/** Which reads can miss a commit: runs in which they do, and the exact condition. */
module UncheckedReads {
  import opened Prelude
  import opened MemoryLocks
  import CheckedReads
  import StaleReads

  /** Some run from here ends with a commit the read missed. */
  ghost predicate CanMiss(req: Request, s: State) {
    exists steps :: Legal(req, s, steps) && !NothingMissed(req, After(req, s, steps))
  }

  lemma StepThenMiss(req: Request, s: State, step: Step)
    requires Enabled(req, s, step) && CanMiss(req, Apply(req, s, step))
    ensures CanMiss(req, s)
  {
    hide Enabled, Apply, NothingMissed;
    var rest :| Legal(req, Apply(req, s, step), rest) && !NothingMissed(req, After(req, Apply(req, s, step), rest));
    var run := [step] + rest;
    assert run[1..] == rest;
    assert Legal(req, s, run) && !NothingMissed(req, After(req, s, run));
  }

  const EMPTY := Snapshot(map[], {})

  /** An async-commit write of data; the runs below set its timestamps. */
  const ASYNC_PUT := Lock(0, 0, PutLock, [], true, false)

  /** A read for which there is something to miss: a key, and a start timestamp below its own that it
      does not bypass. */
  ghost predicate Misses(req: Request, k: Bytes, t: nat) {
    req.Covers(k) && t < req.startTs && t !in req.bypass
  }

  /** A published but unwritten lock that the read passed over commits at or below its timestamp. */
  lemma PublishedIsMissed(req: Request, s: State, k: Bytes, t: nat)
    requires s.reader == Passed(EMPTY) && s.lockCf == map[]
    requires s.writers == map[k := Published(ASYNC_PUT.(ts := t, minCommitTs := t + 1), false)]
    requires Misses(req, k, t)
    ensures CanMiss(req, s)
  {
    var lock := s.writers[k].lock;
    var s1 := Apply(req, s, Persist(k));
    assert s1.lockCf == map[k := lock];
    var s2 := Apply(req, s1, CommitLock(k, t + 1));
    assert Missed(req, s2, k, lock, t + 1);
    assert Legal(req, s2, []) && !NothingMissed(req, After(req, s2, []));
    StepThenMiss(req, s1, CommitLock(k, t + 1));
    StepThenMiss(req, s, Persist(k));
  }

  /** A writer of `k` comes and publishes, having seen no maximum timestamp. */
  lemma PublishFirst(req: Request, s: State, k: Bytes, t: nat)
    requires s.writers == map[] && s.maxTs == 0
    requires CanMiss(req, s.(writers := map[k := Published(ASYNC_PUT.(ts := t, minCommitTs := t + 1), false)]))
    ensures CanMiss(req, s)
  {
    hide CanMiss;
    var s1 := Apply(req, s, Enter(k, ASYNC_PUT.(ts := t), 0));
    var s2 := Apply(req, s1, StartSection(k));
    var s3 := Apply(req, s2, Publish(k));
    assert s3.writers == map[k := Published(ASYNC_PUT.(ts := t, minCommitTs := t + 1), false)];
    StepThenMiss(req, s2, Publish(k));
    StepThenMiss(req, s1, StartSection(k));
    StepThenMiss(req, s, Enter(k, ASYNC_PUT.(ts := t), 0));
  }

  /** Past its check, a read that is not stale takes its snapshot. */
  lemma SnapshotNext(req: Request, s: State)
    requires !req.stale && s.reader.Checking? && s.reader.next == |req.ranges|
    requires CanMiss(req, s.(reader := Passed(Snapshot(s.lockCf, s.committed))))
    ensures CanMiss(req, s)
  {
    hide CanMiss;
    var s1 := Apply(req, s, FinishCheck);
    StepThenMiss(req, s1, TakeSnapshot);
    StepThenMiss(req, s, FinishCheck);
  }

  /** A check over an empty table goes through all the ranges. */
  lemma {:induction false} EmptyTablePasses(req: Request, s: State)
    requires !req.stale && s.reader.Checking? && s.reader.next <= |req.ranges| && s.writers == map[]
    requires CanMiss(req, s.(reader := Passed(Snapshot(s.lockCf, s.committed))))
    ensures CanMiss(req, s)
    decreases |req.ranges| - s.reader.next
  {
    hide CanMiss;
    if s.reader.next == |req.ranges| {
      SnapshotNext(req, s);
    } else {
      var s1 := Apply(req, s, EndRange);
      var snapshot := Snapshot(s.lockCf, s.committed);
      assert s1.(reader := Passed(snapshot)) == s.(reader := Passed(snapshot));
      EmptyTablePasses(req, s1);
      StepThenMiss(req, s, EndRange);
    }
  }

  /** A read at the maximum timestamp leaves the maximum alone: a later writer commits below it. */
  lemma MaxTsReadCanMiss(req: Request, k: Bytes, t: nat)
    requires !req.stale && req.startTs == TS_MAX && Misses(req, k, t)
    ensures CanMiss(req, Initial)
  {
    hide CanMiss, Misses;
    var s1 := Apply(req, Initial, UpdateMaxTs(true));
    var read := s1.(reader := Passed(EMPTY));
    var writer := Published(ASYNC_PUT.(ts := t, minCommitTs := t + 1), false);
    PublishedIsMissed(req, read.(writers := map[k := writer]), k, t);
    PublishFirst(req, read, k, t);
    EmptyTablePasses(req, s1);
    StepThenMiss(req, Initial, UpdateMaxTs(true));
  }

  /** A read that checks no locks passes over one that is published but not yet written. */
  lemma UncheckedReadCanMiss(req: Request, k: Bytes, t: nat)
    requires !req.stale && !req.NeedsCheck() && Misses(req, k, t)
    ensures CanMiss(req, Initial)
  {
    hide CanMiss, Misses;
    var s0 := Initial.(tso := req.startTs);
    var s1 := s0.(writers := map[k := Published(ASYNC_PUT.(ts := t, minCommitTs := t + 1), false)]);
    var s2 := Apply(req, s1, UpdateMaxTs(true));
    PublishedIsMissed(req, s2.(reader := Passed(EMPTY)), k, t);
    SnapshotNext(req, s2);
    StepThenMiss(req, s1, UpdateMaxTs(true));
    PublishFirst(req, s0, k, t);
    StepThenMiss(req, Initial, DrawTs(req.startTs));
  }

  /** Exactly which reads can miss a commit: those that are not stale, and at the maximum timestamp or at a
      level that checks no locks, if there is anything for them to miss. */
  lemma MissesExactlyWhenUnchecked(req: Request)
    ensures CanMiss(req, Initial) <==>
      !req.stale && (req.startTs == TS_MAX || req.iso.Rc?) && exists k: Bytes, t: nat :: Misses(req, k, t)
  {
    if CanMiss(req, Initial) {
      var steps :| Legal(req, Initial, steps) && !NothingMissed(req, After(req, Initial, steps));
      if req.stale {
        StaleReads.StaleReadMissesNothing(req, steps);
      } else if req.Checked() {
        CheckedReads.CheckedReadMissesNothing(req, steps);
      } else {
        var s := After(req, Initial, steps);
        RunKeepsStamps(req, Initial, steps);
        hide After, Legal, Initial;
        var k: Bytes, lock: Lock, ts: nat :| Missed(req, s, k, lock, ts);
        assert Misses(req, k, lock.ts);
      }
    }
    if !req.stale && (req.startTs == TS_MAX || req.iso.Rc?) && exists k: Bytes, t: nat :: Misses(req, k, t) {
      var k: Bytes, t: nat :| Misses(req, k, t);
      if req.startTs == TS_MAX {
        MaxTsReadCanMiss(req, k, t);
      } else {
        UncheckedReadCanMiss(req, k, t);
      }
    }
  }
}
