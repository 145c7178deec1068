/** Reads protected by the in-memory lock check: not stale, below the maximum timestamp, at an isolation
    level that checks locks. */
module CheckedReads {
  import opened Prelude
  import opened MemoryLocks

  /** A lock that cannot lead to a missed commit. */
  predicate Harmless(req: Request, lock: Lock) {
    lock.ts > req.startTs || lock.minCommitTs > req.startTs || !lock.WritesData() || lock.ts in req.bypass
  }

  /** The keys the reader's check has dealt with. */
  predicate DealtWith(req: Request, reader: Reader, k: Bytes) {
    match reader
    case NotStarted => false
    case Rejected => false
    case Checking(next, cursor) =>
      || (exists j | 0 <= j < |req.ranges| :: j < next && req.ranges[j].Contains(k))
      || (next < |req.ranges| && req.ranges[next].Contains(k) && !Beyond(cursor, k))
    case Cleared => req.Covers(k)
    case Passed(_) => req.Covers(k)
  }

  /** On such a key, whatever a writer has published or is about to publish is harmless. */
  ghost predicate WriterHarmless(req: Request, w: Writer) {
    match w
    case Entered(_, _) => true
    case InSection(_, _, seen) => seen >= req.startTs
    case Published(lock, _) => Harmless(req, lock)
  }

  ghost predicate Started(reader: Reader) { reader.Checking? || reader.Cleared? || reader.Passed? }

  /** A written lock that cannot lead to a missed commit: an ordinary one is granted a later timestamp. */
  ghost predicate EntryHarmless(req: Request, s: State, k: Bytes)
    requires k in s.lockCf
  {
    Harmless(req, s.lockCf[k])
    || (!s.lockCf[k].asyncCommit && (k in s.granted ==> s.granted[k] > req.startTs))
  }

  ghost predicate Inv(req: Request, s: State) {
    && Stamps(s)
    && (Started(s.reader) ==> s.maxTs >= req.startTs && s.tso >= req.startTs)
    && (s.reader.Checking? ==> s.reader.next <= |req.ranges|)
    && (forall k | k in s.writers && DealtWith(req, s.reader, k) :: WriterHarmless(req, s.writers[k]))
    && (s.reader.Passed? ==>
          forall k | k in s.lockCf && req.Covers(k) ::
            s.reader.snapshot.Shows(k, s.lockCf[k]) || EntryHarmless(req, s, k))
    && NothingMissed(req, s)
  }

  /** Exactly which locks the check lets a read pass over. With snapshot isolation below the maximum
      timestamp: those that cannot lead to a missed commit, no more and no fewer. At the maximum: also an
      ordinary lock on its own primary key. When timestamps are only checked: those without data and
      those to bypass. */
  lemma PassesExactly(req: Request, k: Bytes, lock: Lock)
    ensures req.iso.Si? && req.startTs != 0xFFFF_FFFF_FFFF_FFFF ==>
      (Passes(req, k, lock) <==>
         lock.lockType.LockOnly? || lock.lockType.Pessimistic? || lock.ts > req.startTs
         || lock.minCommitTs > req.startTs || lock.ts in req.bypass)
    ensures req.iso.Si? && req.startTs != TS_MAX ==> (Passes(req, k, lock) <==> Harmless(req, lock))
    ensures req.iso.Si? && req.startTs == TS_MAX ==>
      (Passes(req, k, lock) <==>
         Harmless(req, lock) || (k == lock.primary && !lock.asyncCommit && !lock.onePc))
    ensures req.iso.RcCheckTs? ==>
      (Passes(req, k, lock) <==> lock.lockType.LockOnly? || lock.lockType.Pessimistic? || lock.ts in req.bypass)
    ensures req.iso.Rc? ==> Passes(req, k, lock)
  {
  }

  lemma PassingIsHarmless(req: Request, k: Bytes, lock: Lock)
    requires req.Checked() && Passes(req, k, lock)
    ensures Harmless(req, lock)
  {
  }

  lemma SameCommitsSameMisses(req: Request, s: State, s': State)
    requires NothingMissed(req, s) && s'.reader == s.reader && s'.committed == s.committed
    ensures NothingMissed(req, s')
  {
    forall k: Bytes, lock: Lock, ts: nat ensures !Missed(req, s', k, lock, ts) {
      assert !Missed(req, s, k, lock, ts);
    }
  }

  /** A writer at work keeps the table harmless. */
  lemma TableStaysHarmless(req: Request, s: State, step: Step, k: Bytes)
    requires req.Checked() && Inv(req, s) && Enabled(req, s, step) && !OnReader(step)
    requires k in Apply(req, s, step).writers && DealtWith(req, s.reader, k)
    ensures WriterHarmless(req, Apply(req, s, step).writers[k])
  {
    hide Stamps, NothingMissed, DealtWith, Ahead, Unscanned, Passes, Handle;
    assert Started(s.reader) by { DealtWithIsStarted(req, s.reader, k); }
    if !OnTable(step) {
      Frame(req, s, step);
      hide Apply, Enabled;
    }
  }

  lemma DealtWithIsStarted(req: Request, reader: Reader, k: Bytes)
    requires DealtWith(req, reader, k)
    ensures Started(reader)
  {
  }

  /** Writers at work in the table, and the advance of the resolved timestamp. */
  lemma TableStepKeepsInv(req: Request, s: State, step: Step)
    requires req.Checked() && Inv(req, s) && Enabled(req, s, step) && !OnReader(step) && !OnStore(step)
    ensures Inv(req, Apply(req, s, step))
  {
    var s' := Apply(req, s, step);
    StepKeepsStamps(req, s, step);
    Frame(req, s, step);
    SameCommitsSameMisses(req, s, s');
    forall k | k in s'.writers && DealtWith(req, s'.reader, k) ensures WriterHarmless(req, s'.writers[k]) {
      TableStaysHarmless(req, s, step, k);
    }
    hide Stamps, NothingMissed, DealtWith, Apply, Enabled, WriterHarmless, Harmless;
  }

  /** A commit through a lock that the snapshot shows, or a harmless one, is not missed. */
  lemma CommitIsNotMissed(req: Request, s: State, s': State, k: Bytes, lock: Lock, ts: nat)
    requires NothingMissed(req, s) && s'.reader == s.reader && s'.committed == s.committed + {(k, lock, ts)}
    requires lock.minCommitTs <= ts && lock.ts < ts
    requires s.reader.Passed? && req.Covers(k) ==>
      s.reader.snapshot.Shows(k, lock) || Harmless(req, lock) || ts > req.startTs
    ensures NothingMissed(req, s')
  {
    forall k': Bytes, lock': Lock, ts': nat ensures !Missed(req, s', k', lock', ts') {
      assert !Missed(req, s, k', lock', ts');
    }
  }

  /** Writing a lock, granting a timestamp, committing and rolling back keep the written locks harmless. */
  lemma StoreStaysHarmless(req: Request, s: State, step: Step, k: Bytes)
    requires req.Checked() && Inv(req, s) && Enabled(req, s, step) && OnStore(step) && s.reader.Passed?
    requires k in Apply(req, s, step).lockCf && req.Covers(k)
    ensures s.reader.snapshot.Shows(k, Apply(req, s, step).lockCf[k]) || EntryHarmless(req, Apply(req, s, step), k)
  {
    hide Stamps, NothingMissed, Request.Covers, Harmless;
  }

  lemma StoreStepKeepsInv(req: Request, s: State, step: Step)
    requires req.Checked() && Inv(req, s) && Enabled(req, s, step) && OnStore(step)
    ensures Inv(req, Apply(req, s, step))
  {
    StepKeepsStamps(req, s, step);
    Frame(req, s, step);
    var s', k := Apply(req, s, step), step.k;
    if step.Persist? && s.writers[k].lock.onePc {
      CommitIsNotMissed(req, s, s', k, s.writers[k].lock, s.writers[k].lock.minCommitTs);
    } else if step.CommitLock? {
      CommitIsNotMissed(req, s, s', k, s.lockCf[k], step.ts);
    } else {
      SameCommitsSameMisses(req, s, s');
    }
    forall k | k in s'.writers && DealtWith(req, s'.reader, k) ensures WriterHarmless(req, s'.writers[k]) {
      TableStaysHarmless(req, s, step, k);
    }
    if s.reader.Passed? {
      forall k | k in s'.lockCf && req.Covers(k)
        ensures s'.reader.snapshot.Shows(k, s'.lockCf[k]) || EntryHarmless(req, s', k)
      {
        StoreStaysHarmless(req, s, step, k);
      }
    }
    hide Stamps, NothingMissed, DealtWith, Request.Covers, Apply, Enabled, WriterHarmless, EntryHarmless;
  }

  /** Visiting the next key deals with no other key of the table. */
  lemma VisitDealsWithItsKey(req: Request, s: State, k: Bytes, k': Bytes)
    requires Enabled(req, s, Visit(k)) && k' in s.writers && k' != k
    requires DealtWith(req, Checking(s.reader.next, Some(k)), k')
    ensures DealtWith(req, s.reader, k')
  {
    LessIsTotal(k, k');
  }

  lemma VisitKeepsInv(req: Request, s: State, k: Bytes)
    requires req.Checked() && Inv(req, s) && Enabled(req, s, Visit(k))
    ensures Inv(req, Apply(req, s, Visit(k)))
  {
    var s' := Apply(req, s, Visit(k));
    if s'.reader.Checking? {
      if s.writers[k].Published? {
        PassingIsHarmless(req, k, s.writers[k].lock);
      }
      forall k' | k' in s'.writers && DealtWith(req, s'.reader, k') ensures WriterHarmless(req, s'.writers[k']) {
        if k' != k {
          VisitDealsWithItsKey(req, s, k, k');
        }
      }
    }
  }

  /** Leaving a range: no key of it is left in the table beyond the cursor. */
  lemma EndRangeKeepsInv(req: Request, s: State)
    requires Inv(req, s) && Enabled(req, s, EndRange)
    ensures Inv(req, Apply(req, s, EndRange))
  {
    var s' := Apply(req, s, EndRange);
    forall k | k in s'.writers && DealtWith(req, s'.reader, k) ensures WriterHarmless(req, s'.writers[k]) {
      assert !Ahead(req, s, k);
      assert DealtWith(req, s.reader, k);
    }
  }

  lemma StepKeepsInv(req: Request, s: State, step: Step)
    requires req.Checked() && Inv(req, s) && Enabled(req, s, step)
    ensures Inv(req, Apply(req, s, step))
  {
    if step.Visit? {
      VisitKeepsInv(req, s, step.k);
    } else if step.EndRange? {
      EndRangeKeepsInv(req, s);
    } else if OnStore(step) {
      StoreStepKeepsInv(req, s, step);
    } else if !OnReader(step) {
      TableStepKeepsInv(req, s, step);
    }
  }

  lemma {:induction false} RunKeepsInv(req: Request, s: State, steps: seq<Step>)
    requires req.Checked() && Inv(req, s) && Legal(req, s, steps)
    ensures Inv(req, After(req, s, steps))
    decreases |steps|
  {
    hide Inv, Enabled, Apply;
    if steps != [] {
      StepKeepsInv(req, s, steps[0]);
      RunKeepsInv(req, Apply(req, s, steps[0]), steps[1..]);
    }
  }

  /** A read that passes its check misses nothing, whatever the interleaving of its range loop with the
      writers: every commit at or below its timestamp is in its snapshot, goes through a lock that the
      snapshot shows, or through one it was told to bypass. */
  lemma CheckedReadMissesNothing(req: Request, steps: seq<Step>)
    requires req.Checked() && Legal(req, Initial, steps)
    ensures NothingMissed(req, After(req, Initial, steps))
  {
    RunKeepsInv(req, Initial, steps);
  }
}
