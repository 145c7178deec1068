/** Transactions that nobody gets in the way of, from their first step to their commit: what each kind of them
    leaves behind, and at which timestamp it commits. */
module Transactions {
  import opened Prelude
  import opened MemoryLocks

  /** The lock as its writer publishes it when it sees the present maximum timestamp. */
  ghost function PublishedLock(s: State, lock: Lock, forUpdateTs: nat): Lock {
    Stamped(InSection(lock, forUpdateTs, s.maxTs))
  }

  lemma EnterRun(req: Request, s: State, k: Bytes, lock: Lock, forUpdateTs: nat)
    requires k !in s.writers && (lock.asyncCommit || lock.onePc)
    ensures Runs(req, s, [Enter(k, lock, forUpdateTs)], s.(writers := s.writers[k := Entered(lock, forUpdateTs)]))
  {
    assert Runs(req, s, [], s);
    Then(req, s, [], s, Enter(k, lock, forUpdateTs));
    assert [] + [Enter(k, lock, forUpdateTs)] == [Enter(k, lock, forUpdateTs)];
  }

  lemma SectionRun(req: Request, s0: State, before: seq<Step>, s: State, k: Bytes, lock: Lock, forUpdateTs: nat)
    requires Runs(req, s0, before, s.(writers := s.writers[k := Entered(lock, forUpdateTs)]))
    ensures Runs(req, s0, before + [StartSection(k)],
                 s.(writers := s.writers[k := InSection(lock, forUpdateTs, s.maxTs)]))
  {
    hide Runs;
    var t := s.(writers := s.writers[k := Entered(lock, forUpdateTs)]);
    Then(req, s0, before, t, StartSection(k));
    var w := InSection(lock, forUpdateTs, s.maxTs);
    assert t.writers[k := w] == s.writers[k := w];
  }

  lemma PublishStep(req: Request, s0: State, before: seq<Step>, s: State, k: Bytes, w: Writer)
    requires w.InSection? && Runs(req, s0, before, s.(writers := s.writers[k := w]))
    ensures Runs(req, s0, before + [Publish(k)], s.(writers := s.writers[k := Published(Stamped(w), false)]))
  {
    hide Runs, Stamped;
    var t := s.(writers := s.writers[k := w]);
    Then(req, s0, before, t, Publish(k));
    assert t.writers[k := Published(Stamped(w), false)] == s.writers[k := Published(Stamped(w), false)];
  }

  lemma PublishRun(req: Request, s: State, k: Bytes, lock: Lock, forUpdateTs: nat) returns (steps: seq<Step>)
    requires k !in s.writers && (lock.asyncCommit || lock.onePc)
    ensures Runs(req, s, steps, s.(writers := s.writers[k := Published(PublishedLock(s, lock, forUpdateTs), false)]))
  {
    hide Runs, Stamped;
    EnterRun(req, s, k, lock, forUpdateTs);
    steps := [Enter(k, lock, forUpdateTs)];
    SectionRun(req, s, steps, s, k, lock, forUpdateTs);
    steps := steps + [StartSection(k)];
    PublishStep(req, s, steps, s, k, InSection(lock, forUpdateTs, s.maxTs));
    steps := steps + [Publish(k)];
  }

  lemma WriteRun(req: Request, s0: State, before: seq<Step>, s: State, k: Bytes, lock: Lock)
    requires k !in s.writers && k !in s.lockCf
    requires Runs(req, s0, before, s.(writers := s.writers[k := Published(lock, false)]))
    ensures Runs(req, s0, before + [Persist(k)] + [Leave(k)], Persisted(s, k, lock))
  {
    hide Runs;
    var s1 := s.(writers := s.writers[k := Published(lock, false)]);
    var s2 := Persisted(s, k, lock).(writers := s.writers[k := Published(lock, true)]);
    Then(req, s0, before, s1, Persist(k));
    assert Apply(req, s1, Persist(k)) == s2;
    Then(req, s0, before + [Persist(k)], s2, Leave(k));
    assert s2.writers - {k} == s.writers;
    assert Apply(req, s2, Leave(k)) == Persisted(s, k, lock);
  }

  /** A one-phase transaction commits in one write, at the least timestamp it may, and leaves no lock. */
  lemma OnePhaseRun(req: Request, s: State, k: Bytes, lock: Lock, forUpdateTs: nat) returns (steps: seq<Step>)
    requires k !in s.writers && k !in s.lockCf && k !in s.granted && lock.onePc
    ensures var published := PublishedLock(s, lock, forUpdateTs);
      Runs(req, s, steps, s.(committed := s.committed + {(k, published, published.minCommitTs)}))
  {
    hide Runs, Enabled, Apply;
    steps := PublishRun(req, s, k, lock, forUpdateTs);
    WriteRun(req, s, steps, s, k, PublishedLock(s, lock, forUpdateTs));
    steps := steps + [Persist(k)] + [Leave(k)];
    assert s.lockCf - {k} == s.lockCf && s.granted - {k} == s.granted;
  }

  lemma CommitRun(req: Request, s0: State, before: seq<Step>, s: State, k: Bytes, ts: nat)
    requires Runs(req, s0, before, s) && Enabled(req, s, CommitLock(k, ts))
    ensures Runs(req, s0, before + [CommitLock(k, ts)],
                 Removed(s, k).(committed := s.committed + {(k, s.lockCf[k], ts)}))
  {
    hide Runs;
    Then(req, s0, before, s, CommitLock(k, ts));
  }

  /** An async-commit transaction can commit at any timestamp from the least one on; its lock and its log
      entries are then gone from the lock column family and tracked and untracked in the log. */
  lemma AsyncCommitRun(req: Request, s: State, k: Bytes, lock: Lock, forUpdateTs: nat, ts: nat)
    returns (steps: seq<Step>)
    requires k !in s.writers && k !in s.lockCf && k !in s.granted
    requires lock.asyncCommit && !lock.onePc && lock.WritesData()
    requires ts >= PublishedLock(s, lock, forUpdateTs).minCommitTs
    ensures Runs(req, s, steps, s.(committed := s.committed + {(k, PublishedLock(s, lock, forUpdateTs), ts)},
                                   tasks := s.tasks + [Track(k, lock.ts)] + [Untrack(k)]))
  {
    hide Runs, Apply;
    var published := PublishedLock(s, lock, forUpdateTs);
    steps := PublishRun(req, s, k, lock, forUpdateTs);
    WriteRun(req, s, steps, s, k, published);
    steps := steps + [Persist(k)] + [Leave(k)];
    var written := Persisted(s, k, published);
    CommitRun(req, s, steps, written, k, ts);
    steps := steps + [CommitLock(k, ts)];
    assert written.lockCf - {k} == s.lockCf && written.granted - {k} == s.granted;
  }

  lemma GrantRun(req: Request, s0: State, before: seq<Step>, s: State, k: Bytes)
    requires Runs(req, s0, before, s) && k in s.lockCf && !s.lockCf[k].asyncCommit
    ensures Runs(req, s0, before + [GrantCommitTs(k)], s.(tso := s.tso + 1, granted := s.granted[k := s.tso + 1]))
  {
    hide Runs;
    Then(req, s0, before, s, GrantCommitTs(k));
  }

  lemma PlainWriteRun(req: Request, s: State, k: Bytes, lock: Lock)
    requires k !in s.lockCf && !lock.asyncCommit && !lock.onePc
    ensures Runs(req, s, [PlainWrite(k, lock)], Persisted(s, k, lock))
  {
    assert Runs(req, s, [], s);
    Then(req, s, [], s, PlainWrite(k, lock));
    assert [] + [PlainWrite(k, lock)] == [PlainWrite(k, lock)];
  }

  /** An ordinary transaction commits at the timestamp it is granted after its lock is written. */
  lemma OrdinaryCommitRun(req: Request, s: State, k: Bytes, lock: Lock) returns (steps: seq<Step>)
    requires k !in s.writers && k !in s.lockCf && k !in s.granted
    requires !lock.asyncCommit && !lock.onePc && lock.WritesData() && lock.ts <= s.tso && lock.minCommitTs <= s.tso + 1
    ensures Runs(req, s, steps, s.(tso := s.tso + 1, committed := s.committed + {(k, lock, s.tso + 1)},
                                   tasks := s.tasks + [Track(k, lock.ts)] + [Untrack(k)]))
  {
    hide Runs, Apply;
    PlainWriteRun(req, s, k, lock);
    var written := Persisted(s, k, lock);
    GrantRun(req, s, [PlainWrite(k, lock)], written, k);
    steps := [PlainWrite(k, lock)] + [GrantCommitTs(k)];
    var granted := written.(tso := s.tso + 1, granted := written.granted[k := s.tso + 1]);
    CommitRun(req, s, steps, granted, k, s.tso + 1);
    steps := steps + [CommitLock(k, s.tso + 1)];
    assert granted.lockCf - {k} == s.lockCf && granted.granted - {k} == s.granted;
  }

  /** When a transaction may go on or give up: exactly what each step asks of the key. */
  lemma KeyGuards(req: Request, s: State, k: Bytes, ts: nat, lock: Lock)
    ensures Enabled(req, s, Rollback(k)) <==> k in s.lockCf
    ensures k in s.lockCf && s.lockCf[k].asyncCommit ==>
      (Enabled(req, s, CommitLock(k, ts)) <==> ts >= s.lockCf[k].minCommitTs && ts > s.lockCf[k].ts)
    ensures !lock.asyncCommit && !lock.onePc ==>
      (Enabled(req, s, PlainWrite(k, lock)) <==> k !in s.lockCf || !s.lockCf[k].WritesData())
    ensures k in s.writers ==>
      && (Enabled(req, s, Fallback(k)) <==> s.writers[k].InSection?)
      && (Enabled(req, s, Leave(k)) <==> !s.writers[k].InSection?)
      && (Enabled(req, s, Persist(k)) <==>
            s.writers[k].Published? && !s.writers[k].written && (k !in s.lockCf || !s.lockCf[k].WritesData()))
  {
  }
}
