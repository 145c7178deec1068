/** Reads are not refused or held up without reason: a read goes through when nothing in its way blocks it,
    it is never stuck, and what snapshot isolation refuses would have been missed. */
module ReadProgress {
  import opened Prelude
  import opened MemoryLocks
  import opened CheckedReads
  import opened UncheckedReads

  /** The keys that the reader has yet to visit in a range. */
  ghost function ToVisit(req: Request, s: State, n: nat, cursor: Option<Bytes>): set<Bytes>
    requires n < |req.ranges|
  {
    set k | k in s.writers && req.ranges[n].Contains(k) && Beyond(cursor, k)
  }

  ghost predicate IsLeast(keys: set<Bytes>, k: Bytes) {
    k in keys && forall k' | k' in keys :: k' == k || Less(k, k')
  }

  lemma ToVisitAfter(req: Request, s: State, n: nat, cursor: Option<Bytes>, k: Bytes)
    requires n < |req.ranges| && IsLeast(ToVisit(req, s, n, cursor), k)
    ensures ToVisit(req, s, n, Some(k)) == ToVisit(req, s, n, cursor) - {k}
  {
    if Less(k, k) { LessIsAsymmetric(k, k); }
    forall k' | k' in ToVisit(req, s, n, Some(k)) ensures k' in ToVisit(req, s, n, cursor) {
      if cursor.Some? { LessIsTransitive(cursor.value, k, k'); }
    }
  }

  lemma LeastCanBeVisited(req: Request, s: State, n: nat, cursor: Option<Bytes>, k: Bytes)
    requires n < |req.ranges| && IsLeast(ToVisit(req, s, n, cursor), k) && !s.writers[k].InSection?
    ensures Enabled(req, s.(reader := Checking(n, cursor)), Visit(k))
  {
    var t := s.(reader := Checking(n, cursor));
    forall k' | k' in t.writers && Ahead(req, t, k') ensures !Less(k', k) {
      assert k' in ToVisit(req, s, n, cursor);
      if k' == k && Less(k, k) { LessIsAsymmetric(k, k); }
      if k' != k { LessIsAsymmetric(k, k'); }
    }
  }

  lemma RangeCanEnd(req: Request, s: State, n: nat, cursor: Option<Bytes>)
    requires n < |req.ranges| && ToVisit(req, s, n, cursor) == {}
    ensures var t := s.(reader := Checking(n, cursor));
      Enabled(req, t, EndRange) && Apply(req, t, EndRange) == s.(reader := Checking(n + 1, None))
  {
    var t := s.(reader := Checking(n, cursor));
    forall k | k in t.writers ensures !Ahead(req, t, k) { assert k !in ToVisit(req, s, n, cursor); }
  }

  /** A reader on its way is never stuck: it can step, or a writer whose key is next can publish. */
  lemma ReaderCanStep(req: Request, s: State) returns (step: Step)
    requires !s.reader.Passed? && !s.reader.Rejected? && (s.reader.NotStarted? ==> Drawn(req, s))
    requires s.reader.Checking? ==> s.reader.next <= |req.ranges|
    ensures Enabled(req, s, step) && (OnReader(step) || step.Publish?)
  {
    match s.reader
    case NotStarted => step := UpdateMaxTs(true);
    case Cleared => step := TakeSnapshot;
    case Checking(n, cursor) =>
      assert s.(reader := Checking(n, cursor)) == s;
      if n == |req.ranges| {
        step := FinishCheck;
      } else if ToVisit(req, s, n, cursor) == {} {
        RangeCanEnd(req, s, n, cursor);
        step := EndRange;
      } else {
        var k := LeastKey(ToVisit(req, s, n, cursor));
        if s.writers[k].InSection? {
          step := Publish(k);
        } else {
          LeastCanBeVisited(req, s, n, cursor, k);
          step := Visit(k);
        }
      }
  }

  /** Nothing on the way blocks the read: no writer is in its section, and every published lock on a key of
      the range passes. */
  ghost predicate ClearWay(req: Request, s: State, n: nat)
    requires n < |req.ranges|
  {
    forall k | k in s.writers && req.ranges[n].Contains(k) ::
      !s.writers[k].InSection? && (s.writers[k].Published? ==> Passes(req, k, s.writers[k].lock))
  }

  lemma VisitGoesOn(req: Request, s0: State, before: seq<Step>, s: State, n: nat, cursor: Option<Bytes>, k: Bytes)
    requires n < |req.ranges| && IsLeast(ToVisit(req, s, n, cursor), k) && ClearWay(req, s, n)
    requires Runs(req, s0, before, s.(reader := Checking(n, cursor)))
    ensures Runs(req, s0, before + [Visit(k)], s.(reader := Checking(n, Some(k))))
  {
    hide Runs;
    LeastCanBeVisited(req, s, n, cursor, k);
    Then(req, s0, before, s.(reader := Checking(n, cursor)), Visit(k));
    hide Enabled;
    assert k in ToVisit(req, s, n, cursor);
  }

  lemma {:induction false} WalkRange(req: Request, s0: State, before: seq<Step>, s: State, n: nat,
                                     cursor: Option<Bytes>)
    returns (steps: seq<Step>)
    requires n < |req.ranges| && ClearWay(req, s, n) && Runs(req, s0, before, s.(reader := Checking(n, cursor)))
    ensures Runs(req, s0, steps, s.(reader := Checking(n + 1, None)))
    decreases |ToVisit(req, s, n, cursor)|
  {
    hide Runs, Enabled, Apply, ClearWay;
    if ToVisit(req, s, n, cursor) == {} {
      RangeCanEnd(req, s, n, cursor);
      Then(req, s0, before, s.(reader := Checking(n, cursor)), EndRange);
      steps := before + [EndRange];
    } else {
      var k := LeastKey(ToVisit(req, s, n, cursor));
      VisitGoesOn(req, s0, before, s, n, cursor, k);
      ToVisitAfter(req, s, n, cursor, k);
      steps := WalkRange(req, s0, before + [Visit(k)], s, n, Some(k));
    }
  }

  lemma {:induction false} WalkRanges(req: Request, s0: State, before: seq<Step>, s: State, n: nat)
    returns (steps: seq<Step>)
    requires n <= |req.ranges| && Runs(req, s0, before, s.(reader := Checking(n, None)))
    requires forall i: nat | n <= i < |req.ranges| :: ClearWay(req, s, i)
    ensures Runs(req, s0, steps, s.(reader := Checking(|req.ranges|, None)))
    decreases |req.ranges| - n
  {
    hide Runs, ClearWay;
    if n == |req.ranges| {
      steps := before;
    } else {
      var steps0 := WalkRange(req, s0, before, s, n, None);
      steps := WalkRanges(req, s0, steps0, s, n + 1);
    }
  }

  lemma StartRun(req: Request, s: State)
    requires s.reader.NotStarted? && Drawn(req, s)
    ensures var raised := if req.stale || req.startTs == TS_MAX then s.maxTs else Max(s.maxTs, req.startTs);
      Runs(req, s, [UpdateMaxTs(true)],
           s.(maxTs := raised, reader := Checking(if req.iso.Rc? then |req.ranges| else 0, None)))
  {
    assert Runs(req, s, [], s);
    Then(req, s, [], s, UpdateMaxTs(true));
    assert [] + [UpdateMaxTs(true)] == [UpdateMaxTs(true)];
  }

  lemma EndRun(req: Request, s0: State, before: seq<Step>, s: State)
    requires Runs(req, s0, before, s.(reader := Checking(|req.ranges|, None)))
    requires req.stale ==> req.startTs <= s.safeTs
    ensures Runs(req, s0, before + [FinishCheck] + [TakeSnapshot], s.(reader := Passed(Snapshot(s.lockCf, s.committed))))
  {
    hide Runs;
    Then(req, s0, before, s.(reader := Checking(|req.ranges|, None)), FinishCheck);
    Then(req, s0, before + [FinishCheck], s.(reader := Cleared), TakeSnapshot);
  }

  /** A read that nothing blocks goes through, and reads the store as it is: its timestamp is accepted, the
      locks on its keys pass or its level ignores them, and if it is stale the resolved timestamp has
      reached it. */
  lemma ReadGoesThrough(req: Request, s: State) returns (steps: seq<Step>)
    requires s.reader.NotStarted? && Drawn(req, s) && (req.stale ==> req.startTs <= s.safeTs)
    requires req.iso.Rc? || forall i: nat | i < |req.ranges| :: ClearWay(req, s, i)
    ensures Legal(req, s, steps) && After(req, s, steps).reader == Passed(Snapshot(s.lockCf, s.committed))
  {
    StartRun(req, s);
    var raised := if req.stale || req.startTs == TS_MAX then s.maxTs else Max(s.maxTs, req.startTs);
    var t := s.(maxTs := raised);
    steps := [UpdateMaxTs(true)];
    if !req.iso.Rc? {
      forall i: nat | i < |req.ranges| ensures ClearWay(req, t, i) { assert ClearWay(req, s, i); }
      steps := WalkRanges(req, s, steps, t, 0);
    }
    EndRun(req, s, steps, t);
    steps := steps + [FinishCheck] + [TakeSnapshot];
  }

  // What is refused would have been missed

  lemma {:induction false} OthersLeave(req: Request, s: State, k: Bytes)
    requires k in s.writers && CanMiss(req, s.(writers := map[k := s.writers[k]]))
    ensures CanMiss(req, s)
    decreases |s.writers|
  {
    hide CanMiss;
    if s.writers.Keys == {k} {
      assert s.writers == map[k := s.writers[k]];
    } else {
      var other :| other in s.writers && other != k;
      var step := if s.writers[other].InSection? then Fallback(other) else Leave(other);
      var t := Apply(req, s, step);
      assert t == s.(writers := s.writers - {other});
      assert t.writers.Keys == s.writers.Keys - {other};
      assert t.(writers := map[k := t.writers[k]]) == s.(writers := map[k := s.writers[k]]);
      OthersLeave(req, t, k);
      StepThenMiss(req, s, step);
    }
  }

  /** With only `k` in the table, and no later range that has it, the reader gets to its snapshot. */
  lemma {:induction false} RestOfTheCheck(req: Request, s: State, k: Bytes)
    requires !req.stale && s.reader.Checking? && s.reader.next <= |req.ranges| && s.writers.Keys == {k}
    requires s.reader.next < |req.ranges| ==>
      !req.ranges[s.reader.next].Contains(k) || (s.reader.cursor == Some(k))
    requires forall j: nat | s.reader.next < j < |req.ranges| :: !req.ranges[j].Contains(k)
    requires CanMiss(req, s.(reader := Passed(Snapshot(s.lockCf, s.committed))))
    ensures CanMiss(req, s)
    decreases |req.ranges| - s.reader.next
  {
    hide CanMiss;
    if s.reader.next == |req.ranges| {
      SnapshotNext(req, s);
    } else {
      if Less(k, k) { LessIsAsymmetric(k, k); }
      var n, cursor := s.reader.next, s.reader.cursor;
      assert ToVisit(req, s, n, cursor) == {};
      assert s.(reader := Checking(n, cursor)) == s;
      RangeCanEnd(req, s, n, cursor);
      var t := s.(reader := Checking(n + 1, None));
      var snapshot := Snapshot(s.lockCf, s.committed);
      assert t.(reader := Passed(snapshot)) == s.(reader := Passed(snapshot));
      RestOfTheCheck(req, t, k);
      StepThenMiss(req, s, EndRange);
    }
  }

  /** A published, unwritten lock that is not harmless commits at or below the read's timestamp. */
  lemma UnwrittenIsMissed(req: Request, s: State, k: Bytes)
    requires s.writers.Keys == {k} && s.writers[k].Published? && !s.writers[k].written && req.Covers(k)
    requires s.reader == Passed(Snapshot(s.lockCf, s.committed)) && k !in s.lockCf
    requires var lock := s.writers[k].lock;
      && !Harmless(req, lock) && lock.ts < lock.minCommitTs && (lock.asyncCommit || lock.onePc)
      && (k, lock, lock.minCommitTs) !in s.committed
    ensures CanMiss(req, s)
  {
    var lock := s.writers[k].lock;
    var s1 := Apply(req, s, Persist(k));
    if lock.onePc {
      assert Missed(req, s1, k, lock, lock.minCommitTs);
      assert Legal(req, s1, []) && !NothingMissed(req, After(req, s1, []));
    } else {
      var commit := CommitLock(k, lock.minCommitTs);
      var s2 := Apply(req, s1, commit);
      assert Missed(req, s2, k, lock, lock.minCommitTs);
      assert Legal(req, s2, []) && !NothingMissed(req, After(req, s2, []));
      StepThenMiss(req, s1, commit);
    }
    StepThenMiss(req, s, Persist(k));
  }

  /** The refusals of snapshot isolation are needed. If the reader went on past a lock that the check does
      not let it pass, one that is yet to be written and that no later range visits again, some run
      would end with a commit that the read has missed. */
  lemma RefusalIsNeeded(req: Request, s: State, k: Bytes)
    requires req.Checked() && req.iso.Si? && Stamps(s) && Enabled(req, s, Visit(k))
    requires s.writers[k].Published? && !s.writers[k].written && k !in s.lockCf
    requires forall j: nat | s.reader.next < j < |req.ranges| :: !req.ranges[j].Contains(k)
    requires var lock := s.writers[k].lock;
      && !Passes(req, k, lock) && (lock.asyncCommit || lock.onePc) && (k, lock, lock.minCommitTs) !in s.committed
    ensures CanMiss(req, s.(reader := Checking(s.reader.next, Some(k))))
  {
    PassesExactly(req, k, s.writers[k].lock);
    var t := s.(reader := Checking(s.reader.next, Some(k)), writers := map[k := s.writers[k]]);
    var snapshot := Snapshot(s.lockCf, s.committed);
    assert req.Covers(k);
    hide CanMiss, Passes, Harmless;
    UnwrittenIsMissed(req, t.(reader := Passed(snapshot)), k);
    RestOfTheCheck(req, t, k);
    OthersLeave(req, s.(reader := Checking(s.reader.next, Some(k))), k);
  }
}
