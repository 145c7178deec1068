/** One ingest request run on its own, against the latch, and the run of the protocol that it is. */
module IngestRequest {
  import opened Prelude
  import opened IngestLatch
  import opened IngestProtocol

  datatype Response = Suspended(remaining: nat) | Stalled(verdict: Verdict) | FileConflict | Ingested(result: Result<()>)

  /** All files of a request can be latched: they have paths, are distinct, and nobody holds them. */
  ghost predicate Latchable(slots: set<Slot>, ssts: seq<Meta>) {
    && (forall m | m in ssts :: m.path.Some? && SlotOf(m) !in slots)
    && (forall i, j | 0 <= i < j < |ssts| :: ssts[i] != ssts[j])
  }

  lemma LatchableNext(slots: set<Slot>, ssts: seq<Meta>, i: nat)
    requires i < |ssts|
    ensures Latchable(slots, ssts[..i + 1]) <==>
      Latchable(slots, ssts[..i]) && ssts[i].path.Some? && SlotOf(ssts[i]) !in slots && ssts[i] !in ssts[..i]
  {
    assert ssts[..i + 1] == ssts[..i] + [ssts[i]];
    if ssts[i] in ssts[..i] {
      var j :| 0 <= j < i && ssts[j] == ssts[i];
      assert ssts[..i + 1][j] == ssts[..i + 1][i];
    }
  }

  ghost function SlotsOf(metas: seq<Meta>): set<Slot>
    requires forall m | m in metas :: m.path.Some?
  {
    set m | m in metas :: SlotOf(m)
  }

  /** On top of what was latched before, the latch holds exactly these distinct files. */
  ghost predicate Holds(before: set<Slot>, slots: set<Slot>, metas: seq<Meta>) {
    && (forall m | m in metas :: m.path.Some?)
    && slots == before + SlotsOf(metas) && before !! SlotsOf(metas)
    && forall a, b | 0 <= a < b < |metas| :: metas[a] != metas[b]
  }

  lemma SlotIsFree(before: set<Slot>, slots: set<Slot>, metas: seq<Meta>, m: Meta)
    requires Holds(before, slots, metas) && m.path.Some?
    ensures SlotOf(m) !in slots <==> SlotOf(m) !in before && m !in metas
    ensures SlotOf(m) !in slots ==> Holds(before, slots + {SlotOf(m)}, metas + [m])
  {
    if SlotOf(m) !in slots {
      assert SlotsOf(metas + [m]) == SlotsOf(metas) + {SlotOf(m)};
    }
  }

  /** The requests of `s`, which stand still, and one more at the given point. */
  ghost function With(s: State, slots: set<Slot>, guard: Option<nat>, request: Request): State {
    State(slots, guard, s.requests + [request])
  }

  /** A run from `s` to `t`. */
  ghost predicate Runs(s: State, steps: seq<Step>, t: State) {
    Legal(s, steps) && After(s, steps) == t
  }

  lemma Then(s: State, steps: seq<Step>, t: State, step: Step)
    requires Runs(s, steps, t) && Enabled(t, step)
    ensures Runs(s, steps + [step], Apply(t, step))
  {
    RunExtends(s, steps, step);
  }

  lemma Admission(s: State, ssts: seq<Meta>, env: StallEnv) returns (steps: seq<Step>)
    requires s.guard.None?
    ensures var r := |s.requests|;
      && steps == [Arrive(ssts), LockGuard(r), StallCheck(r, env)]
      && if CheckWriteStall(env, CountCf(s.slots, CF_WRITE)) == Admit
         then Runs(s, steps, With(s, s.slots, Some(r), Request(ssts, Acquiring(0), [])))
         else Runs(s, steps, With(s, s.slots, None, Request(ssts, Finished, [])))
  {
    var r := |s.requests|;
    assert Runs(s, [], s);
    Then(s, [], s, Arrive(ssts));
    var t1 := Apply(s, Arrive(ssts));
    Then(s, [] + [Arrive(ssts)], t1, LockGuard(r));
    var t2 := Apply(t1, LockGuard(r));
    Then(s, [] + [Arrive(ssts)] + [LockGuard(r)], t2, StallCheck(r, env));
    steps := [] + [Arrive(ssts)] + [LockGuard(r)] + [StallCheck(r, env)];
    var t3 := Apply(t2, StallCheck(r, env));
    hide Runs, CheckWriteStall;
    assert t1 == With(s, s.slots, None, Request(ssts, Arrived, []));
    assert t2 == With(s, s.slots, Some(r), Request(ssts, Checking, []));
    assert t3 == if CheckWriteStall(env, CountCf(s.slots, CF_WRITE)) == Admit
                 then With(s, s.slots, Some(r), Request(ssts, Acquiring(0), []))
                 else With(s, s.slots, None, Request(ssts, Finished, []));
  }

  lemma Refusal(s: State, ssts: seq<Meta>) returns (steps: seq<Step>)
    ensures steps == [Arrive(ssts), Suspend(|s.requests|)]
    ensures Runs(s, steps, With(s, s.slots, s.guard, Request(ssts, Finished, [])))
  {
    var r := |s.requests|;
    assert Runs(s, [], s);
    Then(s, [], s, Arrive(ssts));
    var t1 := Apply(s, Arrive(ssts));
    Then(s, [] + [Arrive(ssts)], t1, Suspend(r));
    steps := [] + [Arrive(ssts)] + [Suspend(r)];
    assert Apply(t1, Suspend(r)) == With(s, s.slots, s.guard, Request(ssts, Finished, []));
  }

  lemma Acquisition(s: State, slots: set<Slot>, ssts: seq<Meta>, i: nat, held: seq<Meta>)
    requires i < |ssts|
    ensures var r := |s.requests|;
      var t := With(s, slots, Some(r), Request(ssts, Acquiring(i), held));
      && Enabled(t, AcquireOne(r))
      && Apply(t, AcquireOne(r)) ==
           if ssts[i].path.Some? && SlotOf(ssts[i]) !in slots
           then With(s, slots + {SlotOf(ssts[i])}, Some(r), Request(ssts, Acquiring(i + 1), held + [ssts[i]]))
           else With(s, slots, Some(r), Request(ssts, Acquiring(i + 1), held))
  {
  }

  lemma Decision(s: State, slots: set<Slot>, ssts: seq<Meta>, held: seq<Meta>)
    ensures var r := |s.requests|;
      var t := With(s, slots, Some(r), Request(ssts, Acquiring(|ssts|), held));
      && Enabled(t, UnlockGuard(r))
      && Apply(t, UnlockGuard(r)) ==
           With(s, slots, None, Request(ssts, if |held| < |ssts| then Releasing else Ingesting, held))
  {
  }

  lemma Ingestion(s: State, slots: set<Slot>, ssts: seq<Meta>, held: seq<Meta>)
    ensures var r := |s.requests|;
      var t := With(s, slots, None, Request(ssts, Ingesting, held));
      Enabled(t, IngestDone(r)) && Apply(t, IngestDone(r)) == With(s, slots, None, Request(ssts, Releasing, held))
  {
  }

  lemma ReleaseStep(s: State, slots: set<Slot>, ssts: seq<Meta>, held: seq<Meta>)
    ensures var r := |s.requests|;
      var t := With(s, slots, None, Request(ssts, Releasing, held));
      if held == [] then
        Enabled(t, Finish(r)) && Apply(t, Finish(r)) == With(s, slots, None, Request(ssts, Finished, []))
      else
        && Enabled(t, ReleaseOne(r))
        && (held[0].path.Some? ==>
              Apply(t, ReleaseOne(r)) == With(s, slots - {SlotOf(held[0])}, None, Request(ssts, Releasing, held[1..])))
  {
  }

  /** Releasing what was acquired gives back the latch as it was, and is the rest of the run. */
  method ReleaseAll(latch: IngestLatch, metas: seq<Meta>, ghost before: set<Slot>, ghost s: State,
                    ghost ssts: seq<Meta>, ghost prefix: seq<Step>)
    returns (ghost steps: seq<Step>)
    requires Holds(before, latch.slots, metas)
    requires Runs(s, prefix, With(s, latch.slots, None, Request(ssts, Releasing, metas)))
    modifies latch
    ensures latch.slots == before
    ensures Runs(s, prefix + steps, With(s, before, None, Request(ssts, Finished, [])))
    ensures forall step | step in steps :: step == ReleaseOne(|s.requests|) || step == Finish(|s.requests|)
  {
    hide Runs, With, Enabled, Apply;
    ghost var r := |s.requests|;
    steps := [];
    assert prefix + [] == prefix && metas[0..] == metas;
    for i := 0 to |metas|
      invariant latch.slots == before + SlotsOf(metas[i..])
      invariant Runs(s, prefix + steps, With(s, latch.slots, None, Request(ssts, Releasing, metas[i..])))
      invariant forall step | step in steps :: step == ReleaseOne(r)
    {
      assert metas[i..] == [metas[i]] + metas[i + 1..];
      assert SlotsOf(metas[i..]) == {SlotOf(metas[i])} + SlotsOf(metas[i + 1..]);
      assert SlotOf(metas[i]) !in SlotsOf(metas[i + 1..]) by {
        forall m | m in metas[i + 1..] ensures SlotOf(m) != SlotOf(metas[i]) {
          assert m != metas[i];
        }
      }
      ReleaseStep(s, latch.slots, ssts, metas[i..]);
      Then(s, prefix + steps, With(s, latch.slots, None, Request(ssts, Releasing, metas[i..])), ReleaseOne(r));
      assert prefix + steps + [ReleaseOne(r)] == prefix + (steps + [ReleaseOne(r)]);
      steps := steps + [ReleaseOne(r)];
      var released := latch.ReleaseLock(metas[i]);
      assert released == Ok(true);
    }
    assert metas[|metas|..] == [];
    ReleaseStep(s, latch.slots, ssts, []);
    Then(s, prefix + steps, With(s, latch.slots, None, Request(ssts, Releasing, [])), Finish(r));
    assert prefix + steps + [Finish(r)] == prefix + (steps + [Finish(r)]);
    steps := steps + [Finish(r)];
  }

  lemma NothingHeld(before: set<Slot>, ssts: seq<Meta>)
    ensures Holds(before, before, []) && Latchable(before, ssts[..0])
  {
  }

  /** Latches what it can of the files, and says which. */
  method AcquireAll(latch: IngestLatch, ssts: seq<Meta>, ghost s: State, ghost prefix: seq<Step>)
    returns (metas: seq<Meta>, ghost steps: seq<Step>)
    requires Runs(s, prefix, With(s, latch.slots, Some(|s.requests|), Request(ssts, Acquiring(0), [])))
    modifies latch
    ensures Holds(old(latch.slots), latch.slots, metas)
    ensures |metas| <= |ssts| && (|metas| == |ssts| <==> Latchable(old(latch.slots), ssts))
    ensures Runs(s, prefix + steps, With(s, latch.slots, Some(|s.requests|), Request(ssts, Acquiring(|ssts|), metas)))
    ensures forall step | step in steps :: step == AcquireOne(|s.requests|)
  {
    hide Runs, With, Enabled, Apply, Holds, Latchable;
    ghost var r, before := |s.requests|, latch.slots;
    metas, steps := [], [];
    assert prefix + [] == prefix;
    NothingHeld(before, ssts);
    for i := 0 to |ssts|
      invariant Holds(before, latch.slots, metas)
      invariant |metas| <= i && (|metas| == i <==> Latchable(before, ssts[..i]))
      invariant |metas| == i ==> metas == ssts[..i]
      invariant Runs(s, prefix + steps, With(s, latch.slots, Some(r), Request(ssts, Acquiring(i), metas)))
      invariant forall step | step in steps :: step == AcquireOne(r)
    {
      Acquisition(s, latch.slots, ssts, i, metas);
      Then(s, prefix + steps, With(s, latch.slots, Some(r), Request(ssts, Acquiring(i), metas)), AcquireOne(r));
      assert prefix + steps + [AcquireOne(r)] == prefix + (steps + [AcquireOne(r)]);
      steps := steps + [AcquireOne(r)];
      LatchableNext(before, ssts, i);
      if ssts[i].path.Some? {
        SlotIsFree(before, latch.slots, metas, ssts[i]);
      }
      ghost var was := latch.slots;
      var acquired := latch.AcquireLock(ssts[i]);
      assert acquired != Ok(true) ==> latch.slots == was;
      if acquired == Ok(true) {
        metas := metas + [ssts[i]];
      }
    }
    assert ssts[..|ssts|] == ssts;
  }

  /** One request with nobody else moving: which answer it gets, and that every exit leaves the latch as
      it found it. `result` is the outcome of the ingestion proper. It is a run of the protocol, from
      any state with this latch and a free guard, that ends with the request finished and all else as
      before; the run tells the four answers apart. */
  method Ingest(latch: IngestLatch, suspend: SuspendDeadline, now: nat, env: StallEnv, ssts: seq<Meta>,
                result: Result<()>, ghost s: State)
    returns (resp: Response, ghost steps: seq<Step>)
    requires s.slots == latch.slots && s.guard.None?
    modifies latch
    ensures latch.slots == old(latch.slots)
    ensures resp ==
      if now < suspend.until then Suspended(suspend.until - now)
      else if CheckWriteStall(env, CountCf(latch.slots, CF_WRITE)) != Admit then
        Stalled(CheckWriteStall(env, CountCf(latch.slots, CF_WRITE)))
      else if Latchable(latch.slots, ssts) then Ingested(result)
      else FileConflict
    ensures Runs(s, steps, With(s, s.slots, None, Request(ssts, Finished, [])))
    ensures var r := |s.requests|;
      && (resp.Suspended? <==> Suspend(r) in steps)
      && (resp.Stalled? <==> StallCheck(r, env) in steps && UnlockGuard(r) !in steps)
      && (resp.Ingested? <==> IngestDone(r) in steps)
  {
    hide Runs, With, Enabled, Apply, CheckWriteStall, CountCf, Latchable, Holds;
    ghost var r, before := |s.requests|, latch.slots;
    var remaining := suspend.CheckSuspend(now);
    assert remaining.Some? <==> suspend.Suspended(now);
    if remaining.Some? {
      steps := Refusal(s, ssts);
      return Suspended(remaining.value), steps;
    }
    var cnt := latch.CountSstsInCf(CF_WRITE);
    var verdict := CheckWriteStall(env, cnt);
    steps := Admission(s, ssts, env);
    if verdict != Admit {
      return Stalled(verdict), steps;
    }
    ghost var acquiring, releasing;
    var metas;
    metas, acquiring := AcquireAll(latch, ssts, s, steps);
    steps := steps + acquiring;
    Decision(s, latch.slots, ssts, metas);
    Then(s, steps, With(s, latch.slots, Some(r), Request(ssts, Acquiring(|ssts|), metas)), UnlockGuard(r));
    steps := steps + [UnlockGuard(r)];
    if |metas| == |ssts| {
      Ingestion(s, latch.slots, ssts, metas);
      Then(s, steps, With(s, latch.slots, None, Request(ssts, Ingesting, metas)), IngestDone(r));
      steps := steps + [IngestDone(r)];
    }
    releasing := ReleaseAll(latch, metas, before, s, ssts, steps);
    steps := steps + releasing;
    resp := if |metas| < |ssts| then FileConflict else Ingested(result);
  }
}
