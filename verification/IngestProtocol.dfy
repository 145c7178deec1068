/** Many ingest requests at once, interleaved at every access to the latch and the admission guard. */
module IngestProtocol {
  import opened Prelude
  import opened Counting
  import opened IngestLatch

  /** Where a request stands. `Checking` and `Acquiring` hold the admission guard. */
  datatype Stage =
    | Arrived
    | Checking
    | Acquiring(next: nat)
    | Ingesting
    | Releasing
    | Finished

  /** `held` lists the files the request has latched and not yet released, in order. */
  datatype Request = Request(ssts: seq<Meta>, stage: Stage, held: seq<Meta>)

  datatype State = State(slots: set<Slot>, guard: Option<nat>, requests: seq<Request>)

  datatype Step =
    | Arrive(ssts: seq<Meta>)
    | Suspend(r: nat)
    | LockGuard(r: nat)
    | StallCheck(r: nat, env: StallEnv)
    | AcquireOne(r: nat)
    | UnlockGuard(r: nat)
    | IngestDone(r: nat)
    | ReleaseOne(r: nat)
    | Finish(r: nat)

  ghost predicate Init(s: State) {
    s == State({}, None, [])
  }

  predicate At(s: State, r: nat, stage: Stage) {
    r < |s.requests| && s.requests[r].stage == stage
  }

  ghost predicate Enabled(s: State, step: Step) {
    match step
    case Arrive(_) => true
    case Suspend(r) => At(s, r, Arrived)
    case LockGuard(r) => At(s, r, Arrived) && s.guard.None?
    case StallCheck(r, _) => At(s, r, Checking)
    case AcquireOne(r) =>
      r < |s.requests| && s.requests[r].stage.Acquiring? && s.requests[r].stage.next < |s.requests[r].ssts|
    case UnlockGuard(r) => r < |s.requests| && s.requests[r].stage == Acquiring(|s.requests[r].ssts|)
    case IngestDone(r) => At(s, r, Ingesting)
    case ReleaseOne(r) => At(s, r, Releasing) && s.requests[r].held != []
    case Finish(r) => At(s, r, Releasing) && s.requests[r].held == []
  }

  function Goto(s: State, r: nat, stage: Stage): State
    requires r < |s.requests|
  {
    s.(requests := s.requests[r := s.requests[r].(stage := stage)])
  }

  ghost function Apply(s: State, step: Step): State
    requires Enabled(s, step)
  {
    match step
    case Arrive(ssts) => s.(requests := s.requests + [Request(ssts, Arrived, [])])
    case Suspend(r) => Goto(s, r, Finished)
    case LockGuard(r) => Goto(s, r, Checking).(guard := Some(r))
    case StallCheck(r, env) =>
      if CheckWriteStall(env, CountCf(s.slots, CF_WRITE)) == Admit then Goto(s, r, Acquiring(0))
      else Goto(s, r, Finished).(guard := None)
    case AcquireOne(r) =>
      var req := s.requests[r];
      var meta := req.ssts[req.stage.next];
      var onward := req.(stage := Acquiring(req.stage.next + 1));
      if meta.path.Some? && SlotOf(meta) !in s.slots then
        s.(slots := s.slots + {SlotOf(meta)}, requests := s.requests[r := onward.(held := req.held + [meta])])
      else
        s.(requests := s.requests[r := onward])
    case UnlockGuard(r) =>
      Goto(s, r, if |s.requests[r].held| < |s.requests[r].ssts| then Releasing else Ingesting).(guard := None)
    case IngestDone(r) => Goto(s, r, Releasing)
    case ReleaseOne(r) =>
      var req := s.requests[r];
      var removed := if req.held[0].path.Some? then s.slots - {SlotOf(req.held[0])} else s.slots;
      s.(slots := removed, requests := s.requests[r := req.(held := req.held[1..])])
    case Finish(r) => Goto(s, r, Finished)
  }

  ghost predicate Legal(s: State, steps: seq<Step>)
    decreases |steps|
  {
    steps == [] || (Enabled(s, steps[0]) && Legal(Apply(s, steps[0]), steps[1..]))
  }

  ghost function After(s: State, steps: seq<Step>): State
    requires Legal(s, steps)
    decreases |steps|
  {
    if steps == [] then s else After(Apply(s, steps[0]), steps[1..])
  }

  lemma {:induction false} RunExtends(s: State, steps: seq<Step>, step: Step)
    requires Legal(s, steps) && Enabled(After(s, steps), step)
    ensures Legal(s, steps + [step]) && After(s, steps + [step]) == Apply(After(s, steps), step)
    decreases |steps|
  {
    hide Enabled, Apply;
    if steps == [] {
      assert [step][1..] == [];
    } else {
      RunExtends(Apply(s, steps[0]), steps[1..], step);
      assert (steps + [step])[1..] == steps[1..] + [step];
    }
  }

  /** How often a slot occurs among some files. */
  function Occurrences(metas: seq<Meta>, slot: Slot): nat {
    if metas == [] then 0
    else (if metas[0].path.Some? && SlotOf(metas[0]) == slot then 1 else 0) + Occurrences(metas[1..], slot)
  }

  function HoldsSlot(slot: Slot): Request -> nat {
    (r: Request) => Occurrences(r.held, slot)
  }

  function InWriteCf(metas: seq<Meta>): nat {
    if metas == [] then 0 else (if metas[0].cf == CF_WRITE then 1 else 0) + InWriteCf(metas[1..])
  }

  lemma {:induction false} OccurrencesAppend(metas: seq<Meta>, meta: Meta, slot: Slot)
    ensures Occurrences(metas + [meta], slot) ==
      Occurrences(metas, slot) + (if meta.path.Some? && SlotOf(meta) == slot then 1 else 0)
    ensures InWriteCf(metas + [meta]) == InWriteCf(metas) + (if meta.cf == CF_WRITE then 1 else 0)
  {
    if metas != [] {
      assert (metas + [meta])[1..] == metas[1..] + [meta];
      OccurrencesAppend(metas[1..], meta, slot);
    }
  }

  lemma {:induction false} OccursAt(metas: seq<Meta>, i: nat)
    requires i < |metas| && metas[i].path.Some?
    ensures Occurrences(metas, SlotOf(metas[i])) >= 1
  {
    if i > 0 {
      OccursAt(metas[1..], i - 1);
    }
  }

  lemma {:induction false} OccursTwice(metas: seq<Meta>, i: nat, j: nat)
    requires i < j < |metas| && metas[i] == metas[j] && metas[i].path.Some?
    ensures Occurrences(metas, SlotOf(metas[i])) >= 2
  {
    if i == 0 {
      OccursAt(metas[1..], j - 1);
    } else {
      OccursTwice(metas[1..], i - 1, j - 1);
    }
  }

  /** The latch is the disjoint union of what the requests hold: a slot in the latch is held once, by
      one request, and a slot outside it by none. */
  ghost predicate LatchIsUnion(s: State) {
    forall slot: Slot :: Sum(s.requests, HoldsSlot(slot)) == if slot in s.slots then 1 else 0
  }

  ghost predicate GuardConsistent(s: State) {
    && (s.guard.Some? ==> s.guard.value < |s.requests|)
    && forall r: nat | r < |s.requests| ::
        s.requests[r].stage.Checking? || s.requests[r].stage.Acquiring? <==> s.guard == Some(r)
  }

  ghost predicate RequestConsistent(req: Request) {
    && (forall m | m in req.held :: m.path.Some?)
    && match req.stage
       case Arrived => req.held == []
       case Checking => req.held == []
       case Acquiring(next) =>
         && next <= |req.ssts| && |req.held| <= next
         && (|req.held| == next ==> req.held == req.ssts[..next])
         && InWriteCf(req.held) <= InWriteCf(req.ssts[..next])
       case Ingesting => req.held == req.ssts
       case Releasing => true
       case Finished => req.held == []
  }

  ghost predicate Inv(s: State) {
    && LatchIsUnion(s) && GuardConsistent(s)
    && forall r: nat | r < |s.requests| :: RequestConsistent(s.requests[r])
  }

  lemma InsertKeepsUnion(s: State, r: nat)
    requires Inv(s) && Enabled(s, AcquireOne(r))
    ensures LatchIsUnion(Apply(s, AcquireOne(r)))
  {
    hide Sum, GuardConsistent;
    var s' := Apply(s, AcquireOne(r));
    var req := s.requests[r];
    var meta := req.ssts[req.stage.next];
    forall slot: Slot ensures Sum(s'.requests, HoldsSlot(slot)) == if slot in s'.slots then 1 else 0 {
      SumUpdate(s.requests, r, s'.requests[r], HoldsSlot(slot));
      OccurrencesAppend(req.held, meta, slot);
    }
  }

  lemma RemoveKeepsUnion(s: State, r: nat)
    requires Inv(s) && Enabled(s, ReleaseOne(r))
    ensures LatchIsUnion(Apply(s, ReleaseOne(r)))
    ensures s.requests[r].held[0].path.Some? && SlotOf(s.requests[r].held[0]) in s.slots
  {
    hide Sum, GuardConsistent;
    var s' := Apply(s, ReleaseOne(r));
    var req := s.requests[r];
    assert RequestConsistent(req);
    var own := SlotOf(req.held[0]);
    OccursAt(req.held, 0);
    SumIsAtLeast(s.requests, r, HoldsSlot(own));
    forall slot: Slot ensures Sum(s'.requests, HoldsSlot(slot)) == if slot in s'.slots then 1 else 0 {
      SumUpdate(s.requests, r, s'.requests[r], HoldsSlot(slot));
    }
  }

  /** Steps that move no file leave the union alone. */
  lemma OtherStepsKeepUnion(s: State, step: Step)
    requires Inv(s) && Enabled(s, step) && !step.AcquireOne? && !step.ReleaseOne?
    ensures LatchIsUnion(Apply(s, step))
  {
    hide Sum, GuardConsistent;
    var s' := Apply(s, step);
    forall slot: Slot ensures Sum(s'.requests, HoldsSlot(slot)) == if slot in s'.slots then 1 else 0 {
      if step.Arrive? {
        SumAppend(s.requests, s'.requests[|s.requests|], HoldsSlot(slot));
      } else {
        SumUpdate(s.requests, step.r, s'.requests[step.r], HoldsSlot(slot));
      }
    }
  }

  lemma AcquirerStaysConsistent(s: State, r: nat)
    requires Enabled(s, AcquireOne(r)) && RequestConsistent(s.requests[r])
    ensures RequestConsistent(Apply(s, AcquireOne(r)).requests[r])
  {
    var req := s.requests[r];
    var n := req.stage.next;
    assert req.ssts[..n + 1] == req.ssts[..n] + [req.ssts[n]];
    OccurrencesAppend(req.ssts[..n], req.ssts[n], ("", ""));
    OccurrencesAppend(req.held, req.ssts[n], ("", ""));
  }

  lemma RequestStaysConsistent(s: State, step: Step, r: nat)
    requires Inv(s) && Enabled(s, step) && r < |Apply(s, step).requests|
    ensures RequestConsistent(Apply(s, step).requests[r])
  {
    hide Sum, LatchIsUnion, GuardConsistent;
    var s' := Apply(s, step);
    if r < |s.requests| {
      assert RequestConsistent(s.requests[r]);
      if step == AcquireOne(r) {
        AcquirerStaysConsistent(s, r);
      } else if step == UnlockGuard(r) {
        assert s.requests[r].ssts[..|s.requests[r].ssts|] == s.requests[r].ssts;
      }
    }
  }

  lemma StepKeepsInv(s: State, step: Step)
    requires Inv(s) && Enabled(s, step)
    ensures Inv(Apply(s, step))
  {
    hide Sum, LatchIsUnion, RequestConsistent;
    match step {
      case AcquireOne(r) => InsertKeepsUnion(s, r);
      case ReleaseOne(r) => RemoveKeepsUnion(s, r);
      case _ => OtherStepsKeepUnion(s, step);
    }
    var s' := Apply(s, step);
    forall r: nat | r < |s'.requests| ensures RequestConsistent(s'.requests[r]) {
      RequestStaysConsistent(s, step, r);
    }
  }

  lemma InitIsInv(s: State)
    requires Init(s)
    ensures Inv(s)
  {
  }

  lemma {:induction false} RunKeepsInv(s: State, steps: seq<Step>)
    requires Inv(s) && Legal(s, steps)
    ensures Inv(After(s, steps))
    decreases |steps|
  {
    hide Inv, Enabled, Apply;
    if steps != [] {
      StepKeepsInv(s, steps[0]);
      RunKeepsInv(Apply(s, steps[0]), steps[1..]);
    }
  }

  /** No two requests hold the same file. */
  lemma HoldersAreDisjoint(s: State, r: nat, r': nat, m: Meta)
    requires Inv(s) && r < r' < |s.requests| && m in s.requests[r].held
    ensures m !in s.requests[r'].held
  {
    assert RequestConsistent(s.requests[r]);
    if m in s.requests[r'].held {
      var i :| 0 <= i < |s.requests[r].held| && s.requests[r].held[i] == m;
      var i' :| 0 <= i' < |s.requests[r'].held| && s.requests[r'].held[i'] == m;
      OccursAt(s.requests[r].held, i);
      OccursAt(s.requests[r'].held, i');
      SumOfTwo(s.requests, r, r', HoldsSlot(SlotOf(m)));
    }
  }

  /** In every interleaving: while requests ingest, no file is with two of them, none is named twice
      by one of them, and all of them are in the latch. */
  lemma IngestingIsExclusive(s: State, steps: seq<Step>, r: nat, i: nat, r': nat, i': nat)
    requires Init(s) && Legal(s, steps)
    requires At(After(s, steps), r, Ingesting) && At(After(s, steps), r', Ingesting) && r <= r'
    requires i < |After(s, steps).requests[r].ssts| && i' < |After(s, steps).requests[r'].ssts|
    ensures var m := After(s, steps).requests[r].ssts[i];
      && m.path.Some? && SlotOf(m) in After(s, steps).slots
      && (m == After(s, steps).requests[r'].ssts[i'] ==> r == r' && i == i')
  {
    hide Sum;
    InitIsInv(s);
    RunKeepsInv(s, steps);
    var t := After(s, steps);
    hide After, Legal;
    assert RequestConsistent(t.requests[r]) && RequestConsistent(t.requests[r']);
    var m := t.requests[r].ssts[i];
    OccursAt(t.requests[r].held, i);
    SumIsAtLeast(t.requests, r, HoldsSlot(SlotOf(m)));
    if m == t.requests[r'].ssts[i'] {
      if r != r' {
        HoldersAreDisjoint(t, r, r', m);
      } else if i < i' {
        OccursTwice(t.requests[r].held, i, i');
      } else if i' < i {
        OccursTwice(t.requests[r].held, i', i);
      }
    }
  }

  /** A request that names a file twice, or a file without a path, never gets to ingest. */
  lemma BadRequestIsRejected(s: State, steps: seq<Step>, r: nat)
    requires Init(s) && Legal(s, steps) && r < |After(s, steps).requests|
    requires var ssts := After(s, steps).requests[r].ssts;
      (exists m :: m in ssts && m.path.None?) || (exists i, j :: 0 <= i < j < |ssts| && ssts[i] == ssts[j])
    ensures !After(s, steps).requests[r].stage.Ingesting?
  {
    var t := After(s, steps);
    var ssts := t.requests[r].ssts;
    if At(t, r, Ingesting) {
      if m :| m in ssts && m.path.None? {
        var i :| 0 <= i < |ssts| && ssts[i] == m;
        IngestingIsExclusive(s, steps, r, i, r, i);
      } else {
        var i, j :| 0 <= i < j < |ssts| && ssts[i] == ssts[j];
        IngestingIsExclusive(s, steps, r, i, r, j);
      }
    }
  }

  /** Releasing never fails and only ever gives back a slot of the request's own. */
  lemma ReleaseNeverFails(s: State, steps: seq<Step>, r: nat)
    requires Init(s) && Legal(s, steps) && Enabled(After(s, steps), ReleaseOne(r))
    ensures var t := After(s, steps);
      var m := t.requests[r].held[0];
      && m.path.Some? && SlotOf(m) in t.slots
      && Apply(t, ReleaseOne(r)).slots == t.slots - {SlotOf(m)}
      && forall r': nat | r' < |t.requests| && r' != r :: m !in t.requests[r'].held
  {
    hide Sum;
    InitIsInv(s);
    RunKeepsInv(s, steps);
    var t := After(s, steps);
    hide After, Legal;
    RemoveKeepsUnion(t, r);
    var m := t.requests[r].held[0];
    forall r': nat | r' < |t.requests| && r' != r ensures m !in t.requests[r'].held {
      if r < r' {
        HoldersAreDisjoint(t, r, r', m);
      } else if m in t.requests[r'].held {
        HoldersAreDisjoint(t, r', r, m);
      }
    }
  }

  /** Nobody is stuck: an unfinished request can take its next step, unless it has just arrived and waits
      for the guard, and then the holder of the guard can take its own. */
  lemma SomeRequestCanStep(s: State, r: nat, env: StallEnv) returns (step: Step)
    requires Inv(s) && r < |s.requests| && !s.requests[r].stage.Finished?
    ensures Enabled(s, step) && !step.Arrive? && !step.Suspend?
    ensures step.r == (if s.requests[r].stage.Arrived? && s.guard.Some? then s.guard.value else r)
  {
    hide LatchIsUnion, Sum;
    var holder := if s.requests[r].stage.Arrived? && s.guard.Some? then s.guard.value else r;
    var req := s.requests[holder];
    assert RequestConsistent(req);
    match req.stage
    case Arrived => step := LockGuard(holder);
    case Checking => step := StallCheck(holder, env);
    case Acquiring(next) => step := if next < |req.ssts| then AcquireOne(holder) else UnlockGuard(holder);
    case Ingesting => step := IngestDone(holder);
    case Releasing => step := if req.held == [] then Finish(holder) else ReleaseOne(holder);
  }

  /** When every request has finished, the latch is empty: every exit path gave its slots back. */
  lemma QuiescentLatchIsEmpty(s: State, steps: seq<Step>)
    requires Init(s) && Legal(s, steps)
    requires forall r: nat | r < |After(s, steps).requests| :: At(After(s, steps), r, Finished)
    ensures After(s, steps).slots == {}
  {
    RunKeepsInv(s, steps);
    var t := After(s, steps);
    forall slot | slot in t.slots ensures false {
      forall r: nat | r < |t.requests| ensures HoldsSlot(slot)(t.requests[r]) == 0 {
        assert At(t, r, Finished) && RequestConsistent(t.requests[r]);
      }
      SumIsZero(t.requests, HoldsSlot(slot));
    }
  }

  /** Every request of a run names at most `k` write-CF files, and every stall check refuses from
      `threshold` on. */
  ghost predicate Throttled(steps: seq<Step>, threshold: nat, k: nat) {
    forall step | step in steps ::
      && (step.Arrive? ==> InWriteCf(step.ssts) <= k)
      && (step.StallCheck? ==> RefusesFrom(step.env, threshold))
  }

  /** While a request acquires, it alone can have taken the count past the threshold. */
  ghost predicate Bounded(s: State, threshold: nat, k: nat) {
    && CountCf(s.slots, CF_WRITE) <= threshold - 1 + k
    && (forall r: nat | r < |s.requests| :: InWriteCf(s.requests[r].ssts) <= k)
    && (forall r: nat | r < |s.requests| && s.requests[r].stage.Acquiring? ::
          CountCf(s.slots, CF_WRITE) <= threshold - 1 + InWriteCf(s.requests[r].held))
  }

  lemma {:induction false} InWriteCfOfPrefix(metas: seq<Meta>, n: nat)
    requires n <= |metas|
    ensures InWriteCf(metas[..n]) <= InWriteCf(metas)
  {
    if n > 0 {
      assert metas[..n][1..] == metas[1..][..n - 1];
      InWriteCfOfPrefix(metas[1..], n - 1);
    }
  }

  lemma AcquireKeepsBounded(s: State, r: nat, threshold: nat, k: nat)
    requires 1 <= threshold && Inv(s) && Bounded(s, threshold, k) && Enabled(s, AcquireOne(r))
    ensures Bounded(Apply(s, AcquireOne(r)), threshold, k)
  {
    hide Sum, LatchIsUnion;
    var s' := Apply(s, AcquireOne(r));
    var req, req' := s.requests[r], s'.requests[r];
    var meta := req.ssts[req.stage.next];
    assert RequestConsistent(req);
    AcquirerStaysConsistent(s, r);
    InWriteCfOfPrefix(req.ssts, req'.stage.next);
    OccurrencesAppend(req.held, meta, ("", ""));
    if s'.slots != s.slots {
      CountAfterInsert(s.slots, SlotOf(meta), CF_WRITE);
    }
    hide CountCf, InWriteCf, RequestConsistent;
    assert GuardConsistent(s);
  }

  lemma StepKeepsBounded(s: State, step: Step, threshold: nat, k: nat)
    requires 1 <= threshold && Inv(s) && Bounded(s, threshold, k)
    requires Enabled(s, step) && Throttled([step], threshold, k)
    ensures Bounded(Apply(s, step), threshold, k)
  {
    hide Sum, LatchIsUnion, CountCf, InWriteCf;
    var s' := Apply(s, step);
    assert step in [step];
    match step {
      case AcquireOne(r) => AcquireKeepsBounded(s, r, threshold, k);
      case ReleaseOne(r) =>
        assert RequestConsistent(s.requests[r]);
        CountAfterRemove(s.slots, SlotOf(s.requests[r].held[0]), CF_WRITE);
        hide RequestConsistent;
      case StallCheck(r, env) =>
        hide RequestConsistent;
        assert s'.slots == s.slots;
      case _ =>
        hide RequestConsistent;
        assert s'.slots == s.slots;
    }
  }

  lemma {:induction false} RunKeepsBounded(s: State, steps: seq<Step>, threshold: nat, k: nat)
    requires 1 <= threshold && Inv(s) && Bounded(s, threshold, k)
    requires Legal(s, steps) && Throttled(steps, threshold, k)
    ensures Bounded(After(s, steps), threshold, k)
    decreases |steps|
  {
    hide Inv, Bounded, Enabled, Apply;
    if steps != [] {
      assert steps[0] in steps && forall step | step in steps[1..] :: step in steps;
      StepKeepsInv(s, steps[0]);
      StepKeepsBounded(s, steps[0], threshold, k);
      RunKeepsBounded(Apply(s, steps[0]), steps[1..], threshold, k);
    }
  }

  /** Because admissions are serialised, the write-CF files in flight never exceed the threshold by
      more than one request's worth, whatever the interleaving. */
  lemma WriteCfIsBounded(s: State, steps: seq<Step>, threshold: nat, k: nat)
    requires Init(s) && 1 <= threshold && Legal(s, steps) && Throttled(steps, threshold, k)
    ensures CountCf(After(s, steps).slots, "write") <= threshold - 1 + k
  {
    InitIsInv(s);
    assert InCf(s.slots, CF_WRITE) == {};
    RunKeepsBounded(s, steps, threshold, k);
  }
}
