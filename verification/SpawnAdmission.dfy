/** Spawning coprocessor tasks: a memory quota taken by compare-free atomics, then a pool limit that
    is checked and incremented in two steps. Every atomic access is a step of its own. */
module SpawnAdmission {
  import opened Counting

  const MAX_ALLOC: nat := 0x1_0000_0000_0000
  const ISIZE_MAX: nat := 0x7FFF_FFFF_FFFF_FFFF
  const USIZE_RANGE: nat := 0x1_0000_0000_0000_0000

  /** The cast of a signed difference: a negative one becomes huge. */
  function AsUsize(x: int): int { if x < 0 then x + USIZE_RANGE else x }

  function AdjustCapacity(capacity: nat): nat { if capacity < ISIZE_MAX then capacity else ISIZE_MAX }

  /** The first, optimistic test of `alloc`. */
  predicate MayFit(capacity: nat, inUse: int, bytes: nat) {
    bytes <= AsUsize(capacity - inUse) && bytes <= MAX_ALLOC
  }

  /** Giving bytes back, with the repair of a counter that would become negative. */
  function Free(inUse: int, bytes: nat): int {
    if bytes > MAX_ALLOC then inUse
    else if inUse - bytes < 0 then inUse - bytes + (if bytes - inUse < bytes then bytes - inUse else bytes)
    else inUse - bytes
  }

  datatype Priority = High | Medium | Low

  /** A spawn. The quota is `Added` before it is known whether it was granted; a refused or failed
      spawn gives it back; a task frees its quota before it leaves the running gauge. */
  datatype Stage =
    | Start
    | CapacityRead(capacity: nat)
    | Adding(capacity: nat)
    | Added(capacity: nat, before: int)
    | Granted
    | Checked
    | Running
    | QuotaFreed
    | Dropping
    | Done

  datatype Attempt = Attempt(bytes: nat, priority: Priority, stage: Stage)

  datatype State = State(
    inUse: int,
    capacity: nat,
    highestCapacity: nat,
    gauges: map<Priority, int>,
    maxTasks: nat,
    spawns: seq<Attempt>)

  datatype Step =
    | New(bytes: nat, priority: Priority)
    | SetCapacity(bytes: nat)
    | ReadCapacity(t: nat)
    | TestQuota(t: nat)
    | AddQuota(t: nat)
    | VerifyQuota(t: nat)
    | CheckPool(t: nat)
    | IncrementGauge(t: nat)
    | FreeQuota(t: nat)
    | DecrementGauge(t: nat)
    | DropFuture(t: nat)

  ghost predicate Init(s: State) {
    && s.inUse == 0 && s.capacity == s.highestCapacity <= ISIZE_MAX && s.spawns == []
    && forall p: Priority :: p in s.gauges && s.gauges[p] == 0
  }

  ghost predicate Enabled(s: State, step: Step) {
    match step
    case New(_, _) => true
    case SetCapacity(_) => true
    case ReadCapacity(t) => t < |s.spawns| && s.spawns[t].stage.Start?
    case TestQuota(t) => t < |s.spawns| && s.spawns[t].stage.CapacityRead?
    case AddQuota(t) => t < |s.spawns| && s.spawns[t].stage.Adding?
    case VerifyQuota(t) => t < |s.spawns| && s.spawns[t].stage.Added?
    case CheckPool(t) => t < |s.spawns| && s.spawns[t].stage.Granted? && s.spawns[t].priority in s.gauges
    case IncrementGauge(t) => t < |s.spawns| && s.spawns[t].stage.Checked? && s.spawns[t].priority in s.gauges
    case FreeQuota(t) => t < |s.spawns| && s.spawns[t].stage.Running?
    case DecrementGauge(t) => t < |s.spawns| && s.spawns[t].stage.QuotaFreed? && s.spawns[t].priority in s.gauges
    case DropFuture(t) => t < |s.spawns| && s.spawns[t].stage.Dropping?
  }

  function Goto(s: State, t: nat, stage: Stage): State
    requires t < |s.spawns|
  {
    s.(spawns := s.spawns[t := s.spawns[t].(stage := stage)])
  }

  ghost function Apply(s: State, step: Step): State
    requires Enabled(s, step)
  {
    match step
    case New(bytes, priority) => s.(spawns := s.spawns + [Attempt(bytes, priority, Start)])
    case SetCapacity(bytes) =>
      var c := AdjustCapacity(bytes);
      s.(capacity := c, highestCapacity := if c > s.highestCapacity then c else s.highestCapacity)
    case ReadCapacity(t) => Goto(s, t, CapacityRead(s.capacity))
    case TestQuota(t) =>
      var c := s.spawns[t].stage.capacity;
      Goto(s, t, if MayFit(c, s.inUse, s.spawns[t].bytes) then Adding(c) else Done)
    case AddQuota(t) =>
      Goto(s, t, Added(s.spawns[t].stage.capacity, s.inUse)).(inUse := s.inUse + s.spawns[t].bytes)
    case VerifyQuota(t) =>
      if s.spawns[t].bytes > s.spawns[t].stage.capacity - s.spawns[t].stage.before then
        Goto(s, t, Done).(inUse := s.inUse - s.spawns[t].bytes)
      else Goto(s, t, Granted)
    case CheckPool(t) => Goto(s, t, if s.gauges[s.spawns[t].priority] >= s.maxTasks then Dropping else Checked)
    case IncrementGauge(t) =>
      var p := s.spawns[t].priority;
      Goto(s, t, Running).(gauges := s.gauges[p := s.gauges[p] + 1])
    case FreeQuota(t) => Goto(s, t, QuotaFreed).(inUse := Free(s.inUse, s.spawns[t].bytes))
    case DecrementGauge(t) =>
      var p := s.spawns[t].priority;
      Goto(s, t, Done).(gauges := s.gauges[p := s.gauges[p] - 1])
    case DropFuture(t) => Goto(s, t, Done).(inUse := Free(s.inUse, s.spawns[t].bytes))
  }

  ghost predicate Legal(s: State, steps: seq<Step>)
    decreases |steps|
  {
    steps == [] || (Enabled(s, steps[0]) && Legal(Apply(s, steps[0]), steps[1..]))
  }

  ghost function After(s: State, steps: seq<Step>): State
    requires Legal(s, steps)
    decreases |steps|
  {
    if steps == [] then s else After(Apply(s, steps[0]), steps[1..])
  }

  lemma {:induction false} RunExtends(s: State, steps: seq<Step>, step: Step)
    requires Legal(s, steps) && Enabled(After(s, steps), step)
    ensures Legal(s, steps + [step]) && After(s, steps + [step]) == Apply(After(s, steps), step)
    decreases |steps|
  {
    hide Enabled, Apply;
    if steps == [] {
      assert [step][1..] == [];
    } else {
      RunExtends(Apply(s, steps[0]), steps[1..], step);
      assert (steps + [step])[1..] == steps[1..] + [step];
    }
  }

  predicate HoldsQuota(t: Attempt) {
    t.stage.Added? || t.stage.Granted? || t.stage.Checked? || t.stage.Running? || t.stage.Dropping?
  }

  /** Quota that has been granted, or is certain to be. */
  predicate HoldsGrant(t: Attempt) {
    HoldsQuota(t) && (t.stage.Added? ==> t.bytes <= t.stage.capacity - t.stage.before)
  }

  function QuotaBytes(): Attempt -> nat { (t: Attempt) => if HoldsQuota(t) then t.bytes else 0 }

  function GrantedBytes(): Attempt -> nat { (t: Attempt) => if HoldsGrant(t) then t.bytes else 0 }

  function InGauge(p: Priority): Attempt -> nat {
    (t: Attempt) => if t.priority == p && (t.stage.Running? || t.stage.QuotaFreed?) then 1 else 0
  }

  /** Spawns between the check and the increment. */
  function PastCheck(p: Priority): Attempt -> nat {
    (t: Attempt) => if t.priority == p && t.stage.Checked? then 1 else 0
  }

  ghost predicate SpawnConsistent(s: State, t: Attempt) {
    && (HoldsQuota(t) || t.stage.Adding? ==> t.bytes <= MAX_ALLOC)
    && (t.stage.CapacityRead? || t.stage.Adding? || t.stage.Added? ==> t.stage.capacity <= s.highestCapacity)
  }

  ghost predicate Inv(s: State) {
    && s.inUse == Sum(s.spawns, QuotaBytes())
    && Sum(s.spawns, GrantedBytes()) <= s.highestCapacity
    && (forall p: Priority :: p in s.gauges && s.gauges[p] == Sum(s.spawns, InGauge(p)))
    && s.capacity <= s.highestCapacity
    && forall t: nat | t < |s.spawns| :: SpawnConsistent(s, s.spawns[t])
  }

  /** How a step changes the sums: only through the spawn that takes it. */
  lemma StepSums(s: State, step: Step, weight: Attempt -> nat)
    requires Enabled(s, step)
    ensures var s' := Apply(s, step);
      match step
      case New(bytes, priority) =>
        Sum(s'.spawns, weight) == Sum(s.spawns, weight) + weight(Attempt(bytes, priority, Start))
      case SetCapacity(_) => s'.spawns == s.spawns
      case _ =>
        && step.t < |s.spawns| == |s'.spawns|
        && Sum(s'.spawns, weight) + weight(s.spawns[step.t]) == Sum(s.spawns, weight) + weight(s'.spawns[step.t])
  {
    var s' := Apply(s, step);
    match step
    case New(bytes, priority) => SumAppend(s.spawns, Attempt(bytes, priority, Start), weight);
    case SetCapacity(_) =>
    case _ => SumUpdate(s.spawns, step.t, s'.spawns[step.t], weight);
  }

  lemma QuotaConserved(s: State, step: Step)
    requires Inv(s) && Enabled(s, step)
    ensures Apply(s, step).inUse == Sum(Apply(s, step).spawns, QuotaBytes())
    ensures (step.FreeQuota? || step.DropFuture?) ==> Apply(s, step).inUse == s.inUse - s.spawns[step.t].bytes
  {
    hide Sum;
    StepSums(s, step, QuotaBytes());
    if !step.New? && !step.SetCapacity? {
      SumIsAtLeast(s.spawns, step.t, QuotaBytes());
      assert SpawnConsistent(s, s.spawns[step.t]);
    }
  }

  lemma GrantsStayWithinCapacity(s: State, step: Step)
    requires Inv(s) && Enabled(s, step)
    ensures Sum(Apply(s, step).spawns, GrantedBytes()) <= Apply(s, step).highestCapacity
  {
    hide Sum;
    StepSums(s, step, GrantedBytes());
    if step.AddQuota? {
      SumIsMonotone(s.spawns, GrantedBytes(), QuotaBytes());
      assert SpawnConsistent(s, s.spawns[step.t]);
    }
  }

  lemma GaugesConserved(s: State, step: Step, p: Priority)
    requires Inv(s) && Enabled(s, step)
    ensures p in Apply(s, step).gauges && Apply(s, step).gauges[p] == Sum(Apply(s, step).spawns, InGauge(p))
  {
    hide Sum;
    StepSums(s, step, InGauge(p));
  }

  lemma SpawnStaysConsistent(s: State, step: Step, t: nat)
    requires Inv(s) && Enabled(s, step) && t < |Apply(s, step).spawns|
    ensures SpawnConsistent(Apply(s, step), Apply(s, step).spawns[t])
  {
    hide Sum;
    if t < |s.spawns| {
      assert SpawnConsistent(s, s.spawns[t]);
    }
  }

  lemma StepKeepsInv(s: State, step: Step)
    requires Inv(s) && Enabled(s, step)
    ensures Inv(Apply(s, step))
  {
    hide Sum;
    var s' := Apply(s, step);
    QuotaConserved(s, step);
    GrantsStayWithinCapacity(s, step);
    forall p: Priority ensures p in s'.gauges && s'.gauges[p] == Sum(s'.spawns, InGauge(p)) {
      GaugesConserved(s, step, p);
    }
    forall t: nat | t < |s'.spawns| ensures SpawnConsistent(s', s'.spawns[t]) {
      SpawnStaysConsistent(s, step, t);
    }
    hide SpawnConsistent;
  }

  lemma {:induction false} RunKeepsInv(s: State, steps: seq<Step>)
    requires Inv(s) && Legal(s, steps)
    ensures Inv(After(s, steps))
    decreases |steps|
  {
    hide Inv, Enabled, Apply;
    if steps != [] {
      StepKeepsInv(s, steps[0]);
      RunKeepsInv(Apply(s, steps[0]), steps[1..]);
    }
  }

  lemma InitIsInv(s: State)
    requires Init(s)
    ensures Inv(s)
  {
  }

  /** In every interleaving: the quota in use is exactly what the spawns holding quota asked for, what
      has been granted never exceeds the highest capacity configured so far, and each running gauge is
      the number of its unfinished tasks. */
  lemma QuotaAndGaugesAreExact(s: State, steps: seq<Step>)
    requires Init(s) && Legal(s, steps)
    ensures var t := After(s, steps);
      && t.inUse == Sum(t.spawns, QuotaBytes())
      && Sum(t.spawns, GrantedBytes()) <= t.highestCapacity
      && forall p: Priority :: p in t.gauges && t.gauges[p] == Sum(t.spawns, InGauge(p))
  {
    InitIsInv(s);
    RunKeepsInv(s, steps);
  }

  /** Admission never blocks: a spawn that is not done can always take its next step. */
  lemma EverySpawnCanStep(s: State, t: nat) returns (step: Step)
    requires Inv(s) && t < |s.spawns| && !s.spawns[t].stage.Done?
    ensures !step.New? && !step.SetCapacity? && step.t == t && Enabled(s, step)
  {
    hide Sum;
    match s.spawns[t].stage
    case Start => step := ReadCapacity(t);
    case CapacityRead(_) => step := TestQuota(t);
    case Adding(_) => step := AddQuota(t);
    case Added(_, _) => step := VerifyQuota(t);
    case Granted => step := CheckPool(t);
    case Checked => step := IncrementGauge(t);
    case Running => step := FreeQuota(t);
    case QuotaFreed => step := DecrementGauge(t);
    case Dropping => step := DropFuture(t);
  }

  /** With more in use than the capacity allows, the cast lets every size through the first test, to be
      refused by the second. */
  lemma CastLetsThrough(capacity: nat, inUse: int, bytes: nat)
    requires capacity < inUse <= ISIZE_MAX && bytes <= MAX_ALLOC
    ensures MayFit(capacity, inUse, bytes) && bytes > capacity - inUse
  {
  }

  /** A capacity is taken as it is, unless it is beyond the signed range. */
  lemma CapacityIsKept(s: State, bytes: nat)
    ensures Apply(s, SetCapacity(bytes)).capacity <= bytes
    ensures bytes <= 0x7FFF_FFFF_FFFF_FFFF ==> Apply(s, SetCapacity(bytes)).capacity == bytes
    ensures bytes > 0x7FFF_FFFF_FFFF_FFFF ==> Apply(s, SetCapacity(bytes)).capacity == 0x7FFF_FFFF_FFFF_FFFF
  {
  }

  lemma {:induction false} HighestCapacityWasAsked(s: State, steps: seq<Step>, bound: nat)
    requires Legal(s, steps) && s.highestCapacity <= bound
    requires forall step | step in steps && step.SetCapacity? :: step.bytes <= bound
    ensures After(s, steps).highestCapacity <= bound
    decreases |steps|
  {
    if steps != [] {
      assert steps[0] in steps && forall step | step in steps[1..] :: step in steps;
      if steps[0].SetCapacity? {
        CapacityIsKept(s, steps[0].bytes);
      }
      HighestCapacityWasAsked(Apply(s, steps[0]), steps[1..], bound);
    }
  }

  /** So what is granted together never exceeds the largest capacity that was ever asked for. */
  lemma GrantsStayBelowTheAsked(s: State, steps: seq<Step>, bound: nat)
    requires Init(s) && Legal(s, steps) && s.capacity <= bound
    requires forall step | step in steps && step.SetCapacity? :: step.bytes <= bound
    ensures Sum(After(s, steps).spawns, GrantedBytes()) <= bound
  {
    QuotaAndGaugesAreExact(s, steps);
    HighestCapacityWasAsked(s, steps, bound);
  }

  /** Once every spawn is done, whether it ran, was refused or failed, nothing is left behind. */
  lemma NothingIsLeftBehind(s: State, steps: seq<Step>)
    requires Init(s) && Legal(s, steps)
    requires forall t: nat | t < |After(s, steps).spawns| :: After(s, steps).spawns[t].stage.Done?
    ensures After(s, steps).inUse == 0
    ensures forall p: Priority :: p in After(s, steps).gauges && After(s, steps).gauges[p] == 0
  {
    QuotaAndGaugesAreExact(s, steps);
    var e := After(s, steps);
    SumIsZero(e.spawns, QuotaBytes());
    forall p: Priority ensures e.gauges[p] == 0 {
      SumIsZero(e.spawns, InGauge(p));
    }
  }

  /** Along the run at most `n` spawns of priority `p` are between check and increment. */
  ghost predicate FewPastCheck(s: State, steps: seq<Step>, p: Priority, n: nat)
    requires Legal(s, steps)
    decreases |steps|
  {
    && Sum(s.spawns, PastCheck(p)) <= n
    && (steps != [] ==> FewPastCheck(Apply(s, steps[0]), steps[1..], p, n))
  }

  lemma StepKeepsGaugeBound(s: State, step: Step, p: Priority, n: nat)
    requires Inv(s) && Enabled(s, step)
    requires s.gauges[p] + Sum(s.spawns, PastCheck(p)) <= s.maxTasks + n - 1
    requires Sum(Apply(s, step).spawns, PastCheck(p)) <= n
    ensures p in Apply(s, step).gauges && Apply(s, step).maxTasks == s.maxTasks
    ensures Apply(s, step).gauges[p] + Sum(Apply(s, step).spawns, PastCheck(p)) <= s.maxTasks + n - 1
  {
    hide Sum;
    StepSums(s, step, PastCheck(p));
  }

  /** The check is not atomic with the increment, yet with at most `n` spawns of a priority in between
      its running count exceeds the limit by at most `n - 1`. */
  lemma {:induction false} GaugeOvershootIsBounded(s: State, steps: seq<Step>, p: Priority, n: nat)
    requires Inv(s) && Legal(s, steps) && FewPastCheck(s, steps, p, n)
    requires s.gauges[p] + Sum(s.spawns, PastCheck(p)) <= s.maxTasks + n - 1
    ensures p in After(s, steps).gauges && After(s, steps).gauges[p] <= s.maxTasks + n - 1
    decreases |steps|
  {
    hide Sum, Enabled, Apply;
    if steps != [] {
      StepKeepsInv(s, steps[0]);
      StepKeepsGaugeBound(s, steps[0], p, n);
      GaugeOvershootIsBounded(Apply(s, steps[0]), steps[1..], p, n);
    }
  }

  lemma RunningTasksAreBounded(s: State, steps: seq<Step>, p: Priority, n: nat)
    requires Init(s) && Legal(s, steps) && 1 <= n && FewPastCheck(s, steps, p, n)
    ensures p in After(s, steps).gauges && After(s, steps).gauges[p] <= s.maxTasks + n - 1
  {
    InitIsInv(s);
    GaugeOvershootIsBounded(s, steps, p, n);
  }

  // A spawn and a completion with nobody else moving

  /** A run from `s` to `t`. */
  ghost predicate Runs(s: State, steps: seq<Step>, t: State) {
    Legal(s, steps) && After(s, steps) == t
  }

  lemma Then(s: State, steps: seq<Step>, t: State, step: Step)
    requires Runs(s, steps, t) && Enabled(t, step)
    ensures Runs(s, steps + [step], Apply(t, step))
  {
    RunExtends(s, steps, step);
  }

  /** The spawns of `s`, which stand still, and one more. */
  ghost function With(s: State, spawn: Attempt, inUse: int): State {
    s.(spawns := s.spawns + [spawn], inUse := inUse)
  }

  lemma TestRun(s: State, bytes: nat, p: Priority) returns (steps: seq<Step>)
    ensures var stage := if MayFit(s.capacity, s.inUse, bytes) then Adding(s.capacity) else Done;
      Runs(s, steps, With(s, Attempt(bytes, p, stage), s.inUse))
  {
    var t := |s.spawns|;
    assert Runs(s, [], s);
    Then(s, [], s, New(bytes, p));
    var s1 := With(s, Attempt(bytes, p, Start), s.inUse);
    steps := [] + [New(bytes, p)];
    Then(s, steps, s1, ReadCapacity(t));
    var s2 := With(s, Attempt(bytes, p, CapacityRead(s.capacity)), s.inUse);
    assert Apply(s1, ReadCapacity(t)) == s2;
    steps := steps + [ReadCapacity(t)];
    Then(s, steps, s2, TestQuota(t));
    steps := steps + [TestQuota(t)];
    hide Runs, MayFit;
    assert Apply(s2, TestQuota(t))
      == With(s, Attempt(bytes, p, if MayFit(s.capacity, s.inUse, bytes) then Adding(s.capacity) else Done), s.inUse);
  }

  /** The quota: granted exactly when the bytes fit, otherwise nothing is kept. */
  lemma QuotaRun(s: State, bytes: nat, p: Priority) returns (steps: seq<Step>)
    requires 0 <= s.inUse <= ISIZE_MAX && s.capacity <= ISIZE_MAX
    ensures if bytes <= s.capacity - s.inUse && bytes <= MAX_ALLOC
      then Runs(s, steps, With(s, Attempt(bytes, p, Granted), s.inUse + bytes))
      else Runs(s, steps, With(s, Attempt(bytes, p, Done), s.inUse))
  {
    var t := |s.spawns|;
    steps := TestRun(s, bytes, p);
    if MayFit(s.capacity, s.inUse, bytes) {
      var s3 := With(s, Attempt(bytes, p, Adding(s.capacity)), s.inUse);
      Then(s, steps, s3, AddQuota(t));
      var s4 := With(s, Attempt(bytes, p, Added(s.capacity, s.inUse)), s.inUse + bytes);
      assert Apply(s3, AddQuota(t)) == s4;
      steps := steps + [AddQuota(t)];
      Then(s, steps, s4, VerifyQuota(t));
      steps := steps + [VerifyQuota(t)];
      hide Runs;
      if bytes > s.capacity - s.inUse {
        assert Apply(s4, VerifyQuota(t)) == With(s, Attempt(bytes, p, Done), s.inUse);
      } else {
        assert Apply(s4, VerifyQuota(t)) == With(s, Attempt(bytes, p, Granted), s.inUse + bytes);
      }
    }
  }

  /** The pool: either the task runs, or the dropped future gives its quota back. */
  lemma PoolRun(s: State, bytes: nat, p: Priority, before: seq<Step>) returns (steps: seq<Step>)
    requires Runs(s, before, With(s, Attempt(bytes, p, Granted), s.inUse + bytes))
    requires 0 <= s.inUse && bytes <= MAX_ALLOC && p in s.gauges
    ensures if s.gauges[p] >= s.maxTasks
      then Runs(s, steps, With(s, Attempt(bytes, p, Done), s.inUse))
      else
        Runs(s, steps,
             With(s, Attempt(bytes, p, Running), s.inUse + bytes).(gauges := s.gauges[p := s.gauges[p] + 1]))
  {
    var t := |s.spawns|;
    var s5 := With(s, Attempt(bytes, p, Granted), s.inUse + bytes);
    Then(s, before, s5, CheckPool(t));
    steps := before + [CheckPool(t)];
    var next := if s.gauges[p] >= s.maxTasks then Dropping else Checked;
    var s6 := With(s, Attempt(bytes, p, next), s.inUse + bytes);
    assert Apply(s5, CheckPool(t)) == s6;
    var step := if s.gauges[p] >= s.maxTasks then DropFuture(t) else IncrementGauge(t);
    Then(s, steps, s6, step);
    steps := steps + [step];
    hide Runs;
    if s.gauges[p] >= s.maxTasks {
      assert Apply(s6, step) == With(s, Attempt(bytes, p, Done), s.inUse);
    } else {
      assert Apply(s6, step)
        == With(s, Attempt(bytes, p, Running), s.inUse + bytes).(gauges := s.gauges[p := s.gauges[p] + 1]);
    }
  }

  /** What a consistent state knows of a running task: its quota and its place in the gauge are there. */
  lemma RunningIsCounted(s: State, t: nat)
    requires Inv(s) && t < |s.spawns| && s.spawns[t].stage.Running?
    ensures s.spawns[t].bytes <= s.inUse && s.spawns[t].bytes <= MAX_ALLOC
    ensures s.spawns[t].priority in s.gauges && 1 <= s.gauges[s.spawns[t].priority]
  {
    hide Sum;
    assert SpawnConsistent(s, s.spawns[t]);
    SumIsAtLeast(s.spawns, t, QuotaBytes());
    SumIsAtLeast(s.spawns, t, InGauge(s.spawns[t].priority));
  }

  lemma CompletionRun(s: State, t: nat) returns (steps: seq<Step>)
    requires Inv(s) && t < |s.spawns| && s.spawns[t].stage.Running?
    ensures var x := s.spawns[t];
      && x.priority in s.gauges
      && Runs(s, steps, s.(inUse := s.inUse - x.bytes, gauges := s.gauges[x.priority := s.gauges[x.priority] - 1],
                           spawns := s.spawns[t := x.(stage := Done)]))
  {
    RunningIsCounted(s, t);
    hide Inv;
    assert Runs(s, [], s);
    Then(s, [], s, FreeQuota(t));
    steps := [] + [FreeQuota(t)];
    var s1 := Apply(s, FreeQuota(t));
    Then(s, steps, s1, DecrementGauge(t));
    steps := steps + [DecrementGauge(t)];
    hide Runs;
    var x := s.spawns[t];
    assert Apply(s1, DecrementGauge(t)) == s.(inUse := s.inUse - x.bytes,
      gauges := s.gauges[x.priority := s.gauges[x.priority] - 1], spawns := s.spawns[t := x.(stage := Done)]);
  }

  /** The memory quota when nobody else touches it. */
  class MemoryQuota {
    var inUse: int
    var capacity: nat

    ghost predicate Valid()
      reads this
    {
      0 <= inUse <= ISIZE_MAX && capacity <= ISIZE_MAX
    }

    constructor (capacity: nat)
      ensures Valid() && inUse == 0
      ensures this.capacity == if capacity <= 0x7FFF_FFFF_FFFF_FFFF then capacity else 0x7FFF_FFFF_FFFF_FFFF
    {
      inUse := 0;
      this.capacity := AdjustCapacity(capacity);
    }

    /** Both tests together refuse exactly what does not fit, also when more is in use than the
        capacity allows and the cast makes the first test pass. */
    method Alloc(bytes: nat) returns (ok: bool)
      requires Valid()
      modifies `inUse
      ensures Valid() && ok == (bytes <= capacity - old(inUse) && bytes <= 0x1_0000_0000_0000)
      ensures inUse == old(inUse) + (if ok then bytes else 0)
    {
      if bytes > AsUsize(capacity - inUse) || bytes > MAX_ALLOC {
        return false;
      }
      var before := inUse;
      inUse := inUse + bytes;
      if bytes > capacity - before {
        inUse := inUse - bytes;
        return false;
      }
      return true;
    }

    method Release(bytes: nat)
      requires Valid()
      modifies `inUse
      ensures Valid() && inUse == Free(old(inUse), bytes)
      ensures bytes <= old(inUse) && bytes <= MAX_ALLOC ==> inUse == old(inUse) - bytes
    {
      if bytes > MAX_ALLOC {
        return;
      }
      var after := inUse - bytes;
      inUse := after;
      if after < 0 {
        inUse := inUse + (if -after < bytes then -after else bytes);
      }
    }
  }

  datatype SpawnResult = Spawned | MemoryQuotaExceeded | MaxPendingTasksExceeded

  /** The endpoint's way into the read pool, and the completion of what it let in. */
  class Endpoint {
    const quota: MemoryQuota
    const maxTasks: nat
    var gauges: map<Priority, nat>

    ghost predicate Valid()
      reads this, quota
    {
      quota.Valid() && forall p: Priority :: p in gauges
    }

    constructor (quota: MemoryQuota, maxTasks: nat)
      requires quota.Valid()
      ensures Valid() && this.quota == quota && this.maxTasks == maxTasks
      ensures forall p: Priority :: gauges[p] == 0
    {
      this.quota, this.maxTasks := quota, maxTasks;
      gauges := map[High := 0, Medium := 0, Low := 0];
      new;
      forall p: Priority ensures p in gauges && gauges[p] == 0 {
        match p { case High => case Medium => case Low => }
      }
    }

    /** The protocol state has this quota, these gauges and this limit. */
    ghost predicate Shows(s: State)
      reads this, quota
    {
      && s.inUse == quota.inUse && s.capacity == quota.capacity && s.maxTasks == maxTasks
      && forall p: Priority :: p in s.gauges && p in gauges && s.gauges[p] == gauges[p]
    }

    /** A spawn that is refused, by the quota or by the pool, changes neither. It is a run of the
        protocol, from any state that shows this endpoint, to one that shows it afterwards. */
    method Spawn(bytes: nat, priority: Priority, ghost s: State) returns (r: SpawnResult, ghost steps: seq<Step>)
      requires Valid() && Shows(s)
      modifies this, quota
      ensures Valid() && quota.capacity == old(quota.capacity)
      ensures r ==
        if bytes > quota.capacity - old(quota.inUse) || bytes > MAX_ALLOC then MemoryQuotaExceeded
        else if old(gauges[priority]) >= maxTasks then MaxPendingTasksExceeded
        else Spawned
      ensures r.Spawned? ==>
        quota.inUse == old(quota.inUse) + bytes && gauges == old(gauges)[priority := old(gauges)[priority] + 1]
      ensures !r.Spawned? ==> quota.inUse == old(quota.inUse) && gauges == old(gauges)
      ensures Legal(s, steps) && Shows(After(s, steps))
      ensures After(s, steps).spawns == s.spawns + [Attempt(bytes, priority, if r.Spawned? then Running else Done)]
    {
      steps := QuotaRun(s, bytes, priority);
      var ok := quota.Alloc(bytes);
      if !ok {
        return MemoryQuotaExceeded, steps;
      }
      steps := PoolRun(s, bytes, priority, steps);
      hide Legal, After;
      if gauges[priority] >= maxTasks {
        quota.Release(bytes);
        return MaxPendingTasksExceeded, steps;
      }
      gauges := gauges[priority := gauges[priority] + 1];
      return Spawned, steps;
    }

    /** Completing a running task undoes its spawn. */
    method Complete(bytes: nat, priority: Priority, ghost s: State, ghost t: nat) returns (ghost steps: seq<Step>)
      requires Valid() && Shows(s) && Inv(s)
      requires t < |s.spawns| && s.spawns[t] == Attempt(bytes, priority, Running)
      modifies this, quota
      ensures Valid() && quota.inUse == old(quota.inUse) - bytes && quota.capacity == old(quota.capacity)
      ensures 1 <= old(gauges[priority]) && gauges == old(gauges)[priority := old(gauges)[priority] - 1]
      ensures Legal(s, steps) && Shows(After(s, steps))
      ensures After(s, steps).spawns == s.spawns[t := Attempt(bytes, priority, Done)]
    {
      RunningIsCounted(s, t);
      steps := CompletionRun(s, t);
      hide Legal, After, Inv;
      quota.Release(bytes);
      gauges := gauges[priority := gauges[priority] - 1];
    }
  }
}
