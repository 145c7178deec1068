/** The per-region throttled writer: a map of reference-counted semaphores that is garbage
    collected while writes come and go. */
module RaftWriter {
  import opened Prelude
  import opened Counting

  /** A write: waiting for a permit, writing, done writing but still holding its reference to the
      semaphore, or gone. Dropping the future early goes through the same steps. */
  datatype Phase = Queued | Writing | Released | Gone

  datatype Task = Task(region: nat, sem: nat, phase: Phase)

  /** A semaphore on the heap: strong references and available permits. */
  datatype Semaphore = Semaphore(strong: nat, available: nat)

  /** The mutex around the map. Collection examines the entries one by one; `condemned` is the entry
      whose count was read as one and which is about to be removed. */
  datatype Mutex = Unlocked | Collecting(todo: set<nat>, condemned: Option<nat>)

  /** `sems` is the map; the last handle frees it. `home` remembers what it held then, and is the map
      before; no step depends on it. `counted` collections have seen more than one handle and wait for
      the mutex. */
  datatype State = State(
    sems: map<nat, nat>,
    home: map<nat, nat>,
    heap: map<nat, Semaphore>,
    tasks: seq<Task>,
    mutex: Mutex,
    counted: nat,
    handles: nat,
    maxPermit: nat)

  datatype Step =
    | NewWrite(region: nat, addr: nat)
    | Acquire(task: nat)
    | Release(task: nat)
    | DropReference(task: nat)
    | CloneHandle
    | DropHandle
    | CountHandles
    | LockMap
    | TestEntry(region: nat)
    | Evict
    | EndGc

  ghost predicate Init(s: State) {
    s == State(map[], map[], map[], [], Unlocked, 0, 1, s.maxPermit)
  }

  predicate InPhase(s: State, t: nat, phase: Phase) {
    t < |s.tasks| && s.tasks[t].phase == phase
  }

  function LiveIn(region: nat): Task -> nat {
    (t: Task) => if t.phase != Gone && t.region == region then 1 else 0
  }

  function WritingIn(region: nat): Task -> nat {
    (t: Task) => if t.phase == Writing && t.region == region then 1 else 0
  }

  function Live(s: State, region: nat): nat { Sum(s.tasks, LiveIn(region)) }

  function InFlight(s: State, region: nat): nat { Sum(s.tasks, WritingIn(region)) }

  /** Giving back one strong reference; the last one frees the semaphore. */
  function Unref(heap: map<nat, Semaphore>, addr: nat): map<nat, Semaphore>
    requires addr in heap
  {
    if heap[addr].strong <= 1 then heap - {addr}
    else heap[addr := heap[addr].(strong := heap[addr].strong - 1)]
  }

  /** Freeing the map gives back its reference to every semaphore. */
  function UnrefAll(heap: map<nat, Semaphore>, addrs: set<nat>): map<nat, Semaphore> {
    map a | a in heap && (a !in addrs || heap[a].strong > 1) ::
      if a in addrs then heap[a].(strong := heap[a].strong - 1) else heap[a]
  }

  /** A handle is borrowed while a collection runs. */
  predicate Borrowed(s: State) { s.counted > 0 || s.mutex.Collecting? }

  ghost predicate Enabled(s: State, step: Step) {
    match step
    case NewWrite(region, addr) =>
      s.mutex == Unlocked && 1 <= s.handles && addr !in s.heap && (region in s.sems ==> s.sems[region] in s.heap)
    case Acquire(t) =>
      InPhase(s, t, Queued) && s.tasks[t].sem in s.heap && 1 <= s.heap[s.tasks[t].sem].available
    case Release(t) => InPhase(s, t, Writing) && s.tasks[t].sem in s.heap
    case DropReference(t) => (InPhase(s, t, Queued) || InPhase(s, t, Released)) && s.tasks[t].sem in s.heap
    case CloneHandle => 1 <= s.handles
    case DropHandle => 1 < s.handles || (s.handles == 1 && !Borrowed(s))
    case CountHandles => 1 < s.handles
    case LockMap => s.mutex == Unlocked && 0 < s.counted
    case TestEntry(region) =>
      s.mutex.Collecting? && s.mutex.condemned.None? && region in s.mutex.todo
      && region in s.sems && s.sems[region] in s.heap
    case Evict =>
      s.mutex.Collecting? && s.mutex.condemned.Some? && s.mutex.condemned.value in s.sems
      && s.sems[s.mutex.condemned.value] in s.heap
    case EndGc => s.mutex == Collecting({}, None)
  }

  function SetPhase(s: State, t: nat, phase: Phase): seq<Task>
    requires t < |s.tasks|
  {
    s.tasks[t := s.tasks[t].(phase := phase)]
  }

  ghost function Apply(s: State, step: Step): State
    requires Enabled(s, step)
  {
    match step
    case NewWrite(region, addr) =>
      if region in s.sems then
        var a := s.sems[region];
        s.(heap := s.heap[a := s.heap[a].(strong := s.heap[a].strong + 1)],
           tasks := s.tasks + [Task(region, a, Queued)])
      else
        s.(sems := s.sems[region := addr], home := s.home[region := addr],
           heap := s.heap[addr := Semaphore(2, s.maxPermit)],
           tasks := s.tasks + [Task(region, addr, Queued)])
    case Acquire(t) =>
      var a := s.tasks[t].sem;
      s.(heap := s.heap[a := s.heap[a].(available := s.heap[a].available - 1)], tasks := SetPhase(s, t, Writing))
    case Release(t) =>
      var a := s.tasks[t].sem;
      s.(heap := s.heap[a := s.heap[a].(available := s.heap[a].available + 1)], tasks := SetPhase(s, t, Released))
    case DropReference(t) =>
      s.(heap := Unref(s.heap, s.tasks[t].sem), tasks := SetPhase(s, t, Gone))
    case CloneHandle => s.(handles := s.handles + 1)
    case DropHandle =>
      if s.handles == 1 then s.(handles := 0, sems := map[], heap := UnrefAll(s.heap, s.sems.Values))
      else s.(handles := s.handles - 1)
    case CountHandles => s.(counted := s.counted + 1)
    case LockMap => s.(counted := s.counted - 1, mutex := Collecting(s.sems.Keys, None))
    case TestEntry(region) =>
      s.(mutex :=
        if s.heap[s.sems[region]].strong > 1 then Collecting(s.mutex.todo - {region}, None)
        else Collecting(s.mutex.todo - {region}, Some(region)))
    case Evict =>
      var region := s.mutex.condemned.value;
      s.(sems := s.sems - {region}, home := s.home - {region}, heap := Unref(s.heap, s.sems[region]),
         mutex := s.mutex.(condemned := None))
    case EndGc => s.(mutex := Unlocked)
  }

  ghost predicate Legal(s: State, steps: seq<Step>)
    decreases |steps|
  {
    steps == [] || (Enabled(s, steps[0]) && Legal(Apply(s, steps[0]), steps[1..]))
  }

  ghost function After(s: State, steps: seq<Step>): State
    requires Legal(s, steps)
    decreases |steps|
  {
    if steps == [] then s else After(Apply(s, steps[0]), steps[1..])
  }

  lemma {:induction false} RunExtends(s: State, steps: seq<Step>, step: Step)
    requires Legal(s, steps) && Enabled(After(s, steps), step)
    ensures Legal(s, steps + [step]) && After(s, steps + [step]) == Apply(After(s, steps), step)
    decreases |steps|
  {
    hide Enabled, Apply;
    if steps == [] {
      assert [step][1..] == [];
    } else {
      RunExtends(Apply(s, steps[0]), steps[1..], step);
      assert (steps + [step])[1..] == steps[1..] + [step];
    }
  }

  /** Every live write uses its region's semaphore. */
  ghost predicate TasksShare(s: State) {
    forall t: nat | t < |s.tasks| && s.tasks[t].phase != Gone ::
      s.tasks[t].region in s.home && s.home[s.tasks[t].region] == s.tasks[t].sem
  }

  /** Whether anything refers to the region's semaphore. */
  ghost predicate InUse(s: State, region: nat) { region in s.sems || Live(s, region) > 0 }

  /** The counts of one region's semaphore: a reference per live write and one for the map while it
      has the entry; a permit is either available or with a write in flight. */
  ghost predicate RegionAccounted(s: State, region: nat)
    requires region in s.home
  {
    && (s.home[region] in s.heap <==> InUse(s, region))
    && (InUse(s, region) ==>
          && s.heap[s.home[region]].strong == (if region in s.sems then 1 else 0) + Live(s, region)
          && s.heap[s.home[region]].available + InFlight(s, region) == s.maxPermit)
  }

  /** Distinct regions have distinct semaphores, and the heap holds no others. */
  ghost predicate NoSharingNoLeak(s: State) {
    && s.sems == (if s.handles == 0 then map[] else s.home)
    && (forall r, r' | r in s.home && r' in s.home && s.home[r] == s.home[r'] :: r == r')
    && (forall a | a in s.heap :: a in s.home.Values)
  }

  ghost predicate GcConsistent(s: State) {
    && (Borrowed(s) ==> 1 <= s.handles)
    && (s.mutex.Collecting? ==>
          && s.mutex.todo <= s.sems.Keys
          && (s.mutex.condemned.Some? ==>
                && s.mutex.condemned.value in s.sems && s.mutex.condemned.value !in s.mutex.todo
                && Live(s, s.mutex.condemned.value) == 0))
  }

  ghost predicate Inv(s: State) {
    TasksShare(s) && NoSharingNoLeak(s) && GcConsistent(s)
    && forall r | r in s.home :: RegionAccounted(s, r)
  }

  lemma LiveTaskCounts(s: State, t: nat)
    requires t < |s.tasks| && s.tasks[t].phase != Gone
    ensures Live(s, s.tasks[t].region) > 0
  {
    SumIsAtLeast(s.tasks, t, LiveIn(s.tasks[t].region));
  }

  lemma {:induction false} FewerWriteThanLive(s: State, region: nat)
    ensures InFlight(s, region) <= Live(s, region)
  {
    SumIsMonotone(s.tasks, WritingIn(region), LiveIn(region));
  }

  lemma UnknownRegionIsIdle(s: State, region: nat)
    requires TasksShare(s) && region !in s.home
    ensures Live(s, region) == 0 && InFlight(s, region) == 0
  {
    SumIsZero(s.tasks, LiveIn(region));
    SumIsZero(s.tasks, WritingIn(region));
  }

  lemma NewWriteKeepsShape(s: State, region: nat, addr: nat)
    requires Inv(s) && Enabled(s, NewWrite(region, addr))
    ensures NoSharingNoLeak(Apply(s, NewWrite(region, addr)))
  {
    hide Sum;
    var s' := Apply(s, NewWrite(region, addr));
    forall r | r in s.home ensures s.home[r] in s.heap { assert RegionAccounted(s, r); }
    hide RegionAccounted, Live, InFlight;
    forall a | a in s'.heap ensures a in s'.home.Values {
      if a == addr && region !in s.home {
        assert s'.home[region] == addr;
      } else {
        var r :| r in s.home && s.home[r] == a;
        assert s'.home[r] == a;
      }
    }
  }

  lemma NewWriteCounts(s: State, region: nat, addr: nat, r: nat)
    requires Inv(s) && Enabled(s, NewWrite(region, addr))
    ensures var s' := Apply(s, NewWrite(region, addr));
      Live(s', r) == Live(s, r) + (if r == region then 1 else 0) && InFlight(s', r) == InFlight(s, r)
  {
    hide Sum, Inv;
    var task := Apply(s, NewWrite(region, addr)).tasks[|s.tasks|];
    SumAppend(s.tasks, task, LiveIn(r));
    SumAppend(s.tasks, task, WritingIn(r));
  }

  lemma NewWriteRegion(s: State, region: nat, addr: nat, r: nat)
    requires Inv(s) && Enabled(s, NewWrite(region, addr)) && r in Apply(s, NewWrite(region, addr)).home
    ensures RegionAccounted(Apply(s, NewWrite(region, addr)), r)
  {
    NewWriteCounts(s, region, addr, r);
    if r in s.home {
      assert RegionAccounted(s, r);
    } else {
      UnknownRegionIsIdle(s, region);
    }
    hide Live, InFlight, GcConsistent, TasksShare;
  }

  lemma NewWriteKeepsInv(s: State, region: nat, addr: nat)
    requires Inv(s) && Enabled(s, NewWrite(region, addr))
    ensures Inv(Apply(s, NewWrite(region, addr)))
  {
    var s' := Apply(s, NewWrite(region, addr));
    NewWriteKeepsShape(s, region, addr);
    forall r | r in s'.home ensures RegionAccounted(s', r) {
      NewWriteRegion(s, region, addr, r);
    }
    hide Live, RegionAccounted, NoSharingNoLeak;
    assert s.sems == s.home by { assert NoSharingNoLeak(s); }
  }

  /** Changing one task's phase moves only its own region's counts. */
  lemma PhaseChangeCounts(s: State, t: nat, phase: Phase, r: nat)
    requires t < |s.tasks|
    ensures var after := SetPhase(s, t, phase);
      && Sum(after, LiveIn(r)) + LiveIn(r)(s.tasks[t]) == Live(s, r) + LiveIn(r)(after[t])
      && Sum(after, WritingIn(r)) + WritingIn(r)(s.tasks[t]) == InFlight(s, r) + WritingIn(r)(after[t])
  {
    var x := s.tasks[t].(phase := phase);
    SumUpdate(s.tasks, t, x, LiveIn(r));
    SumUpdate(s.tasks, t, x, WritingIn(r));
  }

  predicate IsTaskStep(step: Step) {
    step.Acquire? || step.Release? || step.DropReference?
  }

  /** What a task's own step does to the counts of each region. */
  lemma TaskStepCounts(s: State, step: Step, r: nat)
    requires Enabled(s, step) && IsTaskStep(step)
    ensures var own := s.tasks[step.task].region == r;
      && Live(Apply(s, step), r) == Live(s, r) - (if own && step.DropReference? then 1 else 0)
      && InFlight(Apply(s, step), r) ==
           InFlight(s, r) + (if own && step.Acquire? then 1 else if own && step.Release? then -1 else 0)
  {
    PhaseChangeCounts(s, step.task, Apply(s, step).tasks[step.task].phase, r);
  }

  lemma TaskStepRegion(s: State, step: Step, r: nat)
    requires Inv(s) && Enabled(s, step) && IsTaskStep(step) && r in s.home
    ensures RegionAccounted(Apply(s, step), r)
  {
    hide Sum;
    TaskStepCounts(s, step, r);
    assert RegionAccounted(s, r);
    LiveTaskCounts(s, step.task);
    FewerWriteThanLive(s, r);
    hide Live, InFlight, GcConsistent;
    var t := s.tasks[step.task];
    assert r == t.region <==> s.home[r] == t.sem;
  }

  lemma TaskStepKeepsInv(s: State, step: Step)
    requires Inv(s) && Enabled(s, step) && IsTaskStep(step)
    ensures Inv(Apply(s, step))
  {
    hide Sum;
    var s' := Apply(s, step);
    forall r | r in s'.home ensures RegionAccounted(s', r) {
      TaskStepRegion(s, step, r);
    }
    LiveTaskCounts(s, step.task);
    if s.mutex.Collecting? && s.mutex.condemned.Some? {
      TaskStepCounts(s, step, s.mutex.condemned.value);
    }
    hide Live, InFlight, RegionAccounted;
    assert s'.heap.Keys <= s.heap.Keys;
  }

  lemma TestEntryIsExact(s: State, region: nat)
    requires Inv(s) && Enabled(s, TestEntry(region))
    ensures Apply(s, TestEntry(region)).mutex.condemned == Some(region) <==> Live(s, region) == 0
  {
    assert RegionAccounted(s, region);
  }

  lemma EvictKeepsInv(s: State)
    requires Inv(s) && Enabled(s, Evict)
    ensures Inv(Apply(s, Evict))
  {
    hide Sum;
    var s' := Apply(s, Evict);
    var region := s.mutex.condemned.value;
    assert RegionAccounted(s, region);
    forall t: nat | t < |s.tasks| && s.tasks[t].phase != Gone ensures s.tasks[t].region != region {
      LiveTaskCounts(s, t);
    }
    forall r | r in s'.home ensures RegionAccounted(s', r) {
      assert RegionAccounted(s, r);
    }
    hide RegionAccounted, Live, InFlight;
    forall a | a in s'.heap ensures a in s'.home.Values {
      var r :| r in s.home && s.home[r] == a;
      assert r in s'.home && s'.home[r] == a;
    }
  }

  /** The last handle frees the map: its idle semaphores go, those of live writes lose one reference. */
  lemma FreeKeepsInv(s: State)
    requires Inv(s) && Enabled(s, DropHandle) && s.handles == 1
    ensures Inv(Apply(s, DropHandle))
  {
    hide Sum;
    var s' := Apply(s, DropHandle);
    forall r | r in s'.home ensures RegionAccounted(s', r) {
      assert RegionAccounted(s, r);
      assert s.home[r] in s.sems.Values;
      FewerWriteThanLive(s, r);
    }
  }

  /** Handles that come and go, and the collector's own steps, touch no count. */
  lemma OtherStepKeepsInv(s: State, step: Step)
    requires Inv(s) && Enabled(s, step) && !step.NewWrite? && !IsTaskStep(step) && !step.Evict?
    requires step.DropHandle? ==> 1 < s.handles
    ensures Inv(Apply(s, step))
  {
    if step.TestEntry? {
      TestEntryIsExact(s, step.region);
    }
    SameCounts(s, Apply(s, step));
    hide Live, RegionAccounted;
  }

  lemma StepKeepsInv(s: State, step: Step)
    requires Inv(s) && Enabled(s, step)
    ensures Inv(Apply(s, step)) && Apply(s, step).maxPermit == s.maxPermit
  {
    hide Inv;
    if step.NewWrite? {
      NewWriteKeepsInv(s, step.region, step.addr);
    } else if IsTaskStep(step) {
      TaskStepKeepsInv(s, step);
    } else if step.Evict? {
      EvictKeepsInv(s);
    } else if step.DropHandle? && s.handles == 1 {
      FreeKeepsInv(s);
    } else {
      OtherStepKeepsInv(s, step);
    }
  }

  lemma SameCounts(s: State, s': State)
    requires s'.sems == s.sems && s'.home == s.home && s'.heap == s.heap
    requires s'.tasks == s.tasks && s'.maxPermit == s.maxPermit
    requires forall r | r in s.home :: RegionAccounted(s, r)
    ensures forall r | r in s.home :: RegionAccounted(s', r)
    ensures forall r: nat :: Live(s', r) == Live(s, r)
  {
    forall r | r in s.home ensures RegionAccounted(s', r) {
      assert RegionAccounted(s, r);
    }
  }

  lemma {:induction false} RunKeepsInv(s: State, steps: seq<Step>)
    requires Inv(s) && Legal(s, steps)
    ensures Inv(After(s, steps)) && After(s, steps).maxPermit == s.maxPermit
    decreases |steps|
  {
    if steps != [] {
      StepKeepsInv(s, steps[0]);
      RunKeepsInv(Apply(s, steps[0]), steps[1..]);
    }
  }

  /** In every interleaving, garbage collection included: at most `maxPermit` writes of a region are
      in flight, and the live writes of a region all share one semaphore. */
  lemma InFlightIsBounded(s: State, steps: seq<Step>, region: nat)
    requires Init(s) && Legal(s, steps)
    ensures InFlight(After(s, steps), region) <= s.maxPermit
    ensures forall t: nat, t': nat | t < |After(s, steps).tasks| && t' < |After(s, steps).tasks| ::
      var a, b := After(s, steps).tasks[t], After(s, steps).tasks[t'];
      a.phase != Gone && b.phase != Gone && a.region == b.region ==> a.sem == b.sem
  {
    RunKeepsInv(s, steps);
    var s' := After(s, steps);
    if region in s'.home {
      assert RegionAccounted(s', region);
      FewerWriteThanLive(s', region);
    } else {
      UnknownRegionIsIdle(s', region);
    }
  }

  /** A live write is never stuck: while there is one, some live write of its region can take its
      next step. */
  lemma SomeWriteCanStep(s: State, t: nat) returns (next: Step)
    requires Inv(s) && 1 <= s.maxPermit && t < |s.tasks| && s.tasks[t].phase != Gone
    ensures next.Acquire? || next.Release? || (next.DropReference? && InPhase(s, next.task, Released))
    ensures Enabled(s, next) && s.tasks[next.task].region == s.tasks[t].region
  {
    var region := s.tasks[t].region;
    LiveTaskCounts(s, t);
    assert RegionAccounted(s, region);
    match s.tasks[t].phase
    case Writing => next := Release(t);
    case Released => next := DropReference(t);
    case Queued =>
      if s.heap[s.tasks[t].sem].available > 0 {
        next := Acquire(t);
      } else {
        var u := PositiveTerm(s.tasks, WritingIn(region));
        next := Release(u);
      }
  }

  /** A queued write gets its permit if and only if fewer than `maxPermit` writes of its region are in
      flight; every other step of a live write is open to it at once. */
  lemma PermitIffRoom(s: State, t: nat)
    requires Inv(s) && t < |s.tasks| && s.tasks[t].phase != Gone
    ensures Enabled(s, Acquire(t)) <==> s.tasks[t].phase == Queued && InFlight(s, s.tasks[t].region) < s.maxPermit
    ensures Enabled(s, Release(t)) <==> s.tasks[t].phase == Writing
    ensures Enabled(s, DropReference(t)) <==> s.tasks[t].phase == Queued || s.tasks[t].phase == Released
  {
    LiveTaskCounts(s, t);
    assert RegionAccounted(s, s.tasks[t].region);
  }

  /** Handles come and go freely; the last one stays while a collection has it borrowed. */
  lemma HandleGuards(s: State)
    ensures Enabled(s, CloneHandle) <==> 1 <= s.handles
    ensures Enabled(s, DropHandle) <==> 2 <= s.handles || (s.handles == 1 && s.counted == 0 && s.mutex == Unlocked)
    ensures Enabled(s, CountHandles) <==> 2 <= s.handles
    ensures Enabled(s, LockMap) <==> 1 <= s.counted && s.mutex == Unlocked
  {
  }

  /** A collector that holds the mutex can go on until it is done. */
  lemma CollectorCanStep(s: State)
    requires Inv(s) && s.mutex.Collecting?
    ensures s.mutex.condemned.Some? ==> Enabled(s, Evict)
    ensures s.mutex.condemned.None? ==> forall r | r in s.mutex.todo :: Enabled(s, TestEntry(r))
    ensures s.mutex.condemned.None? && s.mutex.todo == {} ==> Enabled(s, EndGc)
  {
    forall r | r in s.sems ensures s.sems[r] in s.heap {
      assert RegionAccounted(s, r);
    }
  }

  /** Neither dangling references nor leaks: a semaphore is alive if and only if the map has it or a
      live write holds it. Nothing is left once the handles and the writes are gone. */
  lemma AliveIffUsed(s: State, steps: seq<Step>, a: nat)
    requires Init(s) && Legal(s, steps)
    ensures var e := After(s, steps);
      && (a in e.heap <==>
            a in e.sems.Values || exists t: nat :: t < |e.tasks| && e.tasks[t].phase != Gone && e.tasks[t].sem == a)
      && (e.handles == 0 ==> e.sems == map[])
  {
    RunKeepsInv(s, steps);
    var e := After(s, steps);
    hide After, Legal;
    if a in e.heap && a !in e.sems.Values {
      var r :| r in e.home && e.home[r] == a;
      assert RegionAccounted(e, r);
      var t := PositiveTerm(e.tasks, LiveIn(r));
    }
    if a in e.sems.Values {
      var r :| r in e.sems && e.sems[r] == a;
      assert RegionAccounted(e, r);
    }
    if t: nat :| t < |e.tasks| && e.tasks[t].phase != Gone && e.tasks[t].sem == a {
      LiveTaskCounts(e, t);
      assert RegionAccounted(e, e.tasks[t].region);
    }
  }

  lemma NewWriteIsSafe(s: State, region: nat, addr: nat)
    requires Inv(s) && s.mutex == Unlocked && 1 <= s.handles && addr !in s.heap
    ensures Enabled(s, NewWrite(region, addr)) && Inv(Apply(s, NewWrite(region, addr)))
    ensures Live(Apply(s, NewWrite(region, addr)), region) == Live(s, region) + 1
  {
    hide Sum;
    assert region in s.sems ==> RegionAccounted(s, region);
    NewWriteKeepsInv(s, region, addr);
    var tasks := Apply(s, NewWrite(region, addr)).tasks;
    SumAppend(s.tasks, tasks[|s.tasks|], LiveIn(region));
  }

  /** A run from `s` to `t`. */
  ghost predicate Runs(s: State, steps: seq<Step>, t: State) {
    Legal(s, steps) && After(s, steps) == t
  }

  lemma Then(s: State, steps: seq<Step>, t: State, step: Step)
    requires Runs(s, steps, t) && Enabled(t, step)
    ensures Runs(s, steps + [step], Apply(t, step))
  {
    RunExtends(s, steps, step);
  }

  lemma NoRun(s: State)
    ensures Runs(s, [], s)
  {
  }

  /** A state from which a region's writes can be put into flight. */
  ghost predicate Calm(s: State, t: State, region: nat, n: nat) {
    && Inv(t) && t.mutex == Unlocked && t.handles == 1 && t.maxPermit == s.maxPermit && InFlight(t, region) == n
    && t.heap.Keys == (if n == 0 then {} else {0}) && t.sems.Keys == (if n == 0 then {} else {region})
  }

  lemma InitIsCalm(s: State, region: nat)
    requires Init(s)
    ensures Calm(s, s, region, 0) && Runs(s, [], s)
  {
  }

  lemma NewWriteShape(t: State, region: nat, addr: nat)
    requires Enabled(t, NewWrite(region, addr))
    ensures var u := Apply(t, NewWrite(region, addr));
      && u.mutex == t.mutex && u.handles == t.handles && u.maxPermit == t.maxPermit
      && u.sems.Keys == t.sems.Keys + {region}
      && u.heap.Keys == t.heap.Keys + (if region in t.sems then {} else {addr})
      && InPhase(u, |t.tasks|, Queued) && u.tasks[|t.tasks|].region == region
  {
  }

  lemma AcquireShape(u: State, n: nat)
    requires Enabled(u, Acquire(n))
    ensures var v := Apply(u, Acquire(n));
      v.mutex == u.mutex && v.handles == u.handles && v.maxPermit == u.maxPermit && v.sems == u.sems
      && v.heap.Keys == u.heap.Keys
  {
  }

  /** One more write of the region goes into flight. */
  lemma OneMoreInFlight(s: State, before: seq<Step>, t: State, region: nat, n: nat)
    returns (steps: seq<Step>, v: State)
    requires Calm(s, t, region, n) && Runs(s, before, t) && n < s.maxPermit
    ensures Runs(s, steps, v) && Calm(s, v, region, n + 1)
  {
    hide Runs, Inv, Live, InFlight, Enabled, Apply;
    var addr, task := if n == 0 then 0 else 1, |t.tasks|;
    var write, acquire := NewWrite(region, addr), Acquire(task);
    NewWriteIsSafe(t, region, addr);
    NewWriteCounts(t, region, addr, region);
    NewWriteShape(t, region, addr);
    Then(s, before, t, write);
    var u := Apply(t, write);
    PermitIffRoom(u, task);
    TaskStepCounts(u, acquire, region);
    StepKeepsInv(u, acquire);
    AcquireShape(u, task);
    Then(s, before + [write], u, acquire);
    steps, v := before + [write] + [acquire], Apply(u, acquire);
  }

  lemma {:induction false} SomeInFlight(s: State, region: nat, n: nat) returns (steps: seq<Step>, t: State)
    requires Init(s) && n <= s.maxPermit
    ensures Runs(s, steps, t) && Calm(s, t, region, n)
    decreases n
  {
    hide Runs, Calm, Init;
    if n == 0 {
      InitIsCalm(s, region);
      steps, t := [], s;
    } else {
      var steps0, t0 := SomeInFlight(s, region, n - 1);
      steps, t := OneMoreInFlight(s, steps0, t0, region, n - 1);
    }
  }

  /** The bound is reached: some run has `maxPermit` writes of a region in flight at once. */
  lemma AllPermitsCanBeUsed(s: State, region: nat) returns (steps: seq<Step>)
    requires Init(s)
    ensures Legal(s, steps) && InFlight(After(s, steps), region) == s.maxPermit
  {
    var t;
    steps, t := SomeInFlight(s, region, s.maxPermit);
  }

  /** The collector has the mutex and still has to look at `todo`. */
  ghost function During(s: State, todo: set<nat>): State { s.(mutex := Collecting(todo, None)) }

  lemma BeginRun(s: State) returns (steps: seq<Step>)
    requires s.mutex == Unlocked && s.counted == 0 && 1 < s.handles
    ensures Runs(s, steps, During(s, s.sems.Keys))
  {
    assert Runs(s, [], s);
    Then(s, [], s, CountHandles);
    Then(s, [] + [CountHandles], Apply(s, CountHandles), LockMap);
    steps := [] + [CountHandles] + [LockMap];
  }

  /** What is left after one entry has been looked at. */
  ghost function Collected(s: State, r: nat): State
    requires r in s.sems && s.sems[r] in s.heap
  {
    if s.heap[s.sems[r]].strong <= 1
    then s.(sems := s.sems - {r}, home := s.home - {r}, heap := s.heap - {s.sems[r]})
    else s
  }

  lemma InvDuring(s: State, todo: set<nat>)
    requires s.mutex == Unlocked && 1 <= s.handles && todo <= s.sems.Keys
    ensures Inv(s) <==> Inv(During(s, todo))
  {
    var t := During(s, todo);
    if Inv(s) { SameCounts(s, t); }
    if Inv(t) { SameCounts(t, s); }
    hide RegionAccounted, Live;
  }

  /** One entry: the count is one exactly when the region has no live write, and then the entry and its
      semaphore go. */
  lemma EntryRun(s0: State, before: seq<Step>, s: State, todo: set<nat>, r: nat) returns (steps: seq<Step>)
    requires Inv(s) && s.mutex == Unlocked && 1 <= s.handles && r in todo && todo <= s.sems.Keys
    requires Runs(s0, before, During(s, todo))
    ensures s.sems[r] in s.heap && (s.heap[s.sems[r]].strong <= 1 <==> Live(s, r) == 0)
    ensures Inv(Collected(s, r)) && Runs(s0, steps, During(Collected(s, r), todo - {r}))
  {
    assert RegionAccounted(s, r);
    hide Inv, Runs, Live, InFlight;
    var t := During(s, todo);
    InvDuring(s, todo);
    Then(s0, before, t, TestEntry(r));
    steps := before + [TestEntry(r)];
    var t1 := Apply(t, TestEntry(r));
    StepKeepsInv(t, TestEntry(r));
    if Live(s, r) == 0 {
      Then(s0, steps, t1, Evict);
      steps := steps + [Evict];
      EvictKeepsInv(t1);
      assert Apply(t1, Evict) == During(Collected(s, r), todo - {r});
      InvDuring(Collected(s, r), todo - {r});
    }
  }

  lemma EndRun(s0: State, before: seq<Step>, s: State) returns (steps: seq<Step>)
    requires s.mutex == Unlocked && Runs(s0, before, During(s, {}))
    ensures Runs(s0, steps, s)
  {
    Then(s0, before, During(s, {}), EndGc);
    steps := before + [EndGc];
    assert Apply(During(s, {}), EndGc) == s;
  }

  /** The writer itself. `write` runs its first part under the mutex and then leaves a future;
      `tryGc` is one whole collection. */
  class ThrottledTlsEngineWriter {
    var sems: map<nat, nat>
    var heap: map<nat, Semaphore>
    var tasks: seq<Task>
    var handles: nat
    const maxPermit: nat

    ghost function View(): State
      reads this
    {
      State(sems, sems, heap, tasks, Unlocked, 0, handles, maxPermit)
    }

    constructor (maxPermit: nat)
      ensures Init(View()) && this.maxPermit == maxPermit
    {
      this.maxPermit := maxPermit;
      sems, heap, tasks, handles := map[], map[], [], 1;
    }

    /** `addr` is where the allocator would put a new semaphore. */
    method Write(region: nat, addr: nat) returns (task: nat)
      requires Inv(View()) && 1 <= handles && addr !in heap
      modifies this
      ensures Enabled(old(View()), NewWrite(region, addr))
      ensures View() == Apply(old(View()), NewWrite(region, addr)) && Inv(View())
      ensures InPhase(View(), task, Queued) && tasks[task].region == region && region in sems
      ensures Live(View(), region) == old(Live(View(), region)) + 1
    {
      hide Sum, Inv, Live;
      ghost var s := View();
      NewWriteIsSafe(s, region, addr);
      if region !in sems {
        sems := sems[region := addr];
        heap := heap[addr := Semaphore(1, maxPermit)];
      }
      var sem := sems[region];
      heap := heap[sem := heap[sem].(strong := heap[sem].strong + 1)];
      task := |tasks|;
      tasks := tasks + [Task(region, sem, Queued)];
      assert View() == Apply(s, NewWrite(region, addr));
    }

    /** Collects exactly the regions without a live write. It is a run of the protocol. */
    method TryGc() returns (again: bool, ghost steps: seq<Step>)
      requires Inv(View()) && 1 <= handles
      modifies `sems, `heap
      ensures Inv(View()) && again == (handles != 1)
      ensures !again ==> View() == old(View())
      ensures again ==> sems.Keys == set r | r in old(sems) && Live(old(View()), r) > 0
      ensures forall r | r in sems :: r in old(sems) && sems[r] == old(sems)[r]
      ensures forall a | a in heap :: a in old(heap) && heap[a] == old(heap)[a]
      ensures Runs(old(View()), steps, View())
    {
      hide Sum, RegionAccounted, Inv, Runs;
      steps := [];
      if handles == 1 {
        assert Runs(View(), steps, View()) by { NoRun(View()); }
        return false, steps;
      }
      ghost var s0 := View();
      ghost var live := set r | r in sems && Live(View(), r) > 0;
      steps := BeginRun(s0);
      var todo := sems.Keys;
      while todo != {}
        invariant Inv(View()) && sems.Keys == live + todo
        invariant forall r | r in sems :: r in old(sems) && sems[r] == old(sems)[r]
        invariant forall a | a in heap :: a in old(heap) && heap[a] == old(heap)[a]
        invariant Runs(s0, steps, During(View(), todo))
        decreases todo
      {
        var r :| r in todo;
        steps := EntryRun(s0, steps, View(), todo, r);
        todo := todo - {r};
        if heap[sems[r]].strong <= 1 {
          heap, sems := heap - {sems[r]}, sems - {r};
        }
      }
      steps := EndRun(s0, steps, View());
      return true, steps;
    }
  }
}
