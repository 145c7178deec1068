/** The pool-size controller over whole runs: what configuration changes and ticks keep, and where
    repeated ticks under constant readings end. */
module ReadPoolController {
  import opened Prelude
  import opened ReadPool

  /** Scale-out by thread usage is never undone by scale-in, nor the other way round. */
  lemma ThreadBranchesNeverUndo(c: Controller, r: Readings, n: nat)
    requires 1 <= n && Plausible(r)
    ensures c.ThreadScaleOut(r, n) ==> !c.ThreadScaleIn(r, n) && !c.ThreadScaleIn(r, n + 1)
    ensures c.ThreadScaleIn(r, n) ==> 2 <= n && !c.ThreadScaleOut(r, n - 1) && !c.ThreadScaleOut(r, n)
    ensures c.ThreadScaleIn(r, n) ==> c.ThreadScaleIn(r, n + 1)
  {
  }

  /** The count after `ticks` ticks with the same readings. */
  function Iterate(c: Controller, r: Readings, n: nat, ticks: nat): (m: nat)
    requires 1 <= n && Plausible(r)
    ensures 1 <= m
    decreases ticks
  {
    NextIsPositive(c, r, n);
    if ticks == 0 then n else Iterate(c, r, c.Next(r, n), ticks - 1)
  }

  /** The pool bounces at its configured size: low CPU pulls it up, thread usage pulls it down. */
  predicate Oscillates(c: Controller, r: Readings) {
    !c.CpuScaleIn(r) && c.CpuIsLow(r) && c.ThreadScaleIn(r, c.core)
  }

  /** Under CPU pressure the count falls to the whole part of the target, but not below one. */
  lemma {:induction false} CpuScaleInConverges(c: Controller, r: Readings, n: nat) returns (ticks: nat)
    requires 1 <= n && Plausible(r) && c.CpuScaleIn(r)
    ensures Iterate(c, r, n, ticks) == Max(FloorUsize(c.Target(r)), 1)
    ensures c.Next(r, Iterate(c, r, n, ticks)) == Iterate(c, r, n, ticks)
    decreases n
  {
    var goal := Max(FloorUsize(c.Target(r)), 1);
    TargetIsPositive(c, r);
    ScaledIsBelow(n, c.Target(r), r.poolCpu);
    ScaledIsBelow(goal, c.Target(r), r.poolCpu);
    hide Scaled, FloorUsize, Controller.Target;
    assert c.Next(r, goal) == goal;
    if n == goal {
      ticks := 0;
    } else if n < goal {
      assert c.Next(r, n) == goal;
      assert Iterate(c, r, goal, 0) == goal;
      ticks := 1;
    } else {
      assert goal <= c.Next(r, n) < n;
      var rest := CpuScaleInConverges(c, r, c.Next(r, n));
      ticks := rest + 1;
    }
  }

  /** Going down by thread usage, where low CPU does not interfere. */
  lemma {:induction false} ScaleInSettles(c: Controller, r: Readings, n: nat) returns (ticks: nat)
    requires 1 <= n && Plausible(r) && !c.CpuScaleIn(r) && !Oscillates(c, r)
    requires c.CpuIsLow(r) ==> c.core <= n
    requires !c.ThreadScaleOut(r, n)
    ensures c.Next(r, Iterate(c, r, n, ticks)) == Iterate(c, r, n, ticks)
    decreases n
  {
    ThreadBranchesNeverUndo(c, r, n);
    hide Controller.Target, Controller.CpuIsLow, Controller.CpuScaleIn;
    hide Controller.ThreadScaleIn, Controller.ThreadScaleOut;
    if c.ThreadScaleIn(r, n) {
      var rest := ScaleInSettles(c, r, n - 1);
      ticks := rest + 1;
    } else {
      ticks := 0;
    }
  }

  /** Going up by thread usage. */
  lemma {:induction false} ScaleOutSettles(c: Controller, r: Readings, n: nat) returns (ticks: nat)
    requires 1 <= n && Plausible(r) && !c.CpuScaleIn(r)
    requires c.CpuIsLow(r) ==> c.core <= n
    requires !c.ThreadScaleIn(r, n)
    ensures c.Next(r, Iterate(c, r, n, ticks)) == Iterate(c, r, n, ticks)
    decreases if n < c.maxThreads then c.maxThreads - n else 0
  {
    ThreadBranchesNeverUndo(c, r, n);
    if c.ThreadScaleOut(r, n) {
      assert n < c.maxThreads;
      hide Controller.Target, Controller.CpuIsLow, Controller.CpuScaleIn;
      hide Controller.ThreadScaleIn, Controller.ThreadScaleOut;
      var rest := ScaleOutSettles(c, r, n + 1);
      ticks := rest + 1;
    } else {
      ticks := 0;
    }
  }

  /** From below, low CPU takes the pool up to its configured size. */
  lemma {:induction false} LowCpuReachesCore(c: Controller, r: Readings, n: nat, more: nat)
    requires 1 <= n <= c.core && Plausible(r) && !c.CpuScaleIn(r) && c.CpuIsLow(r)
    ensures Iterate(c, r, n, c.core - n + more) == Iterate(c, r, c.core, more)
    decreases c.core - n
  {
    hide Controller.Target, Controller.CpuIsLow, Controller.CpuScaleIn;
    hide Controller.ThreadScaleIn, Controller.ThreadScaleOut;
    if n < c.core {
      LowCpuReachesCore(c, r, n + 1, more);
    }
  }

  /** When the pool bounces, every larger pool first shrinks to the configured size. */
  lemma {:induction false} OscillationReachesCore(c: Controller, r: Readings, n: nat)
    requires 1 <= c.core <= n && Plausible(r) && Oscillates(c, r)
    ensures Iterate(c, r, n, n - c.core) == c.core && c.ThreadScaleIn(r, n)
    decreases n - c.core
  {
    if c.core < n {
      OscillationReachesCore(c, r, n - 1);
      ThreadBranchesNeverUndo(c, r, n - 1);
      assert !c.CpuScaleOut(r, n);
      hide Controller.Target, Controller.CpuIsLow, Controller.CpuScaleIn;
      hide Controller.ThreadScaleIn, Controller.ThreadScaleOut;
      assert Iterate(c, r, n, n - c.core) == Iterate(c, r, n - 1, n - 1 - c.core);
    }
  }

  /** Under constant readings, from any size, the pool ends in a fixed size, or alternates between
      the configured size and one less; the latter exactly when it `Oscillates`. */
  lemma TicksSettle(c: Controller, r: Readings, n: nat) returns (ticks: nat)
    requires 1 <= n && 1 <= c.core && Plausible(r)
    ensures var m := Iterate(c, r, n, ticks);
      if Oscillates(c, r) then
        m == c.core && 2 <= c.core && c.Next(r, c.core) == c.core - 1 && c.Next(r, c.core - 1) == c.core
      else c.Next(r, m) == m
  {
    if c.CpuScaleIn(r) {
      ticks := CpuScaleInConverges(c, r, n);
    } else if Oscillates(c, r) {
      ThreadBranchesNeverUndo(c, r, c.core);
      if n <= c.core {
        LowCpuReachesCore(c, r, n, 0);
        ticks := c.core - n;
      } else {
        OscillationReachesCore(c, r, n);
        ticks := n - c.core;
      }
    } else if c.CpuIsLow(r) && n < c.core {
      var rest := ScaleOutSettles(c, r, c.core);
      LowCpuReachesCore(c, r, n, rest);
      ticks := c.core - n + rest;
    } else {
      ThreadBranchesNeverUndo(c, r, n);
      if c.ThreadScaleIn(r, n) {
        ticks := ScaleInSettles(c, r, n);
      } else {
        ticks := ScaleOutSettles(c, r, n);
      }
    }
  }

  datatype ConfigTask =
    | PoolSize(size: nat)
    | AutoAdjust(on: bool)
    | MaxTasksPerWorker(perWorker: nat)
    | CpuThreshold(threshold: real)

  /** A configuration change, or a tick; the readings are missing when the process statistics are. */
  datatype Event = Task(task: ConfigTask) | Tick(readings: Option<Readings>)

  datatype Runner = Runner(ctl: Controller, cur: nat, limits: Limits)

  /** Configured sizes are positive, and measurements are ones that an operating system makes. */
  predicate Admissible(e: Event) {
    match e
    case Task(PoolSize(size)) => 1 <= size
    case Task(_) => true
    case Tick(None) => true
    case Tick(Some(r)) => Plausible(r)
  }

  function Resized(s: Runner, size: nat): Runner
    requires 1 <= s.limits.poolSize
  {
    s.(cur := size, limits := Rescale(s.limits, size))
  }

  function RunTask(s: Runner, task: ConfigTask): Runner
    requires 1 <= s.limits.poolSize
  {
    match task
    case PoolSize(size) =>
      if size == s.ctl.core then s else Resized(s, size).(ctl := s.ctl.(core := size))
    case AutoAdjust(on) =>
      var s' := s.(ctl := s.ctl.(autoAdjust := on));
      if !on && s.cur != s.ctl.core then Resized(s', s.ctl.core) else s'
    case MaxTasksPerWorker(k) => s.(limits := SetPerWorker(s.limits, k))
    case CpuThreshold(threshold) => s.(ctl := s.ctl.(cpuThreshold := threshold))
  }

  function RunTick(s: Runner, readings: Option<Readings>): Runner
    requires 1 <= s.limits.poolSize && 1 <= s.cur
    requires readings.Some? ==> Plausible(readings.value)
  {
    if !s.ctl.autoAdjust || readings.None? then s
    else
      NextIsPositive(s.ctl, readings.value, s.cur);
      var n := s.ctl.Next(readings.value, s.cur);
      if n == s.cur then s else Resized(s, n)
  }

  /** What holds whatever is measured: the handle agrees on the size, which is never zero, and without
      auto-adjustment it is the configured one. */
  ghost predicate Consistent(s: Runner) {
    && s.limits.poolSize == s.cur && 1 <= s.ctl.core && 1 <= s.cur
    && (!s.ctl.autoAdjust ==> s.cur == s.ctl.core)
  }

  /** The size stays within the larger of the configured ones. */
  ghost predicate Bounded(s: Runner) {
    s.cur <= Max(s.ctl.core, s.ctl.maxThreads)
  }

  function RunEvent(s: Runner, e: Event): Runner
    requires 1 <= s.limits.poolSize && 1 <= s.cur && Admissible(e)
  {
    match e
    case Task(task) => RunTask(s, task)
    case Tick(readings) => RunTick(s, readings)
  }

  /** The guard under which an event cannot take the pool out of its bounds: CPU scale-in aims no
      higher than they are. */
  predicate Restrained(s: Runner, e: Event) {
    e.Tick? && e.readings.Some? && s.ctl.autoAdjust && s.ctl.CpuScaleIn(e.readings.value) ==>
      FloorUsize(s.ctl.Target(e.readings.value)) <= Max(s.ctl.core, s.ctl.maxThreads)
  }

  lemma TickBound(s: Runner, r: Readings)
    requires Consistent(s) && Bounded(s) && s.ctl.autoAdjust && Plausible(r)
    ensures 1 <= s.ctl.Next(r, s.cur)
    ensures s.ctl.Next(r, s.cur) <= Max(s.ctl.core, s.ctl.maxThreads) <==> Restrained(s, Tick(Some(r)))
  {
    NextIsPositive(s.ctl, r, s.cur);
    if s.ctl.CpuScaleIn(r) {
      TargetIsPositive(s.ctl, r);
      ScaledIsBelow(s.cur, s.ctl.Target(r), r.poolCpu);
    }
    hide Controller.Target, Scaled, FloorUsize, Controller.CpuScaleIn;
  }

  /** One event: it keeps the runner consistent, and within bounds if and only if it is restrained. */
  lemma EventBound(s: Runner, e: Event)
    requires Consistent(s) && Admissible(e)
    ensures Consistent(RunEvent(s, e))
    ensures Bounded(s) ==> (Bounded(RunEvent(s, e)) <==> Restrained(s, e))
  {
    if e.Tick? && e.readings.Some? {
      var r := e.readings.value;
      NextIsPositive(s.ctl, r, s.cur);
      if Bounded(s) && s.ctl.autoAdjust {
        TickBound(s, r);
      }
      hide Controller.Next, Restrained;
    }
  }

  /** A measurement of at most one core per thread is restrained. */
  lemma OneCorePerThreadIsRestrained(s: Runner, r: Readings)
    requires Consistent(s) && Bounded(s) && Plausible(r) && r.poolCpu <= s.cur as real
    ensures Restrained(s, Tick(Some(r)))
  {
    if s.ctl.CpuScaleIn(r) {
      CpuScaleInShrinks(s.ctl, r, s.cur);
    }
  }

  ghost predicate LegalRun(s: Runner, events: seq<Event>)
    decreases |events|
  {
    events == [] ||
    (1 <= s.limits.poolSize && 1 <= s.cur && Admissible(events[0]) && LegalRun(RunEvent(s, events[0]), events[1..]))
  }

  ghost function AfterRun(s: Runner, events: seq<Event>): Runner
    requires LegalRun(s, events)
    decreases |events|
  {
    if events == [] then s else AfterRun(RunEvent(s, events[0]), events[1..])
  }

  ghost predicate AlwaysBounded(s: Runner, events: seq<Event>)
    requires LegalRun(s, events)
    decreases |events|
  {
    Bounded(s) && (events != [] ==> AlwaysBounded(RunEvent(s, events[0]), events[1..]))
  }

  ghost predicate AlwaysRestrained(s: Runner, events: seq<Event>)
    requires LegalRun(s, events)
    decreases |events|
  {
    events != [] ==> Restrained(s, events[0]) && AlwaysRestrained(RunEvent(s, events[0]), events[1..])
  }

  /** The runner as it is set up: at its configured size. */
  predicate Started(s: Runner) {
    s.limits.poolSize == s.cur == s.ctl.core == s.ctl.maxThreads && 1 <= s.cur
  }

  /** Over every run, whatever is measured, the runner stays consistent. It stays within bounds all
      along if and only if every event is restrained. */
  lemma {:induction false} RunBound(s: Runner, events: seq<Event>)
    requires Consistent(s) && Bounded(s) && LegalRun(s, events)
    ensures Consistent(AfterRun(s, events))
    ensures AlwaysBounded(s, events) <==> AlwaysRestrained(s, events)
    decreases |events|
  {
    if events != [] {
      EventBound(s, events[0]);
      hide Consistent, Bounded, Restrained, RunEvent, Admissible;
      if Bounded(RunEvent(s, events[0])) {
        RunBound(RunEvent(s, events[0]), events[1..]);
      } else {
        RunStaysConsistent(RunEvent(s, events[0]), events[1..]);
      }
    }
  }

  lemma {:induction false} RunStaysConsistent(s: Runner, events: seq<Event>)
    requires Consistent(s) && LegalRun(s, events)
    ensures Consistent(AfterRun(s, events))
    decreases |events|
  {
    if events != [] {
      EventBound(s, events[0]);
      hide Consistent, Bounded, Restrained, RunEvent, Admissible;
      RunStaysConsistent(RunEvent(s, events[0]), events[1..]);
    }
  }

  lemma StartedRunBound(s: Runner, events: seq<Event>)
    requires Started(s) && LegalRun(s, events)
    ensures Consistent(AfterRun(s, events))
    ensures AlwaysBounded(s, events) <==> AlwaysRestrained(s, events)
  {
    RunBound(s, events);
  }

  /** The bound can be lost: the first measurement after a shrink is that of the larger pool. */
  lemma ShrinkThenTickExceedsBound(s: Runner)
    requires Started(s) && s.ctl == Controller(1, 8, 8, true, 0.5)
    ensures var events := [
        Task(PoolSize(16)), Task(PoolSize(2)), Tick(Some(Readings(15.0, 15.0, 40, 15.0, 24.0)))];
      LegalRun(s, events) && AfterRun(s, events).cur == 12 && !Bounded(AfterRun(s, events))
  {
    var r := Readings(15.0, 15.0, 40, 15.0, 24.0);
    var s1 := RunEvent(s, Task(PoolSize(16)));
    var s2 := RunEvent(s1, Task(PoolSize(2)));
    assert s2.ctl == Controller(1, 8, 2, true, 0.5) && s2.cur == s2.limits.poolSize == 2;
    assert s2.ctl.Target(r) == 12.0 && FloorUsize(12.0) == 12 && s2.ctl.CpuScaleIn(r);
    ScaledIsBelow(2, 12.0, 15.0);
    assert s2.ctl.Next(r, 2) == 12 by { hide Scaled; }
    var s3 := RunEvent(s2, Tick(Some(r)));
    assert s3.cur == 12;
    RunThree(s, Task(PoolSize(16)), Task(PoolSize(2)), Tick(Some(r)));
  }

  lemma RunStep(s: Runner, e: Event, rest: seq<Event>)
    requires Consistent(s) && Admissible(e) && LegalRun(RunEvent(s, e), rest)
    ensures LegalRun(s, [e] + rest) && AfterRun(s, [e] + rest) == AfterRun(RunEvent(s, e), rest)
  {
    hide RunEvent, Admissible;
    assert ([e] + rest)[1..] == rest;
  }

  lemma RunThree(s: Runner, a: Event, b: Event, c: Event)
    requires Consistent(s) && Admissible(a) && Admissible(b) && Admissible(c)
    ensures Consistent(RunEvent(s, a)) && Consistent(RunEvent(RunEvent(s, a), b))
    ensures LegalRun(s, [a, b, c])
    ensures AfterRun(s, [a, b, c]) == RunEvent(RunEvent(RunEvent(s, a), b), c)
  {
    var s1 := RunEvent(s, a);
    EventBound(s, a);
    var s2 := RunEvent(s1, b);
    EventBound(s1, b);
    RunStep(s2, c, []);
    RunStep(s1, b, [c] + []);
    RunStep(s, a, [b] + ([c] + []));
    assert [a] + ([b] + ([c] + [])) == [a, b, c];
    hide RunEvent, Admissible, LegalRun, Consistent;
  }

  predicate SameKind(e: Event, task: ConfigTask) {
    e.Task?
    && (e.task.PoolSize? <==> task.PoolSize?) && (e.task.AutoAdjust? <==> task.AutoAdjust?)
    && (e.task.CpuThreshold? <==> task.CpuThreshold?)
  }

  /** The setting that a task is about has the value it gives. */
  predicate InForce(s: Runner, task: ConfigTask) {
    match task
    case PoolSize(size) => s.ctl.core == size
    case AutoAdjust(on) => s.ctl.autoAdjust == on
    case CpuThreshold(threshold) => s.ctl.cpuThreshold == threshold
    case MaxTasksPerWorker(_) => true
  }

  /** What one event changes: a task its own setting, a tick without readings nothing at all. */
  lemma EventChangesOnly(s: Runner, e: Event, task: ConfigTask)
    requires Consistent(s) && Admissible(e)
    ensures e == Task(task) ==> InForce(RunEvent(s, e), task)
    ensures !SameKind(e, task) && InForce(s, task) ==> InForce(RunEvent(s, e), task)
    ensures e == Tick(None) || (e.Tick? && !s.ctl.autoAdjust) ==> RunEvent(s, e) == s
    ensures RunEvent(s, e).ctl.minThreads == s.ctl.minThreads && RunEvent(s, e).ctl.maxThreads == s.ctl.maxThreads
    ensures e.Task? && !e.task.PoolSize? && !(e.task.AutoAdjust? && !e.task.on) ==> RunEvent(s, e).cur == s.cur
  {
    hide Controller.Next;
  }

  lemma {:induction false} SettingStays(s: Runner, events: seq<Event>, task: ConfigTask)
    requires Consistent(s) && LegalRun(s, events) && InForce(s, task)
    requires forall e | e in events :: !SameKind(e, task)
    ensures InForce(AfterRun(s, events), task)
    decreases |events|
  {
    if events != [] {
      EventBound(s, events[0]);
      EventChangesOnly(s, events[0], task);
      hide Consistent, InForce, SameKind, RunEvent, Admissible, Bounded, Restrained;
      assert events[0] in events && forall e | e in events[1..] :: e in events;
      SettingStays(RunEvent(s, events[0]), events[1..], task);
    }
  }

  /** Over every run the last configuration of a setting is the one in force. */
  lemma {:induction false} LastConfigurationWins(s: Runner, events: seq<Event>, i: nat)
    requires Consistent(s) && LegalRun(s, events) && i < |events| && events[i].Task?
    requires forall j | i < j < |events| :: !SameKind(events[j], events[i].task)
    ensures InForce(AfterRun(s, events), events[i].task)
    decreases |events|
  {
    var task := events[i].task;
    EventBound(s, events[0]);
    EventChangesOnly(s, events[0], task);
    hide Consistent, InForce, SameKind, RunEvent, Admissible, Bounded, Restrained;
    if i == 0 {
      forall e | e in events[1..] ensures !SameKind(e, task) {
        var j :| 0 <= j < |events[1..]| && events[1..][j] == e;
        assert events[j + 1] == e;
      }
      SettingStays(RunEvent(s, events[0]), events[1..], task);
    } else {
      assert events[1..][i - 1] == events[i];
      forall j | i - 1 < j < |events[1..]| ensures !SameKind(events[1..][j], task) {
        assert events[1..][j] == events[j + 1];
      }
      LastConfigurationWins(RunEvent(s, events[0]), events[1..], i - 1);
    }
  }

  /** The per-worker limit after a run. */
  function PerWorkerAfter(perWorker: nat, events: seq<Event>): nat
    decreases |events|
  {
    if events == [] then perWorker
    else match events[0]
      case Task(MaxTasksPerWorker(k)) => PerWorkerAfter(k, events[1..])
      case _ => PerWorkerAfter(perWorker, events[1..])
  }

  lemma EventLimit(s: Runner, h: History, e: Event) returns (h': History)
    requires Consistent(s) && Admissible(e) && h.limits == s.limits && LimitTracksPool(h)
    ensures h'.limits == RunEvent(s, e).limits && LimitTracksPool(h')
    ensures h'.perWorker == PerWorkerAfter(h.perWorker, [e])
  {
    EventBound(s, e);
    var s' := RunEvent(s, e);
    if e.Task? && e.task.MaxTasksPerWorker? {
      PerWorkerTracks(e.task.perWorker, s.limits.poolSize);
      h' := ApplyOp(h, PerWorker(e.task.perWorker));
    } else if s'.limits == s.limits {
      h' := h;
    } else {
      ResizeKeepsTracking(h, s'.cur);
      h' := ApplyOp(h, Resize(s'.cur));
    }
    hide LimitTracksPool, Controller.Next, Fits;
  }

  /** Over every run the handle's limit follows the pool: at most the per-worker limit in force times the
      size, and exactly that unless some size since then overflowed. */
  lemma {:induction false} RunLimitFollowsPool(s: Runner, h: History, events: seq<Event>) returns (h': History)
    requires Consistent(s) && LegalRun(s, events) && h.limits == s.limits && LimitTracksPool(h)
    ensures h'.limits == AfterRun(s, events).limits && LimitTracksPool(h')
    ensures h'.perWorker == PerWorkerAfter(h.perWorker, events)
    decreases |events|
  {
    if events == [] {
      h' := h;
    } else {
      var h1 := EventLimit(s, h, events[0]);
      EventBound(s, events[0]);
      hide Consistent, LimitTracksPool, RunEvent, Admissible, Bounded, Restrained;
      h' := RunLimitFollowsPool(RunEvent(s, events[0]), h1, events[1..]);
      assert [events[0]][1..] == [];
    }
  }

  /** `ticks` ticks in a row with the same readings. */
  function RunTicks(s: Runner, r: Readings, ticks: nat): (s': Runner)
    requires 1 <= s.limits.poolSize == s.cur && Plausible(r)
    ensures s'.limits.poolSize == s'.cur && s'.ctl == s.ctl
    decreases ticks
  {
    if ticks == 0 then s
    else
      NextIsPositive(s.ctl, r, s.cur);
      RunTicks(RunTick(s, Some(r)), r, ticks - 1)
  }

  /** The runner's ticks are the iteration that `TicksSettle` is about. */
  lemma {:induction false} TicksIterate(s: Runner, r: Readings, ticks: nat)
    requires 1 <= s.limits.poolSize == s.cur && Plausible(r) && s.ctl.autoAdjust
    ensures RunTicks(s, r, ticks).cur == Iterate(s.ctl, r, s.cur, ticks)
    decreases ticks
  {
    if ticks > 0 {
      NextIsPositive(s.ctl, r, s.cur);
      var n := s.ctl.Next(r, s.cur);
      var s' := RunTick(s, Some(r));
      TicksIterate(s', r, ticks - 1);
      hide Controller.Next;
      assert s'.ctl == s.ctl && s'.cur == n;
    }
  }

  class ReadPoolConfigRunner {
    const handle: ReadPoolHandle
    const minThreadCount: nat
    const maxThreadCount: nat
    var coreThreadCount: nat
    var curThreadCount: nat
    var autoAdjust: bool
    var cpuThreshold: real

    ghost function View(): Runner
      reads this, handle
    {
      Runner(
        Controller(minThreadCount, maxThreadCount, coreThreadCount, autoAdjust, cpuThreshold),
        curThreadCount, handle.limits)
    }

    constructor (handle: ReadPoolHandle, minThreads: nat, maxThreads: nat, auto: bool, threshold: real)
      ensures View() ==
        Runner(Controller(minThreads, maxThreads, maxThreads, auto, threshold), maxThreads, handle.limits)
      ensures this.handle == handle
    {
      this.handle := handle;
      minThreadCount, maxThreadCount := minThreads, maxThreads;
      coreThreadCount, curThreadCount := maxThreads, maxThreads;
      autoAdjust, cpuThreshold := auto, threshold;
    }

    method Run(task: ConfigTask)
      requires Consistent(View()) && (task.PoolSize? ==> 1 <= task.size)
      modifies this, handle
      ensures View() == RunTask(old(View()), task) && Consistent(View())
      ensures old(Bounded(View())) ==> Bounded(View())
    {
      EventBound(View(), Task(task));
      match task {
        case PoolSize(s) =>
          if s != coreThreadCount {
            handle.ScalePoolSize(s);
            coreThreadCount := s;
            curThreadCount := s;
          }
        case AutoAdjust(s) =>
          autoAdjust := s;
          if !s && curThreadCount != coreThreadCount {
            handle.ScalePoolSize(coreThreadCount);
            curThreadCount := coreThreadCount;
          }
        case MaxTasksPerWorker(s) =>
          handle.SetMaxTasksPerWorker(s);
        case CpuThreshold(s) =>
          cpuThreshold := s;
      }
    }

    method AdjustPoolSize(readings: Option<Readings>)
      requires Consistent(View()) && Admissible(Tick(readings))
      modifies this, handle
      ensures View() == RunTick(old(View()), readings) && Consistent(View())
      ensures old(Bounded(View())) ==> (Bounded(View()) <==> old(Restrained(View(), Tick(readings))))
    {
      EventBound(View(), Tick(readings));
      if !autoAdjust || readings.None? {
        return;
      }
      var c := Controller(minThreadCount, maxThreadCount, coreThreadCount, autoAdjust, cpuThreshold);
      NextIsPositive(c, readings.value, curThreadCount);
      hide Controller.Next;
      var newThreadCount := c.Next(readings.value, curThreadCount);
      if newThreadCount != curThreadCount {
        handle.ScalePoolSize(newThreadCount);
        curThreadCount := newThreadCount;
      }
    }
  }
}
