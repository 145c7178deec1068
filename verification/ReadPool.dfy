/** The unified read pool: the limit that is rescaled with the pool, and the controller that resizes
    the pool from CPU and thread readings. Measurements are inputs, over the reals. */
module ReadPool {
  const USIZE_MAX: nat := 0xFFFF_FFFF_FFFF_FFFF

  const HIGH_THRESHOLD := 0.8
  const LOW_THRESHOLD := 0.7
  const TASKS_PER_THREAD := 3
  const LEEWAY := 0.1

  function SaturatingMul(a: nat, b: nat): nat {
    if a * b <= USIZE_MAX then a * b else USIZE_MAX
  }

  datatype Limits = Limits(maxTasks: nat, poolSize: nat)

  function Rescale(l: Limits, size: nat): Limits
    requires 1 <= l.poolSize
  {
    Limits(SaturatingMul(l.maxTasks / l.poolSize, size), size)
  }

  function SetPerWorker(l: Limits, perWorker: nat): Limits {
    Limits(SaturatingMul(perWorker, l.poolSize), l.poolSize)
  }

  datatype LimitOp = Resize(size: nat) | PerWorker(perWorker: nat)

  /** A pool with the per-worker limit last configured and the sizes it has had since. */
  datatype History = History(limits: Limits, perWorker: nat, sizes: seq<nat>)

  function Built(perWorker: nat, size: nat): History {
    History(Limits(SaturatingMul(perWorker, size), size), perWorker, [size])
  }

  function ApplyOp(h: History, op: LimitOp): History
    requires 1 <= h.limits.poolSize
  {
    match op
    case Resize(size) => History(Rescale(h.limits, size), h.perWorker, h.sizes + [size])
    case PerWorker(k) => History(SetPerWorker(h.limits, k), k, [h.limits.poolSize])
  }

  predicate ValidOps(ops: seq<LimitOp>) {
    forall op | op in ops :: op.Resize? ==> 1 <= op.size
  }

  function ApplyOps(h: History, ops: seq<LimitOp>): (r: History)
    requires 1 <= h.limits.poolSize && ValidOps(ops)
    ensures 1 <= r.limits.poolSize
  {
    if ops == [] then h
    else
      var op := ops[|ops| - 1];
      assert op in ops;
      ApplyOp(ApplyOps(h, ops[..|ops| - 1]), op)
  }

  predicate Fits(perWorker: nat, sizes: seq<nat>) {
    forall size | size in sizes :: perWorker * size <= USIZE_MAX
  }

  ghost predicate LimitTracksPool(h: History) {
    && h.limits.maxTasks <= h.perWorker * h.limits.poolSize
    && (h.limits.maxTasks == h.perWorker * h.limits.poolSize <==> Fits(h.perWorker, h.sizes))
  }

  lemma MulIsMonotone(a: nat, b: nat, p: nat)
    requires a <= b
    ensures a * p <= b * p
  {
  }

  lemma QuotientIsBelow(a: nat, k: nat, p: nat)
    requires 1 <= p && a < k * p
    ensures a / p < k
  {
    var q := a / p;
    assert q * p <= a;
    if k <= q {
      MulIsMonotone(k, q, p);
    }
  }

  lemma QuotientIsExact(k: nat, p: nat)
    requires 1 <= p
    ensures (k * p) / p == k
  {
    QuotientIsBelow(k * p, k + 1, p);
    var q := (k * p) / p;
    if q < k {
      MulIsMonotone(q + 1, k, p);
    }
  }

  lemma FitsAppend(k: nat, sizes: seq<nat>, size: nat)
    ensures Fits(k, sizes + [size]) <==> Fits(k, sizes) && k * size <= USIZE_MAX
  {
    if Fits(k, sizes + [size]) {
      assert forall x | x in sizes :: x in sizes + [size];
      assert size in sizes + [size];
    }
  }

  lemma ResizeKeepsTracking(h: History, size: nat)
    requires 1 <= h.limits.poolSize && 1 <= size && LimitTracksPool(h)
    ensures LimitTracksPool(ApplyOp(h, Resize(size)))
  {
    var k, p := h.perWorker, h.limits.poolSize;
    var q := h.limits.maxTasks / p;
    FitsAppend(k, h.sizes, size);
    hide Fits;
    if Fits(k, h.sizes) {
      QuotientIsExact(k, p);
      assert q == k;
    } else {
      QuotientIsBelow(h.limits.maxTasks, k, p);
      MulIsMonotone(q + 1, k, size);
      assert (q + 1) * size == q * size + size;
    }
  }

  lemma PerWorkerTracks(k: nat, size: nat)
    ensures LimitTracksPool(History(Limits(SaturatingMul(k, size), size), k, [size]))
  {
    FitsAppend(k, [], size);
    assert [] + [size] == [size];
  }

  /** Over every sequence of resizes and limit changes the limit is at most the per-worker limit
      times the pool size, and it is exactly that if and only if no size visited since the limit was
      set made the product overflow. */
  lemma {:induction false} LimitFollowsPool(perWorker: nat, size: nat, ops: seq<LimitOp>)
    requires 1 <= size && ValidOps(ops)
    ensures LimitTracksPool(ApplyOps(Built(perWorker, size), ops))
    decreases |ops|
  {
    hide LimitTracksPool;
    if ops == [] {
      PerWorkerTracks(perWorker, size);
    } else {
      var op := ops[|ops| - 1];
      assert op in ops;
      var h := ApplyOps(Built(perWorker, size), ops[..|ops| - 1]);
      LimitFollowsPool(perWorker, size, ops[..|ops| - 1]);
      match op {
        case Resize(n) => ResizeKeepsTracking(h, n);
        case PerWorker(k) => PerWorkerTracks(k, h.limits.poolSize);
      }
    }
  }

  class ReadPoolHandle {
    var limits: Limits
    var runningThreads: nat

    constructor (perWorker: nat, size: nat)
      ensures limits == Built(perWorker, size).limits && runningThreads == size
    {
      limits := Limits(SaturatingMul(perWorker, size), size);
      runningThreads := size;
    }

    method ScalePoolSize(size: nat)
      requires 1 <= limits.poolSize
      modifies this
      ensures limits == Rescale(old(limits), size) && runningThreads == size
    {
      limits := Limits(SaturatingMul(limits.maxTasks / limits.poolSize, size), size);
      runningThreads := size;
    }

    method SetMaxTasksPerWorker(perWorker: nat)
      modifies `limits
      ensures limits == SetPerWorker(old(limits), perWorker)
    {
      limits := limits.(maxTasks := SaturatingMul(perWorker, limits.poolSize));
    }
  }

  /** One tick's measurements. */
  datatype Readings = Readings(
    poolCpu: real,
    threadUsage: real,
    runningTasks: int,
    processCpu: real,
    cpuQuota: real)

  datatype Controller = Controller(
    minThreads: nat,
    maxThreads: nat,
    core: nat,
    autoAdjust: bool,
    cpuThreshold: real)
  {
    function Target(r: Readings): real {
      if cpuThreshold > 0.0 then cpuThreshold * r.cpuQuota else r.cpuQuota
    }

    predicate CpuScaleIn(r: Readings) {
      cpuThreshold > 0.0 && r.poolCpu > (LEEWAY + 1.0) * Target(r)
    }

    predicate CpuIsLow(r: Readings) {
      r.poolCpu < (1.0 - LEEWAY) * Target(r)
    }

    predicate CpuScaleOut(r: Readings, n: nat) {
      CpuIsLow(r) && n < core
    }

    predicate ThreadScaleIn(r: Readings, n: nat) {
      n > minThreads
      && r.threadUsage < (n as real - 1.0) * LOW_THRESHOLD
      && r.runningTasks < n * TASKS_PER_THREAD
    }

    predicate ThreadScaleOut(r: Readings, n: nat)
      requires 1 <= n
    {
      n < maxThreads
      && r.processCpu * (n as real + 1.0) / (n as real) < Target(r)
      && r.threadUsage > n as real * HIGH_THRESHOLD
      && r.runningTasks > n * TASKS_PER_THREAD
    }

    /** The thread count the next tick moves to from `n`. */
    function Next(r: Readings, n: nat): int
      requires 1 <= n
    {
      if CpuScaleIn(r) then
        Max(Max(FloorUsize(Target(r)), Scaled(n, Target(r), r.poolCpu)), 1)
      else if CpuScaleOut(r, n) then n + 1
      else if ThreadScaleIn(r, n) then n - 1
      else if ThreadScaleOut(r, n) then n + 1
      else n
    }
  }

  function Max(a: nat, b: nat): nat { if a < b then b else a }

  /** The float-to-integer cast: truncating and saturating. */
  function FloorUsize(x: real): nat {
    if x < 0.0 then 0 else if x.Floor > USIZE_MAX then USIZE_MAX else x.Floor
  }

  /** The thread count that would bring the pool's CPU down to the target. */
  function Scaled(n: nat, target: real, cpu: real): nat {
    if cpu == 0.0 then USIZE_MAX else FloorUsize(n as real * target / cpu)
  }

  /** What the operating system can report. */
  predicate Plausible(r: Readings) {
    r.poolCpu >= 0.0 && r.threadUsage >= 0.0 && r.processCpu >= 0.0 && r.cpuQuota > 0.0
  }

  lemma ScaledIsBelow(n: nat, target: real, cpu: real)
    requires 1 <= n && 0.0 < target && cpu > (LEEWAY + 1.0) * target
    ensures Scaled(n, target, cpu) < n
  {
    var x := n as real * target / cpu;
    assert x * cpu == n as real * target;
    assert n as real * target < n as real * cpu;
    assert x < n as real;
  }

  lemma TargetIsPositive(c: Controller, r: Readings)
    requires Plausible(r)
    ensures 0.0 < c.Target(r)
  {
  }

  lemma FloorIsBelow(x: real, n: nat)
    requires 0.0 <= x < n as real
    ensures FloorUsize(x) < n
  {
  }

  /** The CPU scale-in branch leaves the pool no larger than it was if and only if the target allows
      no more, and strictly shrinks a pool of two or more if and only if it allows less. If the
      measured CPU is at most one core per thread, both hold. */
  lemma CpuScaleInShrinks(c: Controller, r: Readings, n: nat)
    requires 1 <= n && Plausible(r) && c.CpuScaleIn(r)
    ensures c.Next(r, n) >= 1
    ensures c.Next(r, n) <= n <==> FloorUsize(c.Target(r)) <= n
    ensures 2 <= n ==> (c.Next(r, n) < n <==> FloorUsize(c.Target(r)) < n)
    ensures r.poolCpu <= n as real ==> FloorUsize(c.Target(r)) < n
  {
    TargetIsPositive(c, r);
    ScaledIsBelow(n, c.Target(r), r.poolCpu);
    hide Scaled;
    if r.poolCpu <= n as real {
      FloorIsBelow(c.Target(r), n);
    }
    hide FloorUsize;
  }

  /** Without a bound on the measured CPU the scale-in branch can grow the pool. A pool that was larger
      while it was measured can use more than one core per thread it has now. */
  lemma CpuScaleInCanGrow()
    ensures exists c: Controller, r: Readings ::
      Plausible(r) && r.poolCpu <= r.cpuQuota && c.CpuScaleIn(r) && c.Next(r, 1) > 1
  {
    var c := Controller(1, 8, 8, true, 0.5);
    var r := Readings(6.0, 0.0, 0, 6.0, 8.0);
    assert c.Target(r) == 4.0 && c.CpuScaleIn(r) && FloorUsize(4.0) == 4;
    CpuScaleInShrinks(c, r, 1);
    hide Scaled;
  }

  /** The cores that the pool may use, in the numbers of the configuration. */
  function Allowed(c: Controller, r: Readings): real {
    if c.cpuThreshold > 0.0 then c.cpuThreshold * r.cpuQuota else r.cpuQuota
  }

  lemma FloorIsExact(x: real)
    requires 0.0 <= x < USIZE_MAX as real
    ensures FloorUsize(x) as real <= x < FloorUsize(x) as real + 1.0
  {
  }

  lemma TimesPositive(a: real, b: real, c: real)
    requires 0.0 < c
    ensures a < b <==> a * c < b * c
    ensures a <= b <==> a * c <= b * c
  {
    if a < b {
      assert (b - a) * c > 0.0;
    } else if b < a {
      assert (a - b) * c > 0.0;
    }
  }

  lemma QuotientBounds(y: real, cpu: real, low: real, high: real)
    requires 0.0 < cpu
    ensures y / cpu < high <==> y < high * cpu
    ensures low <= y / cpu <==> low * cpu <= y
  {
    var x := y / cpu;
    assert x * cpu == y;
    TimesPositive(x, high, cpu);
    TimesPositive(low, x, cpu);
  }

  lemma ScaledIsExact(n: nat, target: real, cpu: real)
    requires 1 <= n && 0.0 < target < cpu && n as real < USIZE_MAX as real
    ensures var m := Scaled(n, target, cpu);
      m as real * cpu <= n as real * target < (m as real + 1.0) * cpu
  {
    var y := n as real * target;
    assert 0.0 <= y < n as real * cpu by {
      TimesPositive(target, cpu, n as real);
    }
    QuotientBounds(y, cpu, 0.0, n as real);
    assert 0.0 <= y / cpu < n as real;
    FloorIsExact(y / cpu);
    var m := FloorUsize(y / cpu);
    QuotientBounds(y, cpu, m as real, m as real + 1.0);
  }

  /** CPU scale-in, in numbers: above 1.1 times what is allowed, the pool goes to the largest count that
      the allowed cores cover, or that would bring its CPU down to them; at least one thread. */
  lemma ScaleInIsExact(c: Controller, r: Readings, n: nat)
    requires 1 <= n && n as real < USIZE_MAX as real && Plausible(r) && Allowed(c, r) < USIZE_MAX as real
    requires c.cpuThreshold > 0.0 && r.poolCpu > 1.1 * Allowed(c, r)
    ensures var m, allowed := c.Next(r, n), Allowed(c, r);
      && 1 <= m
      && (m == 1 || m as real <= allowed || m as real * r.poolCpu <= n as real * allowed)
      && allowed < m as real + 1.0 && n as real * allowed < (m as real + 1.0) * r.poolCpu
  {
    var allowed := Allowed(c, r);
    TargetIsPositive(c, r);
    assert c.Target(r) == allowed && c.CpuScaleIn(r);
    FloorIsExact(allowed);
    ScaledIsExact(n, allowed, r.poolCpu);
    var a, b, m := FloorUsize(allowed), Scaled(n, allowed, r.poolCpu), c.Next(r, n);
    hide FloorUsize, Scaled;
    assert m == Max(Max(a, b), 1);
    TimesPositive(b as real + 1.0, m as real + 1.0, r.poolCpu);
  }

  /** Any other tick, in numbers: below 0.9 times what is allowed, a pool under its configured size grows;
      otherwise it grows exactly when one more thread at the present CPU per thread stays below what is
      allowed, the threads are more than 0.8 busy and there are more than three tasks for each; it
      shrinks exactly when one thread fewer would be less than 0.7 busy and there are fewer than three
      tasks for each; within its bounds. */
  lemma TickIsExact(c: Controller, r: Readings, n: nat)
    requires 1 <= n && Plausible(r) && !(c.cpuThreshold > 0.0 && r.poolCpu > 1.1 * Allowed(c, r))
    ensures n - 1 <= c.Next(r, n) <= n + 1
    ensures r.poolCpu < 0.9 * Allowed(c, r) && n < c.core ==> c.Next(r, n) == n + 1
    ensures !(r.poolCpu < 0.9 * Allowed(c, r) && n < c.core) ==>
      && (c.Next(r, n) == n + 1 <==>
            n < c.maxThreads && r.processCpu * (n + 1) as real < Allowed(c, r) * n as real
            && r.threadUsage > 0.8 * n as real && r.runningTasks > 3 * n)
      && (c.Next(r, n) == n - 1 <==>
            n > c.minThreads && r.threadUsage < 0.7 * (n - 1) as real && r.runningTasks < 3 * n)
  {
    hide Scaled, FloorUsize, Max;
    PerThread(r.processCpu, n, c.Target(r));
    assert c.Target(r) == Allowed(c, r);
  }

  lemma PerThread(cpu: real, n: nat, allowed: real)
    requires 1 <= n
    ensures cpu * (n as real + 1.0) / n as real < allowed <==> cpu * (n + 1) as real < allowed * n as real
  {
    var x := cpu * (n as real + 1.0) / n as real;
    assert x * n as real == cpu * (n + 1) as real;
    TimesPositive(x, allowed, n as real);
  }

  lemma NextIsPositive(c: Controller, r: Readings, n: nat)
    requires 1 <= n && Plausible(r)
    ensures 1 <= c.Next(r, n)
  {
    if c.CpuScaleIn(r) {
      CpuScaleInShrinks(c, r, n);
    }
  }
}
