/** The latch that keeps two ingest requests off one SST file, the stall check and the gate in front
    of it. */
module IngestLatch {
  import opened Prelude

  const CF_WRITE := "write"

  /** An SST as a request names it. `path` is `None` when its uuid does not parse. */
  datatype Meta = Meta(cf: string, path: Option<string>)

  type Slot = (string, string)

  function SlotOf(m: Meta): Slot
    requires m.path.Some?
  {
    (m.cf, m.path.value)
  }

  function InCf(slots: set<Slot>, cf: string): set<Slot> {
    set s | s in slots && s.0 == cf
  }

  function CountCf(slots: set<Slot>, cf: string): nat { |InCf(slots, cf)| }

  lemma CountAfterInsert(slots: set<Slot>, slot: Slot, cf: string)
    requires slot !in slots
    ensures CountCf(slots + {slot}, cf) == CountCf(slots, cf) + (if slot.0 == cf then 1 else 0)
  {
    assert InCf(slots + {slot}, cf) == InCf(slots, cf) + (if slot.0 == cf then {slot} else {});
  }

  lemma CountAfterRemove(slots: set<Slot>, slot: Slot, cf: string)
    ensures CountCf(slots - {slot}, cf) <= CountCf(slots, cf)
  {
    if slot in slots {
      CountAfterInsert(slots - {slot}, slot, cf);
      assert slots - {slot} + {slot} == slots;
    } else {
      assert slots - {slot} == slots;
    }
  }

  /** What the write-stall check looks at. `storeRegion` is present on a v2 store and says whether it
      knows the region; `level0` is the number of level-0 files if the engine can tell. */
  datatype StallEnv = StallEnv(
    tabletFound: bool,
    storeRegion: Option<bool>,
    importMode: bool,
    level0: Option<nat>,
    slowdownTrigger: nat,
    compactionTrigger: nat)

  datatype Verdict = Admit | RegionNotFound | Busy

  predicate MaybeSlowdownWrites(env: StallEnv, inflight: nat) {
    env.level0.Some?
    && env.level0.value + inflight > env.slowdownTrigger / 2
    && env.level0.value + inflight >= env.compactionTrigger
  }

  function CheckWriteStall(env: StallEnv, inflight: nat): Verdict {
    if !env.tabletFound then RegionNotFound
    else if env.storeRegion == Some(false) then RegionNotFound
    else if !env.importMode && MaybeSlowdownWrites(env, inflight) then Busy
    else Admit
  }

  /** No request is admitted while `threshold` or more write-CF files are in flight. */
  ghost predicate RefusesFrom(env: StallEnv, threshold: nat) {
    forall n: nat | threshold <= n :: CheckWriteStall(env, n) != Admit
  }

  /** The region is unknown: it has no tablet, or a v2 store does not have it. */
  predicate Unknown(env: StallEnv) {
    !env.tabletFound || (env.storeRegion.Some? && !env.storeRegion.value)
  }

  /** More in flight never helps: what is refused stays refused. */
  lemma StallIsMonotone(env: StallEnv, n: nat, n': nat)
    requires n <= n' && CheckWriteStall(env, n) != Admit
    ensures CheckWriteStall(env, n') == CheckWriteStall(env, n)
  {
  }

  /** Exactly from which count on requests are refused: from zero for an unknown region; from where level
      0 with the files in flight reaches the compaction trigger and is above half the slowdown trigger,
      outside import mode and if the engine can tell; otherwise never. */
  lemma TriggersGiveThreshold(env: StallEnv, threshold: nat)
    ensures RefusesFrom(env, threshold) <==>
      Unknown(env)
      || (!env.importMode && env.level0.Some?
          && env.level0.value + threshold >= env.compactionTrigger
          && env.level0.value + threshold > env.slowdownTrigger / 2)
    ensures CheckWriteStall(env, threshold) == RegionNotFound <==> Unknown(env)
    ensures CheckWriteStall(env, threshold) != Admit ==> RefusesFrom(env, threshold)
  {
    if RefusesFrom(env, threshold) {
      assert CheckWriteStall(env, threshold) != Admit;
    }
  }

  class IngestLatch {
    var slots: set<Slot>

    constructor ()
      ensures slots == {}
    {
      slots := {};
    }

    method AcquireLock(meta: Meta) returns (r: Result<bool>)
      modifies this
      ensures meta.path.None? ==> r == Err && slots == old(slots)
      ensures meta.path.Some? ==> r == Ok(SlotOf(meta) !in old(slots)) && slots == old(slots) + {SlotOf(meta)}
    {
      if meta.path.None? {
        return Err;
      }
      r := Ok(SlotOf(meta) !in slots);
      slots := slots + {SlotOf(meta)};
    }

    method ReleaseLock(meta: Meta) returns (r: Result<bool>)
      modifies this
      ensures meta.path.None? ==> r == Err && slots == old(slots)
      ensures meta.path.Some? ==> r == Ok(SlotOf(meta) in old(slots)) && slots == old(slots) - {SlotOf(meta)}
    {
      if meta.path.None? {
        return Err;
      }
      r := Ok(SlotOf(meta) in slots);
      slots := slots - {SlotOf(meta)};
    }

    method CountSstsInCf(cf: string) returns (cnt: nat)
      ensures cnt == CountCf(slots, cf)
    {
      cnt := 0;
      var rest := slots;
      while rest != {}
        invariant cnt + CountCf(rest, cf) == CountCf(slots, cf)
        decreases rest
      {
        var slot :| slot in rest;
        CountAfterInsert(rest - {slot}, slot, cf);
        assert rest - {slot} + {slot} == rest;
        rest := rest - {slot};
        if slot.0 == cf {
          cnt := cnt + 1;
        }
      }
    }
  }

  /** Requests are suspended while the clock is before `until`. */
  class SuspendDeadline {
    var until: nat

    predicate Suspended(at: nat)
      reads this
    {
      at < until
    }

    /** The time to wait: before it is over every check will refuse, after it none. */
    method CheckSuspend(now: nat) returns (remaining: Option<nat>)
      ensures remaining.Some? ==> 0 < remaining.value && now + remaining.value == until
      ensures forall t: nat | now <= t :: Suspended(t) <==> remaining.Some? && t < now + remaining.value
    {
      remaining := if now < until then Some(until - now) else None;
    }

    /** Answers what the check would have said, and from now on it refuses until `later + forTime`. */
    method SuspendRequests(now: nat, later: nat, forTime: nat) returns (suspended: bool)
      modifies this
      ensures suspended == old(Suspended(now))
      ensures forall t: nat :: Suspended(t) <==> t < later + forTime
    {
      suspended := now < until;
      until := later + forTime;
    }

    /** Answers what the check would have said, and from now on it never refuses. */
    method AllowRequests(now: nat) returns (suspended: bool)
      modifies this
      ensures suspended == old(Suspended(now))
      ensures forall t: nat :: !Suspended(t)
    {
      suspended := now < until;
      until := 0;
    }
  }
}
