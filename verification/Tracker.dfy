/** The coprocessor request tracker: the stages of a request, the times spent in them, and the
    fast-forward that closes the books when a request is dropped at any point. */
module Tracker {
  /** A clock that never goes back. */
  class Clock {
    var now: nat

    method Read() returns (t: nat)
      modifies this
      ensures t == now && old(now) <= now
    {
      assert now <= now;
      t :| now <= t;
      now := t;
    }
  }

  datatype Stage =
    | Initialized
    | Scheduled(at: nat)
    | SnapshotRetrieved(at: nat)
    | AllItemsBegan
    | ItemBegan(at: nat)
    | ItemFinished(at: nat)
    | AllItemFinished
    | Tracked

  /** The durations a tracker collects. `observations` counts how often they were reported. */
  datatype Times = Times(
    wait: nat,
    schedule: nat,
    snapshot: nat,
    build: nat,
    lifetime: nat,
    itemSuspend: nat,
    totalSuspend: nat,
    itemProcess: nat,
    totalProcess: nat,
    observations: nat)

  const Zero := Times(0, 0, 0, 0, 0, 0, 0, 0, 0, 0)

  /** The waiting time is made of its three parts. */
  ghost predicate WaitAddsUp(m: Times) {
    m.wait == m.schedule + m.snapshot + m.totalSuspend
  }

  class Tracker {
    const clock: Clock
    const beginAt: nat
    var stage: Stage
    var times: Times
    /** When the items began, and the time from then to the first item. */
    ghost var itemsAt: nat
    ghost var gap: nat

    /** Up to `at`, every moment since the request began is accounted for. */
    ghost predicate Accounted(at: nat)
      reads this, clock
    {
      && beginAt <= at <= clock.now
      && at - beginAt == times.wait + times.build + times.totalProcess + gap
      && WaitAddsUp(times)
    }

    ghost predicate Valid()
      reads this, clock
    {
      && beginAt <= clock.now
      && times.observations == (if stage.Tracked? then 1 else 0)
      && match stage
         case Initialized => times == Zero && gap == 0
         case Scheduled(at) =>
           beginAt <= at <= clock.now && times == Zero.(schedule := at - beginAt) && gap == 0
         case SnapshotRetrieved(at) =>
           Accounted(at) && times.build == times.totalProcess == times.totalSuspend == gap == 0
         case AllItemsBegan => Accounted(itemsAt) && times.totalProcess == times.totalSuspend == gap == 0
         case ItemBegan(at) => Accounted(at)
         case ItemFinished(at) => Accounted(at)
         case AllItemFinished => false
         case Tracked =>
           WaitAddsUp(times) && times.wait + times.build + times.totalProcess + gap <= times.lifetime
    }

    constructor (clock: Clock)
      ensures Valid() && stage == Initialized && this.clock == clock && beginAt == clock.now
    {
      this.clock, beginAt := clock, clock.now;
      stage, times, itemsAt, gap := Initialized, Zero, 0, 0;
    }

    method OnScheduled()
      requires Valid() && stage.Initialized?
      modifies this, clock
      ensures Valid() && old(clock.now) <= clock.now && stage == Scheduled(clock.now)
      ensures times == old(times).(schedule := clock.now - beginAt)
    {
      var now := clock.Read();
      times := times.(schedule := now - beginAt);
      stage := Scheduled(now);
    }

    method OnSnapshotFinished()
      requires Valid() && stage.Scheduled?
      modifies this, clock
      ensures Valid() && old(clock.now) <= clock.now && stage == SnapshotRetrieved(clock.now)
      ensures times == old(times).(snapshot := clock.now - old(stage).at, wait := clock.now - beginAt)
    {
      var now := clock.Read();
      times := times.(snapshot := now - stage.at, wait := now - beginAt);
      stage := SnapshotRetrieved(now);
    }

    method OnBeginAllItems()
      requires Valid() && stage.SnapshotRetrieved?
      modifies this, clock
      ensures Valid() && old(clock.now) <= clock.now && stage == AllItemsBegan
      ensures times == old(times).(build := clock.now - old(stage).at) && itemsAt == clock.now && gap == old(gap)
    {
      var now := clock.Read();
      times := times.(build := now - stage.at);
      stage := AllItemsBegan;
      itemsAt := now;
    }

    method OnBeginItem()
      requires Valid() && (stage.AllItemsBegan? || stage.ItemFinished?)
      modifies this, clock
      ensures Valid() && old(clock.now) <= clock.now && stage == ItemBegan(clock.now)
      ensures old(stage).AllItemsBegan? ==> times == old(times) && gap == clock.now - old(itemsAt)
      ensures old(stage).ItemFinished? ==>
        var suspended := clock.now - old(stage).at;
        && gap == old(gap)
        && times == old(times).(itemSuspend := suspended, totalSuspend := old(times).totalSuspend + suspended,
                                wait := old(times).wait + suspended)
    {
      var now := clock.Read();
      if stage.AllItemsBegan? {
        gap := now - itemsAt;
      } else {
        var suspended := now - stage.at;
        times := times.(itemSuspend := suspended, totalSuspend := times.totalSuspend + suspended,
                        wait := times.wait + suspended);
      }
      stage := ItemBegan(now);
    }

    method OnFinishItem()
      requires Valid() && stage.ItemBegan?
      modifies this, clock
      ensures Valid() && old(clock.now) <= clock.now && stage == ItemFinished(clock.now) && gap == old(gap)
      ensures var spent := clock.now - old(stage).at;
        times == old(times).(itemProcess := spent, totalProcess := old(times).totalProcess + spent)
    {
      var now := clock.Read();
      var spent := now - stage.at;
      times := times.(itemProcess := spent, totalProcess := times.totalProcess + spent);
      stage := ItemFinished(now);
    }

    /** The details of the item just finished: its process time, its suspension, the wait so far. */
    method GetItemExecDetails() returns (details: (nat, nat, nat))
      requires Valid() && stage.ItemFinished?
      ensures details == (times.itemProcess, times.itemSuspend, times.wait)
    {
      details := (times.itemProcess, times.itemSuspend, times.wait);
    }

    method GetExecDetails() returns (details: (nat, nat, nat))
      requires Valid() && stage.ItemFinished?
      ensures details == (times.totalProcess, times.totalSuspend, times.wait)
      ensures details.0 + details.2 <= stage.at - beginAt
    {
      details := (times.totalProcess, times.totalSuspend, times.wait);
    }

    method OnFinishAllItems()
      requires Valid() && (stage.AllItemsBegan? || stage.ItemFinished?)
      modifies this, clock
      ensures Valid() && old(clock.now) <= clock.now && stage == Tracked && gap == old(gap)
      ensures times == old(times).(lifetime := clock.now - beginAt, observations := 1)
    {
      var now := clock.Read();
      times := times.(lifetime := now - beginAt);
      stage := AllItemFinished;
      Track();
    }

    /** Reports the times once, when the items are finished and not before or again. */
    method Track()
      modifies `stage, `times
      ensures old(stage).AllItemFinished? ==>
        stage == Tracked && times == old(times).(observations := old(times).observations + 1)
      ensures !old(stage).AllItemFinished? ==> stage == old(stage) && times == old(times)
    {
      if stage != AllItemFinished {
        return;
      }
      times := times.(observations := times.observations + 1);
      stage := Tracked;
    }

    /** Dropped at whatever stage: the missing steps are made up for, the times are reported exactly
        once, and what was already recorded stays. */
    method Drop()
      requires Valid()
      modifies this, clock
      ensures Valid() && old(clock.now) <= clock.now && stage == Tracked && times.observations == 1
      ensures old(stage).Tracked? ==> times == old(times)
      ensures old(times).totalProcess <= times.totalProcess && old(times).totalSuspend == times.totalSuspend
      ensures !old(stage).Initialized? ==> times.schedule == old(times).schedule
    {
      if stage.Initialized? {
        OnScheduled();
      }
      if stage.Scheduled? {
        OnSnapshotFinished();
      }
      if stage.SnapshotRetrieved? {
        OnBeginAllItems();
      }
      if stage.ItemBegan? {
        OnFinishItem();
      }
      if stage.AllItemsBegan? {
        OnFinishAllItems();
      }
      if stage.ItemFinished? {
        OnFinishAllItems();
      }
    }
  }
}
