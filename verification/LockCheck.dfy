/** The in-memory lock check as one call over a table that stands still, and the run of the protocol that
    it is. */
module LockCheck {
  import opened Prelude
  import opened MemoryLocks

  /** A lock table entry: the lock its handle holds, if one is published. */
  datatype Entry = Entry(key: Bytes, lock: Option<Lock>)

  ghost predicate Conflicts(req: Request, e: Entry) {
    e.lock.Some? && !Passes(req, e.key, e.lock.value)
  }

  datatype Verdict = Clear | MaxTsRefused | Locked(key: Bytes, lock: Lock)

  /** The table is in key order and has what the writers of `s` have published; none of them is in its
      section. */
  ghost predicate Mirrors(table: seq<Entry>, s: State) {
    && (forall i, j | 0 <= i < j < |table| :: Less(table[i].key, table[j].key))
    && (forall k | k in s.writers :: exists i | 0 <= i < |table| :: table[i].key == k)
    && (forall i | 0 <= i < |table| ::
          && table[i].key in s.writers && !s.writers[table[i].key].InSection?
          && table[i].lock ==
               if s.writers[table[i].key].Published? then Some(s.writers[table[i].key].lock) else None)
  }

  /** The reader's first step, and that the table does not mind it. */
  lemma FirstRun(req: Request, table: seq<Entry>, s: State, accepted: bool)
    requires Mirrors(table, s) && s.reader.NotStarted? && Drawn(req, s)
    ensures var first := if req.NeedsCheck() then 0 else |req.ranges|;
      if req.stale || req.startTs == TS_MAX then
        Runs(req, s, [UpdateMaxTs(accepted)], s.(reader := Checking(first, None)))
      else if !accepted then Runs(req, s, [UpdateMaxTs(accepted)], s.(reader := Rejected))
      else
        Runs(req, s, [UpdateMaxTs(accepted)],
             s.(maxTs := Max(s.maxTs, req.startTs), reader := Checking(first, None)))
    ensures forall m: nat :: Mirrors(table, s.(maxTs := m))
  {
    var step := UpdateMaxTs(accepted);
    assert [step][1..] == [] && Enabled(req, s, step);
    assert After(req, s, [step]) == Apply(req, s, step);
  }

  /** The reader has visited the entries of its range before `i` and none from there on. */
  ghost predicate VisitedTo(req: Request, table: seq<Entry>, n: nat, cursor: Option<Bytes>, i: nat) {
    && n < |req.ranges| && i <= |table|
    && (forall j | 0 <= j < i :: req.ranges[n].Contains(table[j].key) ==> !Beyond(cursor, table[j].key))
    && (forall j | i <= j < |table| :: Beyond(cursor, table[j].key))
  }

  lemma VisitIsEnabled(req: Request, table: seq<Entry>, s: State, n: nat, cursor: Option<Bytes>, i: nat)
    requires Mirrors(table, s) && VisitedTo(req, table, n, cursor, i) && i < |table|
    requires req.ranges[n].Contains(table[i].key)
    ensures Enabled(req, s.(reader := Checking(n, cursor)), Visit(table[i].key))
  {
    var t, k := s.(reader := Checking(n, cursor)), table[i].key;
    hide Less, Range.Contains;
    forall k' | k' in t.writers && Ahead(req, t, k') ensures !Less(k', k) {
      var j :| 0 <= j < |table| && table[j].key == k';
      assert i <= j;
      NotBefore(table, i, j);
    }
  }

  lemma NotBefore(table: seq<Entry>, i: nat, j: nat)
    requires forall a, b | 0 <= a < b < |table| :: Less(table[a].key, table[b].key)
    requires i <= j < |table|
    ensures !Less(table[j].key, table[i].key)
  {
    if i < j {
      LessIsAsymmetric(table[i].key, table[j].key);
    } else if Less(table[i].key, table[i].key) {
      LessIsAsymmetric(table[i].key, table[i].key);
    }
  }

  lemma VisitAdvances(req: Request, table: seq<Entry>, s: State, n: nat, cursor: Option<Bytes>, i: nat)
    requires Mirrors(table, s) && VisitedTo(req, table, n, cursor, i) && i < |table|
    ensures VisitedTo(req, table, n, Some(table[i].key), i + 1)
  {
    hide Less, Range.Contains;
    forall j | 0 <= j < i + 1 ensures !Less(table[i].key, table[j].key) {
      NotBefore(table, j, i);
    }
  }

  /** What visiting entry `i` does to the reader. */
  lemma VisitRun(req: Request, table: seq<Entry>, s0: State, before: seq<Step>, s: State, n: nat,
                 cursor: Option<Bytes>, i: nat)
    requires Mirrors(table, s) && VisitedTo(req, table, n, cursor, i) && i < |table|
    requires req.ranges[n].Contains(table[i].key) && Runs(req, s0, before, s.(reader := Checking(n, cursor)))
    ensures Runs(req, s0, before + [Visit(table[i].key)],
                 s.(reader := if Conflicts(req, table[i]) then Rejected else Checking(n, Some(table[i].key))))
    ensures VisitedTo(req, table, n, Some(table[i].key), i + 1)
  {
    hide Runs, VisitedTo, Enabled;
    VisitIsEnabled(req, table, s, n, cursor, i);
    VisitAdvances(req, table, s, n, cursor, i);
    Then(req, s0, before, s.(reader := Checking(n, cursor)), Visit(table[i].key));
  }

  lemma SkipVisits(req: Request, table: seq<Entry>, n: nat, cursor: Option<Bytes>, i: nat)
    requires VisitedTo(req, table, n, cursor, i) && i < |table| && !req.ranges[n].Contains(table[i].key)
    ensures VisitedTo(req, table, n, cursor, i + 1)
  {
  }

  lemma EndIsEnabled(req: Request, table: seq<Entry>, s: State, n: nat, cursor: Option<Bytes>)
    requires Mirrors(table, s) && VisitedTo(req, table, n, cursor, |table|)
    ensures Enabled(req, s.(reader := Checking(n, cursor)), EndRange)
  {
    var t := s.(reader := Checking(n, cursor));
    forall k | k in t.writers ensures !Ahead(req, t, k) {
      var j :| 0 <= j < |table| && table[j].key == k;
    }
  }

  lemma EndRun(req: Request, table: seq<Entry>, s0: State, before: seq<Step>, s: State, n: nat, cursor: Option<Bytes>)
    requires Mirrors(table, s) && VisitedTo(req, table, n, cursor, |table|)
    requires Runs(req, s0, before, s.(reader := Checking(n, cursor)))
    ensures Runs(req, s0, before + [EndRange], s.(reader := Checking(n + 1, None)))
  {
    EndIsEnabled(req, table, s, n, cursor);
    hide Runs, Enabled, Mirrors;
    Then(req, s0, before, s.(reader := Checking(n, cursor)), EndRange);
  }

  class ConcurrencyManager {
    var maxTs: nat
    var table: seq<Entry>

    constructor ()
      ensures maxTs == 0 && table == []
    {
      maxTs, table := 0, [];
    }

    /** Raises the maximum timestamp; `withinLimit` is the verdict of the limit on new timestamps. */
    method UpdateMaxTs(newTs: nat, withinLimit: bool) returns (ok: bool)
      modifies this`maxTs
      ensures ok <==> newTs == TS_MAX || withinLimit
      ensures maxTs == if newTs != TS_MAX && withinLimit then Max(old(maxTs), newTs) else old(maxTs)
    {
      if newTs == TS_MAX {
        return true;
      }
      if !withinLimit {
        return false;
      }
      maxTs := Max(maxTs, newTs);
      return true;
    }

    /** The first entry of the range, in table order, that blocks the read. It is the reader's walk over
        the range, from `s0` by the run `before`. */
    method ReadRangeCheck(req: Request, n: nat, ghost s0: State, ghost before: seq<Step>, ghost s: State)
      returns (blocked: Option<Entry>, ghost steps: seq<Step>)
      requires n < |req.ranges| && Mirrors(table, s) && Runs(req, s0, before, s.(reader := Checking(n, None)))
      ensures blocked.None? ==> forall e | e in table && req.ranges[n].Contains(e.key) :: !Conflicts(req, e)
      ensures blocked.Some? ==>
        exists i | 0 <= i < |table| ::
          && table[i] == blocked.value && req.ranges[n].Contains(table[i].key) && Conflicts(req, table[i])
          && forall j | 0 <= j < i :: req.ranges[n].Contains(table[j].key) ==> !Conflicts(req, table[j])
      ensures Runs(req, s0, steps, s.(reader := if blocked.Some? then Rejected else Checking(n + 1, None)))
    {
      hide Runs, Enabled, Apply, VisitedTo, Mirrors, Passes, Range.Contains;
      ghost var cursor: Option<Bytes> := None;
      steps := before;
      assert VisitedTo(req, table, n, cursor, 0) by { NothingVisited(req, table, n); }
      for i := 0 to |table|
        invariant forall j | 0 <= j < i :: req.ranges[n].Contains(table[j].key) ==> !Conflicts(req, table[j])
        invariant Runs(req, s0, steps, s.(reader := Checking(n, cursor))) && VisitedTo(req, table, n, cursor, i)
      {
        var e := table[i];
        if req.ranges[n].Contains(e.key) {
          VisitRun(req, table, s0, steps, s, n, cursor, i);
          steps := steps + [Visit(e.key)];
          cursor := Some(e.key);
          if e.lock.Some? && !Passes(req, e.key, e.lock.value) {
            return Some(e), steps;
          }
        } else {
          SkipVisits(req, table, n, cursor, i);
        }
      }
      EndRun(req, table, s0, steps, s, n, cursor);
      steps := steps + [EndRange];
      return None, steps;
    }

    /** The read goes ahead exactly when its timestamp is accepted and, if it checks locks, no lock on any
        of its keys blocks it; unless refused, a read that is not stale leaves its mark. It is a run of
        the protocol, from any state with this maximum and this table, to the end of the check or to the
        rejection. */
    method CheckMemoryLocksForRanges(req: Request, withinLimit: bool, ghost s: State)
      returns (r: Verdict, ghost steps: seq<Step>)
      requires s.maxTs == maxTs && Mirrors(table, s) && s.reader.NotStarted? && Drawn(req, s)
      modifies this`maxTs
      ensures r.MaxTsRefused? <==> !req.stale && req.startTs != TS_MAX && !withinLimit
      ensures r.Clear? <==>
        && (req.stale || req.startTs == TS_MAX || withinLimit)
        && (req.iso.Rc? || forall e | e in table && req.Covers(e.key) :: !Conflicts(req, e))
      ensures r.Locked? ==>
        && !req.iso.Rc? && req.Covers(r.key)
        && Entry(r.key, Some(r.lock)) in table && !Passes(req, r.key, r.lock)
      ensures maxTs == if !req.stale && req.startTs != TS_MAX && withinLimit then Max(old(maxTs), req.startTs)
                       else old(maxTs)
      ensures Runs(req, s, steps,
                   s.(maxTs := maxTs, reader := if r.Clear? then Checking(|req.ranges|, None) else Rejected))
    {
      hide Runs, Conflicts, Mirrors, Enabled, Apply;
      FirstRun(req, table, s, withinLimit);
      steps := [MemoryLocks.UpdateMaxTs(withinLimit)];
      if !req.stale {
        var ok := UpdateMaxTs(req.startTs, withinLimit);
        if !ok {
          return MaxTsRefused, steps;
        }
      }
      ghost var t := s.(maxTs := maxTs);
      if req.NeedsCheck() {
        for i := 0 to |req.ranges|
          modifies {}
          invariant forall j | 0 <= j < i ::
            forall e | e in table && req.ranges[j].Contains(e.key) :: !Conflicts(req, e)
          invariant Runs(req, s, steps, t.(reader := Checking(i, None)))
        {
          var blocked;
          blocked, steps := ReadRangeCheck(req, i, s, steps, t);
          if blocked.Some? {
            assert Conflicts(req, blocked.value) && blocked.value in table && req.Covers(blocked.value.key);
            assert blocked.value.lock.Some? && !Passes(req, blocked.value.key, blocked.value.lock.value) by {
              UnfoldConflict(req, blocked.value);
            }
            return Locked(blocked.value.key, blocked.value.lock.value), steps;
          }
        }
      }
      return Clear, steps;
    }
  }

  lemma NothingVisited(req: Request, table: seq<Entry>, n: nat)
    requires n < |req.ranges|
    ensures VisitedTo(req, table, n, None, 0)
  {
  }

  lemma UnfoldConflict(req: Request, e: Entry)
    requires Conflicts(req, e)
    ensures e.lock.Some? && !Passes(req, e.key, e.lock.value)
  {
  }
}
