/** The duplicate detector: a cursor over the write column family, four cooperating loops, and
    the iterator that delivers their results in batches. */
module DuplicateDetector {
  import opened Prelude
  import opened DuplicateSpec

  /** One message of the response stream. Error details are not modelled. */
  datatype Response = Pairs(pairs: seq<KvPair>) | KeyError

  lemma NoReports()
    ensures Flatten([]) == []
  {
  }

  lemma {:induction false} FlattenAppend(a: seq<seq<KvPair>>, b: seq<seq<KvPair>>)
    ensures Flatten(a + b) == Flatten(a) + Flatten(b)
  {
    if a == [] {
      assert a + b == b;
    } else {
      assert (a + b)[1..] == a[1..] + b;
      FlattenAppend(a[1..], b);
    }
  }

  /** How many whole reports fill a batch that already holds `have` pairs. */
  function BatchKeys(reports: seq<seq<KvPair>>, have: nat, limit: nat): (n: nat)
    ensures n <= |reports|
    ensures reports != [] ==> 0 < n
  {
    if reports == [] then 0
    else if have + |reports[0]| >= limit then 1
    else 1 + BatchKeys(reports[1..], have + |reports[0]|, limit)
  }

  /** The stream that an outcome is cut into: batches of whole keys, each closed as soon as it
      reaches the limit. An error discards the batch that was being filled. */
  function Responses(o: Outcome, limit: nat): seq<Response>
    requires 1 <= limit
    decreases |o.reports|
  {
    var n := BatchKeys(o.reports, 0, limit);
    var batch := Flatten(o.reports[..n]);
    if |batch| >= limit then [Pairs(batch)] + Responses(Outcome(o.reports[n..], o.failed), limit)
    else if o.failed then [KeyError]
    else if batch == [] then []
    else [Pairs(batch)]
  }

  lemma ReportStep(scan: Scan, p: nat)
    requires p <= |scan.records|
    ensures p == |scan.records| ==> scan.Report(p) == Outcome([], false)
    ensures scan.Unreadable(p) ==> scan.Report(p) == Outcome([], true)
    ensures p < |scan.records| && scan.records[p].Record? && scan.records[p].commitTs > scan.minCommitTs ==>
      p < scan.KeyEnd(p, scan.records[p].key) && scan.Report(p) == match scan.KeyReport(p)
        case None => Outcome([], true)
        case Some(report) =>
          var rest := scan.Report(scan.KeyEnd(p, scan.records[p].key));
          Outcome([report] + rest.reports, rest.failed)
  {
  }

  lemma {:induction false} BatchKeysAfter(done: seq<seq<KvPair>>, rest: seq<seq<KvPair>>, have: nat, limit: nat)
    requires done == [] || have + |Flatten(done)| < limit
    ensures BatchKeys(done + rest, have, limit) == |done| + BatchKeys(rest, have + |Flatten(done)|, limit)
  {
    if done == [] {
      assert done + rest == rest;
    } else {
      assert (done + rest)[1..] == done[1..] + rest;
      BatchKeysAfter(done[1..], rest, have + |done[0]|, limit);
    }
  }

  /** The report that reaches the limit closes the batch. */
  lemma BatchCloses(done: seq<seq<KvPair>>, report: seq<KvPair>, rest: seq<seq<KvPair>>, limit: nat)
    requires |Flatten(done)| < limit
    ensures Flatten(done + [report]) == Flatten(done) + report
    ensures var reports := done + ([report] + rest);
      && reports == done + [report] + rest
      && (|Flatten(done) + report| >= limit ==>
            && BatchKeys(reports, 0, limit) == |done| + 1
            && reports[..|done| + 1] == done + [report] && reports[|done| + 1..] == rest)
  {
    FlattenAppend(done, [report]);
    BatchKeysAfter(done, [report] + rest, 0, limit);
  }

  lemma BatchStaysOpen(done: seq<seq<KvPair>>, limit: nat)
    requires |Flatten(done)| < limit
    ensures BatchKeys(done, 0, limit) == |done| && done[..|done|] == done && done + [] == done
  {
    assert done + [] == done;
    BatchKeysAfter(done, [], 0, limit);
  }

  /** Nothing seen before `q` ends or breaks the report of the key at `p`. */
  ghost predicate Undecided(scan: Scan, p: nat, q: nat) {
    && scan.IsType(p, Put) && p < q <= scan.KeyEnd(p, scan.records[p].key)
    && (forall i: nat | p < i < q :: scan.Parsed(i) && !scan.Terminal(i))
  }

  /** Every position of a run has the same end. */
  lemma {:induction false} RunReaches(scan: Scan, p: nat, q: nat, k: Bytes)
    requires p <= q <= |scan.records| && forall i: nat | p <= i < q :: scan.OfKey(i, k)
    ensures q <= scan.KeyEnd(p, k) == scan.KeyEnd(q, k)
    ensures scan.OfKey(q, k) ==> q < scan.KeyEnd(q + 1, k) == scan.KeyEnd(p, k)
    ensures !scan.OfKey(q, k) ==> scan.KeyEnd(p, k) == q
    decreases q
  {
    if p < q {
      RunReaches(scan, p, q - 1, k);
    }
  }

  lemma ReportNeedsPut(scan: Scan, p: nat)
    requires p < |scan.records| && scan.records[p].Record?
    ensures p < scan.KeyEnd(p, scan.records[p].key)
    ensures !scan.IsType(p, Put) ==> scan.KeyReport(p) == None
    ensures scan.Unreadable(scan.KeyEnd(p, scan.records[p].key)) ==> scan.KeyReport(p) == None
    ensures scan.Parsed(p) ==> scan.ReportUpTo(p, p + 1) == Some([]) && !scan.AnySurvivor(p + 1, p + 1)
    ensures scan.IsType(p, Put) ==> Undecided(scan, p, p + 1)
  {
  }

  /** A version that does not survive adds nothing. */
  lemma OthersAddNothing(scan: Scan, p: nat, q: nat)
    requires scan.Parsed(p) && p < q && !scan.Survives(q)
    ensures scan.ReportUpTo(p, q + 1) == scan.ReportUpTo(p, q)
    ensures scan.AnySurvivor(p + 1, q + 1) == scan.AnySurvivor(p + 1, q)
  {
    assert scan.AnySurvivor(p + 1, q + 1) <==> scan.AnySurvivor(p + 1, q);
    if scan.ValuesPresent(p + 1, q + 1) {
      assert scan.OlderPairs(p + 1, q + 1) == scan.OlderPairs(p + 1, q);
    }
  }

  /** Locks and rollbacks neither count nor decide. */
  lemma {:induction false} SkippedAddNothing(scan: Scan, p: nat, q: nat, q': nat)
    requires Undecided(scan, p, q) && q <= q' <= scan.KeyEnd(p, scan.records[p].key)
    requires forall i: nat | q <= i < q' :: scan.IsType(i, Lock) || scan.IsType(i, Rollback)
    ensures Undecided(scan, p, q')
    ensures scan.ReportUpTo(p, q') == scan.ReportUpTo(p, q)
    ensures scan.AnySurvivor(p + 1, q') == scan.AnySurvivor(p + 1, q)
    decreases q'
  {
    if q < q' {
      SkippedAddNothing(scan, p, q, q' - 1);
      assert scan.IsType(q' - 1, Lock) || scan.IsType(q' - 1, Rollback);
      OthersAddNothing(scan, p, q' - 1);
    }
  }

  lemma {:induction false} NoSurvivorNoPair(scan: Scan, p: nat, q: nat)
    requires !scan.AnySurvivor(p, q)
    ensures scan.ValuesPresent(p, q) && scan.OlderPairs(p, q) == []
    decreases q
  {
    if p < q {
      NoSurvivorNoPair(scan, p, q - 1);
      assert !scan.Survives(q - 1);
    }
  }

  /** A surviving version is added, after the newest one if it is the first survivor. */
  lemma SurvivorIsAdded(scan: Scan, p: nat, q: nat)
    requires scan.Parsed(p) && p < q && scan.Survives(q) && scan.ReportUpTo(p, q).Some?
    ensures scan.AnySurvivor(p + 1, q + 1)
    ensures scan.AnySurvivor(p + 1, q) && !scan.keyOnly ==> scan.HasValue(p)
    ensures scan.ReportUpTo(p, q + 1) ==
      if scan.keyOnly then Some(scan.ReportUpTo(p, q).value + [scan.PairOf(q)])
      else if !scan.HasValue(p) || !scan.HasValue(q) then None
      else if scan.AnySurvivor(p + 1, q) then Some(scan.ReportUpTo(p, q).value + [scan.PairOf(q)])
      else Some([scan.PairOf(p), scan.PairOf(q)])
  {
    if !scan.AnySurvivor(p + 1, q) {
      NoSurvivorNoPair(scan, p + 1, q);
    }
    assert scan.ValuesPresent(p + 1, q + 1) <==> scan.keyOnly || (scan.ValuesPresent(p + 1, q) && scan.HasValue(q));
    if scan.ReportUpTo(p, q + 1).Some? {
      var head := if scan.keyOnly then [] else [scan.PairOf(p)];
      assert head + scan.OlderPairs(p + 1, q + 1) == head + scan.OlderPairs(p + 1, q) + [scan.PairOf(q)];
      if scan.keyOnly || scan.AnySurvivor(p + 1, q) {
        assert scan.ReportUpTo(p, q).value == head + scan.OlderPairs(p + 1, q);
      } else {
        assert head + scan.OlderPairs(p + 1, q) + [scan.PairOf(q)] == [scan.PairOf(p), scan.PairOf(q)];
      }
    }
  }

  /** A missing value is missing from every longer report too. */
  lemma MissingStaysMissing(scan: Scan, p: nat, q: nat, q': nat)
    requires scan.Parsed(p) && q <= q' && scan.ReportUpTo(p, q) == None
    ensures scan.ReportUpTo(p, q') == None
  {
    var i: nat :| p + 1 <= i < q && scan.Survives(i);
  }

  /** The key's run ends without a terminal version. */
  lemma ReportAtRunEnd(scan: Scan, p: nat, q: nat)
    requires Undecided(scan, p, q) && q == scan.KeyEnd(p, scan.records[p].key) && !scan.Unreadable(q)
    ensures scan.KeyReport(p) == scan.ReportUpTo(p, q)
  {
    assert scan.RelevantEnd(p + 1, q) == q;
  }

  /** A newer Put leaves the report open. */
  lemma StaysUndecided(scan: Scan, p: nat, q: nat)
    requires Undecided(scan, p, q) && q < scan.KeyEnd(p, scan.records[p].key)
    requires scan.IsType(q, Put) && scan.records[q].commitTs > scan.minCommitTs
    ensures Undecided(scan, p, q + 1)
  {
  }

  /** A terminal version is the last one that counts. */
  lemma ReportAtTerminal(scan: Scan, p: nat, q: nat)
    requires Undecided(scan, p, q) && q < scan.KeyEnd(p, scan.records[p].key) && scan.Terminal(q)
    ensures scan.KeyReport(p) ==
      if scan.Unreadable(scan.KeyEnd(p, scan.records[p].key)) then None else scan.ReportUpTo(p, q + 1)
  {
    hide Scan.ReportUpTo;
    assert scan.RelevantEnd(p + 1, scan.KeyEnd(p, scan.records[p].key)) == q + 1;
  }

  /** A version that does not parse, or a surviving one whose value is missing, breaks the report. */
  lemma ReportBreaks(scan: Scan, p: nat, q: nat)
    requires Undecided(scan, p, q) && q < scan.KeyEnd(p, scan.records[p].key)
    requires !scan.Parsed(q) || scan.ReportUpTo(p, q + 1) == None
    ensures scan.KeyReport(p) == None
  {
    hide Scan.ReportUpTo;
    var last := scan.RelevantEnd(p + 1, scan.KeyEnd(p, scan.records[p].key));
    assert p < q < last;
    if scan.Parsed(q) {
      MissingStaysMissing(scan, p, q + 1, last);
    }
  }

  class DuplicateDetector {
    const scan: Scan
    const limit: nat
    var pos: nat
    var valid: bool

    ghost predicate Valid()
      reads this
    {
      pos <= |scan.records| && scan.Sorted() && 1 <= limit
    }

    /** Everything the iterator will still deliver. */
    ghost function Pending(): seq<Response>
      requires Valid()
      reads this
    {
      if valid then Responses(scan.Report(pos), limit) else []
    }

    constructor (scan: Scan, limit: nat)
      requires scan.Sorted() && 1 <= limit
      ensures Valid() && valid && pos == 0 && this.scan == scan && this.limit == limit
    {
      this.scan, this.limit, pos, valid := scan, limit, 0, true;
    }

    /** The engine's iterator must be valid when it is advanced. */
    method Advance()
      requires Valid() && pos < |scan.records|
      modifies `pos
      ensures Valid() && pos == old(pos) + 1
    {
      pos := pos + 1;
    }

    method MoveToNextImportKey() returns (r: Result<Option<(Bytes, nat)>>)
      requires Valid()
      modifies `pos
      ensures Valid() && old(pos) <= pos
      ensures scan.Report(pos) == scan.Report(old(pos))
      ensures r.Err? <==> scan.Unreadable(pos)
      ensures r == Ok(None) <==> pos == |scan.records|
      ensures r.Ok? && r.value.Some? ==>
        && scan.OfKey(pos, r.value.value.0)
        && r.value.value.1 == scan.records[pos].commitTs > scan.minCommitTs
    {
      hide Scan.Report, Scan.Sorted;
      while pos < |scan.records|
        invariant Valid() && old(pos) <= pos
        invariant scan.Report(pos) == scan.Report(old(pos))
        decreases |scan.records| - pos
      {
        match scan.records[pos] {
          case Broken => return Err;
          case Record(currentKey, commitTs, _) =>
            if commitTs > scan.minCommitTs {
              return Ok(Some((currentKey, commitTs)));
            }
        }
        scan.OldVersionReportsNothing(pos);
        Advance();
      }
      return Ok(None);
    }

    /** Steps to the next Put or Delete of `startKey`. */
    method SkipLockAndRollback(startKey: Bytes) returns (r: Result<Option<Write>>)
      requires Valid() && pos < |scan.records|
      modifies `pos
      ensures Valid() && old(pos) < pos
      ensures forall i: nat | old(pos) < i < pos ::
        scan.OfKey(i, startKey) && (scan.IsType(i, Lock) || scan.IsType(i, Rollback))
      ensures match r
        case Err => scan.Unreadable(pos) || (scan.OfKey(pos, startKey) && !scan.Parsed(pos))
        case Ok(None) => !scan.OfKey(pos, startKey) && !scan.Unreadable(pos)
        case Ok(Some(write)) =>
          && scan.OfKey(pos, startKey) && scan.records[pos].write == Some(write)
          && write.writeType in {Put, Delete}
    {
      Advance();
      while pos < |scan.records|
        invariant Valid() && old(pos) < pos
        invariant forall i: nat | old(pos) < i < pos ::
          scan.OfKey(i, startKey) && (scan.IsType(i, Lock) || scan.IsType(i, Rollback))
        decreases |scan.records| - pos
      {
        match scan.records[pos] {
          case Broken => return Err;
          case Record(currentKey, _, write) =>
            if currentKey != startKey {
              return Ok(None);
            }
            if write.None? {
              return Err;
            }
            match write.value.writeType {
              case Put => return Ok(write);
              case Delete => return Ok(write);
              case Lock => Advance();
              case Rollback => Advance();
            }
        }
      }
      return Ok(None);
    }

    method SkipAllVersion(startKey: Bytes) returns (r: Result<()>)
      requires Valid() && pos < |scan.records|
      modifies `pos
      ensures Valid() && pos == scan.KeyEnd(old(pos) + 1, startKey)
      ensures r.Err? <==> scan.Unreadable(pos)
    {
      Advance();
      while pos < |scan.records|
        invariant Valid() && old(pos) < pos
        invariant scan.KeyEnd(pos, startKey) == scan.KeyEnd(old(pos) + 1, startKey)
        decreases |scan.records| - pos
      {
        match scan.records[pos] {
          case Broken => return Err;
          case Record(currentKey, _, _) =>
            if currentKey != startKey {
              break;
            }
        }
        Advance();
      }
      return Ok(());
    }

    method MakeKvPair(key: Bytes, write: Option<Write>, ts: nat) returns (r: Result<KvPair>)
      ensures write.None? ==> r == Ok(KvPair(key, [], ts))
      ensures write.Some? && write.value.shortValue.Some? ==> r == Ok(KvPair(key, write.value.shortValue.value, ts))
      ensures write.Some? && write.value.shortValue.None? ==>
        var at := (key, write.value.startTs);
        r == if at in scan.defaultCf then Ok(KvPair(key, scan.defaultCf[at], ts)) else Err
    {
      var value := [];
      if write.Some? {
        match write.value.shortValue {
          case Some(v) => value := v;
          case None =>
            if (key, write.value.startTs) !in scan.defaultCf {
              return Err;
            }
            value := scan.defaultCf[(key, write.value.startTs)];
        }
      }
      return Ok(KvPair(key, value, ts));
    }

    /** The Put under the cursor is reported, preceded by the newest version if that is still due. */
    method PushPut(startKey: Bytes, endCommitTs: nat, writeInfo: Option<Write>, pairs: seq<KvPair>, ghost p: nat)
      returns (r: Result<seq<KvPair>>)
      requires Valid() && scan.IsType(p, Put) && p < pos && scan.Survives(pos)
      requires scan.OfKey(p, startKey) && scan.OfKey(pos, startKey) && scan.records[p].commitTs == endCommitTs
      requires writeInfo == if scan.keyOnly || scan.AnySurvivor(p + 1, pos) then None else scan.records[p].write
      requires scan.ReportUpTo(p, pos).Some?
      ensures scan.AnySurvivor(p + 1, pos + 1)
      ensures match scan.ReportUpTo(p, pos + 1)
        case None => r.Err?
        case Some(longer) =>
          r.Ok? && exists more ::
            longer == scan.ReportUpTo(p, pos).value + more && r.value == pairs + more
    {
      hide Scan.AnySurvivor, Scan.Sorted;
      SurvivorIsAdded(scan, p, pos);
      hide Scan.ReportUpTo;
      ghost var more := [];
      var out := pairs;
      if writeInfo.Some? {
        var newest := MakeKvPair(startKey, writeInfo, endCommitTs);
        if newest.Err? {
          return Err;
        }
        more := [newest.value];
        out := out + [newest.value];
      }
      var currentWrite := if scan.keyOnly then None else scan.records[pos].write;
      var older := MakeKvPair(startKey, currentWrite, scan.records[pos].commitTs);
      if older.Err? {
        return Err;
      }
      more := more + [older.value];
      assert out + [older.value] == pairs + more;
      return Ok(out + [older.value]);
    }

    /** At a terminal version the report is complete, unless the rest of the key cannot be read. */
    method SkipRest(startKey: Bytes, ghost pairs: seq<KvPair>, out: seq<KvPair>, ghost p: nat)
      returns (r: Result<seq<KvPair>>)
      requires Valid() && Undecided(scan, p, pos) && scan.OfKey(p, startKey)
      requires pos + 1 <= scan.KeyEnd(p, startKey) == scan.KeyEnd(pos + 1, startKey) && scan.Terminal(pos)
      requires scan.ReportUpTo(p, pos + 1).Some? && out == pairs + scan.ReportUpTo(p, pos + 1).value
      modifies `pos
      ensures Valid() && old(pos) <= pos
      ensures match scan.KeyReport(p)
        case None => r.Err?
        case Some(report) => r == Ok(pairs + report) && pos == scan.KeyEnd(p, startKey)
    {
      ReportAtTerminal(scan, p, pos);
      hide Scan.KeyReport, Scan.ReportUpTo, Scan.KeyEnd, Undecided, Scan.Sorted;
      var skipped := SkipAllVersion(startKey);
      return if skipped.Err? then Err else Ok(out);
    }

    method CollectCurrentKeyDuplicate(startKey: Bytes, endCommitTs: nat, pairs: seq<KvPair>)
      returns (r: Result<seq<KvPair>>)
      requires Valid() && scan.OfKey(pos, startKey)
      requires endCommitTs == scan.records[pos].commitTs > scan.minCommitTs
      modifies `pos
      ensures Valid() && old(pos) <= pos
      ensures match scan.KeyReport(old(pos))
        case None => r.Err?
        case Some(report) => r == Ok(pairs + report) && pos == scan.KeyEnd(old(pos), startKey)
    {
      hide Scan.KeyReport, Scan.KeyEnd, Scan.AnySurvivor, Scan.ReportUpTo, Scan.Sorted, Undecided;
      ghost var p := pos;
      ReportNeedsPut(scan, p);
      if scan.records[pos].write.None? {
        return Err;
      }
      var write := scan.records[pos].write.value;
      if write.writeType != Put {
        return Err;
      }
      var writeInfo := if scan.keyOnly then None else Some(write);
      var out := pairs;
      while true
        invariant Valid() && p <= pos && Undecided(scan, p, pos + 1)
        invariant forall i: nat | p <= i <= pos :: scan.OfKey(i, startKey)
        invariant scan.ReportUpTo(p, pos + 1).Some? && out == pairs + scan.ReportUpTo(p, pos + 1).value
        invariant writeInfo == if scan.keyOnly || scan.AnySurvivor(p + 1, pos + 1) then None else Some(write)
        decreases |scan.records| - pos
      {
        ghost var q := pos + 1;
        var next := SkipLockAndRollback(startKey);
        RunReaches(scan, p, pos, startKey);
        SkippedAddNothing(scan, p, q, pos);
        if next.Err? {
          if !scan.Unreadable(pos) { ReportBreaks(scan, p, pos); }
          return Err;
        }
        if next.value.None? {
          ReportAtRunEnd(scan, p, pos);
          return Ok(out);
        }
        var currentWrite, commitTs := next.value.value, scan.records[pos].commitTs;
        if currentWrite.writeType == Delete
          || (commitTs <= scan.minCommitTs && !currentWrite.CheckGcFenceAsLatestVersion(scan.minCommitTs))
        {
          OthersAddNothing(scan, p, pos);
          r := SkipRest(startKey, pairs, out, p);
          return;
        }
        var pushed := PushPut(startKey, endCommitTs, writeInfo, out, p);
        if pushed.Err? {
          ReportBreaks(scan, p, pos);
          return Err;
        }
        out, writeInfo := pushed.value, None;
        assert out == pairs + scan.ReportUpTo(p, pos + 1).value;
        if commitTs <= scan.minCommitTs {
          r := SkipRest(startKey, pairs, out, p);
          return;
        }
        StaysUndecided(scan, p, pos);
      }
    }

    /** One batch: the leading pending reports, up to the key that reaches the limit. */
    method TryNext() returns (r: Result<Option<seq<KvPair>>>)
      requires Valid()
      modifies `pos
      ensures Valid() && old(pos) <= pos
      ensures var o := scan.Report(old(pos));
        var n := BatchKeys(o.reports, 0, limit);
        var batch := Flatten(o.reports[..n]);
        if |batch| >= limit then
          r == Ok(Some(batch)) && old(pos) < pos && scan.Report(pos) == Outcome(o.reports[n..], o.failed)
        else if o.failed then r == Err
        else r == Ok(if batch == [] then None else Some(batch)) && pos == |scan.records|
    {
      hide Scan.Report, Scan.KeyReport, Scan.KeyEnd, BatchKeys, Flatten;
      ghost var o := scan.Report(pos);
      var ret := [];
      ghost var done: seq<seq<KvPair>> := [];
      NoReports();
      while true
        invariant Valid() && old(pos) <= pos
        invariant o.reports == done + scan.Report(pos).reports && o.failed == scan.Report(pos).failed
        invariant ret == Flatten(done) && |ret| < limit
        decreases |scan.records| - pos
      {
        BatchStaysOpen(done, limit);
        var key := MoveToNextImportKey();
        ReportStep(scan, pos);
        if key.Err? {
          return Err;
        }
        if key.value.None? {
          break;
        }
        ghost var report := scan.KeyReport(pos);
        var collected := CollectCurrentKeyDuplicate(key.value.value.0, key.value.value.1, ret);
        if collected.Err? {
          return Err;
        }
        BatchCloses(done, report.value, scan.Report(pos).reports, limit);
        ret := collected.value;
        done := done + [report.value];
        if |ret| >= limit {
          return Ok(Some(ret));
        }
      }
      return if ret == [] then Ok(None) else Ok(Some(ret));
    }

    /** The iterator: delivers the pending responses one by one. */
    method Next() returns (resp: Option<Response>)
      requires Valid()
      modifies this
      ensures Valid() && old(pos) <= pos
      ensures old(Pending()) == [] ==> resp == None && Pending() == []
      ensures old(Pending()) != [] ==> resp == Some(old(Pending())[0]) && Pending() == old(Pending())[1..]
    {
      if !valid {
        return None;
      }
      var r := TryNext();
      match r {
        case Ok(Some(pairs)) => return Some(Pairs(pairs));
        case Err =>
          valid := false;
          return Some(KeyError);
        case Ok(None) => return None;
      }
    }

    /** Consuming the iterator to its end. */
    method Drain() returns (all: seq<Response>)
      requires Valid()
      modifies this
      ensures Valid() && all == old(Pending()) && Pending() == []
    {
      hide Pending, Scan.Sorted;
      all := [];
      while true
        invariant Valid() && all + Pending() == old(Pending())
        decreases |Pending()|
      {
        ghost var rest := Pending();
        var resp := Next();
        if resp.None? {
          return;
        }
        assert rest == [resp.value] + rest[1..];
        all := all + [resp.value];
      }
    }
  }
}
