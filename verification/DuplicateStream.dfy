/** What a consumer of the detector's response stream can rely on. */
module DuplicateStream {
  import opened Prelude
  import opened DuplicateSpec
  import opened DuplicateDetector

  /** The pairs a response stream carries, in order. */
  function Delivered(stream: seq<Response>): seq<KvPair> {
    if stream == [] then []
    else (if stream[0].Pairs? then stream[0].pairs else []) + Delivered(stream[1..])
  }

  /** Batch `i` is made of the whole reports `[from, to)`. It was closed by the report that reached
      the limit; only the last batch of a successful scan may be short of it. */
  ghost predicate IsBatch(o: Outcome, limit: nat, i: nat, from: nat, to: nat)
    requires 1 <= limit
  {
    && i < |Responses(o, limit)| && from < to <= |o.reports|
    && Responses(o, limit)[i] == Pairs(Flatten(o.reports[from..to]))
    && Flatten(o.reports[from..to]) != []
    && (|Flatten(o.reports[from..to])| >= limit || (!o.failed && i == |Responses(o, limit)| - 1))
    && |Flatten(o.reports[from..to - 1])| < limit
  }

  lemma {:induction false} OpenBatchIsShort(reports: seq<seq<KvPair>>, have: nat, limit: nat)
    requires have < limit && reports != []
    ensures var n := BatchKeys(reports, have, limit);
      && have + |Flatten(reports[..n - 1])| < limit
      && (have + |Flatten(reports[..n])| < limit ==> n == |reports|)
  {
    var n := BatchKeys(reports, have, limit);
    assert reports[..n][1..] == reports[1..][..n - 1];
    if n == 1 {
      assert reports[..1][1..] == [];
    } else {
      OpenBatchIsShort(reports[1..], have + |reports[0]|, limit);
      assert reports[..n - 1][1..] == reports[1..][..n - 2];
    }
  }

  lemma ResponsesUnfold(o: Outcome, limit: nat)
    requires 1 <= limit
    ensures var n := BatchKeys(o.reports, 0, limit);
      var batch := Flatten(o.reports[..n]);
      Responses(o, limit) ==
        if |batch| >= limit then [Pairs(batch)] + Responses(Outcome(o.reports[n..], o.failed), limit)
        else if o.failed then [KeyError]
        else if batch == [] then [] else [Pairs(batch)]
  {
  }

  /** No key is split across batches: each batch is a run of whole reports, and the batches before
      it hold exactly the reports before that run. */
  lemma {:induction false} BatchesHoldWholeKeys(o: Outcome, limit: nat, i: nat) returns (from: nat, to: nat)
    requires 1 <= limit && i < |Responses(o, limit)| && Responses(o, limit)[i].Pairs?
    ensures IsBatch(o, limit, i, from, to)
    ensures Delivered(Responses(o, limit)[..i]) == Flatten(o.reports[..from])
    decreases i
  {
    hide Responses, BatchKeys;
    ResponsesUnfold(o, limit);
    var n := BatchKeys(o.reports, 0, limit);
    assert o.reports != [];
    OpenBatchIsShort(o.reports, 0, limit);
    if i == 0 {
      from, to := 0, n;
      assert o.reports[0..n] == o.reports[..n] && o.reports[0..n - 1] == o.reports[..n - 1];
    } else {
      var rest := Outcome(o.reports[n..], o.failed);
      var f, t := BatchesHoldWholeKeys(rest, limit, i - 1);
      from, to := f + n, t + n;
      LaterBatch(o, limit, i, n, f, t);
    }
  }

  /** A batch of the remaining reports is one of all the reports, shifted past the first batch. */
  lemma LaterBatch(o: Outcome, limit: nat, i: nat, n: nat, f: nat, t: nat)
    requires 1 <= limit && 1 <= i && n <= |o.reports|
    requires var rest := Outcome(o.reports[n..], o.failed);
      && Responses(o, limit) == [Pairs(Flatten(o.reports[..n]))] + Responses(rest, limit)
      && IsBatch(rest, limit, i - 1, f, t)
      && Delivered(Responses(rest, limit)[..i - 1]) == Flatten(rest.reports[..f])
    ensures IsBatch(o, limit, i, f + n, t + n)
    ensures Delivered(Responses(o, limit)[..i]) == Flatten(o.reports[..f + n])
  {
    hide Responses, Flatten;
    var rest := Outcome(o.reports[n..], o.failed);
    SlicesShift(o.reports, n, f, t);
    FlattenAppend(o.reports[..n], rest.reports[..f]);
    assert Responses(o, limit)[i] == Responses(rest, limit)[i - 1];
    assert Responses(o, limit)[..i][1..] == Responses(rest, limit)[..i - 1];
  }

  lemma SlicesShift(reports: seq<seq<KvPair>>, n: nat, f: nat, t: nat)
    requires n <= |reports| && f < t <= |reports| - n
    ensures reports[n..][f..t] == reports[f + n..t + n]
    ensures reports[n..][f..t - 1] == reports[f + n..t + n - 1]
    ensures reports[..f + n] == reports[..n] + reports[n..][..f]
  {
  }

  /** A successful scan delivers exactly its reports; a failed one a prefix of them, ending at a
      key boundary, and then one error. */
  lemma {:induction false} StreamDelivers(o: Outcome, limit: nat) returns (c: nat)
    requires 1 <= limit
    ensures c <= |o.reports| && Delivered(Responses(o, limit)) == Flatten(o.reports[..c])
    ensures !o.failed ==> c == |o.reports| && forall r | r in Responses(o, limit) :: r.Pairs?
    ensures o.failed ==>
      && |Flatten(o.reports[c..])| < limit
      && var stream := Responses(o, limit);
         stream != [] && forall i | 0 <= i < |stream| :: stream[i].KeyError? <==> i == |stream| - 1
    decreases |o.reports|
  {
    hide Responses, BatchKeys;
    ResponsesUnfold(o, limit);
    var n := BatchKeys(o.reports, 0, limit);
    var batch := Flatten(o.reports[..n]);
    if o.reports != [] {
      OpenBatchIsShort(o.reports, 0, limit);
    }
    if |batch| >= limit {
      var rest := Outcome(o.reports[n..], o.failed);
      var d := StreamDelivers(rest, limit);
      c := n + d;
      assert Responses(o, limit)[1..] == Responses(rest, limit);
      assert o.reports[..c] == o.reports[..n] + rest.reports[..d];
      FlattenAppend(o.reports[..n], rest.reports[..d]);
      assert o.reports[c..] == rest.reports[d..];
    } else {
      assert n == |o.reports| && o.reports[..n] == o.reports;
      c := if o.failed then 0 else n;
      assert o.reports[0..] == o.reports;
      assert |Responses(o, limit)| <= 1;
    }
  }

  /** End to end: over a snapshot that scans without error, the stream carries exactly the pairs that
      some imported key justifies. */
  lemma StreamIsExact(scan: Scan, limit: nat, pair: KvPair)
    requires 1 <= limit && scan.Sorted() && !scan.Report(0).failed
    ensures pair in Delivered(Responses(scan.Report(0), limit)) <==> exists n, i :: scan.Justifies(n, i, pair)
  {
    var o := scan.Report(0);
    var c := StreamDelivers(o, limit);
    assert o.reports[..c] == o.reports;
    scan.ReportIsExact(0, pair);
  }

  /** Over any sorted snapshot, failed scans included: what is delivered is justified and in strict
      order, so no pair is delivered twice. */
  lemma StreamIsOrderedAndSound(scan: Scan, limit: nat)
    requires 1 <= limit && scan.Sorted()
    ensures Ordered(Delivered(Responses(scan.Report(0), limit)))
    ensures forall pair | pair in Delivered(Responses(scan.Report(0), limit)) ::
      exists n, i :: scan.Justifies(n, i, pair)
  {
    var o := scan.Report(0);
    var c := StreamDelivers(o, limit);
    assert o.reports == o.reports[..c] + o.reports[c..];
    FlattenAppend(o.reports[..c], o.reports[c..]);
    scan.ReportIsOrdered(0);
    hide Responses, Delivered, Scan.Report;
    var delivered := Delivered(Responses(o, limit));
    assert delivered <= Flatten(o.reports);
    forall pair | pair in delivered ensures exists n, i :: scan.Justifies(n, i, pair) {
      scan.ReportIsSound(0, pair);
    }
  }

  /** Two scans see the same versions before `n`. */
  ghost predicate Agree(a: Scan, b: Scan, n: nat) {
    && n <= |a.records| && n <= |b.records| && a.minCommitTs == b.minCommitTs
    && forall i: nat | i < n :: a.records[i] == b.records[i]
  }

  lemma {:induction false} AgreeOnKeyEnd(a: Scan, b: Scan, n: nat, p: nat, k: Bytes)
    requires Agree(a, b, n) && p <= n && a.KeyEnd(p, k) <= n && !b.OfKey(n, k)
    ensures a.KeyEnd(p, k) == b.KeyEnd(p, k)
    decreases n - p
  {
    if p < n && a.OfKey(p, k) {
      AgreeOnKeyEnd(a, b, n, p + 1, k);
    }
  }

  lemma {:induction false} AgreeOnRelevantEnd(a: Scan, b: Scan, n: nat, p: nat, end: nat)
    requires Agree(a, b, n) && p <= end <= n
    ensures a.RelevantEnd(p, end) == b.RelevantEnd(p, end)
    decreases end - p
  {
    if p < end {
      AgreeOnRelevantEnd(a, b, n, p + 1, end);
    }
  }

  lemma {:induction false} AgreeOnOlderPairs(a: Scan, b: Scan, n: nat, p: nat, q: nat)
    requires Agree(a, b, n) && q <= n && a.keyOnly == b.keyOnly && a.defaultCf == b.defaultCf
    requires a.ValuesPresent(p, q) && b.ValuesPresent(p, q)
    ensures a.OlderPairs(p, q) == b.OlderPairs(p, q)
    decreases q
  {
    if p < q {
      AgreeOnOlderPairs(a, b, n, p, q - 1);
    }
  }

  lemma AgreeOnReportUpTo(a: Scan, b: Scan, n: nat, p: nat, q: nat)
    requires Agree(a, b, n) && p < n && q <= n && a.Parsed(p) && a.keyOnly == b.keyOnly && a.defaultCf == b.defaultCf
    ensures a.ReportUpTo(p, q) == b.ReportUpTo(p, q)
  {
    assert forall i: nat | i < n :: a.Survives(i) == b.Survives(i) && a.Parsed(i) == b.Parsed(i);
    assert forall i: nat | i < n && a.Parsed(i) :: a.HasValue(i) == b.HasValue(i);
    assert a.AnySurvivor(p + 1, q) == b.AnySurvivor(p + 1, q);
    assert a.ValuesPresent(p + 1, q) == b.ValuesPresent(p + 1, q);
    if a.ValuesPresent(p + 1, q) {
      AgreeOnOlderPairs(a, b, n, p + 1, q);
    }
  }

  /** A report depends only on the versions of its key. */
  lemma AgreeOnReport(a: Scan, b: Scan, n: nat, p: nat)
    requires Agree(a, b, n) && p < n && a.records[p].Record? && a.keyOnly == b.keyOnly && a.defaultCf == b.defaultCf
    requires a.KeyEnd(p, a.records[p].key) <= n && !b.OfKey(n, a.records[p].key)
    requires !a.Unreadable(n) && !b.Unreadable(n)
    ensures a.KeyReport(p) == b.KeyReport(p)
  {
    var k := a.records[p].key;
    AgreeOnKeyEnd(a, b, n, p, k);
    var end := a.KeyEnd(p, k);
    AgreeOnRelevantEnd(a, b, n, p + 1, end);
    if a.Parsed(p) {
      AgreeOnReportUpTo(a, b, n, p, a.RelevantEnd(p + 1, end));
    }
    hide Scan.ReportUpTo;
    assert forall i: nat | i < n :: a.Parsed(i) == b.Parsed(i);
  }

  /** The first key that cannot be reported ends the scan: the reports are those of the records
      before it. */
  lemma {:induction false} BadKeyEndsTheScan(scan: Scan, n: nat, p: nat)
    requires p <= n < |scan.records| && scan.AtKeyStart(p) && scan.AtKeyStart(n)
    requires forall j: nat | j <= n :: scan.records[j].Record?
    requires scan.records[n].commitTs > scan.minCommitTs && scan.KeyReport(n) == None
    ensures scan.Report(p) == Outcome(scan.(records := scan.records[..n]).Report(p).reports, true)
    decreases n - p
  {
    if p < n {
      hide Scan.KeyReport;
      var t := scan.(records := scan.records[..n]);
      var k := scan.records[p].key;
      var end := scan.KeyEnd(p, k);
      assert n < end ==> scan.OfKey(n - 1, k) && scan.OfKey(n, k);
      if end <= n {
        assert Agree(scan, t, n);
        AgreeOnKeyEnd(scan, t, n, p, k);
        AgreeOnReport(scan, t, n, p);
        assert scan.OfKey(end - 1, k) && scan.AtKeyStart(end);
        BadKeyEndsTheScan(scan, n, end);
      }
    }
  }

  /** A key whose newest version is above the import timestamp but is not a Put: the consumer gets
      whole batches taken from the front of what the earlier keys report, then exactly one error. */
  lemma NonPutNewestStopsTheStream(scan: Scan, n: nat, limit: nat)
    requires 1 <= limit && n < |scan.records| && scan.AtKeyStart(n)
    requires forall j: nat | j <= n :: scan.records[j].Record?
    requires scan.records[n].commitTs > scan.minCommitTs && !scan.IsType(n, Put)
    ensures var earlier := scan.(records := scan.records[..n]).Report(0).reports;
      var stream := Responses(scan.Report(0), limit);
      && Delivered(stream) <= Flatten(earlier)
      && |Flatten(earlier)| - |Delivered(stream)| < limit
      && stream != [] && forall i | 0 <= i < |stream| :: stream[i].KeyError? <==> i == |stream| - 1
  {
    BadKeyEndsTheScan(scan, n, 0);
    var o := scan.Report(0);
    var c := StreamDelivers(o, limit);
    assert o.reports == o.reports[..c] + o.reports[c..];
    FlattenAppend(o.reports[..c], o.reports[c..]);
  }

  function Strip(pairs: seq<KvPair>): seq<KvPair> {
    seq(|pairs|, i requires 0 <= i < |pairs| => pairs[i].(value := []))
  }

  /** A value report without its values and without the newest version. */
  function StripNewest(report: seq<KvPair>): seq<KvPair> {
    if report == [] then [] else Strip(report[1..])
  }

  lemma {:induction false} KeyOnlyOlderPairs(scan: Scan, p: nat, q: nat)
    requires !scan.keyOnly && scan.ValuesPresent(p, q)
    ensures scan.(keyOnly := true).OlderPairs(p, q) == Strip(scan.OlderPairs(p, q))
    decreases q
  {
    if p < q {
      KeyOnlyOlderPairs(scan, p, q - 1);
    }
  }

  lemma KeyOnlyReportUpTo(scan: Scan, p: nat, q: nat)
    requires !scan.keyOnly && scan.Parsed(p) && scan.ReportUpTo(p, q).Some?
    ensures scan.(keyOnly := true).ReportUpTo(p, q) == Some(StripNewest(scan.ReportUpTo(p, q).value))
  {
    var ko := scan.(keyOnly := true);
    assert forall i: nat :: ko.Survives(i) == scan.Survives(i);
    assert ko.AnySurvivor(p + 1, q) == scan.AnySurvivor(p + 1, q);
    if scan.AnySurvivor(p + 1, q) {
      KeyOnlyOlderPairs(scan, p + 1, q);
      assert scan.ReportUpTo(p, q).value[1..] == scan.OlderPairs(p + 1, q);
      assert ko.ReportUpTo(p, q).value == ko.OlderPairs(p + 1, q);
    }
  }

  /** For one key: a key-only scan reports the value scan's pairs without the values and without the
      newest version, and it can only fail where the value scan fails. */
  lemma KeyOnlyKeyReport(scan: Scan, p: nat)
    requires !scan.keyOnly && p < |scan.records| && scan.records[p].Record? && scan.KeyReport(p).Some?
    ensures scan.(keyOnly := true).KeyReport(p) == Some(StripNewest(scan.KeyReport(p).value))
  {
    var ko, k, n := scan.(keyOnly := true), scan.records[p].key, |scan.records|;
    AgreeOnKeyEnd(scan, ko, n, p, k);
    AgreeOnRelevantEnd(scan, ko, n, p + 1, scan.KeyEnd(p, k));
    KeyOnlyReportUpTo(scan, p, scan.RelevantEnd(p + 1, scan.KeyEnd(p, k)));
    hide Scan.ReportUpTo, StripNewest;
    assert forall i: nat :: ko.Parsed(i) == scan.Parsed(i);
  }

  function StripEach(reports: seq<seq<KvPair>>): seq<seq<KvPair>> {
    seq(|reports|, i requires 0 <= i < |reports| => StripNewest(reports[i]))
  }

  lemma StripEachCons(first: seq<KvPair>, rest: seq<seq<KvPair>>)
    ensures StripEach([first] + rest) == [StripNewest(first)] + StripEach(rest)
  {
    hide StripNewest;
  }

  /** The same for the whole scan, key by key. */
  lemma {:induction false} KeyOnlyScan(scan: Scan, p: nat)
    requires !scan.keyOnly && p <= |scan.records| && !scan.Report(p).failed
    ensures scan.(keyOnly := true).Report(p) == Outcome(StripEach(scan.Report(p).reports), false)
    decreases |scan.records| - p
  {
    if p < |scan.records| {
      var ko, k := scan.(keyOnly := true), scan.records[p].key;
      hide Scan.KeyReport, Scan.KeyEnd, StripNewest, StripEach;
      AgreeOnKeyEnd(scan, ko, |scan.records|, p, k);
      var end := scan.KeyEnd(p, k);
      KeyOnlyScan(scan, end);
      if scan.records[p].commitTs > scan.minCommitTs {
        KeyOnlyKeyReport(scan, p);
        StripEachCons(scan.KeyReport(p).value, scan.Report(end).reports);
      }
    }
  }
}
