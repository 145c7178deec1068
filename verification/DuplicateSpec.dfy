/** What the duplicate detector should report: a per-key specification over a snapshot of
    the write column family, with no cursor and no loops. */
module DuplicateSpec {
  import opened Prelude

  datatype WriteType = Put | Delete | Lock | Rollback

  datatype Write = Write(writeType: WriteType, startTs: nat, shortValue: Option<Bytes>, gcFence: Option<nat>) {
    /** A version whose fence points at or below `readTs` is not the latest one any more. */
    predicate CheckGcFenceAsLatestVersion(readTs: nat) {
      gcFence.Some? && gcFence.value != 0 ==> readTs < gcFence.value
    }
  }

  /** One position of the iterator. `write` is `None` when the stored value does not parse.
      `Broken` is a position at which the engine fails or the key carries no timestamp. */
  datatype Record =
    | Record(key: Bytes, commitTs: nat, write: Option<Write>)
    | Broken

  datatype KvPair = KvPair(key: Bytes, value: Bytes, commitTs: nat)

  /** The reports of the imported keys in order, up to the first key that cannot be reported. */
  datatype Outcome = Outcome(reports: seq<seq<KvPair>>, failed: bool)

  function Flatten(reports: seq<seq<KvPair>>): seq<KvPair> {
    if reports == [] then [] else reports[0] + Flatten(reports[1..])
  }

  /** The order of the snapshot: keys ascending, the versions of one key newest first. */
  predicate PairBefore(a: KvPair, b: KvPair) {
    Less(a.key, b.key) || (a.key == b.key && a.commitTs > b.commitTs)
  }

  ghost predicate Ordered(pairs: seq<KvPair>) {
    forall i, j | 0 <= i < j < |pairs| :: PairBefore(pairs[i], pairs[j])
  }

  datatype Scan = Scan(
    records: seq<Record>,
    defaultCf: map<(Bytes, nat), Bytes>,
    minCommitTs: nat,
    keyOnly: bool)
  {
    /** Keys ascending; the versions of one key newest first. */
    predicate Precedes(i: nat, j: nat)
      requires i < |records| && j < |records|
    {
      records[i].Record? && records[j].Record? ==>
        Less(records[i].key, records[j].key)
        || (records[i].key == records[j].key && records[i].commitTs > records[j].commitTs)
    }

    ghost predicate Sorted() {
      forall i: nat, j: nat | i < j < |records| :: Precedes(i, j)
    }

    predicate OfKey(p: nat, k: Bytes) {
      p < |records| && records[p].Record? && records[p].key == k
    }

    predicate Unreadable(p: nat) {
      p < |records| && records[p].Broken?
    }

    predicate Parsed(p: nat) {
      p < |records| && records[p].Record? && records[p].write.Some?
    }

    predicate IsType(p: nat, t: WriteType) {
      Parsed(p) && records[p].write.value.writeType == t
    }

    /** The end of the run of versions of `k` that starts at `p`. */
    function KeyEnd(p: nat, k: Bytes): (q: nat)
      requires p <= |records|
      ensures p <= q <= |records| && !OfKey(q, k)
      ensures forall i: nat | p <= i < q :: OfKey(i, k)
      decreases |records| - p
    {
      if OfKey(p, k) then KeyEnd(p + 1, k) else p
    }

    /** No version older than this one matters: it is a Delete, or the Put that was current
        before the import. */
    predicate Terminal(p: nat) {
      IsType(p, Delete) || (IsType(p, Put) && records[p].commitTs <= minCommitTs)
    }

    /** A version that the import shadows. */
    predicate Survives(p: nat) {
      IsType(p, Put)
      && (records[p].commitTs > minCommitTs || records[p].write.value.CheckGcFenceAsLatestVersion(minCommitTs))
    }

    /** The end of the versions in `[p, end)` that matter: just past the first terminal one. */
    function RelevantEnd(p: nat, end: nat): (q: nat)
      requires p <= end
      ensures p <= q <= end
      ensures forall i: nat | p <= i && i + 1 < q :: !Terminal(i)
      ensures q < end ==> p < q
      ensures p < q ==> Terminal(q - 1) || q == end
      decreases end - p
    {
      if p == end then end
      else if Terminal(p) then p + 1
      else RelevantEnd(p + 1, end)
    }

    /** The value of a write: inlined in the record, or in the default column family. */
    function Lookup(key: Bytes, w: Write): Option<Bytes> {
      if w.shortValue.Some? then w.shortValue
      else if (key, w.startTs) in defaultCf then Some(defaultCf[(key, w.startTs)])
      else None
    }

    predicate HasValue(p: nat)
      requires Parsed(p)
    {
      Lookup(records[p].key, records[p].write.value).Some?
    }

    /** The pair reported for a version. In key-only mode the value stays empty. */
    function PairOf(p: nat): KvPair
      requires Parsed(p) && (keyOnly || HasValue(p))
    {
      var value := if keyOnly then [] else Lookup(records[p].key, records[p].write.value).value;
      KvPair(records[p].key, value, records[p].commitTs)
    }

    predicate ValuesPresent(p: nat, end: nat) {
      keyOnly || forall i: nat | p <= i < end :: Survives(i) ==> HasValue(i)
    }

    /** The surviving versions in `[p, end)`, newest first. */
    function OlderPairs(p: nat, end: nat): seq<KvPair>
      requires ValuesPresent(p, end)
      decreases end
    {
      if end <= p then []
      else OlderPairs(p, end - 1) + (if Survives(end - 1) then [PairOf(end - 1)] else [])
    }

    predicate AnySurvivor(p: nat, end: nat) {
      exists i: nat | p <= i < end :: Survives(i)
    }

    /** The newest version at `p` with the surviving versions before `q`; nothing when none
        survives; `None` when a value is missing. The newest version is listed only when values are. */
    function ReportUpTo(p: nat, q: nat): Option<seq<KvPair>>
      requires Parsed(p)
    {
      if !AnySurvivor(p + 1, q) then Some([])
      else if !ValuesPresent(p + 1, q) || (!keyOnly && !HasValue(p)) then None
      else Some((if keyOnly then [] else [PairOf(p)]) + OlderPairs(p + 1, q))
    }

    /** The report of the key whose newest version is at `p`, or `None` when it cannot be made. */
    function KeyReport(p: nat): Option<seq<KvPair>>
      requires p < |records| && records[p].Record?
    {
      var end := KeyEnd(p, records[p].key);
      var last := RelevantEnd(p + 1, end);
      if !IsType(p, Put) || Unreadable(end) || exists i: nat | p < i < last :: !Parsed(i) then None
      else ReportUpTo(p, last)
    }

    /** Keys whose newest version is at or below `minCommitTs` were not imported: no report. */
    function Report(p: nat): Outcome
      requires p <= |records|
      decreases |records| - p
    {
      if p == |records| then Outcome([], false)
      else if records[p].Broken? then Outcome([], true)
      else
        var end := KeyEnd(p, records[p].key);
        if records[p].commitTs <= minCommitTs then Report(end)
        else match KeyReport(p)
          case None => Outcome([], true)
          case Some(pairs) =>
            var rest := Report(end);
            Outcome([pairs] + rest.reports, rest.failed)
    }

    /** Skipping one old version changes nothing: the versions of a key get older. */
    lemma OldVersionReportsNothing(p: nat)
      requires Sorted()
      requires p < |records| && records[p].Record? && records[p].commitTs <= minCommitTs
      ensures Report(p) == Report(p + 1)
    {
      var k := records[p].key;
      assert KeyEnd(p, k) == KeyEnd(p + 1, k);
      if OfKey(p + 1, k) {
        if Less(k, k) { LessIsAsymmetric(k, k); }
        assert Precedes(p, p + 1);
      }
    }

    /** `p` is the first position of a run of equal keys. */
    predicate AtKeyStart(p: nat) {
      p == 0 || p >= |records| || records[p].Broken? || !OfKey(p - 1, records[p].key)
    }

    // The declarative reading, on the fields of the records alone

    /** A version that makes the older ones irrelevant. */
    predicate Hides(p: nat) {
      Parsed(p)
      && match records[p].write.value.writeType
         case Delete => true
         case Put => records[p].commitTs <= minCommitTs
         case Lock => false
         case Rollback => false
    }

    /** A Put made by the import, or the one that was readable before it: no fence has replaced it. */
    predicate Alive(p: nat) {
      && Parsed(p) && records[p].write.value.writeType == Put
      && (records[p].commitTs > minCommitTs
          || match records[p].write.value.gcFence
             case None => true
             case Some(fence) => fence == 0 || fence > minCommitTs)
    }

    /** The newest version of a key, made by the import. */
    ghost predicate Newest(n: nat) {
      && n < |records| && records[n].Record? && records[n].commitTs > minCommitTs
      && forall j: nat | j < n :: !OfKey(j, records[n].key)
    }

    /** The version at `i` is shadowed by the newest one at `n`, and nothing in between hides it. */
    ghost predicate Shadowed(n: nat, i: nat) {
      && Newest(n) && n < i && OfKey(i, records[n].key) && Alive(i)
      && (forall j: nat | n < j < i :: !Hides(j))
    }

    /** The value that the version at `p` wrote. */
    predicate Stored(p: nat, value: Bytes) {
      Parsed(p)
      && match records[p].write.value.shortValue
         case Some(v) => v == value
         case None =>
           var at := (records[p].key, records[p].write.value.startTs);
           at in defaultCf && defaultCf[at] == value
    }

    /** The version's value is neither inlined nor in the default column family. */
    predicate Valueless(p: nat) {
      && Parsed(p) && records[p].write.value.shortValue == None
      && (records[p].key, records[p].write.value.startTs) !in defaultCf
    }

    /** The pair names the version at `p` and carries what it wrote, or nothing in key-only mode. */
    predicate Says(p: nat, pair: KvPair) {
      && OfKey(p, pair.key) && records[p].commitTs == pair.commitTs
      && if keyOnly then pair.value == [] else Stored(p, pair.value)
    }

    /** The pairs that a shadowed version gives rise to: its own and, with values, the newest one's. */
    ghost predicate Justifies(n: nat, i: nat, pair: KvPair) {
      Shadowed(n, i) && (Says(i, pair) || (!keyOnly && Says(n, pair)))
    }

    /** Why the key whose newest version is at `n` cannot be reported: that version is not a Put, one
        that matters does not parse, or the value of a pair is missing. */
    ghost predicate Obstructed(n: nat) {
      && Newest(n)
      && (|| !IsType(n, Put)
          || (exists i: nat :: n < i && OfKey(i, records[n].key) && !Parsed(i) && NothingHides(n, i))
          || (!keyOnly && exists i: nat :: Shadowed(n, i) && (Valueless(i) || Valueless(n))))
    }

    ghost predicate NothingHides(n: nat, i: nat) { forall j: nat | n < j < i :: !Hides(j) }

    lemma ReadingsAgree()
      ensures forall p: nat :: Alive(p) <==> Survives(p)
      ensures forall p: nat :: Hides(p) <==> Terminal(p)
    {
    }

    lemma PairOfSays(p: nat, pair: KvPair)
      requires Parsed(p)
      ensures HasValue(p) <==> !Valueless(p)
      ensures keyOnly || HasValue(p) ==> (pair == PairOf(p) <==> Says(p, pair))
      ensures !keyOnly && Says(p, pair) ==> HasValue(p)
    {
    }

    /** In a sorted snapshot all versions between two versions of a key are of that key. */
    lemma VersionsAreContiguous(i: nat, j: nat, l: nat)
      requires Sorted() && i <= j <= l < |records|
      requires records[i].Record? && records[j].Record? && OfKey(l, records[i].key)
      ensures records[j].key == records[i].key
    {
      assert (i < j ==> Precedes(i, j)) && (j < l ==> Precedes(j, l));
      if records[j].key != records[i].key {
        LessIsAsymmetric(records[i].key, records[j].key);
      }
    }

    lemma {:induction false} OlderPairsAreTheSurvivors(p: nat, end: nat, pair: KvPair)
      requires ValuesPresent(p, end)
      ensures pair in OlderPairs(p, end) <==> exists i: nat | p <= i < end :: Survives(i) && PairOf(i) == pair
      decreases end
    {
      if p < end {
        OlderPairsAreTheSurvivors(p, end - 1, pair);
        assert pair in OlderPairs(p, end) <==>
          pair in OlderPairs(p, end - 1) || (Survives(end - 1) && PairOf(end - 1) == pair);
      }
    }

    /** A run starts with the newest version of its key. */
    lemma KeyStartIsNewest(p: nat, j: nat)
      requires Sorted() && AtKeyStart(p) && p < |records| && records[p].Record?
      requires forall i | 0 <= i < p :: records[i].Record?
      requires j < p
      ensures !OfKey(j, records[p].key)
    {
      if OfKey(j, records[p].key) {
        VersionsAreContiguous(j, p - 1, p);
      }
    }

    lemma ShadowedIsWithinRun(p: nat, i: nat)
      requires Sorted() && Shadowed(p, i) && !Unreadable(KeyEnd(p, records[p].key))
      ensures i < KeyEnd(p, records[p].key)
    {
      var end := KeyEnd(p, records[p].key);
      if end <= i {
        VersionsAreContiguous(p, end, i);
      }
    }

    /** Within one key, the versions the report walks over are exactly the shadowed ones. */
    lemma SurvivorsAreShadowed(p: nat, i: nat)
      requires Sorted() && AtKeyStart(p) && p < |records| && records[p].Record?
      requires forall j | 0 <= j < p :: records[j].Record?
      requires !Unreadable(KeyEnd(p, records[p].key))
      requires records[p].commitTs > minCommitTs
      ensures var last := RelevantEnd(p + 1, KeyEnd(p, records[p].key));
              Shadowed(p, i) <==> p < i < last && Survives(i)
    {
      var last := RelevantEnd(p + 1, KeyEnd(p, records[p].key));
      ReadingsAgree();
      hide Alive, Survives, Hides, Terminal, KeyEnd, RelevantEnd;
      if Shadowed(p, i) {
        ShadowedIsWithinRun(p, i);
      }
      if p < i < last && Survives(i) {
        forall j: nat | j < p ensures !OfKey(j, records[p].key) { KeyStartIsNewest(p, j); }
        assert OfKey(i, records[p].key);
      }
    }

    /** One key: its report holds exactly the pairs justified by its newest version. */
    lemma KeyReportIsExact(p: nat, pair: KvPair)
      requires Sorted() && AtKeyStart(p) && p < |records| && records[p].Record?
      requires forall j | 0 <= j < p :: records[j].Record?
      requires records[p].commitTs > minCommitTs && KeyReport(p).Some?
      ensures pair in KeyReport(p).value <==> exists i :: Justifies(p, i, pair)
    {
      hide Says, Shadowed, Survives, RelevantEnd, KeyEnd, HasValue, PairOf, OlderPairs;
      var last := RelevantEnd(p + 1, KeyEnd(p, records[p].key));
      forall i: nat ensures Shadowed(p, i) <==> p < i < last && Survives(i) {
        SurvivorsAreShadowed(p, i);
      }
      forall i: nat | Parsed(i) ensures !keyOnly && Says(i, pair) ==> HasValue(i)
                                ensures keyOnly || HasValue(i) ==> (pair == PairOf(i) <==> Says(i, pair))
      {
        PairOfSays(i, pair);
      }
      if AnySurvivor(p + 1, last) {
        OlderPairsAreTheSurvivors(p + 1, last, pair);
        var w: nat :| p + 1 <= w < last && Survives(w);
        if pair in KeyReport(p).value {
          if pair in OlderPairs(p + 1, last) {
            var i: nat :| p + 1 <= i < last && Survives(i) && PairOf(i) == pair;
            assert Justifies(p, i, pair);
          } else {
            assert Justifies(p, w, pair);
          }
        }
      }
    }

    /** The whole scan, from a key boundary on: exactly the pairs justified by some key's newest
        version, stated over all positions of the snapshot. */
    lemma {:induction false} ReportIsExact(p: nat, pair: KvPair)
      requires Sorted() && p <= |records| && AtKeyStart(p)
      requires forall j | 0 <= j < p :: records[j].Record?
      requires !Report(p).failed
      ensures pair in Flatten(Report(p).reports) <==> exists n, i :: p <= n && Justifies(n, i, pair)
      decreases |records| - p
    {
      if p < |records| {
        var k := records[p].key;
        var end := KeyEnd(p, k);
        assert OfKey(end - 1, k) && AtKeyStart(end);
        forall j: nat | p <= j < end ensures records[j].Record? { assert OfKey(j, k); }
        ReportIsExact(end, pair);
        forall n: nat, i: nat | p < n < end ensures !Justifies(n, i, pair) {
          assert OfKey(p, k) && OfKey(n, k);
        }
        if records[p].commitTs > minCommitTs {
          KeyReportIsExact(p, pair);
          assert Report(p).reports == [KeyReport(p).value] + Report(end).reports;
          assert pair in Flatten(Report(p).reports) <==>
            pair in KeyReport(p).value || pair in Flatten(Report(end).reports);
        }
      }
    }

    /** The pairs of a report are strictly ordered: one key, commit timestamps descending. */
    lemma {:induction false} OlderPairsDescend(p: nat, end: nat, k: Bytes, a: nat, b: nat)
      requires Sorted() && ValuesPresent(p, end)
      requires forall i: nat | p <= i < end :: OfKey(i, k)
      requires a < b < |OlderPairs(p, end)|
      ensures OlderPairs(p, end)[a].key == OlderPairs(p, end)[b].key == k
      ensures OlderPairs(p, end)[a].commitTs > OlderPairs(p, end)[b].commitTs
      decreases end
    {
      if b < |OlderPairs(p, end - 1)| {
        OlderPairsDescend(p, end - 1, k, a, b);
      } else {
        var pair := OlderPairs(p, end - 1)[a];
        OlderPairsAreTheSurvivors(p, end - 1, pair);
        var i: nat :| p <= i < end - 1 && Survives(i) && PairOf(i) == pair;
        assert OfKey(i, k) && OfKey(end - 1, k) && PairOf(end - 1) == OlderPairs(p, end)[b];
        assert Precedes(i, end - 1);
        if Less(k, k) { LessIsAsymmetric(k, k); }
      }
    }

    /** The pairs of one key: in the order of the snapshot, none newer than the newest version. */
    lemma KeyReportIsOrdered(p: nat)
      requires Sorted() && p < |records| && records[p].Record? && KeyReport(p).Some?
      ensures Ordered(KeyReport(p).value)
      ensures forall pair | pair in KeyReport(p).value :: pair.key == records[p].key
    {
      var k, report := records[p].key, KeyReport(p).value;
      var last := RelevantEnd(p + 1, KeyEnd(p, k));
      if AnySurvivor(p + 1, last) {
        var older := OlderPairs(p + 1, last);
        forall pair | pair in older ensures pair.key == k && pair.commitTs < records[p].commitTs {
          OlderPairIsOlder(p, last, pair);
        }
        forall a: nat, b: nat | a < b < |older| ensures PairBefore(older[a], older[b]) {
          OlderPairsDescend(p + 1, last, k, a, b);
        }
        hide KeyReport, OlderPairs;
        assert report == (if keyOnly then [] else [PairOf(p)]) + older;
      }
    }

    lemma OlderPairIsOlder(p: nat, last: nat, pair: KvPair)
      requires Sorted() && p < |records| && records[p].Record? && last <= KeyEnd(p, records[p].key)
      requires ValuesPresent(p + 1, last) && pair in OlderPairs(p + 1, last)
      ensures pair.key == records[p].key && pair.commitTs < records[p].commitTs
    {
      var k := records[p].key;
      OlderPairsAreTheSurvivors(p + 1, last, pair);
      var i: nat :| p + 1 <= i < last && Survives(i) && PairOf(i) == pair;
      assert OfKey(i, k) && Precedes(p, i);
      if Less(k, k) { LessIsAsymmetric(k, k); }
    }

    /** Every pair reported from `p` on is of a key that occurs there. */
    lemma {:induction false} ReportedKeyOccurs(p: nat, pair: KvPair) returns (j: nat)
      requires Sorted() && p <= |records| && pair in Flatten(Report(p).reports)
      ensures p <= j && OfKey(j, pair.key)
      decreases |records| - p
    {
      var end := KeyEnd(p, records[p].key);
      if records[p].commitTs > minCommitTs && pair in KeyReport(p).value {
        KeyReportIsOrdered(p);
        j := p;
      } else {
        j := ReportedKeyOccurs(end, pair);
      }
    }

    /** A whole scan, failed or not: the pairs come in strict order, so none comes twice. */
    lemma {:induction false} ReportIsOrdered(p: nat)
      requires Sorted() && p <= |records|
      ensures Ordered(Flatten(Report(p).reports))
      decreases |records| - p
    {
      if p < |records| && records[p].Record? {
        var k := records[p].key;
        var end := KeyEnd(p, k);
        ReportIsOrdered(end);
        if records[p].commitTs > minCommitTs && KeyReport(p).Some? {
          KeyReportIsOrdered(p);
          var rest := Flatten(Report(end).reports);
          forall pair | pair in rest ensures Less(k, pair.key) {
            LaterKeysAreGreater(p, pair);
          }
          hide KeyReport;
          assert Flatten(Report(p).reports) == KeyReport(p).value + rest;
        }
      }
    }

    lemma LaterKeysAreGreater(p: nat, pair: KvPair)
      requires Sorted() && p < |records| && records[p].Record?
      requires pair in Flatten(Report(KeyEnd(p, records[p].key)).reports)
      ensures Less(records[p].key, pair.key)
    {
      var k := records[p].key;
      var end := KeyEnd(p, k);
      var j := ReportedKeyOccurs(end, pair);
      assert end < |records| && records[end].Record?;
      assert Precedes(p, j);
      if pair.key == k {
        VersionsAreContiguous(p, end, j);
      }
    }

    /** A failed scan reports nothing unjustified before it fails. */
    lemma {:induction false} ReportIsSound(p: nat, pair: KvPair)
      requires Sorted() && p <= |records| && AtKeyStart(p)
      requires forall j | 0 <= j < p :: records[j].Record?
      requires pair in Flatten(Report(p).reports)
      ensures exists n, i :: Justifies(n, i, pair)
      decreases |records| - p
    {
      var k := records[p].key;
      var end := KeyEnd(p, k);
      assert OfKey(end - 1, k) && AtKeyStart(end);
      forall j: nat | p <= j < end ensures records[j].Record? { assert OfKey(j, k); }
      if records[p].commitTs > minCommitTs && pair in KeyReport(p).value {
        KeyReportIsExact(p, pair);
      } else {
        ReportIsSound(end, pair);
      }
    }

    /** One key: it cannot be reported exactly when it is obstructed or its versions run into a broken
        position. */
    lemma KeyReportFails(p: nat)
      requires Sorted() && AtKeyStart(p) && p < |records| && records[p].Record?
      requires forall j | 0 <= j < p :: records[j].Record?
      requires records[p].commitTs > minCommitTs && !Unreadable(KeyEnd(p, records[p].key))
      ensures KeyReport(p).None? <==> Obstructed(p)
    {
      var k := records[p].key;
      var end := KeyEnd(p, k);
      var last := RelevantEnd(p + 1, end);
      forall j: nat | j < p ensures !OfKey(j, k) { KeyStartIsNewest(p, j); }
      forall i: nat ensures Shadowed(p, i) <==> p < i < last && Survives(i) { SurvivorsAreShadowed(p, i); }
      UnparsedMatters(p);
      forall i: nat | Parsed(i) ensures HasValue(i) <==> !Valueless(i) { PairOfSays(i, KvPair([], [], 0)); }
      hide Shadowed, KeyEnd, RelevantEnd, Survives, Alive, Valueless, HasValue, Hides;
      assert AnySurvivor(p + 1, last) <==> exists i: nat :: Shadowed(p, i);
    }

    lemma UnparsedMatters(p: nat)
      requires Sorted() && p < |records| && records[p].Record? && !Unreadable(KeyEnd(p, records[p].key))
      ensures var last := RelevantEnd(p + 1, KeyEnd(p, records[p].key));
        (exists i: nat | p < i < last :: !Parsed(i))
        <==> (exists i: nat :: p < i && OfKey(i, records[p].key) && !Parsed(i) && NothingHides(p, i))
    {
      var k := records[p].key;
      var end := KeyEnd(p, k);
      var last := RelevantEnd(p + 1, end);
      ReadingsAgree();
      hide Hides, Terminal, KeyEnd, RelevantEnd;
      if i: nat :| p < i < last && !Parsed(i) {
        assert OfKey(i, k) && NothingHides(p, i);
      }
      if i: nat :| p < i && OfKey(i, k) && !Parsed(i) && NothingHides(p, i) {
        if end <= i { VersionsAreContiguous(p, end, i); }
        assert p < i < last;
      }
    }

    lemma {:induction false} BrokenFails(p: nat, b: nat)
      requires p <= b < |records| && records[b].Broken?
      ensures Report(p).failed
      decreases |records| - p
    {
      if records[p].Record? {
        var end := KeyEnd(p, records[p].key);
        assert b >= end by { assert b < end ==> OfKey(b, records[p].key); }
        BrokenFails(end, b);
      }
    }

    lemma {:induction false} WholeScanFails(p: nat)
      requires Sorted() && p <= |records| && AtKeyStart(p) && forall j | 0 <= j < |records| :: records[j].Record?
      ensures Report(p).failed <==> exists n: nat :: p <= n && Obstructed(n)
      decreases |records| - p
    {
      if p < |records| {
        var k := records[p].key;
        var end := KeyEnd(p, k);
        assert OfKey(end - 1, k) && AtKeyStart(end);
        WholeScanFails(end);
        forall n: nat | p < n < end ensures !Obstructed(n) { assert OfKey(p, k) && OfKey(n, k); }
        if records[p].commitTs > minCommitTs {
          KeyReportFails(p);
        }
        hide Obstructed, KeyReport;
        assert Obstructed(p) ==> records[p].commitTs > minCommitTs by { ObstructedIsNewest(p); }
      }
    }

    lemma ObstructedIsNewest(n: nat)
      ensures Obstructed(n) ==> Newest(n)
    {
    }

    /** Exactly when a scan fails: some position is broken, or some key is obstructed. */
    lemma ScanFailsExactly()
      requires Sorted()
      ensures Report(0).failed <==>
        (exists b: nat :: b < |records| && records[b].Broken?) || exists n: nat :: Obstructed(n)
    {
      if b: nat :| b < |records| && records[b].Broken? {
        BrokenFails(0, b);
      } else {
        WholeScanFails(0);
      }
    }
  }
}
