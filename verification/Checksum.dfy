/** The table checksum: the XOR of one streaming digest per row, under a rule that rewrites the
    key prefix. */
module Checksum {
  import opened Prelude

  /** A streaming digest: a state folded over the bytes written, and a final value. */
  datatype Digest = Digest(start: bv64, step: (bv64, bv8) -> bv64, finish: bv64 -> bv64) {

    function Write(state: bv64, bytes: Bytes): bv64
      decreases |bytes|
    {
      if bytes == [] then state else Write(step(state, bytes[0]), bytes[1..])
    }

    /** Writing in two pieces is writing the whole. */
    lemma {:induction false} WriteConcat(state: bv64, a: Bytes, b: Bytes)
      ensures Write(state, a + b) == Write(Write(state, a), b)
      decreases |a|
    {
      if a == [] {
        assert a + b == b;
      } else {
        assert (a + b)[1..] == a[1..] + b;
        WriteConcat(step(state, a[0]), a[1..], b);
      }
    }

    /** The digest of one row, as if its key and value were written at once. */
    function OfRow(key: Bytes, value: Bytes): bv64 {
      finish(Write(start, key + value))
    }
  }

  function Xor(a: bv64, b: bv64): bv64 { a ^ b }

  lemma XorAssociates(a: bv64, b: bv64, c: bv64)
    ensures Xor(Xor(a, b), c) == Xor(a, Xor(b, c))
  {
  }

  lemma XorCommutes(a: bv64, b: bv64)
    ensures Xor(a, b) == Xor(b, a)
  {
  }

  lemma XorZero(a: bv64)
    ensures Xor(a, 0) == a
  {
  }

  function ChecksumCrc64Xor(d: Digest, checksum: bv64, state: bv64, suffix: Bytes, value: Bytes): bv64 {
    Xor(checksum, d.finish(d.Write(d.Write(state, suffix), value)))
  }

  datatype Row = Row(key: Bytes, value: Bytes)

  datatype Totals = Totals(checksum: bv64, kvs: nat, bytes: nat)

  /** The reference: what the table's rows contribute, in any order. */
  function Summary(d: Digest, rows: seq<Row>): Totals {
    if rows == [] then Totals(0, 0, 0)
    else
      var rest, r := Summary(d, rows[..|rows| - 1]), rows[|rows| - 1];
      Totals(Xor(rest.checksum, d.OfRow(r.key, r.value)), rest.kvs + 1, rest.bytes + |r.key| + |r.value|)
  }

  predicate StartsWith(key: Bytes, prefix: Bytes) { prefix <= key }

  function Rewritten(row: Row, from: Bytes, to: Bytes): Row
    requires StartsWith(row.key, from)
  {
    row.(key := to + row.key[|from|..])
  }

  function RewrittenTable(rows: seq<Row>, from: Bytes, to: Bytes): (r: seq<Row>)
    requires forall row | row in rows :: StartsWith(row.key, from)
    ensures |r| == |rows| && forall i | 0 <= i < |rows| :: r[i] == Rewritten(rows[i], from, to)
  {
    seq(|rows|, i requires 0 <= i < |rows| => Rewritten(rows[i], from, to))
  }

  /** What the scanner yields: rows, and possibly an error. */
  datatype Item = Scanned(row: Row) | ScanError

  datatype Rule = Rule(oldPrefix: Bytes, newPrefix: Bytes)

  /** The rows of a scan whose keys all carry the prefix, or `None` if some row does not or the scan
      fails. */
  function GoodRows(items: seq<Item>, prefix: Bytes): Option<seq<Row>> {
    if items == [] then Some([])
    else
      var last := items[|items| - 1];
      match GoodRows(items[..|items| - 1], prefix)
      case None => None
      case Some(rows) =>
        if last.Scanned? && StartsWith(last.row.key, prefix) then Some(rows + [last.row]) else None
  }

  lemma EmptyScan(d: Digest, prefix: Bytes)
    ensures GoodRows([], prefix) == Some([]) && Summary(d, []) == Totals(0, 0, 0)
  {
  }

  lemma GoodRowsNext(items: seq<Item>, prefix: Bytes, i: nat)
    requires i < |items| && GoodRows(items[..i], prefix).Some?
    requires items[i].Scanned? && StartsWith(items[i].row.key, prefix)
    ensures GoodRows(items[..i + 1], prefix) == Some(GoodRows(items[..i], prefix).value + [items[i].row])
  {
    assert items[..i + 1][..i] == items[..i];
  }

  lemma {:induction false} GoodRowsCarryPrefix(items: seq<Item>, prefix: Bytes)
    requires GoodRows(items, prefix).Some?
    ensures forall row | row in GoodRows(items, prefix).value :: StartsWith(row.key, prefix)
  {
    if items != [] {
      GoodRowsCarryPrefix(items[..|items| - 1], prefix);
    }
  }

  lemma {:induction false} BadItemSpoilsTheScan(items: seq<Item>, prefix: Bytes, i: nat)
    requires i < |items| && (items[i].ScanError? || !StartsWith(items[i].row.key, prefix))
    ensures GoodRows(items, prefix) == None
  {
    if i < |items| - 1 {
      BadItemSpoilsTheScan(items[..|items| - 1], prefix, i);
    }
  }

  /** The bytes of a row are counted as if it still had its old prefix, without going below zero. */
  lemma RowContribution(d: Digest, row: Row, rule: Rule, checksum: bv64)
    requires StartsWith(row.key, rule.newPrefix)
    ensures var restored := Rewritten(row, rule.newPrefix, rule.oldPrefix);
      && |row.key| + |row.value| + |rule.oldPrefix| >= |rule.newPrefix|
      && |row.key| + |row.value| + |rule.oldPrefix| - |rule.newPrefix| == |restored.key| + |restored.value|
      && ChecksumCrc64Xor(d, checksum, d.Write(d.start, rule.oldPrefix), row.key[|rule.newPrefix|..], row.value)
           == Xor(checksum, d.OfRow(restored.key, restored.value))
  {
    hide Xor;
    var suffix := row.key[|rule.newPrefix|..];
    d.WriteConcat(d.start, rule.oldPrefix, suffix);
    d.WriteConcat(d.start, rule.oldPrefix + suffix, row.value);
  }

  lemma SummaryAppend(d: Digest, rows: seq<Row>, row: Row)
    ensures Summary(d, rows + [row]) ==
      var s := Summary(d, rows);
      Totals(Xor(s.checksum, d.OfRow(row.key, row.value)), s.kvs + 1, s.bytes + |row.key| + |row.value|)
  {
    hide Xor;
    assert (rows + [row])[..|rows|] == rows;
  }

  function RuleOf(rule: Option<Rule>): Rule { if rule.Some? then rule.value else Rule([], []) }

  /** The answer to a request: an error exactly when the algorithm is unknown, the scan fails or some
      key lacks the new prefix; otherwise the summary of the table as it was under the old prefix. */
  function Answer(d: Digest, crc64Xor: bool, rule: Option<Rule>, items: seq<Item>): Result<Totals> {
    var u := RuleOf(rule);
    if !crc64Xor || GoodRows(items, u.newPrefix).None? then Err
    else
      GoodRowsCarryPrefix(items, u.newPrefix);
      Ok(Summary(d, RewrittenTable(GoodRows(items, u.newPrefix).value, u.newPrefix, u.oldPrefix)))
  }

  method HandleRequest(d: Digest, crc64Xor: bool, rule: Option<Rule>, items: seq<Item>) returns (r: Result<Totals>)
    ensures r == Answer(d, crc64Xor, rule, items)
  {
    hide Xor, Digest.Write, Digest.OfRow, GoodRows, Summary, ChecksumCrc64Xor;
    if !crc64Xor {
      return Err;
    }
    var u := RuleOf(rule);
    var prefixState := d.Write(d.start, u.oldPrefix);
    var checksum: bv64 := 0;
    var kvs, bytes: nat := 0, 0;
    ghost var rows: seq<Row> := [];
    EmptyScan(d, u.newPrefix);
    for i := 0 to |items|
      invariant GoodRows(items[..i], u.newPrefix) == Some(rows)
      invariant forall row | row in rows :: StartsWith(row.key, u.newPrefix)
      invariant Totals(checksum, kvs, bytes) == Summary(d, RewrittenTable(rows, u.newPrefix, u.oldPrefix))
    {
      if items[i].ScanError? || !StartsWith(items[i].row.key, u.newPrefix) {
        BadItemSpoilsTheScan(items, u.newPrefix, i);
        return Err;
      }
      var row := items[i].row;
      GoodRowsNext(items, u.newPrefix, i);
      RowContribution(d, row, u, checksum);
      SummaryAppend(d, RewrittenTable(rows, u.newPrefix, u.oldPrefix), Rewritten(row, u.newPrefix, u.oldPrefix));
      assert RewrittenTable(rows + [row], u.newPrefix, u.oldPrefix)
        == RewrittenTable(rows, u.newPrefix, u.oldPrefix) + [Rewritten(row, u.newPrefix, u.oldPrefix)];
      checksum := ChecksumCrc64Xor(d, checksum, prefixState, row.key[|u.newPrefix|..], row.value);
      kvs := kvs + 1;
      bytes := bytes + (|row.key| + |row.value| + |u.oldPrefix| - |u.newPrefix|);
      rows := rows + [row];
    }
    assert items[..|items|] == items;
    return Ok(Totals(checksum, kvs, bytes));
  }

  /** Rewriting a table and restoring it gives the table back, so the checksum of the rewritten table
      under the rule is that of the original table under none. */
  lemma RewriteIsUndone(d: Digest, rows: seq<Row>, oldPrefix: Bytes, newPrefix: Bytes)
    requires forall row | row in rows :: StartsWith(row.key, oldPrefix)
    ensures var table := RewrittenTable(rows, oldPrefix, newPrefix);
      && (forall row | row in table :: StartsWith(row.key, newPrefix))
      && RewrittenTable(table, newPrefix, oldPrefix) == rows
      && Summary(d, RewrittenTable(table, newPrefix, oldPrefix)) == Summary(d, rows)
  {
    hide Xor;
    var table := RewrittenTable(rows, oldPrefix, newPrefix);
    forall i | 0 <= i < |rows|
      ensures StartsWith(table[i].key, newPrefix) && Rewritten(table[i], newPrefix, oldPrefix) == rows[i]
    {
      assert table[i].key[|newPrefix|..] == rows[i].key[|oldPrefix|..];
      assert oldPrefix + rows[i].key[|oldPrefix|..] == rows[i].key;
    }
  }

  function ScanOf(rows: seq<Row>): (items: seq<Item>)
    ensures |items| == |rows| && forall i | 0 <= i < |rows| :: items[i] == Scanned(rows[i])
  {
    seq(|rows|, i requires 0 <= i < |rows| => Scanned(rows[i]))
  }

  lemma {:induction false} CleanScanIsGood(rows: seq<Row>, prefix: Bytes)
    requires forall row | row in rows :: StartsWith(row.key, prefix)
    ensures GoodRows(ScanOf(rows), prefix) == Some(rows)
    decreases |rows|
  {
    if rows != [] {
      var n := |rows| - 1;
      CleanScanIsGood(rows[..n], prefix);
      assert ScanOf(rows)[..n] == ScanOf(rows[..n]);
      assert rows[n] in rows && rows == rows[..n] + [rows[n]];
    }
  }

  /** Checksumming a table whose keys were moved from one prefix to another, under the rule that says
      so, answers the same as checksumming the original table under no rule. */
  lemma ChecksumSurvivesRewrite(d: Digest, rows: seq<Row>, oldPrefix: Bytes, newPrefix: Bytes)
    requires forall row | row in rows :: StartsWith(row.key, oldPrefix)
    ensures Answer(d, true, Some(Rule(oldPrefix, newPrefix)), ScanOf(RewrittenTable(rows, oldPrefix, newPrefix)))
      == Answer(d, true, None, ScanOf(rows))
      == Ok(Summary(d, rows))
  {
    hide Xor, Summary, GoodRows;
    RewriteIsUndone(d, rows, oldPrefix, newPrefix);
    CleanScanIsGood(RewrittenTable(rows, oldPrefix, newPrefix), newPrefix);
    CleanScanIsGood(rows, []);
    assert RewrittenTable(rows, [], []) == rows by {
      forall i | 0 <= i < |rows| ensures Rewritten(rows[i], [], []) == rows[i] {
        assert [] + rows[i].key[0..] == rows[i].key;
      }
    }
  }

  function Combine(a: Totals, b: Totals): Totals {
    Totals(Xor(a.checksum, b.checksum), a.kvs + b.kvs, a.bytes + b.bytes)
  }

  /** A table split into ranges: the parts' results combine by XOR and addition. */
  lemma {:induction false} SummarySplits(d: Digest, a: seq<Row>, b: seq<Row>)
    ensures Summary(d, a + b) == Combine(Summary(d, a), Summary(d, b))
    decreases |b|
  {
    hide Xor;
    if b == [] {
      assert a + b == a;
      XorZero(Summary(d, a).checksum);
    } else {
      var n, last := |b| - 1, b[|b| - 1];
      SummarySplits(d, a, b[..n]);
      assert a + b == (a + b[..n]) + [last];
      SummaryAppend(d, a + b[..n], last);
      XorAssociates(Summary(d, a).checksum, Summary(d, b[..n]).checksum, d.OfRow(last.key, last.value));
    }
  }

  lemma RemoveOne<T>(a: seq<T>, b: seq<T>, i: nat)
    requires a != [] && i < |b| && b[i] == a[|a| - 1] && multiset(a) == multiset(b)
    ensures multiset(a[..|a| - 1]) == multiset(b[..i] + b[i + 1..])
    ensures b == b[..i] + ([b[i]] + b[i + 1..])
  {
    assert a == a[..|a| - 1] + [a[|a| - 1]];
    assert b == b[..i] + ([b[i]] + b[i + 1..]);
    assert multiset(a) == multiset(a[..|a| - 1]) + multiset{b[i]};
    assert multiset(b) == multiset(b[..i]) + multiset{b[i]} + multiset(b[i + 1..]);
    assert multiset(a[..|a| - 1]) == multiset(a) - multiset{b[i]};
    assert multiset(b[..i]) + multiset(b[i + 1..]) == multiset(b) - multiset{b[i]};
  }

  lemma MiddleMoves(a: Totals, b: Totals, c: Totals)
    ensures Combine(a, Combine(b, c)) == Combine(Combine(a, c), b)
  {
    hide Xor;
    XorAssociates(a.checksum, c.checksum, b.checksum);
    XorCommutes(b.checksum, c.checksum);
  }

  /** Answers combine like totals; an error in either part is an error of the whole. */
  function CombineAnswers(a: Result<Totals>, b: Result<Totals>): Result<Totals> {
    if a.Err? || b.Err? then Err else Ok(Combine(a.value, b.value))
  }

  lemma {:induction false} GoodRowsSplit(a: seq<Item>, b: seq<Item>, prefix: Bytes)
    ensures var x, y := GoodRows(a, prefix), GoodRows(b, prefix);
      GoodRows(a + b, prefix) == if x.None? || y.None? then None else Some(x.value + y.value)
    decreases |b|
  {
    if b == [] {
      assert a + b == a;
      assert GoodRows(a, prefix).Some? ==> GoodRows(a, prefix).value + [] == GoodRows(a, prefix).value;
    } else {
      var n := |b| - 1;
      GoodRowsSplit(a, b[..n], prefix);
      assert (a + b)[..|a + b| - 1] == a + b[..n];
      var x, y := GoodRows(a, prefix), GoodRows(b[..n], prefix);
      if x.Some? && y.Some? && b[n].Scanned? {
        assert x.value + (y.value + [b[n].row]) == (x.value + y.value) + [b[n].row];
      }
    }
  }

  /** Under any rule, failing scans included: a request over a table split into ranges answers what the
      requests over the parts answer together. */
  lemma AnswerSplits(d: Digest, crc64Xor: bool, rule: Option<Rule>, a: seq<Item>, b: seq<Item>)
    ensures Answer(d, crc64Xor, rule, a + b)
      == CombineAnswers(Answer(d, crc64Xor, rule, a), Answer(d, crc64Xor, rule, b))
  {
    hide Xor, GoodRows, Summary;
    var u := RuleOf(rule);
    GoodRowsSplit(a, b, u.newPrefix);
    var x, y := GoodRows(a, u.newPrefix), GoodRows(b, u.newPrefix);
    if x.Some? && y.Some? {
      GoodRowsCarryPrefix(a, u.newPrefix);
      GoodRowsCarryPrefix(b, u.newPrefix);
      var s, t := RewrittenTable(x.value, u.newPrefix, u.oldPrefix), RewrittenTable(y.value, u.newPrefix, u.oldPrefix);
      assert RewrittenTable(x.value + y.value, u.newPrefix, u.oldPrefix) == s + t;
      SummarySplits(d, s, t);
    }
  }

  lemma MiddleAnswerMoves(a: Result<Totals>, b: Result<Totals>, c: Result<Totals>)
    ensures CombineAnswers(a, CombineAnswers(b, c)) == CombineAnswers(CombineAnswers(a, c), b)
  {
    hide Combine;
    if a.Ok? && b.Ok? && c.Ok? {
      MiddleMoves(a.value, b.value, c.value);
    }
  }

  /** Nor does the answer depend on the order in which the scanner delivers rows, or on where it fails. */
  lemma {:induction false} AnswerIgnoresOrder(d: Digest, crc64Xor: bool, rule: Option<Rule>, a: seq<Item>, b: seq<Item>)
    requires multiset(a) == multiset(b)
    ensures Answer(d, crc64Xor, rule, a) == Answer(d, crc64Xor, rule, b)
    decreases |a|
  {
    hide Answer, CombineAnswers;
    if a == [] {
      assert |multiset(b)| == 0;
    } else {
      var n, last := |a| - 1, a[|a| - 1];
      assert a == a[..n] + [last];
      assert last in multiset(a);
      var i :| 0 <= i < |b| && b[i] == last;
      RemoveOne(a, b, i);
      var before, after := b[..i], b[i + 1..];
      AnswerIgnoresOrder(d, crc64Xor, rule, a[..n], before + after);
      AnswerSplits(d, crc64Xor, rule, a[..n], [last]);
      AnswerSplits(d, crc64Xor, rule, before, [last] + after);
      AnswerSplits(d, crc64Xor, rule, [last], after);
      AnswerSplits(d, crc64Xor, rule, before, after);
      MiddleAnswerMoves(Answer(d, crc64Xor, rule, before), Answer(d, crc64Xor, rule, [last]),
                        Answer(d, crc64Xor, rule, after));
    }
  }

  // What the answer says of the bytes

  /** The states of a digest over some bytes: one more byte is one more step. */
  ghost predicate Folds(d: Digest, bytes: Bytes, states: seq<bv64>) {
    && |states| == |bytes| + 1 && states[0] == d.start
    && forall i | 0 <= i < |bytes| :: states[i + 1] == d.step(states[i], bytes[i])
  }

  lemma {:induction false} FoldExists(d: Digest, bytes: Bytes) returns (states: seq<bv64>)
    ensures Folds(d, bytes, states)
    decreases |bytes|
  {
    if bytes == [] {
      states := [d.start];
    } else {
      var n := |bytes| - 1;
      var rest := FoldExists(d, bytes[..n]);
      states := rest + [d.step(rest[n], bytes[n])];
    }
  }

  lemma {:induction false} WriteFollowsSteps(d: Digest, bytes: Bytes, states: seq<bv64>, i: nat)
    requires Folds(d, bytes, states) && i <= |bytes|
    ensures d.Write(d.start, bytes[..i]) == states[i]
    decreases i
  {
    if i > 0 {
      WriteFollowsSteps(d, bytes, states, i - 1);
      assert bytes[..i] == bytes[..i - 1] + [bytes[i - 1]];
      d.WriteConcat(d.start, bytes[..i - 1], [bytes[i - 1]]);
      assert [bytes[i - 1]][1..] == [];
    }
  }

  lemma OfRowFolds(d: Digest, key: Bytes, value: Bytes, states: seq<bv64>)
    requires Folds(d, key + value, states)
    ensures d.OfRow(key, value) == d.finish(states[|states| - 1])
  {
    var bytes := key + value;
    WriteFollowsSteps(d, bytes, states, |bytes|);
    assert bytes[..|bytes|] == bytes;
  }

  lemma OneRowSummary(d: Digest, row: Row)
    ensures Summary(d, [row]) == Totals(d.OfRow(row.key, row.value), 1, |row.key| + |row.value|)
  {
    hide Xor, Digest.OfRow;
    assert [row][..0] == [];
    XorCommutes(0, d.OfRow(row.key, row.value));
    XorZero(d.OfRow(row.key, row.value));
  }

  /** One row: the digest runs over the old prefix, the rest of the key and the value, byte by byte. */
  lemma OneRowAnswer(d: Digest, rule: Option<Rule>, suffix: Bytes, value: Bytes, states: seq<bv64>)
    requires Folds(d, RuleOf(rule).oldPrefix + suffix + value, states)
    ensures var u := RuleOf(rule);
      Answer(d, true, rule, [Scanned(Row(u.newPrefix + suffix, value))])
        == Ok(Totals(d.finish(states[|states| - 1]), 1, |u.oldPrefix| + |suffix| + |value|))
  {
    hide Xor, Summary, GoodRows, Digest.OfRow;
    var u := RuleOf(rule);
    OfRowFolds(d, u.oldPrefix + suffix, value, states);
    hide Folds;
    var row, restored := Row(u.newPrefix + suffix, value), Row(u.oldPrefix + suffix, value);
    CleanScanIsGood([row], u.newPrefix);
    assert ScanOf([row]) == [Scanned(row)];
    assert Rewritten(row, u.newPrefix, u.oldPrefix) == restored;
    assert RewrittenTable([row], u.newPrefix, u.oldPrefix) == [restored];
    OneRowSummary(d, restored);
  }

  lemma XorSelf(a: bv64)
    ensures Xor(a, a) == 0
  {
  }

  lemma XorCancels(a: bv64, x: bv64, y: bv64)
    ensures Xor(a, x) == Xor(a, y) <==> x == y
    ensures Xor(x, a) == Xor(y, a) <==> x == y
  {
    hide Xor;
    XorSelf(a);
    XorAssociates(a, a, x);
    XorAssociates(a, a, y);
    XorCommutes(0, x);
    XorCommutes(0, y);
    XorZero(x);
    XorZero(y);
    XorCommutes(a, x);
    XorCommutes(a, y);
  }

  /** A row among others: what it adds to their checksums is the digest of its bytes. */
  lemma RowAmongOthers(d: Digest, rule: Option<Rule>, before: seq<Item>, after: seq<Item>,
                       suffix: Bytes, value: Bytes, states: seq<bv64>)
    requires Answer(d, true, rule, before).Ok? && Answer(d, true, rule, after).Ok?
    requires Folds(d, RuleOf(rule).oldPrefix + suffix + value, states)
    ensures var x := Answer(d, true, rule, before + ([Scanned(Row(RuleOf(rule).newPrefix + suffix, value))] + after));
      && x.Ok?
      && x.value.checksum
           == Xor(Answer(d, true, rule, before).value.checksum,
                  Xor(d.finish(states[|states| - 1]), Answer(d, true, rule, after).value.checksum))
  {
    hide Xor, Answer;
    var row := [Scanned(Row(RuleOf(rule).newPrefix + suffix, value))];
    OneRowAnswer(d, rule, suffix, value, states);
    hide Folds;
    AnswerSplits(d, true, rule, row, after);
    AnswerSplits(d, true, rule, before, row + after);
  }

  /** Changing the value of one row among others is noticed exactly when the digests of the two rows differ. */
  lemma ChangedValueShows(d: Digest, rule: Option<Rule>, before: seq<Item>, after: seq<Item>,
                          suffix: Bytes, v: Bytes, w: Bytes, vs: seq<bv64>, ws: seq<bv64>)
    requires Answer(d, true, rule, before).Ok? && Answer(d, true, rule, after).Ok?
    requires Folds(d, RuleOf(rule).oldPrefix + suffix + v, vs) && Folds(d, RuleOf(rule).oldPrefix + suffix + w, ws)
    ensures var key := RuleOf(rule).newPrefix + suffix;
      var x := Answer(d, true, rule, before + ([Scanned(Row(key, v))] + after));
      var y := Answer(d, true, rule, before + ([Scanned(Row(key, w))] + after));
      && x.Ok? && y.Ok?
      && (x.value.checksum == y.value.checksum <==> d.finish(vs[|vs| - 1]) == d.finish(ws[|ws| - 1]))
  {
    hide Xor, Answer;
    RowAmongOthers(d, rule, before, after, suffix, v, vs);
    RowAmongOthers(d, rule, before, after, suffix, w, ws);
    var a, b := Answer(d, true, rule, before).value.checksum, Answer(d, true, rule, after).value.checksum;
    var p, q := d.finish(vs[|vs| - 1]), d.finish(ws[|ws| - 1]);
    XorCancels(b, p, q);
    XorCancels(a, Xor(p, b), Xor(q, b));
  }

  predicate Bad(item: Item, prefix: Bytes) {
    item.ScanError? || !(prefix <= item.row.key)
  }

  lemma {:induction false} NoBadItemNoFailure(items: seq<Item>, prefix: Bytes)
    requires forall item | item in items :: !Bad(item, prefix)
    ensures GoodRows(items, prefix).Some?
    decreases |items|
  {
    if items != [] {
      assert items[|items| - 1] in items;
      NoBadItemNoFailure(items[..|items| - 1], prefix);
    }
  }

  /** Exactly when a request fails. */
  lemma AnswerFailsExactly(d: Digest, crc64Xor: bool, rule: Option<Rule>, items: seq<Item>)
    ensures Answer(d, crc64Xor, rule, items).Err? <==>
      !crc64Xor || exists item :: item in items && Bad(item, if rule.Some? then rule.value.newPrefix else [])
  {
    hide GoodRows, Summary;
    var prefix := RuleOf(rule).newPrefix;
    if item :| item in items && Bad(item, prefix) {
      var i :| 0 <= i < |items| && items[i] == item;
      BadItemSpoilsTheScan(items, prefix, i);
    } else {
      NoBadItemNoFailure(items, prefix);
    }
  }
}
