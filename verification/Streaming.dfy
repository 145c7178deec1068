/** Serving coprocessor requests: the streaming loop and the unary path, with every early return and
    with the future dropped at any of its suspension points. */
module Streaming {
  import opened Tracker

  /** What one call of the handler yields. */
  datatype HandlerResult = HandlerError | NoResponse | Response(body: nat, finished: bool)

  /** One item of the response stream; `Failed` ends it through an early return. */
  datatype Item = Reply(body: nat) | ErrorReply | Failed

  /** The checks before the handler runs: the deadline twice, the snapshot, building the handler. */
  datatype Gates = Gates(deadline: bool, snapshot: bool, deadlineAgain: bool, build: bool) {
    predicate Open() { deadline && snapshot && deadlineAgain && build }
  }

  predicate Stops(r: HandlerResult) { !r.Response? || r.finished }

  /** What the handler's result puts on the stream. */
  function Emitted(r: HandlerResult): seq<Item> {
    match r
    case HandlerError => [ErrorReply]
    case NoResponse => []
    case Response(body, _) => [Reply(body)]
  }

  /** The items from call `i` on, if the future survives `budget` more suspension points: one while
      the handler works and one while the item waits to be taken. */
  function Items(handler: nat -> HandlerResult, i: nat, budget: nat): seq<Item>
    decreases budget
  {
    if budget == 0 then []
    else if Stops(handler(i)) || budget == 1 then Emitted(handler(i))
    else Emitted(handler(i)) + Items(handler, i + 1, budget - 2)
  }

  /** How many calls of the handler are begun. */
  function Calls(handler: nat -> HandlerResult, i: nat, budget: nat): nat
    decreases budget
  {
    if budget <= 1 || Stops(handler(i)) then 1 else 1 + Calls(handler, i + 1, budget - 2)
  }

  /** The whole stream. The first two suspension points are the permit and the snapshot. */
  function Stream(gates: Gates, handler: nat -> HandlerResult, budget: nat): seq<Item> {
    if budget == 0 then []
    else if !gates.deadline then [Failed]
    else if budget == 1 then []
    else if !gates.Open() then [Failed]
    else Items(handler, 0, budget - 2)
  }

  /** The results of `n` calls, starting with call `i`. */
  function Results(handler: nat -> HandlerResult, i: nat, n: nat): seq<Item>
    decreases n
  {
    if n == 0 then [] else Emitted(handler(i)) + Results(handler, i + 1, n - 1)
  }

  /** A handler that stops at call `j` and is not dropped: the stream carries its results up to and
      including the first error or finished response (a missing response ends it without an item), and
      the handler is never called again. */
  lemma {:induction false} ItemsUpToTheFirstStop(handler: nat -> HandlerResult, i: nat, j: nat, budget: nat)
    requires i <= j && Stops(handler(j)) && (forall l: nat | i <= l < j :: !Stops(handler(l)))
    requires budget >= 2 * (j - i) + 1
    ensures Items(handler, i, budget) == Results(handler, i, j - i + 1)
    ensures Calls(handler, i, budget) == j - i + 1
    decreases j - i
  {
    if i < j {
      assert !Stops(handler(i));
      ItemsUpToTheFirstStop(handler, i + 1, j, budget - 2);
    } else {
      assert Results(handler, i + 1, 0) == [];
    }
  }

  lemma {:induction false} ResultsAreReplies(handler: nat -> HandlerResult, i: nat, n: nat)
    requires forall l: nat | i <= l < i + n :: handler(l).Response?
    ensures |Results(handler, i, n)| == n
    ensures forall l: nat | l < n :: handler(i + l).Response? && Results(handler, i, n)[l] == Reply(handler(i + l).body)
    decreases n
  {
    if n > 0 {
      assert handler(i).Response?;
      ResultsAreReplies(handler, i + 1, n - 1);
      var rest := Results(handler, i + 1, n - 1);
      forall l: nat | l < n ensures handler(i + l).Response? && Results(handler, i, n)[l] == Reply(handler(i + l).body) {
        if l > 0 {
          assert handler(i + 1 + (l - 1)).Response? && rest[l - 1] == Reply(handler(i + 1 + (l - 1)).body);
        }
      }
    }
  }

  lemma {:induction false} ResultsSplit(handler: nat -> HandlerResult, i: nat, n: nat)
    ensures Results(handler, i, n + 1) == Results(handler, i, n) + Emitted(handler(i + n))
    decreases n
  {
    if n > 0 {
      ResultsSplit(handler, i + 1, n - 1);
    }
  }

  /** The whole stream of a request that is not dropped, item by item. A gate that is shut gives one
      failure. Otherwise every response before the handler's first stop, at call `j`, is one reply in
      order, followed by an error item, nothing, or the finished response. */
  lemma SurvivingStream(gates: Gates, handler: nat -> HandlerResult, j: nat, budget: nat)
    requires budget >= 2 * j + 3
    requires (handler(j).Response? ==> handler(j).finished)
    requires forall l: nat | l < j :: handler(l).Response? && !handler(l).finished
    ensures !(gates.deadline && gates.snapshot && gates.deadlineAgain && gates.build) ==>
      Stream(gates, handler, budget) == [Failed]
    ensures gates.deadline && gates.snapshot && gates.deadlineAgain && gates.build ==>
      && Calls(handler, 0, budget - 2) == j + 1
      && var stream := Stream(gates, handler, budget);
      && |stream| == (if handler(j).NoResponse? then j else j + 1)
      && (forall l: nat | l < j :: stream[l] == Reply(handler(l).body))
      && (handler(j).HandlerError? ==> stream[j] == ErrorReply)
      && (handler(j).Response? ==> stream[j] == Reply(handler(j).body))
  {
    if gates.Open() {
      ItemsUpToTheFirstStop(handler, 0, j, budget - 2);
      ResultsSplit(handler, 0, j);
      ResultsAreReplies(handler, 0, j);
      forall l: nat | l < j ensures Stream(gates, handler, budget)[l] == Reply(handler(l).body) {
        assert handler(0 + l).Response? && Results(handler, 0, j)[l] == Reply(handler(0 + l).body);
      }
    }
  }

  /** Dropped before the handler stops: the stream carries the replies taken so far and no more. */
  lemma {:induction false} DroppedStreamIsAPrefix(handler: nat -> HandlerResult, i: nat, budget: nat)
    requires forall l: nat | i <= l < i + (budget + 1) / 2 :: !Stops(handler(l))
    ensures Items(handler, i, budget) == Results(handler, i, (budget + 1) / 2)
    decreases budget
  {
    if budget > 0 {
      assert !Stops(handler(i));
      if budget > 1 {
        DroppedStreamIsAPrefix(handler, i + 1, budget - 2);
        assert (budget + 1) / 2 == 1 + (budget - 2 + 1) / 2;
      } else {
        assert Results(handler, i + 1, 0) == [];
      }
    }
  }

  lemma ItemsUnfold(handler: nat -> HandlerResult, i: nat, budget: nat, before: seq<Item>)
    ensures budget == 0 ==> before + Items(handler, i, budget) == before && Calls(handler, i, budget) == 1
    ensures 0 < budget && (Stops(handler(i)) || budget == 1) ==>
      Items(handler, i, budget) == Emitted(handler(i)) && Calls(handler, i, budget) == 1
    ensures 1 < budget && !Stops(handler(i)) ==>
      && before + Items(handler, i, budget) == before + Emitted(handler(i)) + Items(handler, i + 1, budget - 2)
      && Calls(handler, i, budget) == 1 + Calls(handler, i + 1, budget - 2)
  {
  }

  /** Serves one streaming request until it ends or its future is dropped. */
  method HandleStreamRequest(tracker: Tracker, gates: Gates, handler: nat -> HandlerResult, budget: nat)
    returns (items: seq<Item>, calls: nat)
    requires tracker.Valid() && tracker.stage.Initialized?
    modifies tracker, tracker.clock
    ensures tracker.Valid() && tracker.stage.Tracked? && tracker.times.observations == 1
    ensures items == Stream(gates, handler, budget)
    ensures calls == if 2 <= budget && gates.Open() then Calls(handler, 0, budget - 2) else 0
  {
    hide Tracker.Valid;
    items, calls := [], 0;
    if budget == 0 {
      tracker.Drop();
      return;
    }
    tracker.OnScheduled();
    if !gates.deadline {
      tracker.Drop();
      return [Failed], 0;
    }
    if budget == 1 {
      tracker.Drop();
      return;
    }
    if !gates.snapshot {
      tracker.Drop();
      return [Failed], 0;
    }
    tracker.OnSnapshotFinished();
    if !gates.deadlineAgain || !gates.build {
      tracker.Drop();
      return [Failed], 0;
    }
    tracker.OnBeginAllItems();
    items, calls := ServeItems(tracker, handler, budget - 2);
  }

  /** The loop over the handler's items. */
  method ServeItems(tracker: Tracker, handler: nat -> HandlerResult, budget: nat) returns (items: seq<Item>, calls: nat)
    requires tracker.Valid() && tracker.stage.AllItemsBegan?
    modifies tracker, tracker.clock
    ensures tracker.Valid() && tracker.stage.Tracked? && tracker.times.observations == 1
    ensures items == Items(handler, 0, budget) && calls == Calls(handler, 0, budget)
  {
    hide Tracker.Valid, Items, Calls;
    items, calls := [], 0;
    var left: int := budget;
    while true
      invariant tracker.Valid() && (tracker.stage.AllItemsBegan? || tracker.stage.ItemFinished?)
      invariant 0 <= left
      invariant items + Items(handler, calls, left) == Items(handler, 0, budget)
      invariant calls + Calls(handler, calls, left) == Calls(handler, 0, budget)
      decreases left
    {
      tracker.OnBeginItem();
      ItemsUnfold(handler, calls, left, items);
      var call := calls;
      calls := calls + 1;
      if left == 0 {
        tracker.Drop();
        return;
      }
      var result := handler(call);
      tracker.OnFinishItem();
      var details := tracker.GetItemExecDetails();
      match result {
        case HandlerError =>
          items := items + [ErrorReply];
          break;
        case NoResponse =>
          break;
        case Response(body, finished) =>
          items := items + [Reply(body)];
          if left == 1 {
            tracker.Drop();
            return;
          }
          if finished {
            break;
          }
      }
      left := left - 2;
    }
    tracker.OnFinishAllItems();
    tracker.Drop();
  }

  /** How a unary request ends for the one who waits for it. */
  datatype Ending = Dropped | EarlyError | Answered

  /** Serves one unary request. The handler's future is ready at its poll number `polls`. The request's
      future survives `budget` suspension points: waiting to be polled at all, waiting for the snapshot,
      and one after each poll of the handler that is not ready. Each poll is one item for the tracker. */
  method HandleUnaryRequest(tracker: Tracker, gates: Gates, bucketsMatch: bool, polls: nat, budget: nat)
    returns (ending: Ending)
    requires tracker.Valid() && tracker.stage.Initialized? && 1 <= polls
    modifies tracker, tracker.clock
    ensures tracker.Valid() && tracker.stage.Tracked? && tracker.times.observations == 1
    ensures ending ==
      if budget == 0 then Dropped
      else if !gates.deadline then EarlyError
      else if budget == 1 then Dropped
      else if !gates.Open() || !bucketsMatch then EarlyError
      else if polls <= budget - 1 then Answered
      else Dropped
  {
    if budget == 0 {
      tracker.Drop();
      return Dropped;
    }
    tracker.OnScheduled();
    if !gates.deadline {
      tracker.Drop();
      return EarlyError;
    }
    if budget == 1 {
      tracker.Drop();
      return Dropped;
    }
    if !gates.snapshot || !bucketsMatch {
      tracker.Drop();
      return EarlyError;
    }
    tracker.OnSnapshotFinished();
    if !gates.deadlineAgain || !gates.build {
      tracker.Drop();
      return EarlyError;
    }
    tracker.OnBeginAllItems();
    for i := 0 to polls
      invariant tracker.Valid() && i <= budget - 1
      invariant if i == 0 then tracker.stage.AllItemsBegan? else tracker.stage.ItemFinished?
    {
      if i == budget - 1 {
        tracker.Drop();
        return Dropped;
      }
      tracker.OnBeginItem();
      tracker.OnFinishItem();
    }
    var details := tracker.GetExecDetails();
    tracker.OnFinishAllItems();
    tracker.Drop();
    return Answered;
  }
}
