/**
 * The active-clients counter: every connection handler raises it on entry and lowers it on
 * exit. The lock that serialises these updates is not modelled; the counter is a sequential
 * object, and its history of updates is a trace in which any interleaving of handlers can be
 * written down.
 */
module Clients {

  /** One update of the counter, by the handler of connection `worker`. */
  datatype CounterOp = Connect(worker: nat) | Disconnect(worker: nat)

  /** The counter's value after the updates `h`, starting from 0 as the global does. */
  function Net(h: seq<CounterOp>): int {
    if h == [] then 0
    else Net(h[..|h| - 1]) + (if h[|h| - 1].Connect? then 1 else -1)
  }

  /** The handlers that have entered. */
  function Entered(h: seq<CounterOp>): set<nat> {
    if h == [] then {}
    else Entered(h[..|h| - 1]) + (if h[|h| - 1].Connect? then {h[|h| - 1].worker} else {})
  }

  /** The handlers that have left. */
  function Exited(h: seq<CounterOp>): set<nat> {
    if h == [] then {}
    else Exited(h[..|h| - 1]) + (if h[|h| - 1].Disconnect? then {h[|h| - 1].worker} else {})
  }

  /**
   * A history that handlers can produce, however they interleave: each handler enters once,
   * and leaves once, after it has entered and not before.
   */
  ghost predicate WellNested(h: seq<CounterOp>) {
    h == [] || (WellNested(h[..|h| - 1]) && Allowed(h[..|h| - 1], h[|h| - 1]))
  }

  /** A handler may enter if it never has, and leave if it has entered and not yet left. */
  ghost predicate Allowed(h: seq<CounterOp>, op: CounterOp) {
    if op.Connect? then op.worker !in Entered(h)
    else op.worker in Entered(h) && op.worker !in Exited(h)
  }

  /**
   * The counter equals the number of handlers that have entered and not yet left; so it is
   * never negative.
   */
  lemma {:induction false} CountIsLiveHandlers(h: seq<CounterOp>)
    requires WellNested(h)
    ensures Exited(h) <= Entered(h)
    ensures Net(h) == |Entered(h) - Exited(h)|
    ensures Net(h) >= 0
  {
    if h != [] {
      var init := h[..|h| - 1];
      CountIsLiveHandlers(init);
      LiveStep(init, h[|h| - 1]);
      assert init + [h[|h| - 1]] == h;
    }
  }

  /** Net, Entered and Exited after one more update. */
  lemma AppendOne(init: seq<CounterOp>, op: CounterOp)
    ensures Net(init + [op]) == Net(init) + (if op.Connect? then 1 else -1)
    ensures Entered(init + [op]) == Entered(init) + (if op.Connect? then {op.worker} else {})
    ensures Exited(init + [op]) == Exited(init) + (if op.Disconnect? then {op.worker} else {})
  {
    var h := init + [op];
    assert h[..|h| - 1] == init;
  }

  /** How one allowed update changes the set of live handlers. */
  lemma LiveStep(init: seq<CounterOp>, op: CounterOp)
    requires Exited(init) <= Entered(init)
    requires Net(init) == |Entered(init) - Exited(init)|
    requires Allowed(init, op)
    ensures Exited(init + [op]) <= Entered(init + [op])
    ensures Net(init + [op]) == |Entered(init + [op]) - Exited(init + [op])|
  {
    AppendOne(init, op);
    LiveSets(Entered(init), Exited(init), op.worker, op.Connect?);
  }

  /** Set arithmetic behind LiveStep. */
  lemma LiveSets(e: set<nat>, x: set<nat>, w: nat, connect: bool)
    requires x <= e
    requires connect ==> w !in e
    requires !connect ==> w in e && w !in x
    ensures connect ==> x <= e + {w} && |(e + {w}) - x| == |e - x| + 1
    ensures !connect ==> x + {w} <= e && |e - (x + {w})| == |e - x| - 1
  {
    if connect {
      assert (e + {w}) - x == (e - x) + {w};
    } else {
      assert e - (x + {w}) == (e - x) - {w};
    }
  }

  /** Every prefix of a well-nested history is well nested. */
  lemma {:induction false} WellNestedPrefix(h: seq<CounterOp>, i: nat)
    requires WellNested(h) && i <= |h|
    ensures WellNested(h[..i])
    decreases |h|
  {
    if i < |h| {
      assert h[..|h| - 1][..i] == h[..i];
      WellNestedPrefix(h[..|h| - 1], i);
    } else {
      assert h[..i] == h;
    }
  }

  /** At no moment of a well-nested history is the counter below 0. */
  lemma CountNeverNegative(h: seq<CounterOp>)
    requires WellNested(h)
    ensures forall i :: 0 <= i <= |h| ==> Net(h[..i]) >= 0
  {
    forall i | 0 <= i <= |h|
      ensures Net(h[..i]) >= 0
    {
      WellNestedPrefix(h, i);
      CountIsLiveHandlers(h[..i]);
    }
  }

  /**
   * One complete handler run, entry then exit, leaves the counter where it was, and appending
   * it to a well-nested history, for a handler that has not run before, keeps it well nested.
   */
  lemma HandlerRunIsNetZero(h: seq<CounterOp>, w: nat)
    ensures Net(h + [Connect(w), Disconnect(w)]) == Net(h)
    ensures WellNested(h) && w !in Entered(h) ==> WellNested(h + [Connect(w), Disconnect(w)])
  {
    var h1 := h + [Connect(w)];
    var h2 := h + [Connect(w), Disconnect(w)];
    assert h2[..|h2| - 1] == h1;
    assert h1[..|h1| - 1] == h;
    if WellNested(h) && w !in Entered(h) {
      CountIsLiveHandlers(h);
      assert Entered(h1) == Entered(h) + {w} && Exited(h1) == Exited(h);
    }
  }

  /** The global `active_clients`, with the history of its updates. */
  class ActiveClients {
    var count: int
    ghost var history: seq<CounterOp>

    ghost predicate Valid()
      reads this
    {
      count == Net(history)
    }

    constructor ()
      ensures Valid() && history == [] && count == 0
    {
      count := 0;
      history := [];
    }

    /** A handler starts: raise the counter and return its new value (for the log line). */
    method Enter(ghost worker: nat) returns (now: int)
      requires Valid()
      modifies this
      ensures Valid() && history == old(history) + [Connect(worker)]
      ensures count == old(count) + 1 && now == count
    {
      count := count + 1;
      history := history + [Connect(worker)];
      assert history[..|history| - 1] == old(history);
      now := count;
    }

    /** A handler ends: lower the counter and return its new value (for the log line). */
    method Exit(ghost worker: nat) returns (now: int)
      requires Valid()
      modifies this
      ensures Valid() && history == old(history) + [Disconnect(worker)]
      ensures count == old(count) - 1 && now == count
    {
      count := count - 1;
      history := history + [Disconnect(worker)];
      assert history[..|history| - 1] == old(history);
      now := count;
    }
  }
}
