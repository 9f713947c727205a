/**
 The background delivery of alerts as a protocol between the monitor loop and one worker thread.

 Every action below is one atomic step of one of the two threads: a queue operation, the counter update under its
 lock, or a delivery. A run is any sequence of actions; one that its thread cannot take at that point does nothing, so
 the runs are exactly all interleavings.
 */
module Delivery {
  datatype Item = Batch(id: nat) | Sentinel

  /** Where the monitor loop is: idle, or between the atomic steps of `submit` or `shutdown`. */
  datatype Producer = Idle | Refused | StopPut | StopDrain | StopDrained | StopRetry | StopJoin

  datatype Worker = Getting | Holding(item: Item) | Finishing(id: nat) | Stopped

  datatype Taken = Taken(item: Item, byWorker: bool)

  datatype State = State(
    maxsize: nat, queue: seq<Item>, unfinished: int, dropped: nat, producer: Producer, worker: Worker,
    puts: seq<Item>, taken: seq<Taken>, delivered: seq<nat>, refusals: nat, stops: nat, sentinels: nat, foundFull: nat)

  datatype Action =
    | Submit(id: nat) | CountDropped
    | Shutdown | PutSentinel | Drain | DrainDone | PutSentinelAgain | JoinReturns
    | Get | Deliver | TaskDone

  function Start(maxsize: nat): State {
    State(maxsize, [], 0, 0, Idle, Getting, [], [], [], 0, 0, 0, 0)
  }

  predicate Full(s: State) { |s.queue| >= s.maxsize }

  function Put(s: State, item: Item): State {
    s.(queue := s.queue + [item], unfinished := s.unfinished + 1, puts := s.puts + [item])
  }

  function Take(s: State, byWorker: bool): State
    requires s.queue != []
  {
    s.(queue := s.queue[1..], taken := s.taken + [Taken(s.queue[0], byWorker)])
  }

  function Step(s: State, a: Action): State {
    match a
    case Submit(id) =>
      if s.producer != Idle then s
      else if Full(s) then s.(producer := Refused, refusals := s.refusals + 1)
      else Put(s, Batch(id))
    case CountDropped => if s.producer == Refused then s.(producer := Idle, dropped := s.dropped + 1) else s
    case Shutdown => if s.producer == Idle then s.(producer := StopPut, stops := s.stops + 1) else s
    case PutSentinel =>
      if s.producer != StopPut then s
      else if Full(s) then s.(producer := StopDrain, foundFull := s.foundFull + 1)
      else Put(s, Sentinel).(producer := StopJoin, sentinels := s.sentinels + 1)
    case Drain =>
      if s.producer != StopDrain then s
      else if s.queue == [] then s.(producer := StopRetry)
      else Take(s, false).(producer := StopDrained)
    case DrainDone =>
      if s.producer == StopDrained then s.(producer := StopRetry, unfinished := s.unfinished - 1) else s
    case PutSentinelAgain =>
      if s.producer != StopRetry then s
      else if Full(s) then s.(producer := StopJoin)
      else Put(s, Sentinel).(producer := StopJoin, sentinels := s.sentinels + 1)
    case JoinReturns => if s.producer == StopJoin then s.(producer := Idle) else s
    case Get =>
      if s.worker == Getting && s.queue != [] then Take(s, true).(worker := Holding(s.queue[0])) else s
    case Deliver =>
      if !s.worker.Holding? then s
      else if s.worker.item == Sentinel then s.(worker := Stopped, unfinished := s.unfinished - 1)
      else s.(worker := Finishing(s.worker.item.id), delivered := s.delivered + [s.worker.item.id])
    case TaskDone =>
      if s.worker.Finishing? then s.(worker := Getting, unfinished := s.unfinished - 1) else s
  }

  function Run(maxsize: nat, actions: seq<Action>): State {
    if actions == [] then Start(maxsize) else Step(Run(maxsize, actions[..|actions| - 1]), actions[|actions| - 1])
  }

  // ---- what every interleaving keeps ------------------------------------------------

  function Batches(items: seq<Item>): seq<nat> {
    if items == [] then []
    else
      var (rest, last) := (Batches(items[..|items| - 1]), items[|items| - 1]);
      if last.Batch? then rest + [last.id] else rest
  }

  function Items(taken: seq<Taken>): seq<Item> {
    seq(|taken|, k requires 0 <= k < |taken| => taken[k].item)
  }

  /** The batches one side took out of the queue, in order. */
  function TakenBy(taken: seq<Taken>, byWorker: bool): seq<nat> {
    if taken == [] then []
    else
      var (rest, last) := (TakenBy(taken[..|taken| - 1], byWorker), taken[|taken| - 1]);
      if last.byWorker == byWorker && last.item.Batch? then rest + [last.item.id] else rest
  }

  function Discards(taken: seq<Taken>): nat {
    if taken == [] then 0
    else Discards(taken[..|taken| - 1]) + if taken[|taken| - 1].byWorker then 0 else 1
  }

  function InFlight(w: Worker): seq<nat> {
    if w.Holding? && w.item.Batch? then [w.item.id] else []
  }

  /** How many items are out of the queue whose `task_done` is still to come. */
  function Unacknowledged(s: State): nat {
    (if s.worker.Holding? || s.worker.Finishing? then 1 else 0) + if s.producer == StopDrained then 1 else 0
  }

  predicate Stopping(p: Producer) { p in {StopPut, StopDrain, StopDrained, StopRetry} }

  /** The queue is first in, first out, and what the worker took it delivered, in that order, up to the one in hand. */
  ghost predicate Flows(s: State) {
    && s.puts == Items(s.taken) + s.queue
    && TakenBy(s.taken, true) == s.delivered + InFlight(s.worker)
    && (s.worker in {Stopped, Holding(Sentinel)} ==> Taken(Sentinel, true) in s.taken)
  }

  /** The counters agree with what happened. */
  ghost predicate Counts(s: State) {
    && |s.queue| <= s.maxsize
    && s.dropped + (if s.producer == Refused then 1 else 0) == s.refusals
    && s.unfinished == |s.queue| + Unacknowledged(s)
  }

  /** A shutdown discards only after finding the queue full, and never more than once; its sentinel is never lost. */
  ghost predicate Stops(s: State) {
    && Discards(s.taken) + (if s.producer == StopDrain then 1 else 0) <= s.foundFull
    && s.foundFull + (if s.producer == StopPut then 1 else 0) <= s.stops
    && (s.producer in {StopDrained, StopRetry} ==> !Full(s))
    && s.sentinels + (if Stopping(s.producer) then 1 else 0) == s.stops
  }

  ghost predicate Inv(s: State) { s.maxsize > 0 && Flows(s) && Counts(s) && Stops(s) }

  lemma TakenAppend(taken: seq<Taken>, t: Taken, byWorker: bool)
    ensures Items(taken + [t]) == Items(taken) + [t.item]
    ensures TakenBy(taken + [t], byWorker) ==
      TakenBy(taken, byWorker) + if t.byWorker == byWorker && t.item.Batch? then [t.item.id] else []
    ensures Discards(taken + [t]) == Discards(taken) + if t.byWorker then 0 else 1
  {
    assert (taken + [t])[..|taken|] == taken;
  }

  lemma TakeFlows(s: State, byWorker: bool)
    requires Flows(s) && s.queue != [] && (byWorker ==> s.worker == Getting)
    ensures var t := Take(s, byWorker);
      Flows(if byWorker then t.(worker := Holding(s.queue[0])) else t)
    ensures Discards(Take(s, byWorker).taken) == Discards(s.taken) + if byWorker then 0 else 1
  {
    TakenAppend(s.taken, Taken(s.queue[0], byWorker), true);
    hide Items, TakenBy, Discards;
    assert s.queue == [s.queue[0]] + s.queue[1..];
    assert Items(s.taken) + s.queue == Items(s.taken) + [s.queue[0]] + s.queue[1..];
  }

  lemma StepFlows(s: State, a: Action)
    requires Flows(s)
    ensures Flows(Step(s, a))
    ensures Discards(Step(s, a).taken) == Discards(s.taken) +
      if a == Drain && s.producer == StopDrain && s.queue != [] then 1 else 0
  {
    hide Items, TakenBy, Discards;
    if a == Drain && s.queue != [] { TakeFlows(s, false); }
    if a == Get && s.worker == Getting && s.queue != [] { TakeFlows(s, true); }
    assert forall item :: Items(s.taken) + (s.queue + [item]) == Items(s.taken) + s.queue + [item];
  }

  lemma StepKeepsInv(s: State, a: Action)
    requires Inv(s)
    ensures Inv(Step(s, a)) && Step(s, a).maxsize == s.maxsize
  {
    hide Items, TakenBy, Discards, Flows;
    StepFlows(s, a);
  }

  lemma {:induction false} EveryRunKeepsInv(maxsize: nat, actions: seq<Action>)
    requires maxsize > 0
    ensures Inv(Run(maxsize, actions)) && Run(maxsize, actions).maxsize == maxsize
  {
    if actions == [] {
    } else {
      hide Inv, Step;
      EveryRunKeepsInv(maxsize, actions[..|actions| - 1]);
      StepKeepsInv(Run(maxsize, actions[..|actions| - 1]), actions[|actions| - 1]);
    }
  }

  // ---- what that means ------------------------------------------------------------------

  predicate Subsequence(a: seq<nat>, b: seq<nat>)
    decreases |b|
  {
    a == [] ||
    (b != [] &&
     ((a[|a| - 1] == b[|b| - 1] && Subsequence(a[..|a| - 1], b[..|b| - 1])) || Subsequence(a, b[..|b| - 1])))
  }

  lemma {:induction false} SubsequenceOfMore(a: seq<nat>, b: seq<nat>, c: seq<nat>)
    requires Subsequence(a, b)
    ensures Subsequence(a, b + c)
  {
    if c == [] {
      assert b + c == b;
    } else {
      SubsequenceOfMore(a, b, c[..|c| - 1]);
      assert (b + c)[..|b + c| - 1] == b + c[..|c| - 1];
    }
  }

  lemma {:induction false} BatchesConcat(a: seq<Item>, b: seq<Item>)
    ensures Batches(a + b) == Batches(a) + Batches(b)
  {
    if b == [] {
      assert a + b == a;
    } else {
      var n := |b| - 1;
      BatchesConcat(a, b[..n]);
      assert (a + b)[..|a + b| - 1] == a + b[..n];
    }
  }

  lemma {:induction false} BothSidesTake(taken: seq<Taken>)
    ensures |Batches(Items(taken))| == |TakenBy(taken, true)| + |TakenBy(taken, false)|
    ensures Subsequence(TakenBy(taken, true), Batches(Items(taken)))
  {
    if taken == [] {
    } else {
      var n := |taken| - 1;
      BothSidesTake(taken[..n]);
      var rest, t := TakenBy(taken[..n], true), taken[n];
      TakenAppend(taken[..n], t, true);
      assert taken == taken[..n] + [t];
      assert (Items(taken[..n]) + [t.item])[..n] == Items(taken[..n]);
      if t.item.Batch? && t.byWorker { assert (rest + [t.item.id])[..|rest|] == rest; }
    }
  }

  /**
   Under every interleaving each accepted batch is delivered, in hand, queued or was discarded by a shutdown, and
   deliveries happen in submission order.
   */
  lemma BatchesAreConserved(maxsize: nat, actions: seq<Action>)
    requires maxsize > 0
    ensures var s := Run(maxsize, actions);
      && |Batches(s.puts)| == |s.delivered| + |InFlight(s.worker)| + |Batches(s.queue)| + |TakenBy(s.taken, false)|
      && Subsequence(s.delivered + InFlight(s.worker), Batches(s.puts))
  {
    var s := Run(maxsize, actions);
    EveryRunKeepsInv(maxsize, actions);
    BatchesConcat(Items(s.taken), s.queue);
    BothSidesTake(s.taken);
    SubsequenceOfMore(TakenBy(s.taken, true), Batches(Items(s.taken)), Batches(s.queue));
  }

  /** Refusals are counted, and `task_done` never runs ahead of `get`: at rest nothing is owed but the queue itself. */
  lemma CountersAreExact(maxsize: nat, actions: seq<Action>)
    requires maxsize > 0
    ensures var s := Run(maxsize, actions);
      && |s.queue| <= maxsize && s.dropped <= s.refusals <= s.dropped + 1
      && (s.producer != Refused ==> s.dropped == s.refusals)
      && |s.queue| <= s.unfinished <= |s.queue| + 2
      && (s.producer == StopDrained || s.worker.Holding? || s.worker.Finishing? ==> s.unfinished > 0)
      && (s.producer == Idle && (s.worker == Getting || s.worker == Stopped) ==> s.unfinished == |s.queue|)
  {
    EveryRunKeepsInv(maxsize, actions);
  }

  /** How many submissions found the queue full: those the monitor loop began when it was idle, and no others. */
  function FoundFull(maxsize: nat, actions: seq<Action>): nat {
    if actions == [] then 0
    else
      var (before, a) := (actions[..|actions| - 1], actions[|actions| - 1]);
      var s := Run(maxsize, before);
      FoundFull(maxsize, before) + if a.Submit? && s.producer == Idle && |s.queue| == maxsize then 1 else 0
  }

  /** Only a full queue refuses: over any run there are as many refusals as submissions that found it full. */
  lemma {:induction false} RefusesOnlyWhenFull(maxsize: nat, actions: seq<Action>)
    requires maxsize > 0
    ensures Run(maxsize, actions).refusals == FoundFull(maxsize, actions)
  {
    if actions == [] {
    } else {
      RefusesOnlyWhenFull(maxsize, actions[..|actions| - 1]);
      EveryRunKeepsInv(maxsize, actions[..|actions| - 1]);
      hide Flows, Stops;
    }
  }

  /** How many shutdowns the monitor loop began, and how many of their sentinels found the queue full. */
  function Begun(maxsize: nat, actions: seq<Action>): nat {
    if actions == [] then 0
    else
      var (before, a) := (actions[..|actions| - 1], actions[|actions| - 1]);
      Begun(maxsize, before) + if a == Shutdown && Run(maxsize, before).producer == Idle then 1 else 0
  }

  function Blocked(maxsize: nat, actions: seq<Action>): nat {
    if actions == [] then 0
    else
      var (before, a) := (actions[..|actions| - 1], actions[|actions| - 1]);
      var s := Run(maxsize, before);
      Blocked(maxsize, before) + if a == PutSentinel && s.producer == StopPut && |s.queue| == maxsize then 1 else 0
  }

  /** Every shutdown of an idle monitor loop begins, and only a full queue makes it drain. */
  lemma {:induction false} ShutdownsAreCounted(maxsize: nat, actions: seq<Action>)
    requires maxsize > 0
    ensures Run(maxsize, actions).stops == Begun(maxsize, actions)
    ensures Run(maxsize, actions).foundFull == Blocked(maxsize, actions)
  {
    if actions == [] {
    } else {
      ShutdownsAreCounted(maxsize, actions[..|actions| - 1]);
      EveryRunKeepsInv(maxsize, actions[..|actions| - 1]);
      hide Flows, Stops;
    }
  }

  /** Any other submission of an idle monitor loop puts exactly its own batch, at the end, and disturbs nothing else. */
  lemma RoomAccepts(maxsize: nat, actions: seq<Action>, id: nat)
    requires maxsize > 0
    ensures var (s, e) := (Run(maxsize, actions), Run(maxsize, actions + [Submit(id)]));
      && (s.producer == Idle && |s.queue| != maxsize ==>
            && e.puts == s.puts + [Batch(id)] && e.queue == s.queue + [Batch(id)] && e.producer == Idle
            && e.worker == s.worker && e.delivered == s.delivered && e.dropped == s.dropped)
      && (s.producer == Idle && |s.queue| == maxsize ==> e.puts == s.puts && e.queue == s.queue)
      && (s.producer != Idle ==> e == s)
  {
    assert (actions + [Submit(id)])[..|actions|] == actions;
    EveryRunKeepsInv(maxsize, actions);
    hide Flows, Stops;
  }

  /** Every shutdown that got past its puts has its sentinel in the queue's history, and cost at most one item. */
  lemma ShutdownsAreBounded(maxsize: nat, actions: seq<Action>)
    requires maxsize > 0
    ensures var s := Run(maxsize, actions);
      && Discards(s.taken) <= s.foundFull <= s.stops
      && (!Stopping(s.producer) ==> s.sentinels == s.stops)
  {
    EveryRunKeepsInv(maxsize, actions);
  }

  /** A shutdown can discard a batch although there is room again: the worker may take one between the two steps. */
  lemma DiscardsDespiteRoom() returns (actions: seq<Action>)
    ensures var s := Run(2, actions);
      s.taken == [Taken(Batch(1), true), Taken(Batch(2), false)] && s.queue == [] && s.delivered == []
  {
    var s := Start(2);
    actions := [];
    assert Run(2, actions) == s;
    hide Run;
    s := RunOn(2, actions, Submit(1), s); actions := actions + [Submit(1)];
    s := RunOn(2, actions, Submit(2), s); actions := actions + [Submit(2)];
    s := RunOn(2, actions, Shutdown, s); actions := actions + [Shutdown];
    s := RunOn(2, actions, PutSentinel, s); actions := actions + [PutSentinel];
    s := RunOn(2, actions, Get, s); actions := actions + [Get];
    s := RunOn(2, actions, Drain, s); actions := actions + [Drain];
  }

  lemma RunOn(maxsize: nat, actions: seq<Action>, a: Action, s: State) returns (next: State)
    requires Run(maxsize, actions) == s
    ensures Run(maxsize, actions + [a]) == next == Step(s, a)
  {
    assert (actions + [a])[..|actions|] == actions;
    next := Step(s, a);
  }

  // ---- what shutting down costs ---------------------------------------------------------------

  /** The drain of a shutdown that found the queue full, when there is still something to take. */
  predicate Costs(s: State, a: Action) {
    a == Drain && s.producer == StopDrain && s.queue != []
  }

  lemma DiscardStep(s: State, a: Action)
    ensures Discards(Step(s, a).taken) == Discards(s.taken) + if Costs(s, a) then 1 else 0
  {
    if s.queue != [] {
      TakenAppend(s.taken, Taken(s.queue[0], false), false);
      TakenAppend(s.taken, Taken(s.queue[0], true), true);
    }
  }

  /** How many drains came too late: the worker had emptied the queue. */
  function EmptyDrains(maxsize: nat, actions: seq<Action>): nat {
    if actions == [] then 0
    else
      var (before, a) := (actions[..|actions| - 1], actions[|actions| - 1]);
      var s := Run(maxsize, before);
      EmptyDrains(maxsize, before) + if a == Drain && s.producer == StopDrain && s.queue == [] then 1 else 0
  }

  /** Over any run each shutdown that found the queue full discarded one item, came too late, or has yet to drain. */
  lemma {:induction false} DiscardsAreExact(maxsize: nat, actions: seq<Action>)
    ensures var s := Run(maxsize, actions);
      Discards(s.taken) + EmptyDrains(maxsize, actions) + (if s.producer == StopDrain then 1 else 0) == s.foundFull
  {
    if actions == [] {
    } else {
      hide Discards;
      DiscardsAreExact(maxsize, actions[..|actions| - 1]);
      DiscardStep(Run(maxsize, actions[..|actions| - 1]), actions[|actions| - 1]);
    }
  }

  function Continue(s: State, actions: seq<Action>): State {
    if actions == [] then s else Step(Continue(s, actions[..|actions| - 1]), actions[|actions| - 1])
  }

  lemma {:induction false} RunContinues(maxsize: nat, actions: seq<Action>, more: seq<Action>)
    ensures Run(maxsize, actions + more) == Continue(Run(maxsize, actions), more)
  {
    if more == [] {
      assert actions + more == actions;
    } else {
      var n := |more| - 1;
      assert (actions + more)[..|actions + more| - 1] == actions + more[..n];
      RunContinues(maxsize, actions, more[..n]);
    }
  }

  /** `actions` all happen before the shutdown that is under way in `s` has returned. */
  ghost predicate OneShutdown(s: State, actions: seq<Action>) {
    forall n :: 0 <= n < |actions| ==> Continue(s, actions[..n]).producer !in {Idle, Refused}
  }

  lemma OneShutdownSoFar(s: State, actions: seq<Action>)
    requires OneShutdown(s, actions) && actions != []
    ensures OneShutdown(s, actions[..|actions| - 1])
    ensures Continue(s, actions[..|actions| - 1]).producer !in {Idle, Refused}
  {
    var before := actions[..|actions| - 1];
    forall n | 0 <= n < |before| ensures Continue(s, before[..n]).producer !in {Idle, Refused} {
      assert before[..n] == actions[..n];
    }
  }

  /** A shutdown that begins with room discards nothing, whatever the worker does meanwhile. */
  lemma {:induction false} RoomCostsNothing(s: State, actions: seq<Action>)
    requires s.producer == StopPut && !Full(s) && OneShutdown(s, actions)
    ensures var e := Continue(s, actions);
      && Discards(e.taken) == Discards(s.taken)
      && e.producer in {StopPut, StopJoin, Idle} && (e.producer == StopPut ==> !Full(e))
  {
    if actions == [] {
    } else {
      hide Discards;
      OneShutdownSoFar(s, actions);
      RoomCostsNothing(s, actions[..|actions| - 1]);
      DiscardStep(Continue(s, actions[..|actions| - 1]), actions[|actions| - 1]);
    }
  }

  /** How many items the worker takes. */
  function Gets(s: State, actions: seq<Action>): nat {
    if actions == [] then 0
    else
      var (before, a) := (actions[..|actions| - 1], actions[|actions| - 1]);
      var t := Continue(s, before);
      Gets(s, before) + if a == Get && t.worker == Getting && t.queue != [] then 1 else 0
  }

  lemma WaitingStep(s: State, a: Action)
    requires s.producer == StopDrain && a != Drain
    ensures Step(s, a).producer == StopDrain && Discards(Step(s, a).taken) == Discards(s.taken)
    ensures Step(s, a).queue ==
      if a == Get && s.worker == Getting && s.queue != [] then s.queue[1..] else s.queue
  {
    hide Discards;
    DiscardStep(s, a);
  }

  /** Until it drains, a shutdown that found the queue full leaves it to the worker alone. */
  lemma {:induction false} WaitingToDrain(s: State, actions: seq<Action>)
    requires s.producer == StopDrain && Drain !in actions
    ensures var e := Continue(s, actions);
      && e.producer == StopDrain && Discards(e.taken) == Discards(s.taken)
      && Gets(s, actions) <= |s.queue| && e.queue == s.queue[Gets(s, actions)..]
  {
    if actions == [] {
    } else {
      hide Discards, Step;
      assert actions[|actions| - 1] in actions;
      WaitingToDrain(s, actions[..|actions| - 1]);
      WaitingStep(Continue(s, actions[..|actions| - 1]), actions[|actions| - 1]);
    }
  }

  lemma {:induction false} AfterTheDrain(s: State, actions: seq<Action>)
    requires s.producer in {StopDrained, StopRetry} && OneShutdown(s, actions)
    ensures var e := Continue(s, actions);
      e.producer in {StopDrained, StopRetry, StopJoin, Idle} && Discards(e.taken) == Discards(s.taken)
  {
    if actions == [] {
    } else {
      hide Discards;
      OneShutdownSoFar(s, actions);
      AfterTheDrain(s, actions[..|actions| - 1]);
      DiscardStep(Continue(s, actions[..|actions| - 1]), actions[|actions| - 1]);
    }
  }

  lemma {:induction false} ContinueTwice(s: State, first: seq<Action>, second: seq<Action>)
    ensures Continue(s, first + second) == Continue(Continue(s, first), second)
  {
    if second == [] {
      assert first + second == first;
    } else {
      var n := |second| - 1;
      assert (first + second)[..|first + second| - 1] == first + second[..n];
      ContinueTwice(s, first, second[..n]);
    }
  }

  /**
   A shutdown that found the queue full discards exactly one item, unless the worker takes all that was queued before
   the drain; then it discards none.
   */
  lemma FullCostsOneExactlyWhen(s: State, waiting: seq<Action>, rest: seq<Action>)
    requires s.producer == StopDrain && Drain !in waiting
    requires OneShutdown(Continue(s, waiting + [Drain]), rest)
    ensures Discards(Continue(s, waiting + [Drain] + rest).taken) ==
      Discards(s.taken) + if Gets(s, waiting) == |s.queue| then 0 else 1
  {
    hide Discards, Gets;
    var before := Continue(s, waiting);
    WaitingToDrain(s, waiting);
    DiscardStep(before, Drain);
    assert (waiting + [Drain])[..|waiting|] == waiting;
    ContinueTwice(s, waiting + [Drain], rest);
    AfterTheDrain(Step(before, Drain), rest);
  }

  // ---- draining -----------------------------------------------------------------------------

  /** When the worker has stopped, everything put before the sentinel it took was delivered or discarded. */
  lemma StoppedMeansDrained(maxsize: nat, actions: seq<Action>) returns (i: nat)
    requires maxsize > 0 && Run(maxsize, actions).worker == Stopped
    ensures var s := Run(maxsize, actions);
      && i < |s.puts| && s.puts[i] == Sentinel
      && forall k :: 0 <= k < i && s.puts[k].Batch? ==>
           s.puts[k].id in s.delivered || Taken(s.puts[k], false) in s.taken
  {
    var s := Run(maxsize, actions);
    EveryRunKeepsInv(maxsize, actions);
    i :| 0 <= i < |s.taken| && s.taken[i] == Taken(Sentinel, true);
    assert forall k :: 0 <= k < |s.taken| ==> s.puts[k] == s.taken[k].item;
    forall k | 0 <= k < i && s.puts[k].Batch?
      ensures s.puts[k].id in s.delivered || Taken(s.puts[k], false) in s.taken
    {
      if s.taken[k].byWorker { WorkerDelivers(s.taken, k); }
      assert s.taken[k] in s.taken;
    }
  }

  lemma {:induction false} WorkerDelivers(taken: seq<Taken>, k: nat)
    requires k < |taken| && taken[k].byWorker && taken[k].item.Batch?
    ensures taken[k].item.id in TakenBy(taken, true)
  {
    if k < |taken| - 1 { WorkerDelivers(taken[..|taken| - 1], k); }
  }

  /** The worker running on alone for `rounds` items. */
  function Rounds(s: State, rounds: nat): State
    decreases rounds
  {
    if rounds == 0 then s
    else Rounds(Step(Step(Step(s, Get), Deliver), TaskDone), rounds - 1)
  }

  /** Once a sentinel is queued the worker, left to run, delivers what stands before it, in order, and stops there. */
  lemma {:induction false} WorkerDrainsToTheSentinel(s: State, before: seq<Item>, after: seq<Item>)
    requires s.worker == Getting && s.queue == before + [Sentinel] + after && Sentinel !in before
    ensures var t := Rounds(s, |before| + 1);
      t.worker == Stopped && t.delivered == s.delivered + Batches(before) && t.queue == after
    decreases |before|
  {
    if before == [] {
      assert Step(s, Get).queue == after;
      assert Rounds(s, 1) == Step(Step(Step(s, Get), Deliver), TaskDone);
    } else {
      var first, rest := before[0], before[1..];
      var next := Step(Step(Step(s, Get), Deliver), TaskDone);
      assert next.queue == rest + [Sentinel] + after;
      WorkerDrainsToTheSentinel(next, rest, after);
      BatchesConcat([first], rest);
      assert before == [first] + rest;
      assert Batches([first]) == [first.id] by { assert [first][..0] == []; }
    }
  }
}
