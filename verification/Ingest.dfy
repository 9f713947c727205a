/**
 The change detector's reading of the lifecycle log: a cursor over an append-only table whose ids only ever grow.

 Each call turns every event past the cursor into one change, page by page and in id order. The changes of a
 returning device name the disconnect they end, which `PresenceRuns` shows to be the entry just before.
 */
module Ingest {
  import opened Options
  import opened Presence
  import opened PresenceRuns
  import opened PresenceStore

  const PAGE := 1000

  datatype Significance = Info | Medium

  datatype Change = Change(mac: Mac, kind: EventKind, at: int, absentFor: Option<int>, presence: Option<Policy>,
                           significance: Significance)

  /** What the detector knows besides the log. `longAbsence` is in the unit of the timestamps. */
  datatype Context = Context(trusted: set<Mac>, longAbsence: int, policy: map<Mac, Policy>)

  // ---- queries over the log ------------------------------------------------------------

  /** Events with an id past `cursor`, oldest first. */
  function After(events: seq<LoggedEvent>, cursor: nat): seq<LoggedEvent> {
    if events == [] then []
    else
      var (rest, last) := (After(events[..|events| - 1], cursor), events[|events| - 1]);
      if last.id > cursor then rest + [last] else rest
  }

  function MaxId(events: seq<LoggedEvent>): nat {
    if events == [] then 0
    else
      var (rest, last) := (MaxId(events[..|events| - 1]), events[|events| - 1]);
      if last.id > rest then last.id else rest
  }

  /** The most recent disconnect of `mac` among events with an id below `id`. */
  function DisconnectBefore(events: seq<LoggedEvent>, mac: Mac, id: nat): Option<Event> {
    if events == [] then None
    else
      var last := events[|events| - 1];
      if last.mac == mac && last.id < id && last.event.kind == Disconnected then Some(last.event)
      else DisconnectBefore(events[..|events| - 1], mac, id)
  }

  lemma {:induction false} AfterIsExactlyTheNew(events: seq<LoggedEvent>, cursor: nat)
    ensures forall e :: e in After(events, cursor) <==> e in events && e.id > cursor
  {
    if events == [] {
    } else {
      var n := |events| - 1;
      AfterIsExactlyTheNew(events[..n], cursor);
      assert events == events[..n] + [events[n]];
    }
  }

  lemma {:induction false} AfterKeepsOrder(events: seq<LoggedEvent>, cursor: nat, next: nat)
    requires IdsAscend(events, next)
    ensures IdsAscend(After(events, cursor), next)
  {
    if events == [] {
    } else {
      AfterKeepsOrder(events[..|events| - 1], cursor, events[|events| - 1].id);
    }
  }

  /** Moving the cursor to the `k`-th pending event leaves exactly the later ones pending. */
  lemma {:induction false} AfterAdvances(events: seq<LoggedEvent>, cursor: nat, k: nat, next: nat)
    requires IdsAscend(events, next) && k < |After(events, cursor)|
    ensures After(events, After(events, cursor)[k].id) == After(events, cursor)[k + 1..]
  {
    var n := |events| - 1;
    var (rest, last) := (events[..n], events[n]);
    AfterIsExactlyTheNew(rest, cursor);
    var pending := After(rest, cursor);
    if k < |pending| {
      AfterAdvances(rest, cursor, k, last.id);
      assert pending[k] in pending && pending[k] in rest;
      assert last.id > cursor;
      assert (pending + [last])[k + 1..] == pending[k + 1..] + [last];
    } else {
      NothingAfterTheLast(rest, last.id, last.id);
    }
  }

  lemma {:induction false} NothingAfterTheLast(events: seq<LoggedEvent>, cursor: nat, next: nat)
    requires IdsAscend(events, next) && forall e :: e in events ==> e.id <= cursor
    ensures After(events, cursor) == []
  {
    if events == [] {
    } else {
      NothingAfterTheLast(events[..|events| - 1], cursor, next);
    }
  }

  lemma {:induction false} MaxIdIsMax(events: seq<LoggedEvent>)
    ensures forall e :: e in events ==> e.id <= MaxId(events)
    ensures events != [] ==> exists e :: e in events && e.id == MaxId(events)
  {
    if events == [] {
    } else {
      var n := |events| - 1;
      MaxIdIsMax(events[..n]);
      assert events == events[..n] + [events[n]];
      assert events[n] in events;
      if n > 0 {
        var e :| e in events[..n] && e.id == MaxId(events[..n]);
        assert e in events;
      }
    }
  }

  // ---- what a change says ----------------------------------------------------------------

  /** The change that one event becomes. */
  function ChangeOf(ctx: Context, events: seq<LoggedEvent>, e: LoggedEvent): Change {
    var trusted := e.mac in ctx.trusted;
    match e.event.kind
    case NewDevice =>
      Change(e.mac, NewDevice, e.event.at, None, None, if trusted then Info else Medium)
    case Reappeared =>
      var disconnect := DisconnectBefore(events, e.mac, e.id);
      if disconnect.None? then Change(e.mac, Reappeared, e.event.at, None, None, Info)
      else
        var absent := e.event.at - disconnect.value.at;
        Change(e.mac, Reappeared, e.event.at, Some(absent), None,
               if trusted && absent >= ctx.longAbsence then Medium else Info)
    case Disconnected =>
      var policy := if e.mac in ctx.policy then ctx.policy[e.mac] else Unspecified;
      Change(e.mac, Disconnected, e.event.at, None, Some(policy), if policy == AlwaysOn then Medium else Info)
  }

  function Changes(ctx: Context, events: seq<LoggedEvent>, pending: seq<LoggedEvent>): seq<Change> {
    seq(|pending|, i requires 0 <= i < |pending| => ChangeOf(ctx, events, pending[i]))
  }

  /** A device's log so far decides the disconnect that a query by id finds. */
  lemma {:induction false} DisconnectsAreFoundInTheLog(events: seq<LoggedEvent>, mac: Mac, id: nat)
    requires forall j :: 0 <= j < |events| ==> events[j].id < id
    requires LogOf(events, mac) != [] && LogOf(events, mac)[|LogOf(events, mac)| - 1].kind == Disconnected
    ensures DisconnectBefore(events, mac, id) == Some(LogOf(events, mac)[|LogOf(events, mac)| - 1])
  {
    var n := |events| - 1;
    if events[n].mac != mac { DisconnectsAreFoundInTheLog(events[..n], mac, id); }
  }

  lemma {:induction false} LaterEventsDoNotMatter(events: seq<LoggedEvent>, k: nat, mac: Mac, next: nat)
    requires IdsAscend(events, next) && k < |events|
    ensures DisconnectBefore(events, mac, events[k].id) == DisconnectBefore(events[..k], mac, events[k].id)
  {
    var n := |events| - 1;
    if k < n {
      assert events[..n][..k] == events[..k];
      LaterEventsDoNotMatter(events[..n], k, mac, events[n].id);
    }
  }

  lemma {:induction false} LogOfPrefix(events: seq<LoggedEvent>, k: nat, mac: Mac)
    requires k <= |events|
    ensures LogOf(events[..k], mac) <= LogOf(events, mac)
    ensures k < |events| && events[k].mac == mac ==>
              |LogOf(events[..k], mac)| < |LogOf(events, mac)|
              && LogOf(events, mac)[|LogOf(events[..k], mac)|] == events[k].event
  {
    var n := |events| - 1;
    if k == |events| {
      assert events[..k] == events;
    } else {
      assert events[..n][..k] == events[..k];
      LogOfPrefix(events[..n], k, mac);
    }
  }

  /** In every reachable store a return is paired with the disconnect that immediately precedes it. */
  lemma ReturnsArePaired(t: Trace, events: seq<LoggedEvent>, k: nat, next: nat)
    requires IdsAscend(events, next) && k < |events| && events[k].event.kind == Reappeared
    requires LogOf(events, events[k].mac) == Run(t, events[k].mac).log
    ensures var before := LogOf(events[..k], events[k].mac);
      && before != [] && before[|before| - 1].kind == Disconnected
      && DisconnectBefore(events, events[k].mac, events[k].id) == Some(before[|before| - 1])
  {
    var mac := events[k].mac;
    var before, log := LogOf(events[..k], mac), LogOf(events, mac);
    LogAlternates(t, mac);
    LogOfPrefix(events, k, mac);
    assert log[|before|] == events[k].event;
    var j := |before| - 1;
    assert before != [];
    assert before[j] == log[j];
    assert before[j].kind == Disconnected;
    DisconnectsAreFoundInTheLog(events[..k], mac, events[k].id);
    LaterEventsDoNotMatter(events, k, mac, next);
  }

  /**
   What the change of a return says, in every reachable store: how long the device was away, counted from the disconnect
   that its log has just before, and that it matters if a trusted device was away for long.
   */
  lemma ReturnsAreMeasured(ctx: Context, t: Trace, events: seq<LoggedEvent>, k: nat, next: nat)
    requires IdsAscend(events, next) && k < |events| && events[k].event.kind == Reappeared
    requires LogOf(events, events[k].mac) == Run(t, events[k].mac).log
    ensures var (e, before) := (events[k], LogOf(events[..k], events[k].mac));
      && before != []
      && var away := e.event.at - before[|before| - 1].at;
         ChangeOf(ctx, events, e) == Change(e.mac, Reappeared, e.event.at, Some(away), None,
           if e.mac in ctx.trusted && away >= ctx.longAbsence then Medium else Info)
  {
    ReturnsArePaired(t, events, k, next);
  }

  /** A newcomer matters unless it is trusted already, a disconnect if the device is to be always on. */
  lemma OthersAreWeighed(ctx: Context, events: seq<LoggedEvent>, e: LoggedEvent)
    ensures var c := ChangeOf(ctx, events, e);
      && c.mac == e.mac && c.kind == e.event.kind && c.at == e.event.at
      && (c.kind == NewDevice ==> (c.significance == Medium <==> e.mac !in ctx.trusted) && c.presence == None)
      && (c.kind == Disconnected ==>
            && c.presence == Some(if e.mac in ctx.policy then ctx.policy[e.mac] else Unspecified)
            && (c.significance == Medium <==> c.presence == Some(AlwaysOn)))
      && (c.kind != Reappeared ==> c.absentFor == None)
  {}

  // ---- the feed ---------------------------------------------------------------------------

  class LifecycleFeed {
    const store: DeviceStore
    var cursor: Option<nat>
    var recorded: seq<Change>

    /** The cursor names an id that was given before, so whatever is logged from now on is past it. */
    ghost predicate Valid()
      reads this, store
    {
      cursor.Some? ==> cursor.value < store.nextId
    }

    constructor (s: DeviceStore)
      ensures Valid() && store == s && cursor == None && recorded == []
    {
      store, cursor, recorded := s, None, [];
    }

    /** One page of the log: at most `PAGE` pending events. */
    function Page(from: nat): seq<LoggedEvent>
      reads this, store
    {
      var pending := After(store.events, from);
      if |pending| <= PAGE then pending else pending[..PAGE]
    }

    method RecordPage(ctx: Context, rows: seq<LoggedEvent>, from: nat) returns (at: nat)
      modifies this`recorded
      ensures recorded == old(recorded) + Changes(ctx, store.events, rows)
      ensures at == if rows == [] then from else rows[|rows| - 1].id
    {
      at := from;
      for k := 0 to |rows|
        invariant recorded == old(recorded) + Changes(ctx, store.events, rows[..k])
        invariant at == if k == 0 then from else rows[k - 1].id
      {
        recorded := recorded + [ChangeOf(ctx, store.events, rows[k])];
        assert Changes(ctx, store.events, rows[..k + 1]) ==
               Changes(ctx, store.events, rows[..k]) + [ChangeOf(ctx, store.events, rows[k])];
        at := rows[k].id;
      }
      assert rows[..|rows|] == rows;
    }

    /**
     The first call only marks where the log ends. Every later call records one change for each event past the
     cursor, in id order, and leaves nothing pending.
     */
    method IngestLifecycle(ctx: Context)
      requires Valid() && store.Valid()
      modifies this
      ensures Valid()
      ensures old(cursor).None? ==> recorded == old(recorded) && cursor == Some(MaxId(store.events))
      ensures old(cursor).Some? ==>
                recorded == old(recorded) + Changes(ctx, store.events, After(store.events, old(cursor).value))
      ensures cursor.Some? && After(store.events, cursor.value) == []
      ensures old(cursor).Some? && After(store.events, old(cursor).value) == [] ==> cursor == old(cursor)
      ensures old(cursor).Some? ==> cursor.value >= old(cursor).value
    {
      if cursor.None? {
        cursor := Some(MaxId(store.events));
        MaxIdIsMax(store.events);
        MaxIdWasGiven(store.events, store.nextId);
        NothingAfterTheLast(store.events, cursor.value, store.nextId);
        return;
      }
      IngestPages(ctx, cursor.value);
    }

    /** The page loop: it ends with the first page that is not full. */
    method IngestPages(ctx: Context, start: nat)
      requires Valid() && IdsAscend(store.events, store.nextId) && cursor == Some(start)
      modifies this
      ensures Valid()
      ensures recorded == old(recorded) + Changes(ctx, store.events, After(store.events, start))
      ensures cursor.Some? && After(store.events, cursor.value) == [] && cursor.value >= start
      ensures After(store.events, start) == [] ==> cursor == Some(start)
    {
      hide After, IdsAscend, Changes;
      ghost var all := After(store.events, start);
      ghost var done := 0;
      var more := true;
      ChangesOfNothing(ctx, store.events, all);
      while more
        invariant Valid() && cursor.Some? && done <= |all| && cursor.value >= start
        invariant After(store.events, cursor.value) == all[done..]
        invariant recorded == old(recorded) + Changes(ctx, store.events, all[..done])
        invariant !more ==> done == |all|
        invariant all == [] ==> cursor == Some(start)
        decreases |all| - done, more
      {
        var from := cursor.value;
        var rows := Page(from);
        var at := RecordPage(ctx, rows, from);
        PageIsTaken(ctx, store.events, all, done, from, rows, store.nextId);
        cursor := Some(at);
        done := done + |rows|;
        if |rows| < PAGE { more := false; }
      }
      assert all[..done] == all;
    }
  }

  lemma IdsWereGiven(events: seq<LoggedEvent>, e: LoggedEvent, next: nat)
    requires IdsAscend(events, next) && e in events
    ensures e.id < next
  {}

  lemma MaxIdWasGiven(events: seq<LoggedEvent>, next: nat)
    requires IdsAscend(events, next) && next > 0
    ensures MaxId(events) < next
  {
    MaxIdIsMax(events);
  }

  lemma ChangesOfNothing(ctx: Context, events: seq<LoggedEvent>, all: seq<LoggedEvent>)
    ensures Changes(ctx, events, all[..0]) == []
  {}

  lemma PageIsTaken(ctx: Context, events: seq<LoggedEvent>, all: seq<LoggedEvent>, done: nat, from: nat,
                    rows: seq<LoggedEvent>, next: nat)
    requires IdsAscend(events, next) && done <= |all| && After(events, from) == all[done..]
    requires rows <= all[done..]
    ensures done + |rows| <= |all|
    ensures Changes(ctx, events, all[..done + |rows|]) == Changes(ctx, events, all[..done]) + Changes(ctx, events, rows)
    ensures rows != [] ==>
              from <= rows[|rows| - 1].id < next && After(events, rows[|rows| - 1].id) == all[done + |rows|..]
  {
    hide After, IdsAscend;
    assert rows == all[done..done + |rows|];
    assert all[..done + |rows|] == all[..done] + rows;
    if rows != [] {
      AfterAdvances(events, from, |rows| - 1, next);
      AfterIsExactlyTheNew(events, from);
      assert rows[|rows| - 1] == all[done..][|rows| - 1];
      assert rows[|rows| - 1] in After(events, from);
      IdsWereGiven(events, rows[|rows| - 1], next);
      assert all[done..][|rows|..] == all[done + |rows|..];
    }
  }

  lemma {:induction false} AfterAppend(events: seq<LoggedEvent>, more: seq<LoggedEvent>, cursor: nat)
    ensures After(events + more, cursor) == After(events, cursor) + After(more, cursor)
  {
    if more == [] {
      assert events + more == events;
    } else {
      assert (events + more)[..|events + more| - 1] == events + more[..|more| - 1];
      AfterAppend(events, more[..|more| - 1], cursor);
    }
  }

  lemma {:induction false} AllAfter(events: seq<LoggedEvent>, cursor: nat)
    requires forall e :: e in events ==> e.id > cursor
    ensures After(events, cursor) == events
  {
    if events == [] {
    } else {
      AllAfter(events[..|events| - 1], cursor);
    }
  }

  /**
   Between two calls the store may log and delete: each event that is still there for the second call, and was pending
   for the first or logged since, is recorded by exactly one of the two, and all of the first call's come before.
   */
  lemma NothingTwiceNothingLost(before: seq<LoggedEvent>, next: nat, after: seq<LoggedEvent>, next': nat,
                                from: nat, mid: nat)
    requires IdsAscend(before, next) && LogGrows(before, next, after, next')
    requires from <= mid < next && After(before, mid) == []
    ensures forall e :: e in after && e.id > from ==> (e in After(before, from) <==> e !in After(after, mid))
    ensures forall e, f :: e in After(before, from) && f in After(after, mid) ==> e.id < f.id
  {
    AfterIsExactlyTheNew(before, from);
    AfterIsExactlyTheNew(before, mid);
    AfterIsExactlyTheNew(after, mid);
    assert forall e :: e in before ==> e !in After(before, mid);
    forall e | e in before ensures e.id < next { IdsWereGiven(before, e, next); }
  }

  /** If nothing is deleted in between, two calls record, in order, what one call at the end would. */
  lemma TwoCallsRecordWhatOneWould(events: seq<LoggedEvent>, more: seq<LoggedEvent>, next: nat, from: nat, mid: nat)
    requires from <= mid < next && After(events, mid) == [] && forall e :: e in more ==> e.id >= next
    ensures After(events + more, mid) == more
    ensures After(events + more, from) == After(events, from) + After(events + more, mid)
  {
    AfterAppend(events, more, mid);
    AfterAppend(events, more, from);
    AllAfter(more, mid);
    AllAfter(more, from);
  }
}
