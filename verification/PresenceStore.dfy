/**
 The presence tables of the device store and the sweep that drives them.

 `trace` records the calls made so far. `Valid` says that every row of every table is what `Presence.Run` gives for
 that trace, so a method that extends `trace` by its own step has its whole effect on every MAC pinned down, and
 everything proved in `PresenceRuns` holds in every reachable state of the store.
 */
module PresenceStore {
  import opened Options
  import opened Presence
  import opened PresenceRuns

  /** One row of the append-only `events` table. */
  datatype LoggedEvent = LoggedEvent(id: nat, mac: Mac, event: Event)

  function LogOf(events: seq<LoggedEvent>, mac: Mac): seq<Event> {
    if events == [] then []
    else
      var (rest, last) := (events[..|events| - 1], events[|events| - 1]);
      if last.mac == mac then LogOf(rest, mac) + [last.event] else LogOf(rest, mac)
  }

  function Without(events: seq<LoggedEvent>, mac: Mac): seq<LoggedEvent> {
    if events == [] then []
    else
      var (rest, last) := (events[..|events| - 1], events[|events| - 1]);
      if last.mac == mac then Without(rest, mac) else Without(rest, mac) + [last]
  }

  predicate IdsAscend(events: seq<LoggedEvent>, next: nat) {
    && (forall k :: 0 <= k < |events| ==> events[k].id < next)
    && forall j, k :: 0 <= j < k < |events| ==> events[j].id < events[k].id
  }

  lemma LogOfAppend(events: seq<LoggedEvent>, e: LoggedEvent)
    ensures forall mac :: LogOf(events + [e], mac) == LogOf(events, mac) + if e.mac == mac then [e.event] else []
  {
    assert (events + [e])[..|events|] == events;
  }

  lemma {:induction false} WithoutForgets(events: seq<LoggedEvent>, mac: Mac, other: Mac)
    ensures LogOf(Without(events, mac), other) == if other == mac then [] else LogOf(events, other)
  {
    if events == [] {
    } else {
      var k := |events| - 1;
      WithoutForgets(events[..k], mac, other);
      LogOfAppend(Without(events[..k], mac), events[k]);
    }
  }

  lemma {:induction false} WithoutKeepsIds(events: seq<LoggedEvent>, mac: Mac, next: nat)
    requires IdsAscend(events, next)
    ensures IdsAscend(Without(events, mac), next)
  {
    if events == [] {
    } else {
      var k := |events| - 1;
      WithoutKeepsIds(events[..k], mac, events[k].id);
    }
  }

  /** Whatever else happened to the log, its new entries have ids that were never given before. */
  ghost predicate LogGrows(before: seq<LoggedEvent>, next: nat, after: seq<LoggedEvent>, next': nat) {
    next <= next' && forall e :: e in after ==> e in before || e.id >= next
  }

  lemma LogGrowsOn(a: seq<LoggedEvent>, next: nat, b: seq<LoggedEvent>, next': nat, c: seq<LoggedEvent>, next'': nat)
    requires LogGrows(a, next, b, next') && LogGrows(b, next', c, next'')
    ensures LogGrows(a, next, c, next'')
  {}

  lemma {:induction false} WithoutKeepsEvents(events: seq<LoggedEvent>, mac: Mac)
    ensures forall e :: e in Without(events, mac) ==> e in events
  {
    if events == [] {
    } else {
      WithoutKeepsEvents(events[..|events| - 1], mac);
    }
  }

  /** What the network answered to the last direct check of a device that is about to be disconnected. */
  datatype Probe = Silent | Answer(sighting: Sighting) | Unavailable

  function SeenOps(sightings: seq<(Mac, Sighting)>): Trace {
    seq(|sightings|, k requires 0 <= k < |sightings| => Seen(sightings[k].0, sightings[k].1))
  }

  lemma SeenOpsAppend(sightings: seq<(Mac, Sighting)>, k: nat)
    requires k < |sightings|
    ensures SeenOps(sightings[..k + 1]) == SeenOps(sightings[..k]) + [Seen(sightings[k].0, sightings[k].1)]
  {}

  function Found(sightings: seq<(Mac, Sighting)>): set<Mac> {
    set s | s in sightings :: s.0
  }

  /** Some scan mechanism worked, so the sweep carries information. */
  predicate Covers(w: Sweep) { w.ipv4Covered || w.ipv6Covered }

  /** The two judgements that close a sweep. */
  function Verdicts(stillOnline: set<Mac>, w: Sweep): Trace {
    [MarkOffline(stillOnline, w), CheckAvailability(w, w.grace)]
  }

  /** Everything one sweep is given: what it found, its arguments, and what a last direct check would meet. */
  datatype Input = Input(sightings: seq<(Mac, Sighting)>, sweep: Sweep, retry: bool, probe: map<Mac, Probe>)

  /** What one sweep adds to the run when the retry pass got `replies`. */
  function SweepOps(input: Input, replies: Trace): Trace {
    SeenOps(input.sightings) +
      (if Covers(input.sweep)
       then replies + Verdicts(Found(input.sightings) + Responders(replies), input.sweep) else [])
  }

  /** A sweep over `t` that found `found` is about to disconnect `mac`. */
  predicate DueOn(t: Trace, found: set<Mac>, w: Sweep, mac: Mac) {
    mac !in found && Due(Run(t, mac).row, w)
  }

  predicate Answers(probe: map<Mac, Probe>, mac: Mac) { mac in probe && probe[mac].Answer? }

  predicate CannotBeSent(probe: map<Mac, Probe>, mac: Mac) { mac in probe && probe[mac].Unavailable? }

  /** The devices in `probed` came before the first probe that could not be sent, and exactly those answered. */
  ghost predicate Probed(t: Trace, found: set<Mac>, w: Sweep, probe: map<Mac, Probe>, probed: set<Mac>,
                         answered: set<Mac>)
  {
    && (forall mac :: mac in probed ==> DueOn(t, found, w, mac) && !CannotBeSent(probe, mac))
    && answered == (set mac | mac in probed && Answers(probe, mac))
    && ((forall mac :: DueOn(t, found, w, mac) ==> mac in probed)
        || exists mac :: DueOn(t, found, w, mac) && CannotBeSent(probe, mac))
  }

  /** Who answered the retry pass: the answering ones among the due devices that were probed before it ended. */
  ghost predicate Retried(t: Trace, found: set<Mac>, w: Sweep, probe: map<Mac, Probe>, answered: set<Mac>) {
    exists probed :: Probed(t, found, w, probe, probed, answered)
  }

  /** Unless some due device cannot be probed, exactly those due devices answered whose probe meets an answer. */
  lemma AllDueAreProbed(t: Trace, found: set<Mac>, w: Sweep, probe: map<Mac, Probe>, answered: set<Mac>)
    requires Retried(t, found, w, probe, answered)
    requires forall mac :: mac !in found && Due(Run(t, mac).row, w) && mac in probe ==> !probe[mac].Unavailable?
    ensures forall mac :: mac in answered <==>
              mac !in found && Due(Run(t, mac).row, w) && mac in probe && probe[mac].Answer?
  {
    var probed :| Probed(t, found, w, probe, probed, answered);
    hide Run, Due;
  }

  /** Everything a sweep over `t` reports: replies, disconnects and absences. */
  ghost predicate SweepDid(t: Trace, input: Input, replies: Trace, gone: set<Mac>, absent: set<Mac>) {
    var (seen, found, w) := (t + SeenOps(input.sightings), Found(input.sightings), input.sweep);
    && FromDueDevices(seen, found, w, replies)
    && (if input.retry && Covers(w) then Retried(seen, found, w, input.probe, Responders(replies)) else replies == [])
    && (forall mac :: mac in gone <==> Covers(w) && mac !in Responders(replies) && DueOn(seen, found, w, mac))
    && (forall mac :: mac in absent <==>
          (Covers(w)
           && AbsenceDue(Run(seen + replies + [MarkOffline(found + Responders(replies), w)], mac), w, w.grace)))
  }

  function AllSweepOps(inputs: seq<Input>, replies: seq<Trace>): Trace
    requires |inputs| == |replies|
  {
    if inputs == [] then []
    else
      var n := |inputs| - 1;
      AllSweepOps(inputs[..n], replies[..n]) + SweepOps(inputs[n], replies[n])
  }

  /** What each of several sweeps over `t`, one after the other, reports. */
  ghost predicate SweepsDid(t: Trace, inputs: seq<Input>, replies: seq<Trace>, gone: seq<set<Mac>>,
                            absent: seq<set<Mac>>)
  {
    && |inputs| == |replies| == |gone| == |absent|
    && forall n :: 0 <= n < |inputs| ==>
         SweepDid(t + AllSweepOps(inputs[..n], replies[..n]), inputs[n], replies[n], gone[n], absent[n])
  }

  lemma OneMoreSweep(t: Trace, inputs: seq<Input>, replies: seq<Trace>, gone: seq<set<Mac>>, absent: seq<set<Mac>>,
                     i: Input, r: Trace, g: set<Mac>, a: set<Mac>)
    requires SweepsDid(t, inputs, replies, gone, absent) && SweepDid(t + AllSweepOps(inputs, replies), i, r, g, a)
    ensures SweepsDid(t, inputs + [i], replies + [r], gone + [g], absent + [a])
    ensures t + AllSweepOps(inputs + [i], replies + [r]) == t + AllSweepOps(inputs, replies) + SweepOps(i, r)
  {
    hide SweepDid, SweepOps;
    var k := |inputs|;
    assert (inputs + [i])[..k] == inputs && (replies + [r])[..k] == replies;
    forall n | 0 <= n < k ensures (inputs + [i])[..n] == inputs[..n] && (replies + [r])[..n] == replies[..n] {}
  }

  class DeviceStore {
    var devices: map<Mac, Row>
    var presence: map<Mac, Watch>
    var events: seq<LoggedEvent>
    var nextId: nat
    ghost var trace: Trace
    ghost var notices: map<Mac, seq<Notice>>

    function WatchOf(mac: Mac): Watch
      reads this
    {
      if mac in presence then presence[mac] else UNWATCHED
    }

    ghost function CellOf(mac: Mac): Cell
      reads this
    {
      Cell(if mac in devices then Some(devices[mac]) else None, WatchOf(mac), LogOf(events, mac),
           if mac in notices then notices[mac] else [])
    }

    ghost predicate Valid()
      reads this
    {
      && (forall mac :: CellOf(mac) == Run(trace, mac))
      && IdsAscend(events, nextId) && nextId > 0
    }

    constructor ()
      ensures Valid() && trace == []
    {
      devices, presence, events, nextId := map[], map[], [], 1;
      trace, notices := [], map[];
    }

    method RecordEvent(mac: Mac, event: Event)
      requires IdsAscend(events, nextId)
      modifies this`events, this`nextId
      ensures events == old(events) + [LoggedEvent(old(nextId), mac, event)] && nextId == old(nextId) + 1
      ensures LogGrows(old(events), old(nextId), events, nextId)
      ensures IdsAscend(events, nextId)
      ensures forall m :: LogOf(events, m) == old(LogOf(events, m)) + if m == mac then [event] else []
    {
      LogOfAppend(events, LoggedEvent(nextId, mac, event));
      events := events + [LoggedEvent(nextId, mac, event)];
      nextId := nextId + 1;
    }

    /** Says `n` to the operator; notices are handed out, not stored, so only the ghost history keeps them. */
    ghost method Tell(mac: Mac, n: Notice)
      modifies this`notices
      ensures forall m :: CellOf(m) ==
                if m == mac then old(CellOf(m)).(notices := old(CellOf(m)).notices + [n]) else old(CellOf(m))
    {
      notices := notices[mac := CellOf(mac).notices + [n]];
    }

    /** Closes a step: the rows changed as `op` says, so the run is one step longer. */
    ghost method Commit(op: Op)
      requires IdsAscend(events, nextId) && nextId > 0
      requires forall mac :: CellOf(mac) == Step(Run(trace, mac), op, mac)
      modifies this`trace
      ensures Valid() && trace == old(trace) + [op]
    {
      forall mac ensures Run(trace + [op], mac) == Step(Run(trace, mac), op, mac) {
        RunAppend(trace, op, mac);
      }
      trace := trace + [op];
    }

    method Observe(mac: Mac, s: Sighting) returns (transition: Option<EventKind>)
      requires Valid()
      modifies this`devices, this`events, this`nextId
      ensures IdsAscend(events, nextId)
      ensures LogGrows(old(events), old(nextId), events, nextId)
      ensures transition == Transition(old(CellOf(mac).row))
      ensures forall m :: CellOf(m) == if m == mac then Observed(old(CellOf(m)), s) else old(CellOf(m))
    {
      hide Refresh, LogGrows, LogOf, Run;
      transition := RefreshRow(mac, s);
      LogGrowsFromHere(events, nextId);
      if transition.Some? { RecordEvent(mac, Event(transition.value, s.at)); }
    }

    /** The row that a sighting inserts or updates. */
    method RefreshRow(mac: Mac, s: Sighting) returns (transition: Option<EventKind>)
      modifies this`devices
      ensures transition == Transition(old(CellOf(mac).row))
      ensures devices == old(devices)[mac := Refresh(old(CellOf(mac).row), s)]
    {
      transition := None;
      var isIPv4, isIPv6 := s.family == Some(IPv4), s.family == Some(IPv6);
      var ipv4Subnet := if isIPv4 then s.subnet else None;
      if mac !in devices {
        transition := Some(NewDevice);
        devices := devices[mac := Row(true, s.at, s.at, 0, isIPv4, isIPv6, s.iface, ipv4Subnet)];
      } else {
        var existing := devices[mac];
        if !existing.online { transition := Some(Reappeared); }
        var advance := s.at >= existing.lastSeen;
        devices := devices[mac := existing.(
          online := true,
          lastSeen := if advance then s.at else existing.lastSeen,
          missed := 0,
          viaIPv4 := existing.viaIPv4 || isIPv4,
          viaIPv6 := existing.viaIPv6 || isIPv6,
          iface := Coalesce(s.iface, existing.iface),
          subnet := Coalesce(ipv4Subnet, existing.subnet))];
      }
    }

    method SetAvailabilityAlerted(mac: Mac, alerted: bool)
      modifies this`presence
      ensures forall m :: CellOf(m) ==
                if m == mac then old(CellOf(m)).(watch := old(WatchOf(m)).(alerted := alerted)) else old(CellOf(m))
    {
      presence := presence[mac := WatchOf(mac).(alerted := alerted)];
    }

    method ProcessSighting(mac: Mac, s: Sighting) returns (transition: Option<EventKind>, recovered: bool)
      requires Valid()
      modifies this
      ensures Valid() && trace == old(trace) + [Seen(mac, s)]
      ensures LogGrows(old(events), old(nextId), events, nextId)
      ensures transition == Transition(old(CellOf(mac).row))
      ensures recovered <==> transition == Some(Reappeared) && old(WatchOf(mac)).alerted
    {
      transition := Observe(mac, s);
      recovered := transition == Some(Reappeared) && WatchOf(mac).alerted;
      if recovered {
        SetAvailabilityAlerted(mac, false);
        Tell(mac, Recovery(s.at));
      }
      Commit(Seen(mac, s));
    }

    /** The devices a sweep would disconnect, given that it found `stillOnline`. */
    ghost function DueSet(stillOnline: set<Mac>, w: Sweep): set<Mac>
      reads this
    {
      set mac | mac in devices && mac !in stillOnline && Due(Some(devices[mac]), w)
    }

    /** The read-only twin of `MarkOffline`: it predicts exactly the disconnects of that call. */
    method DevicesDueForOffline(stillOnline: set<Mac>, w: Sweep) returns (due: seq<Mac>)
      ensures (set mac | mac in due) == DueSet(stillOnline, w)
      ensures forall j, k :: 0 <= j < k < |due| ==> due[j] != due[k]
    {
      var rows := set mac | mac in devices && devices[mac].online;
      var todo := rows;
      due := [];
      while todo != {}
        invariant todo <= rows
        invariant forall mac :: mac in due <==> mac in rows - todo && mac in DueSet(stillOnline, w)
        invariant forall j, k :: 0 <= j < k < |due| ==> due[j] != due[k]
        decreases todo
      {
        var mac :| mac in todo;
        assert mac !in due;
        todo := todo - {mac};
        var row := devices[mac];
        if mac !in stillOnline && PathCovered(row, w) {
          var missed := row.missed + 1;
          if missed >= w.missedAfter && w.asOf - row.lastSeen >= w.grace {
            due := due + [mac];
          }
        }
      }
    }

    /** One row of the loop in `MarkOffline`. */
    method JudgeMiss(mac: Mac, w: Sweep) returns (disconnected: bool)
      requires mac in devices && devices[mac].online && IdsAscend(events, nextId)
      modifies this`devices, this`events, this`nextId
      ensures IdsAscend(events, nextId)
      ensures LogGrows(old(events), old(nextId), events, nextId)
      ensures disconnected <==> old(Due(CellOf(mac).row, w))
      ensures forall m :: CellOf(m) == if m == mac then Miss(old(CellOf(m)), w) else old(CellOf(m))
    {
      disconnected := false;
      var row := devices[mac];
      if PathCovered(row, w) {
        var missed := row.missed + 1;
        if missed >= w.missedAfter && w.asOf - row.lastSeen >= w.grace {
          devices := devices[mac := row.(online := false, missed := 0)];
          RecordEvent(mac, Event(Disconnected, w.asOf));
          disconnected := true;
        } else {
          devices := devices[mac := row.(missed := missed)];
        }
      }
    }

    /** The loop of `MarkOffline` over the online rows, in whatever order they come. */
    method JudgeMisses(stillOnline: set<Mac>, w: Sweep) returns (gone: set<Mac>)
      requires IdsAscend(events, nextId)
      modifies this`devices, this`events, this`nextId
      ensures IdsAscend(events, nextId)
      ensures LogGrows(old(events), old(nextId), events, nextId)
      ensures forall mac :: CellOf(mac) == Step(old(CellOf(mac)), Op.MarkOffline(stillOnline, w), mac)
      ensures gone == old(DueSet(stillOnline, w))
    {
      gone := {};
      var rows := set mac | mac in devices && devices[mac].online;
      var todo := rows;
      while todo != {}
        invariant todo <= rows
        invariant IdsAscend(events, nextId) && LogGrows(old(events), old(nextId), events, nextId)
        invariant forall mac :: CellOf(mac) ==
                    if mac in rows && mac !in todo then Step(old(CellOf(mac)), Op.MarkOffline(stillOnline, w), mac)
                    else old(CellOf(mac))
        invariant gone == old(DueSet(stillOnline, w)) - todo
        decreases todo
      {
        var mac :| mac in todo;
        assert CellOf(mac) == old(CellOf(mac));
        todo := todo - {mac};
        if mac !in stillOnline {
          var disconnected := JudgeMiss(mac, w);
          if disconnected { gone := gone + {mac}; }
        }
      }
    }

    method MarkOffline(stillOnline: set<Mac>, w: Sweep) returns (gone: set<Mac>)
      requires Valid()
      modifies this
      ensures Valid() && trace == old(trace) + [Op.MarkOffline(stillOnline, w)]
      ensures LogGrows(old(events), old(nextId), events, nextId)
      ensures gone == old(DueSet(stillOnline, w))
    {
      gone := JudgeMisses(stillOnline, w);
      Commit(Op.MarkOffline(stillOnline, w));
    }

    method EvaluateAvailability(w: Sweep, defaultDelay: int) returns (due: set<Mac>)
      requires Valid()
      modifies this
      ensures Valid() && trace == old(trace) + [CheckAvailability(w, defaultDelay)]
      ensures LogGrows(old(events), old(nextId), events, nextId)
      ensures forall mac :: mac in due <==> old(AbsenceDue(CellOf(mac), w, defaultDelay))
    {
      var rows := set mac | mac in devices && !devices[mac].online && mac in presence
                            && presence[mac].policy == AlwaysOn && !presence[mac].alerted;
      var todo := rows;
      due := {};
      while todo != {}
        invariant todo <= rows
        invariant forall mac :: mac in due <==> mac in rows - todo && AbsenceDue(CellOf(mac), w, defaultDelay)
        decreases todo
      {
        var mac :| mac in todo;
        todo := todo - {mac};
        var row := devices[mac];
        if PathCovered(row, w) {
          var effective := EffectiveDelay(presence[mac], defaultDelay);
          if w.asOf - row.lastSeen >= effective { due := due + {mac}; }
        }
      }
      assert forall mac :: AbsenceDue(CellOf(mac), w, defaultDelay) ==> mac in rows;
      hide PathCovered, EffectiveDelay, IdsAscend, LogOf;
      ghost var op := CheckAvailability(w, defaultDelay);
      todo := due;
      while todo != {}
        invariant todo <= due
        invariant trace == old(trace) && events == old(events) && nextId == old(nextId) && devices == old(devices)
        invariant forall mac :: CellOf(mac) ==
                    if mac in due - todo then Step(old(CellOf(mac)), op, mac) else old(CellOf(mac))
        decreases todo
      {
        var mac :| mac in todo;
        todo := todo - {mac};
        assert CellOf(mac) == old(CellOf(mac));
        SetAvailabilityAlerted(mac, true);
        Tell(mac, Absence(w.asOf));
      }
      Commit(op);
    }

    method SetPresencePolicy(mac: Mac, policy: Policy)
      requires Valid()
      modifies this
      ensures Valid() && trace == old(trace) + [SetPolicy(mac, policy)]
      ensures LogGrows(old(events), old(nextId), events, nextId)
    {
      if policy == AlwaysOn {
        var current := WatchOf(mac);
        presence := presence[mac := Watch(policy, current.delay, current.alerted)];
      } else {
        presence := presence[mac := Watch(policy, None, false)];
        Tell(mac, Unwatched);
      }
      Commit(SetPolicy(mac, policy));
    }

    method SetOfflineAfter(mac: Mac, delay: Option<int>)
      requires Valid()
      modifies this
      ensures Valid() && trace == old(trace) + [SetDelay(mac, delay)]
      ensures LogGrows(old(events), old(nextId), events, nextId)
    {
      var current := WatchOf(mac);
      presence := presence[mac := Watch(current.policy, delay, current.alerted)];
      Commit(SetDelay(mac, delay));
    }

    method ForgetRows(mac: Mac)
      requires IdsAscend(events, nextId)
      modifies this`devices, this`presence, this`events
      ensures IdsAscend(events, nextId)
      ensures LogGrows(old(events), old(nextId), events, nextId)
      ensures forall m :: CellOf(m) ==
                if m == mac then Cell(None, UNWATCHED, [], old(CellOf(m)).notices) else old(CellOf(m))
    {
      WithoutKeepsIds(events, mac, nextId);
      WithoutKeepsEvents(events, mac);
      forall m { WithoutForgets(events, mac, m); }
      devices, presence, events := devices - {mac}, presence - {mac}, Without(events, mac);
    }

    method DeleteDevice(mac: Mac) returns (existed: bool)
      requires Valid()
      modifies this
      ensures Valid() && trace == old(trace) + [Delete(mac)]
      ensures LogGrows(old(events), old(nextId), events, nextId)
      ensures existed <==> old(mac in devices)
    {
      hide LogGrows, LogOf, Run, IdsAscend;
      existed := mac in devices;
      ForgetRows(mac);
      Tell(mac, Forgotten);
      Commit(Delete(mac));
    }

    /**
     Gives each due device one last direct check and folds an answer back in as a sighting. The first probe that
     cannot be sent at all ends the pass.
     */
    method RetryDevicesDueForOffline(stillOnline: set<Mac>, w: Sweep, probe: map<Mac, Probe>)
        returns (online: set<Mac>, ghost replies: Trace)
      requires Valid()
      modifies this
      ensures Valid() && trace == old(trace) + replies
      ensures LogGrows(old(events), old(nextId), events, nextId)
      ensures FromDueDevices(old(trace), stillOnline, w, replies)
      ensures online == stillOnline + Responders(replies)
      ensures Retried(old(trace), stillOnline, w, probe, Responders(replies))
    {
      online, replies := stillOnline, [];
      var due := DevicesDueForOffline(stillOnline, w);
      var k := 0;
      ghost var start := trace;
      assert trace == start + replies;
      DueSetIsDueOn(stillOnline, w);
      assert forall mac :: mac in due <==> mac in DueSet(stillOnline, w);
      hide DueOn, Run, LogGrows, IdsAscend, DeviceStore.CellOf, FromDueDevices, Responders, DeviceStore.DueSet, Step;
      ghost var (before, next) := (events, nextId);
      LogGrowsFromHere(before, next);
      while k < |due|
        invariant k <= |due|
        invariant Valid() && start == old(trace) && trace == start + replies
        invariant LogGrows(before, next, events, nextId)
        invariant FromDueDevices(start, stillOnline, w, replies)
        invariant online == stillOnline + Responders(replies)
        invariant forall mac :: mac in due[..k] ==> !CannotBeSent(probe, mac)
        invariant Responders(replies) == set mac | mac in due[..k] && Answers(probe, mac)
      {
        var mac := due[k];
        if mac in probe && probe[mac].Unavailable? {
          break;
        }
        assert due[..k + 1] == due[..k] + [mac];
        if mac in probe && probe[mac].Answer? {
          var reply := probe[mac].sighting;
          AnswersToo(start, stillOnline, w, replies, mac, reply);
          ghost var (between, id) := (events, nextId);
          var _, _ := ProcessSighting(mac, reply);
          LogGrowsOn(before, next, between, id, events, nextId);
          replies := replies + [Seen(mac, reply)];
          online := online + {mac};
        }
        k := k + 1;
      }
      ProbedUpTo(start, stillOnline, w, probe, due, k, Responders(replies));
    }

    lemma DueSetIsDueOn(stillOnline: set<Mac>, w: Sweep)
      requires Valid()
      ensures forall mac :: mac in DueSet(stillOnline, w) <==> DueOn(trace, stillOnline, w, mac)
    {
      forall mac ensures mac in DueSet(stillOnline, w) <==> DueOn(trace, stillOnline, w, mac) {
        assert CellOf(mac) == Run(trace, mac);
      }
    }

    method ProcessSightings(sightings: seq<(Mac, Sighting)>) returns (stillOnline: set<Mac>)
      requires Valid()
      modifies this
      ensures Valid() && trace == old(trace) + SeenOps(sightings)
      ensures LogGrows(old(events), old(nextId), events, nextId)
      ensures stillOnline == Found(sightings)
    {
      stillOnline := {};
      var k := 0;
      assert trace == old(trace) + SeenOps(sightings[..0]);
      while k < |sightings|
        invariant k <= |sightings|
        invariant Valid() && trace == old(trace) + SeenOps(sightings[..k])
        invariant LogGrows(old(events), old(nextId), events, nextId)
        invariant stillOnline == Found(sightings[..k])
      {
        var (mac, s) := sightings[k];
        var _, _ := ProcessSighting(mac, s);
        stillOnline := stillOnline + {mac};
        SeenOpsAppend(sightings, k);
        assert sightings[..k + 1] == sightings[..k] + [sightings[k]];
        k := k + 1;
      }
      assert sightings[..k] == sightings;
    }

    /** The closing half of a sweep with coverage, against one instant: retries, disconnects, absences. */
    method PassVerdicts(found: set<Mac>, w: Sweep, retry: bool, probe: map<Mac, Probe>)
        returns (gone: set<Mac>, absent: set<Mac>, ghost replies: Trace)
      requires Valid()
      modifies this
      ensures Valid()
      ensures LogGrows(old(events), old(nextId), events, nextId)
      ensures FromDueDevices(old(trace), found, w, replies)
      ensures if retry then Retried(old(trace), found, w, probe, Responders(replies)) else replies == []
      ensures trace == old(trace) + replies + Verdicts(found + Responders(replies), w)
      ensures forall mac :: mac in gone <==> mac !in Responders(replies) && DueOn(old(trace), found, w, mac)
      ensures forall mac :: mac in absent <==>
                AbsenceDue(Run(old(trace) + replies + [Op.MarkOffline(found + Responders(replies), w)], mac),
                           w, w.grace)
    {
      hide Retried, LogGrows, IdsAscend;
      var stillOnline := found;
      replies := [];
      ghost var (before, next) := (events, nextId);
      LogGrowsFromHere(before, next);
      if retry {
        stillOnline, replies := RetryDevicesDueForOffline(found, w, probe);
      }
      assert trace == old(trace) + replies && stillOnline == found + Responders(replies);
      DueAfterRetries(old(trace), found, w, replies);
      assert forall mac :: mac in DueSet(stillOnline, w) <==> mac !in stillOnline && Due(CellOf(mac).row, w);
      ghost var (t, between, id) := (trace, events, nextId);
      gone := MarkOffline(stillOnline, w);
      LogGrowsOn(before, next, between, id, events, nextId);
      between, id := events, nextId;
      assert forall mac :: CellOf(mac) == Run(trace, mac);
      absent := EvaluateAvailability(w, w.grace);
      LogGrowsOn(before, next, between, id, events, nextId);
      assert trace == t + Verdicts(stillOnline, w);
    }

    /**
     One active sweep: every sighting, then - if any mechanism worked - the retry pass, the offline verdicts and the
     availability check. With no coverage at all no verdict is reached.
     */
    method RunActiveSweep(input: Input) returns (gone: set<Mac>, absent: set<Mac>, ghost replies: Trace)
      requires Valid()
      modifies this
      ensures Valid() && trace == old(trace) + SweepOps(input, replies)
      ensures LogGrows(old(events), old(nextId), events, nextId)
      ensures SweepDid(old(trace), input, replies, gone, absent)
    {
      hide Retried, IdsAscend, Run, DueOn;
      gone, absent, replies := {}, {}, [];
      var stillOnline := ProcessSightings(input.sightings);
      if Covers(input.sweep) {
        gone, absent, replies := PassVerdicts(stillOnline, input.sweep, input.retry, input.probe);
      }
      SweepExtends(old(trace), trace, input, replies);
    }

    /** One sweep per interface, each with its own sightings, coverage and verdicts, one after the other. */
    method RunActiveSweepMulti(inputs: seq<Input>)
        returns (gone: seq<set<Mac>>, absent: seq<set<Mac>>, ghost replies: seq<Trace>)
      requires Valid()
      modifies this
      ensures Valid() && |replies| == |inputs| && trace == old(trace) + AllSweepOps(inputs, replies)
      ensures LogGrows(old(events), old(nextId), events, nextId)
      ensures SweepsDid(old(trace), inputs, replies, gone, absent)
    {
      gone, absent, replies := [], [], [];
      ghost var (before, next) := (events, nextId);
      LogGrowsFromHere(before, next);
      assert trace == old(trace) + AllSweepOps(inputs[..0], replies);
      for n := 0 to |inputs|
        invariant Valid() && |replies| == n
        invariant trace == old(trace) + AllSweepOps(inputs[..n], replies)
        invariant LogGrows(before, next, events, nextId)
        invariant SweepsDid(old(trace), inputs[..n], replies, gone, absent)
      {
        hide SweepOps, SweepDid, SweepsDid, AllSweepOps, Run, IdsAscend, LogGrows;
        ghost var (between, id) := (events, nextId);
        var g, a, r := RunActiveSweep(inputs[n]);
        LogGrowsOn(before, next, between, id, events, nextId);
        OneMoreSweep(old(trace), inputs[..n], replies, gone, absent, inputs[n], r, g, a);
        assert inputs[..n + 1] == inputs[..n] + [inputs[n]];
        gone, absent, replies := gone + [g], absent + [a], replies + [r];
      }
      assert inputs[..|inputs|] == inputs;
    }
  }

  lemma LogGrowsFromHere(events: seq<LoggedEvent>, next: nat)
    ensures LogGrows(events, next, events, next)
  {}

  /** The pass ends when all due devices are probed, or at the first probe that cannot be sent. */
  lemma ProbedUpTo(t: Trace, found: set<Mac>, w: Sweep, probe: map<Mac, Probe>, due: seq<Mac>, k: nat,
                   answered: set<Mac>)
    requires k <= |due| && (forall mac :: mac in due <==> DueOn(t, found, w, mac))
    requires forall mac :: mac in due[..k] ==> !CannotBeSent(probe, mac)
    requires answered == set mac | mac in due[..k] && Answers(probe, mac)
    requires k == |due| || CannotBeSent(probe, due[k])
    ensures Retried(t, found, w, probe, answered)
  {
    hide DueOn;
    assert k == |due| ==> due[..k] == due;
    assert k < |due| ==> due[k] in due;
    assert Probed(t, found, w, probe, (set mac | mac in due[..k]), answered);
  }

  /** One more due device answers. */
  lemma AnswersToo(t: Trace, found: set<Mac>, w: Sweep, replies: Trace, mac: Mac, reply: Sighting)
    requires DueOn(t, found, w, mac) && FromDueDevices(t, found, w, replies)
    ensures FromDueDevices(t, found, w, replies + [Seen(mac, reply)])
    ensures Responders(replies + [Seen(mac, reply)]) == Responders(replies) + {mac}
    ensures t + (replies + [Seen(mac, reply)]) == t + replies + [Seen(mac, reply)]
  {
    RespondersOfLast(replies, Seen(mac, reply));
  }

  lemma SweepExtends(before: Trace, after: Trace, input: Input, replies: Trace)
    requires Covers(input.sweep) ==>
               after == before + SeenOps(input.sightings) + replies
                        + Verdicts(Found(input.sightings) + Responders(replies), input.sweep)
    requires !Covers(input.sweep) ==> after == before + SeenOps(input.sightings)
    ensures after == before + SweepOps(input, replies)
  {}

  /** The retry pass leaves the verdict on every device it did not rescue as it was. */
  lemma DueAfterRetries(t: Trace, seen: set<Mac>, w: Sweep, replies: Trace)
    requires FromDueDevices(t, seen, w, replies)
    ensures forall mac :: mac !in Responders(replies) ==> Run(t + replies, mac) == Run(t, mac)
  {
    forall mac | mac !in Responders(replies) ensures Run(t + replies, mac) == Run(t, mac) {
      RepliesTouchOnlyResponders(t, replies, mac);
    }
  }

  // ---- a sweep as part of a run -------------------------------------------------------

  lemma {:induction false} HeardMeansOnline(t: Trace, ops: Trace, mac: Mac)
    requires forall op :: op in ops ==> op.Seen?
    ensures var row := Run(t + ops, mac).row;
      (exists op :: op in ops && op.mac == mac) ==> row.Some? && row.value.online
  {
    if ops == [] {
    } else {
      var n := |ops| - 1;
      RunSplit(t, ops, mac);
      HeardMeansOnline(t, ops[..n], mac);
      assert ops[n] in ops;
    }
  }

  /** A sweep in which no mechanism worked is its sightings and nothing else. */
  lemma BlindSweepsOnlyHear(input: Input, replies: Trace)
    requires !input.sweep.ipv4Covered && !input.sweep.ipv6Covered
    ensures SweepOps(input, replies) == SeenOps(input.sightings)
  {}

  /** After any other sweep, whoever it heard is online. */
  lemma SweepsKeepWhomTheyHeard(t: Trace, input: Input, replies: Trace, mac: Mac)
    requires (input.sweep.ipv4Covered || input.sweep.ipv6Covered) && forall op :: op in replies ==> op.Seen?
    requires (exists s :: s in input.sightings && s.0 == mac) || exists op :: op in replies && op.mac == mac
    ensures var row := Run(t + SweepOps(input, replies), mac).row; row.Some? && row.value.online
  {
    var (heard, w) := (SeenOps(input.sightings) + replies, input.sweep);
    var found := Found(input.sightings) + Responders(replies);
    if s :| s in input.sightings && s.0 == mac {
      var k :| 0 <= k < |input.sightings| && input.sightings[k] == s;
      assert heard[k] in heard && heard[k].mac == mac;
    }
    if op :| op in replies && op.mac == mac { assert op in heard; }
    HeardMeansOnline(t, heard, mac);
    assert t + SweepOps(input, replies) == t + heard + [MarkOffline(found, w)] + [CheckAvailability(w, w.grace)];
    RunAppend(t + heard, MarkOffline(found, w), mac);
    RunAppend(t + heard + [MarkOffline(found, w)], CheckAvailability(w, w.grace), mac);
  }

  /** For whoever it did not hear it is one miss and one check, whatever else it found. */
  lemma SweepsJudgeTheRest(t: Trace, input: Input, replies: Trace, mac: Mac)
    requires (input.sweep.ipv4Covered || input.sweep.ipv6Covered) && forall op :: op in replies ==> op.Seen?
    requires !(exists s :: s in input.sightings && s.0 == mac) && !(exists op :: op in replies && op.mac == mac)
    ensures Run(t + SweepOps(input, replies), mac)
         == Run(t + [MarkOffline({}, input.sweep)] + [CheckAvailability(input.sweep, input.sweep.grace)], mac)
  {
    var (heard, w) := (SeenOps(input.sightings) + replies, input.sweep);
    var found := Found(input.sightings) + Responders(replies);
    assert mac !in found && mac !in Responders(heard);
    RepliesTouchOnlyResponders(t, heard, mac);
    assert t + SweepOps(input, replies) == t + heard + [MarkOffline(found, w)] + [CheckAvailability(w, w.grace)];
    RunAppend(t + heard, MarkOffline(found, w), mac);
    RunAppend(t + heard + [MarkOffline(found, w)], CheckAvailability(w, w.grace), mac);
    RunAppend(t, MarkOffline({}, w), mac);
    RunAppend(t + [MarkOffline({}, w)], CheckAvailability(w, w.grace), mac);
  }
}
