/**
 What every run of the presence machine guarantees for a device. The definitions here speak about the run itself
 (who was sighted when, which sweeps looked where); the lemmas show that the rows hold exactly that.
 */
module PresenceRuns {
  import opened Options
  import opened Presence

  predicate Sees(op: Op, mac: Mac) { op.Seen? && op.mac == mac }

  predicate Deletes(op: Op, mac: Mac) { op.Delete? && op.mac == mac }

  /** `t[from..]` is the part of the run since the store last knew nothing about `mac`. */
  ghost predicate Lifetime(t: Trace, from: nat, mac: Mac) {
    && from <= |t| && (from == 0 || Deletes(t[from - 1], mac))
    && forall j :: from <= j < |t| ==> !Deletes(t[j], mac)
  }

  /** `i` is the most recent sighting of `mac`, and nothing was deleted since. */
  ghost predicate LastSighting(t: Trace, i: nat, mac: Mac) {
    && i < |t| && Sees(t[i], mac)
    && forall j :: i < j < |t| ==> !Sees(t[j], mac) && !Deletes(t[j], mac)
  }

  /** A sweep that covered all paths of `known` and did not find `mac`. */
  predicate Omits(op: Op, mac: Mac, known: Row) {
    op.MarkOffline? && mac !in op.stillOnline && PathCovered(known, op.sweep)
  }

  function Omissions(t: Trace, i: nat, n: nat, mac: Mac, known: Row): nat
    requires i < n <= |t|
  {
    if n == i + 1 then 0
    else Omissions(t, i, n - 1, mac, known) + if Omits(t[n - 1], mac, known) then 1 else 0
  }

  /** Step `j` is an omission at which both thresholds are reached. */
  predicate Confirms(t: Trace, i: nat, j: nat, mac: Mac, known: Row)
    requires i < j < |t|
  {
    && Omits(t[j], mac, known)
    && Omissions(t, i, j + 1, mac, known) >= t[j].sweep.missedAfter
    && t[j].sweep.asOf - known.lastSeen >= t[j].sweep.grace
  }

  ghost predicate Unconfirmed(t: Trace, i: nat, n: nat, mac: Mac, known: Row)
    requires i < n <= |t|
  {
    forall j :: i < j < n ==> !Confirms(t, i, j, mac, known)
  }

  /** The row left by the sighting at `i`. */
  function Known(t: Trace, i: nat, mac: Mac): Row
    requires i < |t| && Sees(t[i], mac)
  {
    Refresh(Run(t[..i], mac).row, t[i].sighting)
  }

  // ---- presence -------------------------------------------------------------

  lemma OmissionsOfPrefix(t: Trace, m: nat, i: nat, n: nat, mac: Mac, known: Row)
    requires i < n <= m <= |t|
    ensures Omissions(t[..m], i, n, mac, known) == Omissions(t, i, n, mac, known)
  {
    if n > i + 1 { OmissionsOfPrefix(t, m, i, n - 1, mac, known); }
  }

  lemma ConfirmsOfPrefix(t: Trace, m: nat, i: nat, mac: Mac, known: Row)
    requires i < m <= |t|
    ensures forall j :: i < j < m ==> Confirms(t[..m], i, j, mac, known) == Confirms(t, i, j, mac, known)
  {
    forall j | i < j < m ensures Confirms(t[..m], i, j, mac, known) == Confirms(t, i, j, mac, known) {
      OmissionsOfPrefix(t, m, i, j + 1, mac, known);
    }
  }

  /**
   Since its last sighting an online device's miss count is the number of sweeps that covered its known paths and
   omitted it, and it is online exactly while no such sweep reached both thresholds.
   */
  lemma {:induction false} MissesAreCounted(t: Trace, i: nat, mac: Mac)
    requires LastSighting(t, i, mac)
    ensures var known := Known(t, i, mac); var row := Run(t, mac).row;
      && row.Some?
      && (row.value.online <==> Unconfirmed(t, i, |t|, mac, known))
      && row.value == known.(online := row.value.online,
           missed := if row.value.online then Omissions(t, i, |t|, mac, known) else 0)
  {
    var n := |t| - 1;
    var before := t[..n];
    var known := Known(t, i, mac);
    if i < n {
      assert before[..i] == t[..i];
      MissesAreCounted(before, i, mac);
      ConfirmsOfPrefix(t, n, i, mac, known);
      OmissionsOfPrefix(t, n, i, n, mac, known);
      assert Run(t, mac) == Step(Run(before, mac), t[n], mac);
      assert Unconfirmed(t, i, |t|, mac, known) <==>
             Unconfirmed(before, i, n, mac, known) && !Confirms(t, i, n, mac, known);
    }
  }

  /** A disconnect is logged at exactly the first confirming sweep, and nothing else is logged between sightings. */
  lemma {:induction false} DisconnectsOnceWhenConfirmed(t: Trace, i: nat, mac: Mac)
    requires LastSighting(t, i, mac) && i < |t| - 1
    ensures var n := |t| - 1; var known := Known(t, i, mac);
      Run(t, mac).log == Run(t[..n], mac).log +
        if Unconfirmed(t, i, n, mac, known) && Confirms(t, i, n, mac, known)
        then [Event(Disconnected, t[n].sweep.asOf)] else []
  {
    var n := |t| - 1;
    var before := t[..n];
    var known := Known(t, i, mac);
    assert before[..i] == t[..i];
    MissesAreCounted(before, i, mac);
    ConfirmsOfPrefix(t, n, i, mac, known);
    OmissionsOfPrefix(t, n, i, n, mac, known);
  }

  /** Only a sighting says anything new about when, and over what, a device was heard. */
  lemma SightingStep(c: Cell, op: Op, mac: Mac)
    requires !Deletes(op, mac)
    ensures var (row, next) := (c.row, Step(c, op, mac).row);
      if Sees(op, mac) then
        && next.Some?
        && next.value.lastSeen ==
           (if row.Some? && row.value.lastSeen > op.sighting.at then row.value.lastSeen else op.sighting.at)
        && (next.value.viaIPv4 <==> (row.Some? && row.value.viaIPv4) || op.sighting.family == Some(IPv4))
        && (next.value.viaIPv6 <==> (row.Some? && row.value.viaIPv6) || op.sighting.family == Some(IPv6))
      else
        && (next.Some? <==> row.Some?)
        && (row.Some? ==>
              && next.value.lastSeen == row.value.lastSeen
              && next.value.viaIPv4 == row.value.viaIPv4 && next.value.viaIPv6 == row.value.viaIPv6)
  {}

  /** The row of a device is a summary of its sightings since it was last unknown; going offline changes none of it. */
  lemma {:induction false} SightingsAreSummarised(t: Trace, from: nat, mac: Mac)
    requires Lifetime(t, from, mac)
    ensures var row := Run(t, mac).row;
      && (row.Some? <==> exists k :: from <= k < |t| && Sees(t[k], mac))
      && (row.Some? ==>
        && (forall k :: from <= k < |t| && Sees(t[k], mac) ==> t[k].sighting.at <= row.value.lastSeen)
        && (exists k :: from <= k < |t| && Sees(t[k], mac) && t[k].sighting.at == row.value.lastSeen)
        && (row.value.viaIPv4 <==>
            exists k :: from <= k < |t| && Sees(t[k], mac) && t[k].sighting.family == Some(IPv4))
        && (row.value.viaIPv6 <==>
            exists k :: from <= k < |t| && Sees(t[k], mac) && t[k].sighting.family == Some(IPv6)))
  {
    var n := |t| - 1;
    if from < |t| {
      var before := t[..n];
      SightingsAreSummarised(before, from, mac);
      assert forall k :: from <= k < n ==> before[k] == t[k];
      assert Run(t, mac) == Step(Run(before, mac), t[n], mac);
      SightingStep(Run(before, mac), t[n], mac);
      hide Run, Step;
      if Sees(t[n], mac) {
        assert t[n] == Seen(mac, t[n].sighting);
      }
    }
  }

  // ---- the lifecycle log ----------------------------------------------------

  ghost predicate Alternates(log: seq<Event>) {
    && (|log| > 0 ==> log[0].kind == NewDevice)
    && forall j, k :: 0 <= j < k < |log| && k == j + 1 ==>
         log[k].kind == if log[j].kind == Disconnected then Reappeared else Disconnected
  }

  /** A device's log is a join followed by strictly alternating disconnects and returns, and its end is the status. */
  lemma {:induction false} LogAlternates(t: Trace, mac: Mac)
    ensures LogTells(Run(t, mac))
  {
    if t == [] {
    } else {
      LogAlternates(t[..|t| - 1], mac);
      LogStep(Run(t[..|t| - 1], mac), t[|t| - 1], mac);
    }
  }

  ghost predicate LogTells(c: Cell) {
    && Alternates(c.log)
    && (c.row.Some? <==> c.log != [])
    && (c.row.Some? ==> (c.row.value.online <==> c.log[|c.log| - 1].kind != Disconnected))
  }

  lemma LogStep(c: Cell, op: Op, mac: Mac)
    requires LogTells(c)
    ensures LogTells(Step(c, op, mac))
  {}

  // ---- availability episodes ------------------------------------------------

  /** Absences and recoveries alternate, starting with an absence, except where an episode was dropped unannounced. */
  ghost predicate Episodes(ns: seq<Notice>) {
    && (ns != [] ==> !ns[0].Recovery?)
    && forall j, k :: 0 <= j < k < |ns| && k == j + 1 ==>
         && (ns[k].Recovery? ==> ns[j].Absence?)
         && (ns[k].Absence? ==> !ns[j].Absence?)
  }

  lemma EpisodesAppend(ns: seq<Notice>, n: Notice)
    requires Episodes(ns)
    requires n.Recovery? ==> ns != [] && ns[|ns| - 1].Absence?
    requires n.Absence? ==> ns == [] || !ns[|ns| - 1].Absence?
    ensures Episodes(ns + [n])
  {}

  /** An open episode means: offline, still watched, and the absence was the last thing said. */
  ghost predicate EpisodeIsKept(c: Cell) {
    && Episodes(c.notices)
    && (c.watch.alerted <==> c.notices != [] && c.notices[|c.notices| - 1].Absence?)
    && (c.watch.alerted ==> c.row.Some? && !c.row.value.online && c.watch.policy == AlwaysOn)
  }

  lemma EpisodeStep(c: Cell, op: Op, mac: Mac)
    requires EpisodeIsKept(c)
    ensures EpisodeIsKept(Step(c, op, mac))
  {
    hide Episodes;
    var after := Step(c, op, mac);
    if after.notices != c.notices {
      EpisodesAppend(c.notices, after.notices[|c.notices|]);
    }
  }

  lemma {:induction false} EpisodesAlternate(t: Trace, mac: Mac)
    ensures EpisodeIsKept(Run(t, mac))
  {
    if t == [] {
    } else {
      EpisodesAlternate(t[..|t| - 1], mac);
      EpisodeStep(Run(t[..|t| - 1], mac), t[|t| - 1], mac);
    }
  }

  /** Two absences are always separated by a recovery, a policy edit or a deletion of that device. */
  lemma {:induction false} BetweenTwoAbsences(t: Trace, mac: Mac, j: nat, k: nat) returns (m: nat)
    requires j < k < |Run(t, mac).notices|
    requires Run(t, mac).notices[j].Absence? && Run(t, mac).notices[k].Absence?
    ensures j < m < k && !Run(t, mac).notices[m].Absence?
  {
    EpisodesAlternate(t, mac);
    m := k - 1;
  }

  /**
   In the sweep that disconnects an always-on device its absence is announced at once exactly when its own delay
   override (if it has one) has also passed; without an override it always is.
   */
  lemma AnnouncedInTheDisconnectingSweep(t: Trace, mac: Mac, seen: set<Mac>, w: Sweep)
    requires var r := Run(t, mac).row; r.Some? && r.value.online
    requires var r := Run(t + [MarkOffline(seen, w)], mac).row; r.Some? && !r.value.online
    ensures var c := Run(t, mac);
      Run(t + [MarkOffline(seen, w)] + [CheckAvailability(w, w.grace)], mac).notices == c.notices +
        if c.watch.policy == AlwaysOn
           && (c.watch.delay.None? || c.watch.delay.value <= w.asOf - c.row.value.lastSeen || c.watch.delay.value == 0)
        then [Absence(w.asOf)] else []
  {
    EpisodesAlternate(t, mac);
    RunAppend(t, MarkOffline(seen, w), mac);
    RunAppend(t + [MarkOffline(seen, w)], CheckAvailability(w, w.grace), mac);
  }

  /** The delay as documented: the override, or else the default. */
  function PromisedDelay(watch: Watch, defaultDelay: int): int {
    if watch.delay.Some? then watch.delay.value else defaultDelay
  }

  /**
   The delay is documented as additional time after the device went offline. The check of an offline device that is
   watched keeps to that exactly unless the time since the last sighting is already enough, or not yet enough.
   */
  lemma DelayIsAdditionalExactlyWhen(t: Trace, mac: Mac, w: Sweep, defaultDelay: int)
    requires var c := Run(t, mac);
      && c.row.Some? && !c.row.value.online && PathCovered(c.row.value, w)
      && c.watch.policy == AlwaysOn && !c.watch.alerted
    ensures var c := Run(t, mac);
      && c.log != [] && c.log[|c.log| - 1].kind == Disconnected
      && var (last, gone) := (c.row.value.lastSeen, c.log[|c.log| - 1].at);
         var (delay, promised) := (EffectiveDelay(c.watch, defaultDelay), PromisedDelay(c.watch, defaultDelay));
         var announced := Run(t + [CheckAvailability(w, defaultDelay)], mac).notices != c.notices;
         ((announced <==> gone + promised <= w.asOf) <==>
          !(last + delay <= w.asOf < gone + promised) && !(gone + promised <= w.asOf < last + delay))
  {
    LogAlternates(t, mac);
    RunAppend(t, CheckAvailability(w, defaultDelay), mac);
  }

  /** A device with ten seconds of delay that is announced absent in the second it goes offline. */
  lemma DelayCanBeginEarly() returns (t: Trace)
    ensures var c := Run(t, "m");
      c.watch.delay == Some(10) && c.log == [Event(NewDevice, 0), Event(Disconnected, 10)] && c.notices == [Absence(10)]
  {
    var w := Sweep(10, 1, 1, true, None, true, None);
    t := [];
    var c := UNKNOWN;
    var s := Sighting(0, Some(IPv4), None, None);
    c := RunOn(t, Seen("m", s), "m", c); t := t + [Seen("m", s)];
    c := RunOn(t, SetPolicy("m", AlwaysOn), "m", c); t := t + [SetPolicy("m", AlwaysOn)];
    c := RunOn(t, SetDelay("m", Some(10)), "m", c); t := t + [SetDelay("m", Some(10))];
    c := RunOn(t, MarkOffline({}, w), "m", c); t := t + [MarkOffline({}, w)];
    c := RunOn(t, CheckAvailability(w, 1), "m", c); t := t + [CheckAvailability(w, 1)];
  }

  /** One offline episode, never interrupted by a sighting, can be announced twice: leave always-on and come back. */
  lemma SecondAbsenceInOneEpisode() returns (t: Trace)
    ensures var ns := Run(t, "m").notices; ns == [Absence(10), Unwatched, Absence(10)]
    ensures LastSighting(t, 0, "m")
  {
    var w := Sweep(10, 1, 1, true, None, true, None);
    t := [Seen("m", Sighting(0, Some(IPv4), None, None)), SetPolicy("m", AlwaysOn)];
    assert t[..1] == [t[0]] && t[..0] == [];
    assert Run(t[..1], "m") == Step(UNKNOWN, t[0], "m");
    var c := Run(t, "m");
    var row := Row(true, 0, 0, 0, true, false, None, None);
    assert c == Cell(Some(row), Watch(AlwaysOn, None, false), [Event(NewDevice, 0)], []);
    c := RunOn(t, MarkOffline({}, w), "m", c); t := t + [MarkOffline({}, w)];
    c := RunOn(t, CheckAvailability(w, 1), "m", c); t := t + [CheckAvailability(w, 1)];
    assert c.notices == [Absence(10)];
    c := RunOn(t, SetPolicy("m", Intermittent), "m", c); t := t + [SetPolicy("m", Intermittent)];
    c := RunOn(t, SetPolicy("m", AlwaysOn), "m", c); t := t + [SetPolicy("m", AlwaysOn)];
    c := RunOn(t, CheckAvailability(w, 1), "m", c); t := t + [CheckAvailability(w, 1)];
  }

  /**
   The setter promises that returning to always-on starts clean; for a device that is offline it does not. The
   next check announces an absence exactly when the old absence is already covered and long enough.
   */
  lemma ReturningToAlwaysOnFires(t: Trace, mac: Mac, p: Policy, w: Sweep, defaultDelay: int)
    requires p != AlwaysOn
    ensures var c := Run(t, mac);
      Run(t + [SetPolicy(mac, p)] + [SetPolicy(mac, AlwaysOn)] + [CheckAvailability(w, defaultDelay)], mac).notices
      == c.notices + [Unwatched] +
        if c.row.Some? && !c.row.value.online && PathCovered(c.row.value, w)
           && w.asOf - c.row.value.lastSeen >= defaultDelay
        then [Absence(w.asOf)] else []
  {
    RunAppend(t, SetPolicy(mac, p), mac);
    RunAppend(t + [SetPolicy(mac, p)], SetPolicy(mac, AlwaysOn), mac);
    RunAppend(t + [SetPolicy(mac, p)] + [SetPolicy(mac, AlwaysOn)], CheckAvailability(w, defaultDelay), mac);
  }

  // ---- the retry pass --------------------------------------------------------

  function Responders(replies: Trace): set<Mac> {
    set op | op in replies && op.Seen? :: op.mac
  }

  /** Only devices about to be disconnected are probed, so every reply is a sighting of one of them. */
  predicate FromDueDevices(t: Trace, seen: set<Mac>, w: Sweep, replies: Trace) {
    forall op :: op in replies ==> op.Seen? && op.mac !in seen && Due(Run(t, op.mac).row, w)
  }

  lemma RespondersOfLast(first: Trace, last: Op)
    requires last.Seen?
    ensures Responders(first + [last]) == Responders(first) + {last.mac}
  {}

  lemma {:induction false} RepliesTouchOnlyResponders(t: Trace, replies: Trace, mac: Mac)
    requires forall op :: op in replies ==> op.Seen?
    requires var r := Run(t, mac).row; mac in Responders(replies) ==> r.Some? && r.value.online
    ensures var c := Run(t, mac); var d := Run(t + replies, mac);
      if mac in Responders(replies)
      then d.row.Some? && d.row.value.online && d.row.value.missed == 0 && d.row.value.lastSeen >= c.row.value.lastSeen
           && d.watch == c.watch && d.log == c.log && d.notices == c.notices
      else d == c
  {
    if replies == [] {
      assert t + replies == t;
    } else {
      var k := |replies| - 1;
      var first, last := replies[..k], replies[k];
      RunSplit(t, replies, mac);
      RespondersOfLast(first, last);
      hide Run, Responders;
      RepliesTouchOnlyResponders(t, first, mac);
    }
  }

  /** A sweep with retries disconnects the due devices minus the responders and treats all others as without them. */
  lemma RetriesOnlyRescue(t: Trace, seen: set<Mac>, w: Sweep, replies: Trace, mac: Mac)
    requires FromDueDevices(t, seen, w, replies)
    ensures var plain := Run(t + [MarkOffline(seen, w)], mac);
      var retried := Run(t + replies + [MarkOffline(seen + Responders(replies), w)], mac);
      if mac in Responders(replies)
      then retried.row.Some? && retried.row.value.online && retried.row.value.missed == 0
           && retried.log == Run(t, mac).log
           && plain.row.Some? && !plain.row.value.online
      else retried == plain
  {
    RepliesTouchOnlyResponders(t, replies, mac);
    RunAppend(t, MarkOffline(seen, w), mac);
    RunAppend(t + replies, MarkOffline(seen + Responders(replies), w), mac);
  }

  // ---- several interfaces ---------------------------------------------------------

  /** A judgement by a sweep of an interface other than `iface`, or something that happens to another device. */
  predicate Elsewhere(op: Op, mac: Mac, iface: string) {
    match op
    case Seen(m, _) => m != mac
    case MarkOffline(_, w) => w.iface.Some? && w.iface.value != iface
    case CheckAvailability(w, _) => w.iface.Some? && w.iface.value != iface
    case SetPolicy(m, _) => m != mac
    case SetDelay(m, _) => m != mac
    case Delete(m) => m != mac
  }

  /** A device last heard on one interface is left alone by everything that happens on the others. */
  lemma {:induction false} OtherInterfacesDoNotJudge(t: Trace, ops: Trace, mac: Mac, iface: string)
    requires Run(t, mac).row.Some? ==> Run(t, mac).row.value.iface == Some(iface)
    requires forall op :: op in ops ==> Elsewhere(op, mac, iface)
    ensures Run(t + ops, mac) == Run(t, mac)
  {
    if ops == [] {
      assert t + ops == t;
    } else {
      var k := |ops| - 1;
      RunSplit(t, ops, mac);
      OtherInterfacesDoNotJudge(t, ops[..k], mac, iface);
      assert Elsewhere(ops[k], mac, iface);
    }
  }

  lemma RunOn(t: Trace, op: Op, mac: Mac, c: Cell) returns (next: Cell)
    requires Run(t, mac) == c
    ensures Run(t + [op], mac) == next == Step(c, op, mac)
  {
    RunAppend(t, op, mac);
    next := Step(c, op, mac);
  }
}
