/**
 When a sweep has a say about a device, and when it speaks: read off the sightings and the settings of the run.

 The rows of `Presence` condense a run to a few columns; here every verdict is traced back to what was heard, told and
 set, so nothing below names the columns that the rules consult.
 */
module Coverage {
  import opened Options
  import opened Presence
  import opened PresenceRuns

  // ---- what was told ------------------------------------------------------------------

  predicate HeardOver(t: Trace, from: nat, mac: Mac, f: Family) {
    exists k :: from <= k < |t| && Sees(t[k], mac) && t[k].sighting.family == Some(f)
  }

  predicate NamesInterface(op: Op, mac: Mac) { Sees(op, mac) && op.sighting.iface.Some? }

  predicate NamesSubnet(op: Op, mac: Mac) {
    Sees(op, mac) && op.sighting.family == Some(IPv4) && op.sighting.subnet.Some?
  }

  /** The interface that the sightings since `from` named last, if any did. */
  ghost predicate InterfaceTold(t: Trace, from: nat, mac: Mac, iface: Option<string>) {
    if iface.None? then forall k :: from <= k < |t| ==> !NamesInterface(t[k], mac)
    else exists k :: from <= k < |t| && NamesInterface(t[k], mac) && t[k].sighting.iface == iface
                     && forall j :: k < j < |t| ==> !NamesInterface(t[j], mac)
  }

  /** The subnet that the IPv4 sightings since `from` named last, if any did. */
  ghost predicate SubnetTold(t: Trace, from: nat, mac: Mac, subnet: Option<string>) {
    if subnet.None? then forall k :: from <= k < |t| ==> !NamesSubnet(t[k], mac)
    else exists k :: from <= k < |t| && NamesSubnet(t[k], mac) && t[k].sighting.subnet == subnet
                     && forall j :: k < j < |t| ==> !NamesSubnet(t[j], mac)
  }

  lemma ToldOnce(t: Trace, from: nat, mac: Mac, a: Option<string>, b: Option<string>)
    ensures InterfaceTold(t, from, mac, a) && InterfaceTold(t, from, mac, b) ==> a == b
    ensures SubnetTold(t, from, mac, a) && SubnetTold(t, from, mac, b) ==> a == b
  {}

  lemma ToldByOneMore(t: Trace, op: Op, from: nat, mac: Mac, v: Option<string>)
    requires from <= |t|
    ensures InterfaceTold(t, from, mac, v) ==>
              InterfaceTold(t + [op], from, mac, if NamesInterface(op, mac) then op.sighting.iface else v)
    ensures SubnetTold(t, from, mac, v) ==>
              SubnetTold(t + [op], from, mac, if NamesSubnet(op, mac) then op.sighting.subnet else v)
  {
    var more := t + [op];
    assert more[|t|] == op && forall k :: 0 <= k < |t| ==> more[k] == t[k];
  }

  /** The device was first heard at `at`. */
  ghost predicate FirstHeard(t: Trace, from: nat, mac: Mac, at: int) {
    exists k :: from <= k < |t| && Sees(t[k], mac) && t[k].sighting.at == at
                && forall j :: from <= j < k ==> !Sees(t[j], mac)
  }

  lemma LocationStep(c: Cell, op: Op, mac: Mac)
    requires !Deletes(op, mac)
    ensures var (row, next) := (c.row, Step(c, op, mac).row);
      && (next.Some? <==> row.Some? || Sees(op, mac))
      && (next.Some? ==>
            && next.value.iface == (if NamesInterface(op, mac) then op.sighting.iface
                                    else if row.Some? then row.value.iface else None)
            && next.value.subnet == (if NamesSubnet(op, mac) then op.sighting.subnet
                                     else if row.Some? then row.value.subnet else None)
            && next.value.firstSeen == if row.Some? then row.value.firstSeen else op.sighting.at)
  {}

  /** A row names the interface and the subnet told last, and when the device was first heard, in this lifetime. */
  lemma {:induction false} LocationIsToldLast(t: Trace, from: nat, mac: Mac)
    requires Lifetime(t, from, mac)
    ensures var row := Run(t, mac).row;
      if row.Some?
      then InterfaceTold(t, from, mac, row.value.iface) && SubnetTold(t, from, mac, row.value.subnet)
           && FirstHeard(t, from, mac, row.value.firstSeen)
      else forall k :: from <= k < |t| ==> !Sees(t[k], mac)
  {
    if from < |t| {
      var n := |t| - 1;
      var before, op := t[..n], t[n];
      assert t == before + [op];
      RunAppend(before, op, mac);
      LocationIsToldLast(before, from, mac);
      LocationStep(Run(before, mac), op, mac);
      hide Run, Step;
      var row := Run(before, mac).row;
      if row.Some? {
        ToldByOneMore(before, op, from, mac, row.value.iface);
        ToldByOneMore(before, op, from, mac, row.value.subnet);
      } else {
        ToldByOneMore(before, op, from, mac, None);
        assert InterfaceTold(before, from, mac, None) && SubnetTold(before, from, mac, None);
      }
    }
  }

  // ---- coverage -----------------------------------------------------------------------

  /** The sweep covered every family the device was heard over, where it was told to be. */
  predicate Reached(t: Trace, from: nat, mac: Mac, iface: Option<string>, subnet: Option<string>, w: Sweep) {
    && (HeardOver(t, from, mac, IPv4) || HeardOver(t, from, mac, IPv6))
    && (HeardOver(t, from, mac, IPv4) ==> w.ipv4Covered)
    && (HeardOver(t, from, mac, IPv6) ==> w.ipv6Covered)
    && (w.iface == None || iface == None || iface == w.iface)
    && (HeardOver(t, from, mac, IPv4) ==> w.ipv4Subnet == None || subnet == None || subnet == w.ipv4Subnet)
  }

  lemma CoveredExactlyWhenReached(t: Trace, from: nat, mac: Mac, iface: Option<string>, subnet: Option<string>,
                                  w: Sweep)
    requires Lifetime(t, from, mac) && InterfaceTold(t, from, mac, iface) && SubnetTold(t, from, mac, subnet)
    ensures var row := Run(t, mac).row; row.Some? ==> (PathCovered(row.value, w) <==>
              Reached(t, from, mac, iface, subnet, w))
  {
    SightingsAreSummarised(t, from, mac);
    LocationIsToldLast(t, from, mac);
    hide Run, Lifetime, InterfaceTold, SubnetTold;
    var row := Run(t, mac).row;
    if row.Some? {
      ToldOnce(t, from, mac, row.value.iface, iface);
      ToldOnce(t, from, mac, row.value.subnet, subnet);
    }
  }

  /** A sweep changes what is known of a device it missed exactly if the device is online and the sweep reached it. */
  lemma JudgedExactlyWhenReached(t: Trace, from: nat, mac: Mac, iface: Option<string>, subnet: Option<string>,
                                 seen: set<Mac>, w: Sweep)
    requires Lifetime(t, from, mac) && InterfaceTold(t, from, mac, iface) && SubnetTold(t, from, mac, subnet)
    ensures var c := Run(t, mac);
      Run(t + [MarkOffline(seen, w)], mac) != c <==>
      mac !in seen && c.row.Some? && c.row.value.online && Reached(t, from, mac, iface, subnet, w)
  {
    CoveredExactlyWhenReached(t, from, mac, iface, subnet, w);
    RunAppend(t, MarkOffline(seen, w), mac);
    hide Run, Reached, PathCovered;
  }

  /** In particular, a sweep that missed a family leaves every device heard over it alone. */
  lemma UncoveredFamiliesShield(t: Trace, from: nat, k: nat, mac: Mac, seen: set<Mac>, w: Sweep, defaultDelay: int)
    requires Lifetime(t, from, mac) && from <= k < |t| && Sees(t[k], mac)
    requires || (t[k].sighting.family == Some(IPv4) && !w.ipv4Covered)
             || (t[k].sighting.family == Some(IPv6) && !w.ipv6Covered)
    ensures Run(t + [MarkOffline(seen, w)], mac) == Run(t, mac)
    ensures Run(t + [CheckAvailability(w, defaultDelay)], mac) == Run(t, mac)
  {
    SightingsAreSummarised(t, from, mac);
    RunAppend(t, MarkOffline(seen, w), mac);
    RunAppend(t, CheckAvailability(w, defaultDelay), mac);
  }

  /**
   An absence is announced exactly for a device that is offline, watched, not yet announced and reached by the sweep,
   once its delay has passed since it was last heard; an override of zero counts as none.
   */
  lemma AnnouncedExactlyWhen(t: Trace, from: nat, mac: Mac, iface: Option<string>, subnet: Option<string>, w: Sweep,
                             defaultDelay: int)
    requires Lifetime(t, from, mac) && InterfaceTold(t, from, mac, iface) && SubnetTold(t, from, mac, subnet)
    ensures var c := Run(t, mac);
      var delay := if c.watch.delay in {None, Some(0)} then defaultDelay else c.watch.delay.value;
      Run(t + [CheckAvailability(w, defaultDelay)], mac) ==
        if c.row.Some? && !c.row.value.online && c.watch.policy == AlwaysOn && !c.watch.alerted
           && Reached(t, from, mac, iface, subnet, w) && w.asOf - c.row.value.lastSeen >= delay
        then c.(watch := c.watch.(alerted := true), notices := c.notices + [Absence(w.asOf)])
        else c
  {
    CoveredExactlyWhenReached(t, from, mac, iface, subnet, w);
    RunAppend(t, CheckAvailability(w, defaultDelay), mac);
    hide Run, Reached, PathCovered;
  }

  // ---- what a sighting says -------------------------------------------------------------

  /** A sighting is logged exactly if the device is new or its last entry is a disconnect, and stamped with its time. */
  lemma SightingsAreLogged(t: Trace, mac: Mac, s: Sighting)
    ensures var log := Run(t, mac).log;
      Run(t + [Seen(mac, s)], mac).log == log +
        if log == [] then [Event(NewDevice, s.at)]
        else if log[|log| - 1].kind == Disconnected then [Event(Reappeared, s.at)] else []
  {
    LogAlternates(t, mac);
    RunAppend(t, Seen(mac, s), mac);
  }

  /** A sighting announces a recovery exactly if an absence was the last thing said. */
  lemma RecoveriesAnswerAbsences(t: Trace, mac: Mac, s: Sighting)
    ensures var notices := Run(t, mac).notices;
      Run(t + [Seen(mac, s)], mac).notices == notices +
        if notices != [] && notices[|notices| - 1].Absence? then [Recovery(s.at)] else []
  {
    EpisodesAlternate(t, mac);
    RunAppend(t, Seen(mac, s), mac);
  }

  // ---- what was set ---------------------------------------------------------------------

  predicate SetsPolicy(op: Op, mac: Mac) { Deletes(op, mac) || (op.SetPolicy? && op.mac == mac) }

  /** The policy in force is the one set last, and none since a deletion. */
  lemma {:induction false} PolicyIsSetLast(t: Trace, i: nat, mac: Mac)
    requires i < |t| && SetsPolicy(t[i], mac) && forall j :: i < j < |t| ==> !SetsPolicy(t[j], mac)
    ensures Run(t, mac).watch.policy == if t[i].SetPolicy? then t[i].policy else Unspecified
  {
    var n := |t| - 1;
    if i < n { PolicyIsSetLast(t[..n], i, mac); }
  }

  /** The delay is set by hand, and dropped by a deletion or by a policy that does not watch the device. */
  predicate SetsDelay(op: Op, mac: Mac) {
    Deletes(op, mac) || (op.SetDelay? && op.mac == mac) || (op.SetPolicy? && op.mac == mac && op.policy != AlwaysOn)
  }

  lemma {:induction false} DelayIsSetLast(t: Trace, i: nat, mac: Mac)
    requires i < |t| && SetsDelay(t[i], mac) && forall j :: i < j < |t| ==> !SetsDelay(t[j], mac)
    ensures Run(t, mac).watch.delay == if t[i].SetDelay? then t[i].delay else None
  {
    var n := |t| - 1;
    if i < n { DelayIsSetLast(t[..n], i, mac); }
  }

  lemma {:induction false} NothingIsSetUnasked(t: Trace, mac: Mac)
    ensures (forall op :: op in t ==> !SetsPolicy(op, mac)) ==> Run(t, mac).watch.policy == Unspecified
    ensures (forall op :: op in t ==> !SetsDelay(op, mac)) ==> Run(t, mac).watch.delay == None
  {
    if t == [] {
    } else {
      var n := |t| - 1;
      NothingIsSetUnasked(t[..n], mac);
      assert t[n] in t;
    }
  }
}
