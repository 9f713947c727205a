/**
 The presence of one device, as a machine over its own rows.

 Every rule of the store that concerns presence (`observe`, `mark_offline`, `evaluate_availability` and the
 presence setters) looks at one MAC at a time, so the meaning of a whole run is given here by a fold over the
 run for a single MAC; `PresenceStore` proves that the table-wide loops compute exactly this for every MAC.
 */
module Presence {
  import opened Options

  type Mac = string

  datatype Family = IPv4 | IPv6

  datatype Policy = Unspecified | Intermittent | AlwaysOn

  datatype EventKind = NewDevice | Reappeared | Disconnected

  datatype Event = Event(kind: EventKind, at: int)

  /** The presence columns of one `devices` row. */
  datatype Row = Row(
    online: bool, firstSeen: int, lastSeen: int, missed: nat,
    viaIPv4: bool, viaIPv6: bool, iface: Option<string>, subnet: Option<string>)

  /** One `device_presence` row; `Watch(Unspecified, None, false)` stands for a missing one. */
  datatype Watch = Watch(policy: Policy, delay: Option<int>, alerted: bool)

  /** What the operator is told about a device's availability, and the two acts that end an episode silently. */
  datatype Notice = Absence(at: int) | Recovery(at: int) | Unwatched | Forgotten

  /** One positive sighting; `family` is absent when the address does not parse. */
  datatype Sighting = Sighting(at: int, family: Option<Family>, iface: Option<string>, subnet: Option<string>)

  /** The arguments of one completed active sweep. */
  datatype Sweep = Sweep(
    asOf: int, grace: int, missedAfter: int,
    ipv4Covered: bool, ipv4Subnet: Option<string>, ipv6Covered: bool, iface: Option<string>)

  datatype Op =
    | Seen(mac: Mac, sighting: Sighting)
    | MarkOffline(stillOnline: set<Mac>, sweep: Sweep)
    | CheckAvailability(sweep: Sweep, defaultDelay: int)
    | SetPolicy(mac: Mac, policy: Policy)
    | SetDelay(mac: Mac, delay: Option<int>)
    | Delete(mac: Mac)

  /** Everything the store knows about one MAC's presence. */
  datatype Cell = Cell(row: Option<Row>, watch: Watch, log: seq<Event>, notices: seq<Notice>)

  const UNWATCHED := Watch(Unspecified, None, false)
  const UNKNOWN := Cell(None, UNWATCHED, [], [])

  // ---- the rules ----------------------------------------------------------

  predicate InterfaceMatches(row: Row, w: Sweep) {
    w.iface.None? || row.iface.None? || row.iface == w.iface
  }

  predicate SubnetMatches(row: Row, w: Sweep) {
    w.ipv4Subnet.None? || row.subnet.None? || row.subnet == w.ipv4Subnet
  }

  /** Whether a sweep examined every path the device is known by. */
  predicate PathCovered(row: Row, w: Sweep) {
    && (row.viaIPv4 || row.viaIPv6)
    && (row.viaIPv4 ==> w.ipv4Covered && InterfaceMatches(row, w) && SubnetMatches(row, w))
    && (row.viaIPv6 ==> w.ipv6Covered && InterfaceMatches(row, w))
  }

  function SubnetOf(s: Sighting): Option<string> {
    if s.family == Some(IPv4) then s.subnet else None
  }

  function Refresh(existing: Option<Row>, s: Sighting): Row {
    match existing
    case None =>
      Row(true, s.at, s.at, 0, s.family == Some(IPv4), s.family == Some(IPv6), s.iface, SubnetOf(s))
    case Some(r) =>
      Row(true, r.firstSeen, if s.at >= r.lastSeen then s.at else r.lastSeen, 0,
          r.viaIPv4 || s.family == Some(IPv4), r.viaIPv6 || s.family == Some(IPv6),
          Coalesce(s.iface, r.iface), Coalesce(SubnetOf(s), r.subnet))
  }

  /** The lifecycle transition a sighting causes. */
  function Transition(existing: Option<Row>): Option<EventKind> {
    match existing
    case None => Some(NewDevice)
    case Some(r) => if r.online then None else Some(Reappeared)
  }

  /** `observe`: the row is refreshed and the transition, if there is one, is logged. */
  function Observed(c: Cell, s: Sighting): Cell {
    var transition := Transition(c.row);
    c.(row := Some(Refresh(c.row, s)),
       log := if transition.Some? then c.log + [Event(transition.value, s.at)] else c.log)
  }

  /** `process_sighting`: the sighting, then the recovery that closes an alerted absence. */
  function See(c: Cell, s: Sighting): Cell {
    var observed := Observed(c, s);
    if Transition(c.row) == Some(Reappeared) && c.watch.alerted then
      observed.(watch := c.watch.(alerted := false), notices := c.notices + [Recovery(s.at)])
    else observed
  }

  /** An online row that this sweep examined. */
  predicate Examined(row: Option<Row>, w: Sweep) {
    row.Some? && row.value.online && PathCovered(row.value, w)
  }

  predicate Due(row: Option<Row>, w: Sweep) {
    && Examined(row, w)
    && row.value.missed + 1 >= w.missedAfter
    && w.asOf - row.value.lastSeen >= w.grace
  }

  function Miss(c: Cell, w: Sweep): Cell {
    if !Examined(c.row, w) then c
    else if Due(c.row, w) then
      c.(row := Some(c.row.value.(online := false, missed := 0)), log := c.log + [Event(Disconnected, w.asOf)])
    else
      c.(row := Some(c.row.value.(missed := c.row.value.missed + 1)))
  }

  /** Zero means no override. */
  function EffectiveDelay(watch: Watch, defaultDelay: int): int {
    if watch.delay.Some? && watch.delay.value != 0 then watch.delay.value else defaultDelay
  }

  predicate AbsenceDue(c: Cell, w: Sweep, defaultDelay: int) {
    && c.row.Some? && !c.row.value.online
    && c.watch.policy == AlwaysOn && !c.watch.alerted
    && PathCovered(c.row.value, w)
    && w.asOf - c.row.value.lastSeen >= EffectiveDelay(c.watch, defaultDelay)
  }

  function Assess(c: Cell, w: Sweep, defaultDelay: int): Cell {
    if AbsenceDue(c, w, defaultDelay) then
      c.(watch := c.watch.(alerted := true), notices := c.notices + [Absence(w.asOf)])
    else c
  }

  function Rewatch(c: Cell, p: Policy): Cell {
    if p == AlwaysOn then c.(watch := c.watch.(policy := p))
    else c.(watch := Watch(p, None, false), notices := c.notices + [Unwatched])
  }

  function Step(c: Cell, op: Op, mac: Mac): Cell {
    match op
    case Seen(m, s) => if m == mac then See(c, s) else c
    case MarkOffline(stillOnline, w) => if mac in stillOnline then c else Miss(c, w)
    case CheckAvailability(w, d) => Assess(c, w, d)
    case SetPolicy(m, p) => if m == mac then Rewatch(c, p) else c
    case SetDelay(m, d) => if m == mac then c.(watch := c.watch.(delay := d)) else c
    case Delete(m) => if m == mac then Cell(None, UNWATCHED, [], c.notices + [Forgotten]) else c
  }

  type Trace = seq<Op>

  /** The state of `mac` after a run from an empty store. */
  function Run(t: Trace, mac: Mac): Cell {
    if t == [] then UNKNOWN else Step(Run(t[..|t| - 1], mac), t[|t| - 1], mac)
  }

  lemma RunAppend(t: Trace, op: Op, mac: Mac)
    ensures Run(t + [op], mac) == Step(Run(t, mac), op, mac)
  {
    assert (t + [op])[..|t|] == t;
  }

  lemma RunSplit(t: Trace, ops: Trace, mac: Mac)
    requires ops != []
    ensures ops == ops[..|ops| - 1] + [ops[|ops| - 1]]
    ensures Run(t + ops, mac) == Step(Run(t + ops[..|ops| - 1], mac), ops[|ops| - 1], mac)
  {
    assert (t + ops)[..|t + ops| - 1] == t + ops[..|ops| - 1];
  }
}
