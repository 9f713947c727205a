/**
 Coalescing one batch of passive sightings, and what the store cannot tell afterwards.

 Two packets with the same key differ in nothing but their time. The coalesced batch keeps one packet of each key,
 the latest, where the key first appeared. For presence and for address evidence the outcome is the same as for the
 whole batch, up to when things were first seen and on which interface a device was heard last.
 */
module Coalescing {
  import opened Options
  import opened Presence
  import Evidence
  import EvidenceStore

  datatype PacketKey = PacketKey(mac: Mac, ip: string, hostname: Option<string>, source: Evidence.Source,
                                 iface: Option<string>)

  datatype Packet = Packet(key: PacketKey, at: int)

  // ---- the loop -----------------------------------------------------------------------

  /** The keys of a batch in the order in which they first appear. */
  function Order(batch: seq<Packet>): seq<PacketKey> {
    if batch == [] then []
    else
      var (rest, last) := (Order(batch[..|batch| - 1]), batch[|batch| - 1]);
      if last.key in rest then rest else rest + [last.key]
  }

  /** The latest packet of a key; of several equally late ones, the last. */
  function Latest(batch: seq<Packet>, key: PacketKey): Option<Packet> {
    if batch == [] then None
    else
      var (rest, last) := (Latest(batch[..|batch| - 1], key), batch[|batch| - 1]);
      if last.key == key && (rest.None? || last.at >= rest.value.at) then Some(last) else rest
  }

  predicate Coalesced(batch: seq<Packet>, kept: seq<Packet>) {
    |kept| == |Order(batch)| && forall i :: 0 <= i < |kept| ==> Latest(batch, Order(batch)[i]) == Some(kept[i])
  }

  method CoalesceSightings(batch: seq<Packet>) returns (kept: seq<Packet>)
    ensures Coalesced(batch, kept)
  {
    var latest: map<PacketKey, Packet> := map[];
    var order: seq<PacketKey> := [];
    for n := 0 to |batch|
      invariant order == Order(batch[..n])
      invariant forall k :: k in latest <==> k in order
      invariant forall k :: Latest(batch[..n], k) == if k in latest then Some(latest[k]) else None
    {
      var p := batch[n];
      assert batch[..n + 1][..n] == batch[..n];
      if p.key !in latest {
        order := order + [p.key];
        latest := latest[p.key := p];
      } else if p.at >= latest[p.key].at {
        latest := latest[p.key := p];
      }
    }
    assert batch[..|batch|] == batch;
    kept := seq(|order|, i requires 0 <= i < |order| && order[i] in latest => latest[order[i]]);
  }

  lemma {:induction false} LatestIsLatest(batch: seq<Packet>, key: PacketKey)
    ensures Latest(batch, key).None? <==> key !in Order(batch)
    ensures Latest(batch, key).Some? ==> Latest(batch, key).value in batch && Latest(batch, key).value.key == key
    ensures forall p :: p in batch && p.key == key ==> Latest(batch, key).Some? && p.at <= Latest(batch, key).value.at
  {
    if batch == [] {
    } else {
      var n := |batch| - 1;
      LatestIsLatest(batch[..n], key);
      assert batch == batch[..n] + [batch[n]];
    }
  }

  /** Some packet with key `a` comes before every packet with key `b`. */
  ghost predicate AppearsBefore(batch: seq<Packet>, a: PacketKey, b: PacketKey) {
    exists i :: 0 <= i < |batch| && batch[i].key == a && forall j :: 0 <= j <= i ==> batch[j].key != b
  }

  lemma StillBefore(batch: seq<Packet>, p: Packet, a: PacketKey, b: PacketKey)
    requires AppearsBefore(batch, a, b)
    ensures AppearsBefore(batch + [p], a, b)
  {
    var i :| 0 <= i < |batch| && batch[i].key == a && forall j :: 0 <= j <= i ==> batch[j].key != b;
    assert (batch + [p])[i].key == a;
  }

  lemma {:induction false} OrderIsFirstAppearance(batch: seq<Packet>, i: nat, j: nat)
    requires i < j < |Order(batch)|
    ensures AppearsBefore(batch, Order(batch)[i], Order(batch)[j])
  {
    var n := |batch| - 1;
    var rest, last := batch[..n], batch[n];
    assert batch == rest + [last];
    if j < |Order(rest)| {
      OrderIsFirstAppearance(rest, i, j);
      StillBefore(rest, last, Order(rest)[i], Order(rest)[j]);
    } else {
      var a := Order(rest)[i];
      LatestIsLatest(rest, a);
      LatestIsLatest(rest, last.key);
      var k :| 0 <= k < |rest| && rest[k] == Latest(rest, a).value;
      assert forall m :: 0 <= m <= k ==> rest[m] in rest;
      assert batch[k].key == a;
    }
  }

  ghost predicate Echoed(kept: seq<Packet>, p: Packet) {
    exists at :: p.at <= at && Packet(p.key, at) in kept
  }

  /** What a batch and its coalesced form have in common: nothing is invented, and nothing later is lost. */
  ghost predicate KeepsTheLatest(batch: seq<Packet>, kept: seq<Packet>) {
    && (forall p :: p in kept ==> p in batch)
    && forall p :: p in batch ==> Echoed(kept, p)
  }

  lemma CoalescedKeepsTheLatest(batch: seq<Packet>, kept: seq<Packet>)
    requires Coalesced(batch, kept)
    ensures KeepsTheLatest(batch, kept)
  {
    forall i | 0 <= i < |kept| ensures kept[i] in batch {
      LatestIsLatest(batch, Order(batch)[i]);
    }
    forall p | p in batch ensures Echoed(kept, p) {
      LatestIsLatest(batch, p.key);
      var i :| 0 <= i < |Order(batch)| && Order(batch)[i] == p.key;
      assert Packet(p.key, kept[i].at) == kept[i];
    }
  }

  // ---- presence -----------------------------------------------------------------------------

  /** How a packet is read: its address, the interface it counts for and the subnet of that interface. */
  datatype Reading = Reading(family: string -> Option<Family>, usable: string -> bool,
                             iface: Option<string> -> Option<string>, subnet: Option<string> -> Option<string>)

  function SightingOf(env: Reading, p: Packet): Sighting {
    Sighting(p.at, env.family(p.key.ip), env.iface(p.key.iface), env.subnet(p.key.iface))
  }

  function OpOf(env: Reading, p: Packet): Op {
    Seen(p.key.mac, SightingOf(env, p))
  }

  function Ops(env: Reading, batch: seq<Packet>): Trace {
    seq(|batch|, i requires 0 <= i < |batch| => OpOf(env, batch[i]))
  }

  ghost predicate OnlySightings(ops: Trace) {
    forall op :: op in ops ==> op.Seen?
  }

  ghost predicate Heard(ops: Trace, mac: Mac, s: Sighting) { Seen(mac, s) in ops }

  /** The kinds of what was logged or said, without the times. */
  function Kinds(log: seq<Event>): seq<EventKind> {
    seq(|log|, i requires 0 <= i < |log| => log[i].kind)
  }

  function Untimed(n: Notice): Notice {
    match n
    case Absence(_) => Absence(0)
    case Recovery(_) => Recovery(0)
    case _ => n
  }

  function Said(ns: seq<Notice>): seq<Notice> {
    seq(|ns|, i requires 0 <= i < |ns| => Untimed(ns[i]))
  }

  /** What a batch of sightings leaves of a row, whatever their order. */
  ghost predicate Summary(before: Option<Row>, after: Option<Row>, ops: Trace, mac: Mac) {
    && after.Some? && after.value.online && after.value.missed == 0
    && (forall s :: Heard(ops, mac, s) ==> s.at <= after.value.lastSeen)
    && (before.Some? ==> before.value.lastSeen <= after.value.lastSeen)
    && ((before.Some? && before.value.lastSeen == after.value.lastSeen)
        || exists s :: Heard(ops, mac, s) && s.at == after.value.lastSeen)
    && (after.value.viaIPv4 <==> (before.Some? && before.value.viaIPv4)
                                 || exists s :: Heard(ops, mac, s) && s.family == Some(IPv4))
    && (after.value.viaIPv6 <==> (before.Some? && before.value.viaIPv6)
                                 || exists s :: Heard(ops, mac, s) && s.family == Some(IPv6))
  }

  /** What is announced depends only on how the device stood before the batch. */
  ghost predicate Announced(before: Cell, after: Cell) {
    var recovered := Transition(before.row) == Some(Reappeared) && before.watch.alerted;
    && Kinds(after.log) == Kinds(before.log)
                           + (if Transition(before.row).Some? then [Transition(before.row).value] else [])
    && Said(after.notices) == Said(before.notices) + (if recovered then [Recovery(0)] else [])
    && after.watch == before.watch.(alerted := before.watch.alerted && !recovered)
  }

  lemma {:induction false} BatchIsSummarised(t: Trace, ops: Trace, mac: Mac)
    requires OnlySightings(ops)
    ensures var (c, d) := (Run(t, mac), Run(t + ops, mac));
      if exists s :: Heard(ops, mac, s) then Summary(c.row, d.row, ops, mac) && Announced(c, d) else d == c
  {
    if ops == [] {
      assert t + ops == t;
    } else {
      var n := |ops| - 1;
      var rest, last := ops[..n], ops[n];
      RunSplit(t, ops, mac);
      hide Run, Summary, Announced;
      assert last in ops;
      BatchIsSummarised(t, rest, mac);
      OneMore(Run(t, mac), Run(t + rest, mac), rest, last, mac);
    }
  }

  lemma OneMore(c: Cell, d: Cell, rest: Trace, last: Op, mac: Mac)
    requires last.Seen?
    requires if exists s :: Heard(rest, mac, s) then Summary(c.row, d.row, rest, mac) && Announced(c, d) else d == c
    ensures var e := Step(d, last, mac);
      if exists s :: Heard(rest + [last], mac, s)
      then Summary(c.row, e.row, rest + [last], mac) && Announced(c, e) else e == c
  {
    forall s ensures Heard(rest + [last], mac, s) <==> Heard(rest, mac, s) || last == Seen(mac, s) {}
    if last.mac == mac {
      assert Heard(rest + [last], mac, last.sighting);
      if s :| Heard(rest, mac, s) {
        assert See(d, last.sighting) == Observed(d, last.sighting);
      }
    }
  }

  /** The same to everyone who reads presence: only `firstSeen`, the interface and the subnet may differ. */
  ghost predicate SameStanding(a: Cell, b: Cell) {
    && a.watch == b.watch && Kinds(a.log) == Kinds(b.log) && Said(a.notices) == Said(b.notices)
    && (a.row.Some? <==> b.row.Some?)
    && (a.row.Some? ==> exists first, iface, subnet ::
          b.row.value == a.row.value.(firstSeen := first, iface := iface, subnet := subnet))
  }

  /** Every sighting of `ops` has one in `kept` that is no earlier and differs in time alone. */
  ghost predicate Covered(ops: Trace, kept: Trace) {
    && (forall op :: op in kept ==> op in ops)
    && forall mac, s :: Heard(ops, mac, s) ==> HeardLater(kept, mac, s)
  }

  ghost predicate HeardLater(kept: Trace, mac: Mac, s: Sighting) {
    exists at :: s.at <= at && Heard(kept, mac, s.(at := at))
  }

  lemma SameSummary(c: Cell, a: Cell, b: Cell, ops: Trace, kept: Trace, mac: Mac)
    requires Covered(ops, kept)
    requires if exists s :: Heard(ops, mac, s) then Summary(c.row, a.row, ops, mac) && Announced(c, a) else a == c
    requires if exists s :: Heard(kept, mac, s) then Summary(c.row, b.row, kept, mac) && Announced(c, b) else b == c
    ensures SameStanding(a, b)
  {
    hide Summary, Covered, Kinds, Said, Heard;
    SameHeard(ops, kept, mac);
    if exists s :: Heard(ops, mac, s) {
      SameRow(c.row, a.row, b.row, ops, kept, mac);
    } else if c.row.Some? {
      var x := c.row.value;
      assert x == x.(firstSeen := x.firstSeen, iface := x.iface, subnet := x.subnet);
    }
  }

  lemma SameHeard(ops: Trace, kept: Trace, mac: Mac)
    requires Covered(ops, kept)
    ensures (exists s :: Heard(ops, mac, s)) <==> exists s :: Heard(kept, mac, s)
  {
    if s :| Heard(ops, mac, s) {
      assert HeardLater(kept, mac, s);
    }
    if s :| Heard(kept, mac, s) { assert Heard(ops, mac, s); }
  }

  lemma SameRow(c: Option<Row>, a: Option<Row>, b: Option<Row>, ops: Trace, kept: Trace, mac: Mac)
    requires Covered(ops, kept) && Summary(c, a, ops, mac) && Summary(c, b, kept, mac)
    ensures a.Some? && b.Some? && exists first, iface, subnet ::
              b.value == a.value.(firstSeen := first, iface := iface, subnet := subnet)
  {
    SameFamilies(c, a, b, ops, kept, mac);
    SameLastSeen(c, a, b, ops, kept, mac);
    var (x, y) := (a.value, b.value);
    assert y == x.(firstSeen := y.firstSeen, iface := y.iface, subnet := y.subnet);
  }

  lemma SameFamilies(c: Option<Row>, a: Option<Row>, b: Option<Row>, ops: Trace, kept: Trace, mac: Mac)
    requires Covered(ops, kept) && Summary(c, a, ops, mac) && Summary(c, b, kept, mac)
    ensures a.value.viaIPv4 == b.value.viaIPv4 && a.value.viaIPv6 == b.value.viaIPv6
  {
    SameFamily(ops, kept, mac, IPv4);
    SameFamily(ops, kept, mac, IPv6);
  }

  lemma SameFamily(ops: Trace, kept: Trace, mac: Mac, f: Family)
    requires Covered(ops, kept)
    ensures (exists s :: Heard(ops, mac, s) && s.family == Some(f))
            <==> exists s :: Heard(kept, mac, s) && s.family == Some(f)
  {
    if s :| Heard(ops, mac, s) && s.family == Some(f) {
      var at :| s.at <= at && Heard(kept, mac, s.(at := at));
      assert s.(at := at).family == Some(f);
    }
    if s :| Heard(kept, mac, s) && s.family == Some(f) { assert Heard(ops, mac, s); }
  }

  lemma SameLastSeen(c: Option<Row>, a: Option<Row>, b: Option<Row>, ops: Trace, kept: Trace, mac: Mac)
    requires Covered(ops, kept) && Summary(c, a, ops, mac) && Summary(c, b, kept, mac)
    ensures a.value.lastSeen == b.value.lastSeen
  {
    if s :| Heard(ops, mac, s) && s.at == a.value.lastSeen {
      var at :| s.at <= at && Heard(kept, mac, s.(at := at));
      assert s.(at := at).at <= b.value.lastSeen;
    }
    if s :| Heard(kept, mac, s) && s.at == b.value.lastSeen { assert Heard(ops, mac, s); }
  }

  /** After any run, folding in the coalesced batch leaves every device standing as the whole batch would. */
  lemma CoalescingKeepsPresence(env: Reading, t: Trace, batch: seq<Packet>, kept: seq<Packet>, mac: Mac)
    requires KeepsTheLatest(batch, kept)
    ensures SameStanding(Run(t + Ops(env, batch), mac), Run(t + Ops(env, kept), mac))
  {
    BatchIsSummarised(t, Ops(env, batch), mac);
    BatchIsSummarised(t, Ops(env, kept), mac);
    OpsAreCovered(env, batch, kept);
    SameSummary(Run(t, mac), Run(t + Ops(env, batch), mac), Run(t + Ops(env, kept), mac),
                Ops(env, batch), Ops(env, kept), mac);
  }

  lemma InOps(env: Reading, batch: seq<Packet>, op: Op)
    ensures op in Ops(env, batch) <==> exists p :: p in batch && OpOf(env, p) == op
  {
    if op in Ops(env, batch) {
      var i :| 0 <= i < |batch| && Ops(env, batch)[i] == op;
      assert batch[i] in batch;
    }
    if p :| p in batch && OpOf(env, p) == op {
      var i :| 0 <= i < |batch| && batch[i] == p;
      assert Ops(env, batch)[i] == op;
    }
  }

  lemma OpsAreCovered(env: Reading, batch: seq<Packet>, kept: seq<Packet>)
    requires KeepsTheLatest(batch, kept)
    ensures Covered(Ops(env, batch), Ops(env, kept))
  {
    hide Ops;
    forall op | op in Ops(env, kept) ensures op in Ops(env, batch) {
      InOps(env, kept, op);
      InOps(env, batch, op);
    }
    forall mac, s | Heard(Ops(env, batch), mac, s) ensures HeardLater(Ops(env, kept), mac, s) {
      InOps(env, batch, Seen(mac, s));
      var p :| p in batch && OpOf(env, p) == Seen(mac, s);
      EchoIsHeard(env, kept, p, s);
    }
  }

  lemma EchoIsHeard(env: Reading, kept: seq<Packet>, p: Packet, s: Sighting)
    requires Echoed(kept, p) && s == SightingOf(env, p)
    ensures HeardLater(Ops(env, kept), p.key.mac, s)
  {
    var at :| p.at <= at && Packet(p.key, at) in kept;
    assert OpOf(env, Packet(p.key, at)) == Seen(p.key.mac, s.(at := at));
    InOps(env, kept, Seen(p.key.mac, s.(at := at)));
  }

  // ---- where a device was heard -----------------------------------------------------------------

  function InterfaceOf(s: Sighting): Option<string> { s.iface }

  /** The last value that `tell` reads off the sightings of `mac`. */
  function LastTold(ops: Trace, mac: Mac, tell: Sighting -> Option<string>): Option<string> {
    if ops == [] then None
    else
      var (rest, last) := (LastTold(ops[..|ops| - 1], mac, tell), ops[|ops| - 1]);
      if last.Seen? && last.mac == mac then Coalesce(tell(last.sighting), rest) else rest
  }

  function InterfaceIn(row: Option<Row>): Option<string> { if row.Some? then row.value.iface else None }

  function SubnetIn(row: Option<Row>): Option<string> { if row.Some? then row.value.subnet else None }

  lemma OneSightingIsNamed(c: Cell, op: Op, mac: Mac)
    requires op.Seen?
    ensures var (row, next) := (c.row, Step(c, op, mac).row);
      && InterfaceIn(next) == Coalesce(if op.mac == mac then op.sighting.iface else None, InterfaceIn(row))
      && SubnetIn(next) == Coalesce(if op.mac == mac then SubnetOf(op.sighting) else None, SubnetIn(row))
      && (row.Some? ==> next.Some? && next.value.firstSeen == row.value.firstSeen)
  {}

  /** A row names the interface and the subnet that were told last, or else those it named before. */
  lemma {:induction false} RowsNameWhatWasToldLast(t: Trace, ops: Trace, mac: Mac)
    requires OnlySightings(ops)
    ensures var (c, d) := (Run(t, mac).row, Run(t + ops, mac).row);
      && InterfaceIn(d) == Coalesce(LastTold(ops, mac, InterfaceOf), InterfaceIn(c))
      && SubnetIn(d) == Coalesce(LastTold(ops, mac, SubnetOf), SubnetIn(c))
      && (c.Some? ==> d.Some? && d.value.firstSeen == c.value.firstSeen)
  {
    if ops == [] {
      assert t + ops == t;
    } else {
      RunSplit(t, ops, mac);
      hide Run, Step, InterfaceIn, SubnetIn, SubnetOf;
      assert ops[|ops| - 1] in ops;
      RowsNameWhatWasToldLast(t, ops[..|ops| - 1], mac);
      OneSightingIsNamed(Run(t + ops[..|ops| - 1], mac), ops[|ops| - 1], mac);
    }
  }

  /** The last value that `tell` reads off these keys. */
  function LastOf(keys: seq<PacketKey>, tell: PacketKey -> Option<string>): Option<string> {
    if keys == [] then None else Coalesce(tell(keys[|keys| - 1]), LastOf(keys[..|keys| - 1], tell))
  }

  function InterfaceFor(env: Reading, mac: Mac): PacketKey -> Option<string> {
    (k: PacketKey) => if k.mac == mac then env.iface(k.iface) else None
  }

  function SubnetFor(env: Reading, mac: Mac): PacketKey -> Option<string> {
    (k: PacketKey) => if k.mac == mac && env.family(k.ip) == Some(IPv4) then env.subnet(k.iface) else None
  }

  function Keys(batch: seq<Packet>): seq<PacketKey> {
    seq(|batch|, i requires 0 <= i < |batch| => batch[i].key)
  }

  lemma {:induction false} ToldByKeys(env: Reading, batch: seq<Packet>, mac: Mac)
    ensures LastTold(Ops(env, batch), mac, InterfaceOf) == LastOf(Keys(batch), InterfaceFor(env, mac))
    ensures LastTold(Ops(env, batch), mac, SubnetOf) == LastOf(Keys(batch), SubnetFor(env, mac))
  {
    if batch == [] {
    } else {
      var n := |batch| - 1;
      assert Ops(env, batch)[..n] == Ops(env, batch[..n]) && Keys(batch)[..n] == Keys(batch[..n]);
      ToldByKeys(env, batch[..n], mac);
    }
  }

  lemma {:induction false} NothingToTell(keys: seq<PacketKey>, tell: PacketKey -> Option<string>)
    ensures LastOf(keys, tell).None? <==> forall k :: k in keys ==> tell(k).None?
  {
    if keys == [] {
    } else {
      assert keys == keys[..|keys| - 1] + [keys[|keys| - 1]];
      NothingToTell(keys[..|keys| - 1], tell);
    }
  }

  /** The keys of a coalesced batch are those of the batch, in the order of their first appearance. */
  lemma KeysOfCoalesced(batch: seq<Packet>, kept: seq<Packet>)
    requires Coalesced(batch, kept)
    ensures Keys(kept) == Order(batch)
    ensures forall k :: k in Keys(batch) <==> k in Order(batch)
  {
    forall i | 0 <= i < |kept| ensures kept[i].key == Order(batch)[i] { LatestIsLatest(batch, Order(batch)[i]); }
    forall k ensures k in Keys(batch) <==> k in Order(batch) {
      LatestIsLatest(batch, k);
      if k in Keys(batch) {
        var i :| 0 <= i < |batch| && Keys(batch)[i] == k;
        assert batch[i] in batch;
      }
      if k in Order(batch) {
        var i :| 0 <= i < |batch| && batch[i] == Latest(batch, k).value;
        assert Keys(batch)[i] == k;
      }
    }
  }

  lemma SameLast(a: seq<PacketKey>, b: seq<PacketKey>, tell: PacketKey -> Option<string>, before: Option<string>)
    requires forall k :: k in a <==> k in b
    ensures Coalesce(LastOf(a, tell), before) == Coalesce(LastOf(b, tell), before)
            <==> LastOf(a, tell) == LastOf(b, tell)
  {
    NothingToTell(a, tell);
    NothingToTell(b, tell);
  }

  /** The last packet of the device and its last key to appear are of one mind about `tell`. */
  predicate LastAgree(batch: seq<Packet>, tell: PacketKey -> Option<string>) {
    LastOf(Keys(batch), tell) == LastOf(Order(batch), tell)
  }

  /**
   The coalesced batch leaves the same interface exactly when the device's last packet that has one, and the last of
   the device's keys to appear that has one, have the same; and likewise the subnet, over IPv4 packets.
   */
  lemma SameInterfaceExactlyWhen(env: Reading, t: Trace, batch: seq<Packet>, kept: seq<Packet>, mac: Mac)
    requires Coalesced(batch, kept)
    ensures var (a, b) := (Run(t + Ops(env, batch), mac).row, Run(t + Ops(env, kept), mac).row);
      && (InterfaceIn(a) == InterfaceIn(b) <==> LastAgree(batch, InterfaceFor(env, mac)))
      && (SubnetIn(a) == SubnetIn(b) <==> LastAgree(batch, SubnetFor(env, mac)))
  {
    hide Run, LastOf, Order, Keys, Ops, LastTold;
    OpsAreSightings(env, batch);
    OpsAreSightings(env, kept);
    RowsNameWhatWasToldLast(t, Ops(env, batch), mac);
    RowsNameWhatWasToldLast(t, Ops(env, kept), mac);
    ToldByKeys(env, batch, mac);
    ToldByKeys(env, kept, mac);
    KeysOfCoalesced(batch, kept);
    SameLast(Keys(batch), Order(batch), InterfaceFor(env, mac), InterfaceIn(Run(t, mac).row));
    SameLast(Keys(batch), Order(batch), SubnetFor(env, mac), SubnetIn(Run(t, mac).row));
  }

  lemma OpsAreSightings(env: Reading, batch: seq<Packet>)
    ensures OnlySightings(Ops(env, batch))
  {}

  /** What the rows look like to a sweep. */
  ghost predicate AlikeToSweeps(a: Row, b: Row) {
    forall w :: PathCovered(a, w) <==> PathCovered(b, w)
  }

  /** Rows of the same families are covered by the same sweeps exactly when interface and relevant subnet agree. */
  lemma AlikeExactlyWhen(a: Row, b: Row)
    requires a.viaIPv4 == b.viaIPv4 && a.viaIPv6 == b.viaIPv6
    ensures AlikeToSweeps(a, b) <==>
            (!a.viaIPv4 && !a.viaIPv6) || (a.iface == b.iface && (a.viaIPv4 ==> a.subnet == b.subnet))
  {
    if (a.viaIPv4 || a.viaIPv6) && a.iface != b.iface {
      var w := Sweep(0, 0, 0, true, None, true, Some(Telling(a.iface, b.iface)));
      assert PathCovered(a, w) != PathCovered(b, w);
    } else if a.viaIPv4 && a.subnet != b.subnet {
      var w := Sweep(0, 0, 0, true, Some(Telling(a.subnet, b.subnet)), true, None);
      assert PathCovered(a, w) != PathCovered(b, w);
    }
  }

  /** A text that exactly one of two different optional texts matches, where an absent one matches everything. */
  function Telling(a: Option<string>, b: Option<string>): (r: string)
    ensures a != b ==> ((a == None || a == Some(r)) != (b == None || b == Some(r)))
  {
    if a.None? && b.None? then ""
    else if a.None? then b.value + "+"
    else if b.None? then a.value + "+"
    else a.value
  }

  predicate HeardOf(batch: seq<Packet>, mac: Mac) {
    exists p :: p in batch && p.key.mac == mac
  }

  predicate HeardOver(env: Reading, batch: seq<Packet>, mac: Mac, f: Family) {
    exists p :: p in batch && p.key.mac == mac && env.family(p.key.ip) == Some(f)
  }

  /** Whether a device is known over a family: from before, or from some packet of the batch. */
  predicate KnownOver(env: Reading, before: Option<Row>, batch: seq<Packet>, mac: Mac, f: Family) {
    || (before.Some? && if f == IPv4 then before.value.viaIPv4 else before.value.viaIPv6)
    || HeardOver(env, batch, mac, f)
  }

  lemma HeardInBatch(env: Reading, batch: seq<Packet>, mac: Mac, f: Family)
    ensures (exists s :: Heard(Ops(env, batch), mac, s)) <==> HeardOf(batch, mac)
    ensures (exists s :: Heard(Ops(env, batch), mac, s) && s.family == Some(f)) <==> HeardOver(env, batch, mac, f)
  {
    hide Ops;
    if s :| Heard(Ops(env, batch), mac, s) {
      InOps(env, batch, Seen(mac, s));
    }
    if s :| Heard(Ops(env, batch), mac, s) && s.family == Some(f) {
      InOps(env, batch, Seen(mac, s));
    }
    forall p | p in batch && p.key.mac == mac ensures Heard(Ops(env, batch), mac, SightingOf(env, p)) {
      InOps(env, batch, OpOf(env, p));
    }
    assert forall p :: p in batch && p.key.mac == mac && env.family(p.key.ip) == Some(f) ==>
      SightingOf(env, p).family == Some(f);
  }

  lemma KnownAfterwards(env: Reading, t: Trace, batch: seq<Packet>, mac: Mac)
    ensures var (before, after) := (Run(t, mac).row, Run(t + Ops(env, batch), mac).row);
      && (after.Some? <==> before.Some? || HeardOf(batch, mac))
      && (after.Some? ==> (after.value.viaIPv4 <==> KnownOver(env, before, batch, mac, IPv4)))
      && (after.Some? ==> (after.value.viaIPv6 <==> KnownOver(env, before, batch, mac, IPv6)))
  {
    hide Run, HeardOf, HeardOver, Ops;
    OpsAreSightings(env, batch);
    BatchIsSummarised(t, Ops(env, batch), mac);
    HeardInBatch(env, batch, mac, IPv4);
    HeardInBatch(env, batch, mac, IPv6);
  }

  /**
   Coalescing changes what some later sweep concludes exactly when the last packet and the last key disagree about the
   interface, or about the subnet of a device known over IPv4: all of it can be told before the batch is stored.
   */
  lemma CoalescingIsInvisibleExactlyWhen(env: Reading, t: Trace, batch: seq<Packet>, kept: seq<Packet>, mac: Mac)
    requires Coalesced(batch, kept) && (Run(t, mac).row.Some? || HeardOf(batch, mac))
    ensures var (before, a, b) :=
        (Run(t, mac).row, Run(t + Ops(env, batch), mac).row, Run(t + Ops(env, kept), mac).row);
      && a.Some? && b.Some?
      && (AlikeToSweeps(a.value, b.value) <==>
          || (!KnownOver(env, before, batch, mac, IPv4) && !KnownOver(env, before, batch, mac, IPv6))
          || (LastAgree(batch, InterfaceFor(env, mac))
              && (KnownOver(env, before, batch, mac, IPv4) ==> LastAgree(batch, SubnetFor(env, mac)))))
  {
    hide Run, AlikeToSweeps, LastAgree, Coalesced, KnownOver, HeardOf;
    CoalescedKeepsTheLatest(batch, kept);
    KnownAfterwards(env, t, batch, mac);
    CoalescingKeepsPresence(env, t, batch, kept, mac);
    SameInterfaceExactlyWhen(env, t, batch, kept, mac);
    AlikeExactlyWhen(Run(t + Ops(env, batch), mac).row.value, Run(t + Ops(env, kept), mac).row.value);
  }

  /** All that was heard of `mac` came over one interface with one subnet. */
  ghost predicate OneInterface(ops: Trace, mac: Mac, iface: Option<string>, subnet: Option<string>) {
    forall s :: Heard(ops, mac, s) ==> s.iface == iface && s.subnet == subnet
  }

  ghost predicate HeardOverIPv4(ops: Trace, mac: Mac) {
    exists s :: Heard(ops, mac, s) && s.family == Some(IPv4)
  }

  lemma {:induction false} ToldOnOneInterface(ops: Trace, mac: Mac, iface: Option<string>, subnet: Option<string>)
    requires OnlySightings(ops) && OneInterface(ops, mac, iface, subnet)
    ensures LastTold(ops, mac, InterfaceOf) == if exists s :: Heard(ops, mac, s) then iface else None
    ensures LastTold(ops, mac, SubnetOf) == if HeardOverIPv4(ops, mac) then subnet else None
  {
    if ops == [] {
    } else {
      var rest, last := ops[..|ops| - 1], ops[|ops| - 1];
      assert ops == rest + [last] && last in ops;
      forall s ensures Heard(ops, mac, s) <==> Heard(rest, mac, s) || last == Seen(mac, s) {}
      hide Heard;
      ToldOnOneInterface(rest, mac, iface, subnet);
      if last.mac == mac { assert Heard(ops, mac, last.sighting); }
    }
  }

  /** A known device heard over one interface has, after the coalesced batch, the very row the whole batch leaves. */
  lemma OneInterfaceLosesNothing(env: Reading, t: Trace, batch: seq<Packet>, kept: seq<Packet>, mac: Mac,
                                 iface: Option<string>, subnet: Option<string>)
    requires KeepsTheLatest(batch, kept) && Run(t, mac).row.Some?
    requires OneInterface(Ops(env, batch), mac, iface, subnet)
    ensures Run(t + Ops(env, batch), mac).row == Run(t + Ops(env, kept), mac).row
  {
    hide Run, Ops, LastTold, KeepsTheLatest;
    var (ops, less) := (Ops(env, batch), Ops(env, kept));
    OpsAreSightings(env, batch);
    OpsAreSightings(env, kept);
    CoalescingKeepsPresence(env, t, batch, kept, mac);
    OpsAreCovered(env, batch, kept);
    SameHeard(ops, less, mac);
    SameFamily(ops, less, mac, IPv4);
    StillOneInterface(ops, less, mac, iface, subnet);
    RowsNameWhatWasToldLast(t, ops, mac);
    RowsNameWhatWasToldLast(t, less, mac);
    ToldOnOneInterface(ops, mac, iface, subnet);
    ToldOnOneInterface(less, mac, iface, subnet);
  }

  lemma StillOneInterface(ops: Trace, kept: Trace, mac: Mac, iface: Option<string>, subnet: Option<string>)
    requires Covered(ops, kept) && OneInterface(ops, mac, iface, subnet)
    ensures OneInterface(kept, mac, iface, subnet)
  {
    forall s | Heard(kept, mac, s) ensures s.iface == iface && s.subnet == subnet { assert Heard(ops, mac, s); }
  }

  /**
   What may differ matters: of three packets on two interfaces the coalesced form is heard last on the other one,
   and the next sweep of the first interface then does not count against the device.
   */
  lemma CoalescingCanMoveTheInterface(env: Reading, ip: string)
    returns (batch: seq<Packet>, kept: seq<Packet>, w: Sweep)
    requires env.family(ip) == Some(IPv4) && forall i :: env.iface(i) == i
    ensures Coalesced(batch, kept)
    ensures var (a, b) := (Run(Ops(env, batch), "m").row, Run(Ops(env, kept), "m").row);
      a.Some? && b.Some? && PathCovered(a.value, w) && !PathCovered(b.value, w)
  {
    var one := PacketKey("m", ip, None, Evidence.Arp, Some("a"));
    var two := PacketKey("m", ip, None, Evidence.Arp, Some("b"));
    batch := [Packet(one, 1), Packet(two, 2), Packet(one, 3)];
    kept := [Packet(one, 3), Packet(two, 2)];
    w := Sweep(9, 1, 1, true, None, false, Some("a"));
    assert one.iface.value[0] == 'a' && two.iface.value[0] == 'b';
    OnePacketPerKey(one, two);
    assert Ops(env, batch) == [] + [OpOf(env, batch[0])] + [OpOf(env, batch[1])] + [OpOf(env, batch[2])];
    assert Ops(env, kept) == [] + [OpOf(env, kept[0])] + [OpOf(env, kept[1])];
    hide Ops, Order, Latest;
    var (x, y, z) := (OpOf(env, batch[0]), OpOf(env, batch[1]), OpOf(env, batch[2]));
    RunAppend([], x, "m");
    RunAppend([] + [x], y, "m");
    RunAppend([] + [x] + [y], z, "m");
    RunAppend([], z, "m");
    RunAppend([] + [z], y, "m");
  }

  lemma OnePacketPerKey(one: PacketKey, two: PacketKey)
    requires one != two
    ensures Coalesced([Packet(one, 1), Packet(two, 2), Packet(one, 3)], [Packet(one, 3), Packet(two, 2)])
  {
    var (x, y, z) := (Packet(one, 1), Packet(two, 2), Packet(one, 3));
    OneMorePacket([], x);
    OneMorePacket([x], y);
    OneMorePacket([x, y], z);
    assert [] + [x] == [x] && [x] + [y] == [x, y] && [x, y] + [z] == [x, y, z];
    assert Order([x]) == [one] && Order([x, y]) == [one, two] && Order([x, y, z]) == [one, two];
  }

  lemma OneMorePacket(batch: seq<Packet>, p: Packet)
    ensures Order(batch + [p]) == Order(batch) + if p.key in Order(batch) then [] else [p.key]
    ensures forall k :: Latest(batch + [p], k) ==
              if p.key == k && (Latest(batch, k).None? || p.at >= Latest(batch, k).value.at) then Some(p)
              else Latest(batch, k)
  {
    assert (batch + [p])[..|batch|] == batch;
  }

  // ---- address evidence ------------------------------------------------------------------------

  predicate IsEvidence(env: Reading, p: Packet) {
    p.key.ip != "" && EvidenceStore.IsDirect(p.key.source) && env.usable(p.key.ip)
  }

  function ObservationOf(env: Reading, p: Packet): Evidence.Observation {
    Evidence.Observation(
      Evidence.Key(p.key.mac, p.key.ip, EvidenceStore.OrEmpty(env.iface(p.key.iface)), p.key.source, ""), p.at)
  }

  /** The address observations that a batch records, in its order. */
  function Observations(env: Reading, batch: seq<Packet>): seq<Evidence.Observation> {
    if batch == [] then []
    else
      var (rest, last) := (Observations(env, batch[..|batch| - 1]), batch[|batch| - 1]);
      if IsEvidence(env, last) then rest + [ObservationOf(env, last)] else rest
  }

  lemma {:induction false} ObservationsOfBatch(env: Reading, batch: seq<Packet>)
    ensures forall p :: p in batch && IsEvidence(env, p) ==> ObservationOf(env, p) in Observations(env, batch)
    ensures forall o :: o in Observations(env, batch) ==>
              exists p :: p in batch && IsEvidence(env, p) && ObservationOf(env, p) == o
  {
    if batch == [] {
    } else {
      var n := |batch| - 1;
      ObservationsOfBatch(env, batch[..n]);
      assert batch == batch[..n] + [batch[n]];
    }
  }

  /** Below the row cap the same evidence is kept, last seen at the same times, so the same address is preferred. */
  lemma CoalescingKeepsEvidence(env: Reading, table: Evidence.Table, batch: seq<Packet>, kept: seq<Packet>, mac: Mac)
    requires KeepsTheLatest(batch, kept) && Evidence.ShowsAddresses(table)
    ensures var a := Evidence.PutAll(table, Observations(env, batch));
      var b := Evidence.PutAll(table, Observations(env, kept));
      && Evidence.SameButFirst(a, b)
      && forall ip :: Evidence.Preferred(Evidence.AddressTable, a, mac, ip)
                      <==> Evidence.Preferred(Evidence.AddressTable, b, mac, ip)
  {
    hide Evidence.PutAll, Evidence.Preferred, Evidence.SameButFirst, Evidence.ShowsAddresses;
    hide KeepsTheLatest, Observations;
    var (all, some) := (Observations(env, batch), Observations(env, kept));
    ObservationsKeepTheLatest(env, batch, kept);
    Evidence.OnlyTheLatestMatter(table, all, some);
    Evidence.SameForEachDevice(Evidence.PutAll(table, all), Evidence.PutAll(table, some), mac);
    forall ip: string ensures Evidence.Preferred(Evidence.AddressTable, Evidence.PutAll(table, all), mac, ip)
                              <==> Evidence.Preferred(Evidence.AddressTable, Evidence.PutAll(table, some), mac, ip) {
      Evidence.FirstSeenIsNotRanked(Evidence.PutAll(table, all), Evidence.PutAll(table, some), mac, ip);
    }
  }

  lemma ObservationsKeepTheLatest(env: Reading, batch: seq<Packet>, kept: seq<Packet>)
    requires KeepsTheLatest(batch, kept)
    ensures Evidence.KeepsTheLatest(Observations(env, batch), Observations(env, kept))
  {
    hide Observations, Echoed, IsEvidence, Evidence.Echoed;
    forall o | o in Observations(env, kept) ensures o in Observations(env, batch) {
      var p := ObservedFrom(env, kept, o);
      ObservationsOfBatch(env, batch);
    }
    forall o | o in Observations(env, batch) ensures Evidence.Echoed(Observations(env, kept), o.key, o.at) {
      var p := ObservedFrom(env, batch, o);
      ObservationsOfBatch(env, kept);
      EchoIsObserved(env, kept, p);
    }
  }

  lemma ObservedFrom(env: Reading, batch: seq<Packet>, o: Evidence.Observation) returns (p: Packet)
    requires o in Observations(env, batch)
    ensures p in batch && IsEvidence(env, p) && ObservationOf(env, p) == o
  {
    ObservationsOfBatch(env, batch);
    p :| p in batch && IsEvidence(env, p) && ObservationOf(env, p) == o;
  }

  lemma EchoIsObserved(env: Reading, kept: seq<Packet>, p: Packet)
    requires Echoed(kept, p) && IsEvidence(env, p)
    requires forall q :: q in kept && IsEvidence(env, q) ==> ObservationOf(env, q) in Observations(env, kept)
    ensures Evidence.Echoed(Observations(env, kept), ObservationOf(env, p).key, p.at)
  {
    var at :| p.at <= at && Packet(p.key, at) in kept;
    assert ObservationOf(env, Packet(p.key, at)) == Evidence.Observation(ObservationOf(env, p).key, at);
  }
}
