/**
 Retained evidence about a device's addresses and names, and how the one to show is chosen.

 One `Row` per key keeps the first and last time something was observed. The preferred value of a MAC is the shown
 text of its best row: direct observation before hearsay, then the most recent, then the smaller text.
 */
module Evidence {
  import opened Options

  type Mac = string

  datatype Source = Arp | Ipv6Nd | Icmp | DhcpAck | DhcpClient | LegacySnapshot | DhcpOption12 | ReverseDns

  datatype Kind = AddressTable | NameTable

  /** The identity of one row; `via` is the address a name was learned through, and empty for addresses. */
  datatype Key = Key(mac: Mac, id: string, iface: string, source: Source, via: string)

  datatype Row = Row(shown: string, first: int, last: int)

  type Table = map<Key, Row>

  function Tier(kind: Kind, s: Source): nat {
    match (kind, s)
    case (AddressTable, Arp) => 0
    case (AddressTable, Ipv6Nd) => 0
    case (AddressTable, Icmp) => 0
    case (AddressTable, DhcpAck) => 1
    case (NameTable, DhcpOption12) => 0
    case (NameTable, ReverseDns) => 1
    case (_, LegacySnapshot) => 2
    case _ => 99
  }

  // ---- recording -----------------------------------------------------------------

  function Min(a: int, b: int): int { if a < b then a else b }

  function Max(a: int, b: int): int { if a < b then b else a }

  /** One observation below the row cap: a new row, or an old one with both ends widened. */
  function Put(table: Table, key: Key, shown: string, at: int): Table {
    table[key := if key in table then Row(shown, Min(table[key].first, at), Max(table[key].last, at))
                 else Row(shown, at, at)]
  }

  datatype Observation = Observation(key: Key, at: int)

  /** Address evidence, where what is shown is the address itself. */
  function PutAll(table: Table, seen: seq<Observation>): Table {
    if seen == [] then table
    else
      var last := seen[|seen| - 1];
      Put(PutAll(table, seen[..|seen| - 1]), last.key, last.key.id, last.at)
  }

  lemma PutAllAppend(table: Table, seen: seq<Observation>, o: Observation)
    ensures PutAll(table, seen + [o]) == Put(PutAll(table, seen), o.key, o.key.id, o.at)
  {
    assert (seen + [o])[..|seen|] == seen;
  }

  /** Only address evidence, whose rows show the address itself. */
  ghost predicate ShowsAddresses(table: Table) {
    forall key :: key in table ==> table[key].shown == key.id
  }

  /** The times a row may start at: its old start and the observations of its key. */
  ghost predicate Starts(initial: Table, seen: seq<Observation>, key: Key, at: int) {
    Observation(key, at) in seen || (key in initial && at == initial[key].first)
  }

  ghost predicate Ends(initial: Table, seen: seq<Observation>, key: Key, at: int) {
    Observation(key, at) in seen || (key in initial && at == initial[key].last)
  }

  /** A row starts at the earliest of those times and ends at the latest. */
  ghost predicate Spans(row: Row, initial: Table, seen: seq<Observation>, key: Key) {
    && row.shown == key.id
    && Starts(initial, seen, key, row.first) && (forall at :: Starts(initial, seen, key, at) ==> row.first <= at)
    && Ends(initial, seen, key, row.last) && (forall at :: Ends(initial, seen, key, at) ==> at <= row.last)
  }

  lemma {:induction false} RowsSpanTheirObservations(initial: Table, seen: seq<Observation>)
    requires ShowsAddresses(initial)
    ensures forall key :: key in PutAll(initial, seen) <==> exists at :: Starts(initial, seen, key, at)
    ensures forall key :: key in PutAll(initial, seen) ==> Spans(PutAll(initial, seen)[key], initial, seen, key)
  {
    if seen == [] {
      forall key ensures key in initial <==> exists at :: Starts(initial, seen, key, at) {
        if key in initial { assert Starts(initial, seen, key, initial[key].first); }
      }
    } else {
      var n := |seen| - 1;
      var (rest, last) := (seen[..n], seen[n]);
      RowsSpanTheirObservations(initial, rest);
      assert seen == rest + [last];
      var before, after := PutAll(initial, rest), PutAll(initial, seen);
      forall key, at
        ensures Starts(initial, seen, key, at) <==> Starts(initial, rest, key, at) || last == Observation(key, at) {}
      forall key, at
        ensures Ends(initial, seen, key, at) <==> Ends(initial, rest, key, at) || last == Observation(key, at) {}
      forall key ensures key in after <==> exists at :: Starts(initial, seen, key, at) {
        if key in before { var at :| Starts(initial, rest, key, at); assert Starts(initial, seen, key, at); }
        if key == last.key { assert Starts(initial, seen, key, last.at); }
      }
      forall key | key in after ensures Spans(after[key], initial, seen, key) {
        if key in before { assert Spans(before[key], initial, rest, key); }
        if key == last.key && key !in before { OnlyStart(initial, rest, key); }
      }
    }
  }

  lemma OnlyStart(initial: Table, seen: seq<Observation>, key: Key)
    requires forall at :: !Starts(initial, seen, key, at)
    ensures key !in initial && forall at :: !Ends(initial, seen, key, at)
  {
    assert key in initial ==> Starts(initial, seen, key, initial[key].first);
    assert forall at :: Observation(key, at) in seen ==> Starts(initial, seen, key, at);
  }

  /** Whatever the order of arrival, the same observations leave the same evidence. */
  lemma ArrivalOrderDoesNotMatter(initial: Table, a: seq<Observation>, b: seq<Observation>)
    requires ShowsAddresses(initial)
    requires forall o :: o in a <==> o in b
    ensures PutAll(initial, a) == PutAll(initial, b)
  {
    RowsSpanTheirObservations(initial, a);
    RowsSpanTheirObservations(initial, b);
    var x, y := PutAll(initial, a), PutAll(initial, b);
    assert forall key, at :: Starts(initial, a, key, at) <==> Starts(initial, b, key, at);
    assert forall key, at :: Ends(initial, a, key, at) <==> Ends(initial, b, key, at);
    forall key ensures key in x <==> key in y {
      assert (exists at :: Starts(initial, a, key, at)) <==> (exists at :: Starts(initial, b, key, at));
    }
    forall key | key in x ensures x[key] == y[key] {
      assert Spans(x[key], initial, a, key) && Spans(y[key], initial, b, key);
    }
  }

  // ---- preferring ------------------------------------------------------------------

  /** The order of Python strings. */
  predicate Less(a: string, b: string) {
    b != "" && (a == "" || a[0] < b[0] || (a[0] == b[0] && Less(a[1..], b[1..])))
  }

  lemma {:induction false} LessIsTransitive(a: string, b: string, c: string)
    requires Less(a, b) && Less(b, c)
    ensures Less(a, c)
  {
    if a != "" && a[0] == b[0] == c[0] { LessIsTransitive(a[1..], b[1..], c[1..]); }
  }

  lemma {:induction false} LessIsTotal(a: string, b: string)
    ensures Less(a, b) || Less(b, a) || a == b
  {
    if a != "" && b != "" && a[0] == b[0] {
      LessIsTotal(a[1..], b[1..]);
      assert a == [a[0]] + a[1..] && b == [b[0]] + b[1..];
    }
  }

  /** The order of dictionaries: at the first difference the smaller character decides, and a beginning comes first. */
  lemma {:induction false} LessIsLexicographic(a: string, b: string)
    ensures Less(a, b) <==>
            exists k :: 0 <= k <= |a| && k < |b| && a[..k] == b[..k] && (k == |a| || a[k] < b[k])
  {
    if a == "" || b == "" {
      if b != "" { assert a[..0] == b[..0]; }
    } else if a[0] != b[0] {
      assert a[..0] == b[..0];
      forall k | 0 < k <= |a| && k < |b| ensures a[..k] != b[..k] { assert a[..k][0] != b[..k][0]; }
    } else {
      LessIsLexicographic(a[1..], b[1..]);
      if Less(a, b) {
        var k :| 0 <= k <= |a[1..]| && k < |b[1..]| && a[1..][..k] == b[1..][..k]
                 && (k == |a[1..]| || a[1..][k] < b[1..][k]);
        assert a[..k + 1] == [a[0]] + a[1..][..k] && b[..k + 1] == [b[0]] + b[1..][..k];
        assert k + 1 == |a| || a[k + 1] < b[k + 1];
      }
      if k :| 0 <= k <= |a| && k < |b| && a[..k] == b[..k] && (k == |a| || a[k] < b[k]) {
        assert k > 0;
        assert a[1..][..k - 1] == a[..k][1..] && b[1..][..k - 1] == b[..k][1..];
        assert k - 1 == |a[1..]| || a[1..][k - 1] < b[1..][k - 1];
      }
    }
  }

  datatype Rank = Rank(tier: nat, last: int, shown: string) {
    /** Ranks first: lower tier, then later, then smaller text. */
    predicate Before(r: Rank) {
      || tier < r.tier
      || (tier == r.tier && (last > r.last || (last == r.last && Less(shown, r.shown))))
    }
  }

  lemma BeforeIsTransitive(a: Rank, b: Rank, c: Rank)
    requires a.Before(b) && b.Before(c)
    ensures a.Before(c)
  {
    if a.tier == c.tier && a.last == c.last { LessIsTransitive(a.shown, b.shown, c.shown); }
  }

  function RankOf(kind: Kind, key: Key, row: Row): Rank {
    Rank(Tier(kind, key.source), row.last, row.shown)
  }

  /** `key` has a best row among `among`: no row there ranks before it. */
  ghost predicate Best(kind: Kind, table: Table, among: set<Key>, key: Key) {
    && key in among && key in table
    && forall k :: k in among && k in table ==> !RankOf(kind, k, table[k]).Before(RankOf(kind, key, table[key]))
  }

  ghost predicate BestOrNone(kind: Kind, table: Table, among: set<Key>, best: Option<Key>) {
    if best.None? then among == {} else Best(kind, table, among, best.value)
  }

  function KeysOf(table: Table, mac: Mac): set<Key> {
    set k | k in table && k.mac == mac
  }

  /** The value to show for `mac`. */
  ghost predicate Preferred(kind: Kind, table: Table, mac: Mac, shown: string) {
    exists key :: Best(kind, table, KeysOf(table, mac), key) && table[key].shown == shown
  }

  /** What is trusted first, next and last about an address and about a name. */
  function Classes(kind: Kind): seq<set<Source>> {
    match kind
    case AddressTable => [{Arp, Ipv6Nd, Icmp}, {DhcpAck}, {LegacySnapshot}]
    case NameTable => [{DhcpOption12}, {ReverseDns}, {LegacySnapshot}]
  }

  /** The preferred row comes from a class no lower than that of any other row. */
  lemma TheMostTrustedIsPreferred(kind: Kind, table: Table, among: set<Key>, best: Key, k: Key, n: nat)
    requires Best(kind, table, among, best) && k in among && k in table
    requires n < |Classes(kind)| && k.source in Classes(kind)[n]
    ensures exists m :: 0 <= m <= n && best.source in Classes(kind)[m]
  {
    assert Tier(kind, best.source) <= Tier(kind, k.source) == n;
    assert best.source in Classes(kind)[Tier(kind, best.source)];
  }

  /** Within a class it is the most recent, and of equally recent ones the first in the order of dictionaries. */
  lemma ThenTheMostRecent(kind: Kind, table: Table, among: set<Key>, best: Key, k: Key, n: nat)
    requires Best(kind, table, among, best) && k in among && k in table
    requires n < |Classes(kind)| && best.source in Classes(kind)[n] && k.source in Classes(kind)[n]
    ensures table[k].last <= table[best].last
    ensures table[k].last == table[best].last ==>
              table[best].shown == table[k].shown || Less(table[best].shown, table[k].shown)
  {
    assert Tier(kind, best.source) == Tier(kind, k.source) == n;
    LessIsTotal(table[best].shown, table[k].shown);
  }

  /** Best rows tie only when they show the same, so what is preferred does not depend on row order. */
  lemma PreferredIsUnique(kind: Kind, table: Table, mac: Mac, a: string, b: string)
    requires Preferred(kind, table, mac, a) && Preferred(kind, table, mac, b)
    ensures a == b
  {
    var j :| Best(kind, table, KeysOf(table, mac), j) && table[j].shown == a;
    var k :| Best(kind, table, KeysOf(table, mac), k) && table[k].shown == b;
    LessIsTotal(a, b);
  }

  /** One step of a running minimum. */
  function Improve(kind: Kind, table: Table, best: Option<Key>, key: Key): Option<Key>
    requires key in table && (best.Some? ==> best.value in table)
  {
    if best.None? || RankOf(kind, key, table[key]).Before(RankOf(kind, best.value, table[best.value])) then Some(key)
    else best
  }

  lemma ImproveKeepsBest(kind: Kind, table: Table, among: set<Key>, best: Option<Key>, key: Key)
    requires BestOrNone(kind, table, among, best) && key in table && among <= table.Keys
    ensures BestOrNone(kind, table, among + {key}, Improve(kind, table, best, key))
  {
    var candidate := RankOf(kind, key, table[key]);
    NothingIsBeforeItself(candidate);
    if best.Some? {
      var current := RankOf(kind, best.value, table[best.value]);
      forall k | k in among && candidate.Before(current) ensures !RankOf(kind, k, table[k]).Before(candidate) {
        if RankOf(kind, k, table[k]).Before(candidate) {
          BeforeIsTransitive(RankOf(kind, k, table[k]), candidate, current);
        }
      }
    }
  }

  lemma NothingIsBeforeItself(r: Rank)
    ensures !r.Before(r)
  {
    NothingIsLessThanItself(r.shown);
  }

  lemma {:induction false} NothingIsLessThanItself(a: string)
    ensures !Less(a, a)
  {
    if a == "" {
    } else {
      NothingIsLessThanItself(a[1..]);
    }
  }

  /** The value to show for `mac`, with the rows in any order; nothing when there are none. */
  method PickPreferred(kind: Kind, table: Table, mac: Mac) returns (shown: Option<string>)
    ensures shown.None? <==> KeysOf(table, mac) == {}
    ensures shown.Some? ==> Preferred(kind, table, mac, shown.value)
  {
    var best: Option<Key> := None;
    var rows := KeysOf(table, mac);
    var todo := rows;
    while todo != {}
      invariant todo <= rows
      invariant BestOrNone(kind, table, rows - todo, best)
      decreases todo
    {
      var key :| key in todo;
      ImproveKeepsBest(kind, table, rows - todo, best, key);
      assert rows - (todo - {key}) == rows - todo + {key};
      best := Improve(kind, table, best, key);
      todo := todo - {key};
    }
    assert rows - todo == rows;
    shown := if best.None? then None else Some(table[best.value].shown);
  }

  // ---- address families ----------------------------------------------------------------

  /** An address text that parses is an IPv6 address exactly if it contains a colon. */
  predicate IsIPv6(ip: string) { ':' in ip }

  function Family(table: Table, mac: Mac, v6: bool): set<Key> {
    set k | k in KeysOf(table, mac) && IsIPv6(k.id) == v6
  }

  datatype ByFamily = ByFamily(ipv4: Option<string>, ipv6: Option<string>)

  type Bests = map<(Mac, bool), Key>

  function BestIn(bests: Bests, mac: Mac, v6: bool): Option<Key> {
    if (mac, v6) in bests then Some(bests[(mac, v6)]) else None
  }

  function ShownAt(table: Table, key: Option<Key>): Option<string> {
    if key.Some? && key.value in table then Some(table[key.value].shown) else None
  }

  /** Each family's winner, for every device at once. */
  ghost predicate BestsOf(table: Table, macs: set<Mac>, done: set<Key>, bests: Bests) {
    && (forall p :: p in bests ==> p.0 in macs)
    && forall mac, v6 :: mac in macs ==>
         BestOrNone(AddressTable, table, Family(table, mac, v6) * done, BestIn(bests, mac, v6))
  }

  /** One pass over the rows of all of `macs`, keeping the best of each family of each device. */
  method PreferredByFamily(table: Table, macs: set<Mac>) returns (r: map<Mac, ByFamily>, ghost bests: Bests)
    ensures BestsOf(table, macs, table.Keys, bests)
    ensures forall mac :: mac in r <==> mac in macs && KeysOf(table, mac) != {}
    ensures forall mac :: mac in r ==>
              r[mac] == ByFamily(ShownAt(table, BestIn(bests, mac, false)), ShownAt(table, BestIn(bests, mac, true)))
  {
    var best: Bests := map[];
    var rows := set k | k in table && k.mac in macs;
    var todo := rows;
    while todo != {}
      invariant todo <= rows
      invariant BestsOf(table, macs, rows - todo, best)
      decreases todo
    {
      var key :| key in todo;
      var slot := (key.mac, IsIPv6(key.id));
      var winner := Improve(AddressTable, table, BestIn(best, slot.0, slot.1), key);
      BestsStep(table, macs, rows - todo, best, key);
      assert rows - (todo - {key}) == rows - todo + {key};
      best := best[slot := winner.value];
      todo := todo - {key};
    }
    assert forall mac, v6 | mac in macs ::
        Family(table, mac, v6) * (rows - todo) == Family(table, mac, v6) * table.Keys;
    bests := best;
    r := map mac | mac in macs && ((mac, false) in best || (mac, true) in best) ::
      ByFamily(ShownAt(table, BestIn(best, mac, false)), ShownAt(table, BestIn(best, mac, true)));
    forall mac ensures mac in r <==> mac in macs && KeysOf(table, mac) != {} {
      assert KeysOf(table, mac) == Family(table, mac, false) * table.Keys + Family(table, mac, true) * table.Keys;
    }
  }

  lemma BestsStep(table: Table, macs: set<Mac>, done: set<Key>, bests: Bests, key: Key)
    requires BestsOf(table, macs, done, bests) && key in table && key.mac in macs
    ensures (key.mac, IsIPv6(key.id)) in bests ==> bests[(key.mac, IsIPv6(key.id))] in table
    ensures var slot := (key.mac, IsIPv6(key.id));
      var winner := Improve(AddressTable, table, BestIn(bests, slot.0, slot.1), key);
      BestsOf(table, macs, done + {key}, bests[slot := winner.value])
  {
    var slot := (key.mac, IsIPv6(key.id));
    assert BestOrNone(AddressTable, table, Family(table, slot.0, slot.1) * done, BestIn(bests, slot.0, slot.1));
    var winner := Improve(AddressTable, table, BestIn(bests, slot.0, slot.1), key);
    var after := bests[slot := winner.value];
    forall mac, v6 | mac in macs
      ensures BestOrNone(AddressTable, table, Family(table, mac, v6) * (done + {key}), BestIn(after, mac, v6))
    {
      var among := Family(table, mac, v6) * done;
      assert BestOrNone(AddressTable, table, among, BestIn(bests, mac, v6));
      if (mac, v6) == slot {
        assert Family(table, mac, v6) * (done + {key}) == among + {key};
        ImproveKeepsBest(AddressTable, table, among, BestIn(bests, mac, v6), key);
      } else {
        assert Family(table, mac, v6) * (done + {key}) == among;
      }
    }
  }

  /** A family has a winner exactly if the device has evidence of an address of that family, and it is one. */
  lemma FamiliesHoldTheirOwn(table: Table, macs: set<Mac>, bests: Bests, mac: Mac, v6: bool)
    requires BestsOf(table, macs, table.Keys, bests) && mac in macs
    ensures BestIn(bests, mac, v6).Some? <==> exists k :: k in table && k.mac == mac && (':' in k.id <==> v6)
    ensures BestIn(bests, mac, v6).Some? ==>
              var best := BestIn(bests, mac, v6).value; best in table && best.mac == mac && (':' in best.id <==> v6)
  {
    assert BestOrNone(AddressTable, table, Family(table, mac, v6) * table.Keys, BestIn(bests, mac, v6));
    if k :| k in table && k.mac == mac && (':' in k.id <==> v6) {
      assert k in Family(table, mac, v6) * table.Keys;
    }
  }

  /** The preferred address of a device is the better of its two family winners. */
  lemma OverallIsTheBetterFamily(table: Table, mac: Mac, four: Option<Key>, six: Option<Key>)
    requires BestOrNone(AddressTable, table, Family(table, mac, false), four)
    requires BestOrNone(AddressTable, table, Family(table, mac, true), six)
    ensures four.None? && six.None? <==> KeysOf(table, mac) == {}
    ensures six.None? && four.Some? ==> Preferred(AddressTable, table, mac, table[four.value].shown)
    ensures four.None? && six.Some? ==> Preferred(AddressTable, table, mac, table[six.value].shown)
    ensures four.Some? && six.Some? ==>
      var a := RankOf(AddressTable, four.value, table[four.value]);
      var b := RankOf(AddressTable, six.value, table[six.value]);
      Preferred(AddressTable, table, mac, if b.Before(a) then b.shown else a.shown)
  {
    assert KeysOf(table, mac) == Family(table, mac, false) + Family(table, mac, true);
    if four.Some? && six.Some? {
      var a := RankOf(AddressTable, four.value, table[four.value]);
      var b := RankOf(AddressTable, six.value, table[six.value]);
      forall k | k in KeysOf(table, mac)
        ensures !RankOf(AddressTable, k, table[k]).Before(if b.Before(a) then b else a)
      {
        var r := RankOf(AddressTable, k, table[k]);
        if IsIPv6(k.id) && !b.Before(a) && r.Before(a) { NotBefore(r, a, b); }
        if !IsIPv6(k.id) && b.Before(a) && r.Before(b) { BeforeIsTransitive(r, b, a); }
      }
      assert Best(AddressTable, table, KeysOf(table, mac), if b.Before(a) then six.value else four.value);
    } else if four.Some? {
      assert Best(AddressTable, table, KeysOf(table, mac), four.value);
    } else if six.Some? {
      assert Best(AddressTable, table, KeysOf(table, mac), six.value);
    }
  }

  /** If `r` is before `a` but not before `b`, then `b` is before `a`. */
  lemma NotBefore(r: Rank, a: Rank, b: Rank)
    requires r.Before(a) && !r.Before(b)
    ensures b.Before(a)
  {
    LessIsTotal(r.shown, b.shown);
    if Less(b.shown, r.shown) && Less(r.shown, a.shown) { LessIsTransitive(b.shown, r.shown, a.shown); }
  }

  // ---- what a batch may leave out -----------------------------------------------------------

  /** A later observation of the same key makes this one redundant. */
  ghost predicate Echoed(some: seq<Observation>, key: Key, at: int) {
    exists later :: at <= later && Observation(key, later) in some
  }

  /** `some` leaves out only what it makes redundant. */
  ghost predicate KeepsTheLatest(all: seq<Observation>, some: seq<Observation>) {
    && (forall o :: o in some ==> o in all)
    && forall o :: o in all ==> Echoed(some, o.key, o.at)
  }

  /** Two tables that agree on everything but when a row was first seen. */
  ghost predicate SameButFirst(a: Table, b: Table) {
    && a.Keys == b.Keys
    && forall key :: key in a ==> a[key].last == b[key].last && a[key].shown == b[key].shown
  }

  lemma EchoesEndLater(initial: Table, all: seq<Observation>, some: seq<Observation>, key: Key, x: Row, y: Row)
    requires KeepsTheLatest(all, some) && Spans(x, initial, all, key) && Spans(y, initial, some, key)
    ensures x.last == y.last && x.shown == y.shown
  {
    assert Ends(initial, all, key, y.last);
    if Observation(key, x.last) in all {
      assert Echoed(some, key, x.last);
      var later :| x.last <= later && Observation(key, later) in some;
      assert Ends(initial, some, key, later);
    } else {
      assert Ends(initial, some, key, x.last);
    }
  }

  lemma EchoesStartRows(initial: Table, all: seq<Observation>, some: seq<Observation>, key: Key)
    requires KeepsTheLatest(all, some)
    ensures (exists at :: Starts(initial, all, key, at)) <==> exists at :: Starts(initial, some, key, at)
  {
    if at :| Starts(initial, all, key, at) {
      if Observation(key, at) in all {
        assert Echoed(some, key, at);
        var later :| at <= later && Observation(key, later) in some;
        assert Starts(initial, some, key, later);
      } else {
        assert Starts(initial, some, key, at);
      }
    }
    if at :| Starts(initial, some, key, at) { assert Starts(initial, all, key, at); }
  }

  lemma OnlyTheLatestMatter(initial: Table, all: seq<Observation>, some: seq<Observation>)
    requires ShowsAddresses(initial) && KeepsTheLatest(all, some)
    ensures SameButFirst(PutAll(initial, all), PutAll(initial, some))
  {
    hide PutAll, Starts, Spans, KeepsTheLatest;
    RowsSpanTheirObservations(initial, all);
    RowsSpanTheirObservations(initial, some);
    var x, y := PutAll(initial, all), PutAll(initial, some);
    forall key ensures key in x <==> key in y {
      EchoesStartRows(initial, all, some, key);
    }
    forall key | key in x ensures x[key].last == y[key].last && x[key].shown == y[key].shown {
      EchoesEndLater(initial, all, some, key, x[key], y[key]);
    }
  }

  /** The same for the rows of one device. */
  ghost predicate SameButFirstFor(a: Table, b: Table, mac: Mac) {
    && KeysOf(a, mac) == KeysOf(b, mac)
    && forall key :: key in KeysOf(a, mac) * KeysOf(b, mac) ==>
         a[key].last == b[key].last && a[key].shown == b[key].shown
  }

  lemma SameForEachDevice(a: Table, b: Table, mac: Mac)
    requires SameButFirst(a, b)
    ensures SameButFirstFor(a, b, mac)
  {}

  lemma FirstSeenIsNotRanked(a: Table, b: Table, mac: Mac, shown: string)
    requires SameButFirstFor(a, b, mac)
    ensures Preferred(AddressTable, a, mac, shown) <==> Preferred(AddressTable, b, mac, shown)
  {
    var rows := KeysOf(a, mac);
    forall key ensures Best(AddressTable, a, rows, key) <==> Best(AddressTable, b, rows, key) {
      assert forall k :: k in rows ==> RankOf(AddressTable, k, a[k]) == RankOf(AddressTable, k, b[k]);
    }
  }
}
