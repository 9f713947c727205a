/**
 The cache of advertised addresses: what mDNS announcements, goodbyes and cache flushes leave standing.

 `history` records every A and AAAA record folded in, and what the row cap took. Every announcement also forgets the
 rows that have run out and were not seen for the retention period, so the whole table is a function of the history.
 */
module MdnsCache {
  import opened Options
  import opened Sets

  /** The addresses of one host and family on one interface belong together; a flush speaks for all of them. */
  datatype Host = Host(iface: string, name: string, v6: bool)

  datatype Key = Key(host: Host, ip: string)

  datatype Row = Row(ttl: nat, first: int, last: int, expires: int, withdrawn: bool)

  /**
   One A or AAAA record, where a TTL of zero is a goodbye; an announcement that another table keeps; or what the row cap
   took.
   */
  datatype Record = Record(key: Key, ttl: nat, at: int, flush: bool) | Other(at: int) | Evicted(keys: set<Key>)

  const GRACE := 1

  // ---- the rules ------------------------------------------------------------------------

  predicate Announces(r: Record, key: Key) { r.Record? && r.key == key && r.ttl > 0 }

  /** Announcements, whichever table keeps them, prune every table. */
  predicate Prunes(r: Record) { r.Other? || (r.Record? && r.ttl > 0) }

  predicate Evicts(r: Record, key: Key) { r.Evicted? && key in r.keys }

  function Renewed(prior: Option<Row>, r: Record): Row
    requires r.Record?
  {
    Row(r.ttl, if prior.Some? && prior.value.first < r.at then prior.value.first else r.at, r.at, r.at + r.ttl, false)
  }

  /** A flush withdraws the other addresses of its host, unless they were seen within the grace period. */
  predicate Flushes(r: Record, key: Key, row: Row) {
    r.Record? && r.ttl > 0 && r.flush && r.key.host == key.host && r.key.ip != key.ip && row.last < r.at - GRACE
  }

  function Step(c: Option<Row>, key: Key, r: Record): Option<Row> {
    if Announces(r, key) then Some(Renewed(c, r))
    else if c.None? || Evicts(r, key) then None
    else if (r.Record? && r.key == key) || Flushes(r, key, c.value) then Some(c.value.(withdrawn := true))
    else c
  }

  predicate IsCurrent(row: Row, now: int) {
    !row.withdrawn && row.expires >= now
  }

  /** No longer current, and not seen for the whole retention period. */
  predicate Forgettable(row: Row, asOf: int, retention: nat) {
    row.last < asOf - retention && !IsCurrent(row, asOf)
  }

  function Pruned(c: Option<Row>, asOf: int, retention: nat): Option<Row> {
    if c.Some? && Forgettable(c.value, asOf, retention) then None else c
  }

  /** One record: the announcement or goodbye itself and, after an announcement, what retention forgets. */
  function Next(c: Option<Row>, key: Key, r: Record, retention: nat): Option<Row> {
    if Prunes(r) then Pruned(Step(c, key, r), r.at, retention) else Step(c, key, r)
  }

  function Fold(history: seq<Record>, key: Key, retention: nat): Option<Row> {
    if history == [] then None
    else Next(Fold(history[..|history| - 1], key, retention), key, history[|history| - 1], retention)
  }

  // ---- what the history says ----------------------------------------------------------------

  /** Something ends what the record `a` announced. */
  predicate Ends(a: Record, r: Record)
    requires a.Record?
  {
    || Evicts(r, a.key)
    || (r.Record?
        && (r.key == a.key || (r.ttl > 0 && r.flush && r.key.host == a.key.host && a.at < r.at - GRACE)))
  }

  /** The announcement at `i` still stands: nothing after it renews, withdraws, flushes or evicts it. */
  ghost predicate Stands(history: seq<Record>, i: nat, key: Key) {
    && i < |history| && Announces(history[i], key)
    && forall j :: i < j < |history| ==> !Ends(history[i], history[j])
  }

  /** By the time of the announcement `r`, what `a` announced had run out and was not seen for the retention period. */
  predicate Outlives(r: Record, a: Record, retention: nat)
    requires a.Record?
  {
    Prunes(r) && a.at < r.at - retention && a.at + a.ttl < r.at
  }

  /** No announcement since came so late that retention forgot the one at `i`. */
  ghost predicate Retained(history: seq<Record>, i: nat, retention: nat)
    requires i < |history| && history[i].Record?
  {
    forall j :: i < j < |history| ==> !Outlives(history[j], history[i], retention)
  }

  ghost predicate LastAnnounced(history: seq<Record>, i: nat, key: Key) {
    && i < |history| && Announces(history[i], key)
    && forall j :: i < j < |history| ==> !Announces(history[j], key)
  }

  /**
   A row is the last announcement of its key, withdrawn exactly when that no longer stands; while it stands, the row is
   there exactly as long as retention has not forgotten it.
   */
  lemma {:induction false} RowsAreAnnouncements(history: seq<Record>, key: Key, retention: nat, i: nat)
    requires LastAnnounced(history, i, key)
    ensures var c := Fold(history, key, retention);
      && (Stands(history, i, key) ==> (c.Some? <==> Retained(history, i, retention)))
      && (c.Some? ==>
          && c.value.ttl == history[i].ttl && c.value.last == history[i].at
          && c.value.expires == history[i].at + history[i].ttl
          && (c.value.withdrawn <==> !Stands(history, i, key)))
  {
    var n := |history| - 1;
    if i < n {
      var before := history[..n];
      RowsAreAnnouncements(before, key, retention, i);
      assert Stands(history, i, key) <==> Stands(before, i, key) && !Ends(history[i], history[n]);
      assert Retained(history, i, retention) <==>
             Retained(before, i, retention) && !Outlives(history[n], history[i], retention);
    }
  }

  /** What is announced is listed from then on, for as long as it says. */
  lemma AnnouncementsAreHeeded(history: seq<Record>, key: Key, ttl: nat, at: int, flush: bool, retention: nat)
    requires ttl > 0
    ensures var c := Fold(history + [Record(key, ttl, at, flush)], key, retention);
      c.Some? && !c.value.withdrawn && c.value.ttl == ttl && c.value.last == at && c.value.expires == at + ttl
  {
    assert (history + [Record(key, ttl, at, flush)])[..|history|] == history;
  }

  /** A goodbye takes exactly its own address off the list, and forgets nothing. */
  lemma GoodbyesAreHeeded(history: seq<Record>, key: Key, at: int, flush: bool, other: Key, retention: nat)
    ensures var c := Fold(history, other, retention);
      Fold(history + [Record(key, 0, at, flush)], other, retention) ==
      if other == key && c.Some? then Some(c.value.(withdrawn := true)) else c
  {
    assert (history + [Record(key, 0, at, flush)])[..|history|] == history;
  }

  /**
   Every announcement, of whatever kind, forgets exactly the other rows that were not seen for the retention period and
   are withdrawn or have run out.
   */
  lemma AnnouncementsForget(history: seq<Record>, r: Record, key: Key, retention: nat)
    requires r.Other? || (r.Record? && r.ttl > 0 && !r.flush && r.key != key)
    ensures var (c, d) := (Fold(history, key, retention), Fold(history + [r], key, retention));
      var forgotten := c.Some? && c.value.last + retention < r.at && (c.value.withdrawn || c.value.expires < r.at);
      d == if forgotten then None else c
  {
    assert (history + [r])[..|history|] == history;
  }

  /** A repeated announcement keeps the earlier of the two first times; a row begins with its announcement. */
  lemma RepeatsKeepTheFirst(history: seq<Record>, r: Record, key: Key, retention: nat)
    requires Announces(r, key)
    ensures var (c, d) := (Fold(history, key, retention), Fold(history + [r], key, retention));
      d.Some? && d.value.first == if c.Some? && c.value.first < r.at then c.value.first else r.at
  {
    assert (history + [r])[..|history|] == history;
  }

  lemma {:induction false} UnannouncedHaveNoRow(history: seq<Record>, key: Key, retention: nat)
    requires forall r :: r in history ==> !Announces(r, key)
    ensures Fold(history, key, retention).None?
  {
    if history == [] {
    } else {
      assert history[|history| - 1] in history;
      UnannouncedHaveNoRow(history[..|history| - 1], key, retention);
    }
  }

  lemma {:induction false} FindLast(history: seq<Record>, key: Key) returns (i: nat)
    requires exists r :: r in history && Announces(r, key)
    ensures LastAnnounced(history, i, key)
  {
    var n := |history| - 1;
    if Announces(history[n], key) {
      i := n;
    } else {
      assert history == history[..n] + [history[n]];
      i := FindLast(history[..n], key);
    }
  }

  lemma OnlyTheLastStands(history: seq<Record>, k: nat, i: nat, key: Key)
    requires Stands(history, k, key) && LastAnnounced(history, i, key)
    ensures k == i
  {}

  /** Some announcement of the address stands, and retention has not forgotten it. */
  ghost predicate Listed(history: seq<Record>, key: Key, retention: nat) {
    exists i: nat :: Stands(history, i, key) && Retained(history, i, retention)
  }

  /** Some announcement of the address stands and has not run out. */
  ghost predicate Advertised(history: seq<Record>, key: Key, now: int) {
    exists i: nat :: Stands(history, i, key) && history[i].at + history[i].ttl >= now
  }

  /** `now` is no earlier than any announcement. */
  predicate Reached(history: seq<Record>, now: int) {
    forall r :: r in history && Prunes(r) ==> r.at <= now
  }

  /** The table holds a row that is not withdrawn exactly for the listed addresses, a current one for the advertised. */
  lemma RowsTellWhatStands(history: seq<Record>, key: Key, retention: nat)
    ensures var c := Fold(history, key, retention);
      && (c.Some? && !c.value.withdrawn <==> Listed(history, key, retention))
      && forall now :: Reached(history, now) ==> (c.Some? && IsCurrent(c.value, now) <==> Advertised(history, key, now))
  {
    if exists r :: r in history && Announces(r, key) {
      var i := FindLast(history, key);
      RowsAreAnnouncements(history, key, retention, i);
      forall k: nat | Stands(history, k, key) ensures k == i {
        OnlyTheLastStands(history, k, i, key);
      }
      forall now | Reached(history, now) && history[i].at + history[i].ttl >= now
        ensures Retained(history, i, retention)
      {
        assert forall j :: i < j < |history| ==> history[j] in history;
      }
    } else {
      UnannouncedHaveNoRow(history, key, retention);
      forall i: nat ensures !Stands(history, i, key) {
        assert i < |history| ==> history[i] in history;
      }
    }
  }

  /** What is listed without being advertised is exactly what stands, is retained and has run out. */
  lemma RunOutExactlyWhen(history: seq<Record>, key: Key, retention: nat, now: int)
    requires Reached(history, now)
    ensures Listed(history, key, retention) && !Advertised(history, key, now) <==>
            exists i: nat :: Stands(history, i, key) && Retained(history, i, retention)
                             && history[i].at + history[i].ttl < now
    ensures Advertised(history, key, now) ==> Listed(history, key, retention)
  {
    RowsTellWhatStands(history, key, retention);
    forall i: nat, k: nat | Stands(history, i, key) && Stands(history, k, key) ensures i == k {
      OnlyOneStands(history, i, k, key);
    }
  }

  lemma OnlyOneStands(history: seq<Record>, i: nat, k: nat, key: Key)
    requires Stands(history, i, key) && Stands(history, k, key)
    ensures i == k
  {
    assert i < k ==> Ends(history[i], history[k]);
  }

  /** Time alone withdraws nothing: whatever the retention period, an address that has run out can still be listed. */
  lemma RunOutCanBeListed(retention: nat) returns (history: seq<Record>, key: Key, now: int)
    ensures Listed(history, key, retention) && !Advertised(history, key, now) && Reached(history, now)
  {
    key, now := Key(Host("", "printer.local", false), "10.0.0.9"), 11;
    history := [Record(key, 10, 0, false)];
    assert Stands(history, 0, key) && Retained(history, 0, retention);
  }

  /** After a flush, what is left of the host is the flushed-in address and what was announced in the grace period. */
  lemma FlushLeavesTheRecent(history: seq<Record>, r: Record, key: Key, retention: nat)
    requires r.Record? && Announces(r, r.key) && r.flush && key.host == r.key.host
    ensures var c := Fold(history + [r], key, retention);
      c.Some? && !c.value.withdrawn ==> key == r.key || c.value.last >= r.at - GRACE
  {
    assert (history + [r])[..|history|] == history;
  }

  // ---- the table -----------------------------------------------------------------------------

  type Rows = map<Key, Row>

  function RowIn(rows: Rows, key: Key): Option<Row> {
    if key in rows then Some(rows[key]) else None
  }

  /** The rows that a history leaves. */
  ghost predicate IsTable(history: seq<Record>, retention: nat, rows: Rows) {
    forall key :: RowIn(rows, key) == Fold(history, key, retention)
  }

  /** `gone` is what a cap of `most` rows takes: as few as possible, and none that was seen later than one it leaves. */
  ghost predicate Excess(rows: Rows, most: nat, gone: set<Key>) {
    && gone <= rows.Keys
    && |rows| - |gone| == (if |rows| <= most then |rows| else most)
    && forall k, j :: k in gone && j in rows && j !in gone ==> rows[k].last <= rows[j].last
  }

  lemma OneMoreGoes(rows: Rows, gone: set<Key>, oldest: Key)
    requires var left := rows - gone;
      && Excess(rows, |left|, gone) && oldest in left
      && forall key :: key in left ==> left[oldest].last <= left[key].last
    ensures Excess(rows, |rows - gone| - 1, gone + {oldest})
    ensures rows - gone - {oldest} == rows - (gone + {oldest})
    ensures |rows - gone - {oldest}| == |rows - gone| - 1
  {
    assert forall j :: j in rows && j !in gone ==> j in rows - gone && (rows - gone)[j] == rows[j];
    assert (rows - gone).Keys == rows.Keys - gone;
    assert (rows - gone - {oldest}).Keys == rows.Keys - gone - {oldest};
  }

  lemma TableAppend(history: seq<Record>, r: Record, retention: nat, rows: Rows, after: Rows)
    requires IsTable(history, retention, rows)
    requires forall key :: RowIn(after, key) == Next(RowIn(rows, key), key, r, retention)
    ensures IsTable(history + [r], retention, after)
  {
    assert (history + [r])[..|history|] == history;
  }

  /** A cap that takes rows continues the history. */
  lemma TableWithout(history: seq<Record>, retention: nat, rows: Rows, gone: set<Key>)
    requires IsTable(history, retention, rows)
    ensures IsTable(history + Taken(gone), retention, rows - gone)
  {
    if gone == {} {
      assert history + Taken(gone) == history && rows - gone == rows;
    } else {
      TableAppend(history, Evicted(gone), retention, rows, rows - gone);
    }
  }

  lemma LeftAndGone(rows: Rows, gone: set<Key>)
    requires gone <= rows.Keys
    ensures |(rows - gone).Keys + gone| == |rows| && forall k :: k in rows <==> k in rows - gone || k in gone
  {
    assert (rows - gone).Keys + gone == rows.Keys;
  }

  function Taken(gone: set<Key>): seq<Record> {
    if gone == {} then [] else [Evicted(gone)]
  }

  /**
   Being current protects a row from retention but not from the cap: with two current rows and room for one, the older
   one goes, and what was advertised is no longer listed.
   */
  lemma CurrentRowsCanGo(retention: nat) returns (history: seq<Record>, rows: Rows, a: Key, b: Key)
    ensures IsTable(history, retention, rows) && rows.Keys == {a, b} && a != b
    ensures IsCurrent(rows[a], 10) && IsCurrent(rows[b], 10) && Reached(history, 10)
    ensures Excess(rows, 1, {a}) && !Excess(rows, 1, {b})
    ensures Advertised(history, a, 10) && !Listed(history + [Evicted({a})], a, retention)
  {
    var host := Host("", "printer.local", false);
    a, b := Key(host, "10.0.0.9"), Key(host, "10.0.0.10");
    assert |a.ip| != |b.ip|;
    var (first, second) := (Record(a, 100, 0, false), Record(b, 100, 10, false));
    var start: Rows := map[];
    rows := map[a := Row(100, 0, 0, 100, false), b := Row(100, 10, 10, 110, false)];
    TableAppend([], first, retention, start, map[a := rows[a]]);
    TableAppend([] + [first], second, retention, map[a := rows[a]], rows);
    history := [] + [first] + [second];
    RowsTellWhatStands(history, a, retention);
    TableWithout(history, retention, rows, {a});
    RowsTellWhatStands(history + [Evicted({a})], a, retention);
  }

  class Cache {
    const retention: nat
    const most: nat
    var rows: Rows
    ghost var history: seq<Record>

    ghost predicate Valid()
      reads this
    {
      IsTable(history, retention, rows) && |rows| <= most && most >= 1
    }

    constructor (retention: nat, maxRows: int)
      ensures Valid() && history == [] && this.retention == retention
      ensures most == if maxRows < 1 then 1 else maxRows
    {
      this.retention := retention;
      most := if maxRows < 1 then 1 else maxRows;
      rows, history := map[], [];
    }

    /** Deletes rows not seen for the retention period, if they are withdrawn or have run out. */
    method Prune(asOf: int)
      modifies this`rows
      ensures forall key :: RowIn(rows, key) == Pruned(RowIn(old(rows), key), asOf, retention)
    {
      rows := map key | key in rows &&
        !(rows[key].last < asOf - retention && (rows[key].withdrawn || rows[key].expires < asOf)) :: rows[key];
    }

    method Withdraw(key: Key)
      modifies this`rows
      ensures rows.Keys == old(rows).Keys
      ensures forall k :: RowIn(rows, k) ==
                var row := RowIn(old(rows), k);
                if k == key && row.Some? then Some(row.value.(withdrawn := true)) else row
    {
      if key in rows { rows := rows[key := rows[key].(withdrawn := true)]; }
    }

    method Announce(r: Record)
      requires r.Record? && r.ttl > 0
      modifies this`rows
      ensures forall k :: RowIn(rows, k) == Step(RowIn(old(rows), k), k, r)
    {
      rows := rows[r.key := Renewed(if r.key in rows then Some(rows[r.key]) else None, r)];
      if r.flush {
        rows := map k | k in rows :: if Flushes(r, k, rows[k]) then rows[k].(withdrawn := true) else rows[k];
      }
    }

    /** A row that was seen no later than any other. */
    method Oldest() returns (oldest: Key)
      requires |rows| > 0
      ensures oldest in rows && forall key :: key in rows ==> rows[oldest].last <= rows[key].last
    {
      assert rows.Keys != {};
      oldest :| oldest in rows.Keys;
      var todo := rows.Keys - {oldest};
      while todo != {}
        invariant todo <= rows.Keys && oldest in rows
        invariant forall key :: key in rows && key !in todo ==> rows[oldest].last <= rows[key].last
        decreases todo
      {
        var key :| key in todo;
        if rows[key].last < rows[oldest].last { oldest := key; }
        todo := todo - {key};
      }
    }

    /** Deletes the rows beyond the cap that were seen longest ago. */
    method EnforceRowCap() returns (ghost gone: set<Key>)
      modifies this`rows
      ensures Excess(old(rows), most, gone) && rows == old(rows) - gone && |rows| <= most
    {
      gone := {};
      while |rows| > most
        invariant Excess(old(rows), |rows|, gone) && rows == old(rows) - gone
        invariant |rows| >= if |old(rows)| <= most then |old(rows)| else most
        decreases |rows|
      {
        var oldest := Oldest();
        OneMoreGoes(old(rows), gone, oldest);
        rows := rows - {oldest};
        gone := gone + {oldest};
      }
    }

    /** The table moves on with the history. */
    ghost method Extend(r: Record, before: Rows)
      requires IsTable(history, retention, before)
      requires forall key :: RowIn(rows, key) == Next(RowIn(before, key), key, r, retention)
      modifies this`history
      ensures IsTable(history, retention, rows) && history == old(history) + [r]
      ensures rows.Keys <= before.Keys + if r.Record? then {r.key} else {}
    {
      TableAppend(history, r, retention, before, rows);
      history := history + [r];
      forall key | key in rows ensures key in before.Keys + if r.Record? then {r.key} else {} {
        assert RowIn(rows, key).Some?;
      }
    }

    /**
     An announcement of another kind of record leaves this table alone, but for what retention forgets; the cap has
     nothing to take.
     */
    method ProcessOtherRecord(at: int)
      requires Valid()
      modifies this
      ensures Valid() && history == old(history) + [Other(at)]
    {
      ghost var before := rows;
      Prune(at);
      Extend(Other(at), before);
      SubsetSize(rows.Keys, before.Keys);
      var gone := EnforceRowCap();
    }

    /** One A or AAAA record; a zero TTL is a goodbye. After an announcement the cap may take at most one row. */
    method ProcessAddressRecord(r: Record) returns (ghost gone: set<Key>)
      requires Valid() && r.Record?
      modifies this
      ensures Valid() && history == old(history) + [r] + Taken(gone)
      ensures gone != {} ==> r.ttl > 0 && r.key !in old(rows) && |rows| == most && |gone| == 1
      ensures gone == {} <==> |rows.Keys + gone| <= most
      ensures forall k :: k in rows || k in gone <==> Fold(old(history) + [r], k, retention).Some?
      ensures forall k, j :: k in gone && j in rows ==>
                Fold(old(history) + [r], k, retention).value.last <= rows[j].last
    {
      gone := {};
      ghost var before := rows;
      if r.ttl == 0 {
        Withdraw(r.key);
      } else {
        Announce(r);
        Prune(r.at);
      }
      Extend(r, before);
      SubsetSize(rows.Keys, if r.ttl == 0 then before.Keys else before.Keys + {r.key});
      ghost var all := rows;
      if r.ttl > 0 {
        gone := EnforceRowCap();
      }
      TableWithout(history, retention, all, gone);
      LeftAndGone(all, gone);
      history := history + Taken(gone);
    }

    /** The addresses shown for a service's host: exactly those announced last, not ended since and not forgotten. */
    method AddressesOf(host: Host) returns (listed: set<string>)
      requires Valid()
      ensures forall ip :: ip in listed <==> Listed(history, Key(host, ip), retention)
    {
      listed := set key | key in rows && key.host == host && !rows[key].withdrawn :: key.ip;
      forall ip ensures ip in listed <==> Listed(history, Key(host, ip), retention) {
        var key := Key(host, ip);
        RowsTellWhatStands(history, key, retention);
        assert RowIn(rows, key) == Fold(history, key, retention);
      }
    }
  }
}
