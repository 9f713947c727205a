/**
 When a DHCP lease can cost a device its direct evidence.

 Direct observation outranks a lease however old it is, but both count against one row cap, and the cap evicts by age
 alone. What follows is decided by the table before the lease; where rows tie in age the database may take any of them,
 so the statements speak of all the tables that the cap may leave.
 */
module Hearsay {
  import opened Options
  import opened Evidence
  import opened Retention
  import opened EvidenceStore

  ghost predicate HasDirect(table: Table, mac: Mac) {
    exists k :: k in KeysOf(table, mac) && IsDirect(k.source)
  }

  /** The address shown for `mac` comes from direct observation. */
  ghost predicate ShowsDirect(table: Table, mac: Mac) {
    exists best :: Best(AddressTable, table, KeysOf(table, mac), best) && IsDirect(best.source)
  }

  ghost predicate OnlyDirect(table: Table, mac: Mac, d: Key) {
    && d in KeysOf(table, mac) && IsDirect(d.source)
    && forall k :: k in KeysOf(table, mac) && IsDirect(k.source) ==> k == d
  }

  /** Recording `key` at `at` puts the device one row over the cap. */
  predicate Overflows(table: Table, key: Key, cap: nat) {
    key !in table && |KeysOf(table, key.mac)| == cap
  }

  /** No row, the new one included, is older than `d`. */
  predicate IsOldest(table: Table, mac: Mac, at: int, d: Key)
    requires d in table
  {
    table[d].last <= at && forall k :: k in KeysOf(table, mac) ==> table[d].last <= table[k].last
  }

  predicate IsOlderThanAll(table: Table, mac: Mac, at: int, d: Key)
    requires d in table
  {
    table[d].last < at && forall k :: k in KeysOf(table, mac) && k != d ==> table[d].last < table[k].last
  }

  /** The device is full, one row alone is direct, and no row is older. */
  ghost predicate AtRisk(table: Table, key: Key, at: int, cap: nat) {
    Overflows(table, key, cap) && exists d :: OnlyDirect(table, key.mac, d) && IsOldest(table, key.mac, at, d)
  }

  /** The device is full, one row alone is direct, and every other row is newer. */
  ghost predicate Doomed(table: Table, key: Key, at: int, cap: nat) {
    Overflows(table, key, cap) && exists d :: OnlyDirect(table, key.mac, d) && IsOlderThanAll(table, key.mac, at, d)
  }

  /** One of the tables that recording `key` at `at` may leave. */
  ghost predicate MayLeave(table: Table, key: Key, at: int, cap: nat, kept: Table) {
    Trimmed(Put(table, key, key.id, at), kept, key.mac, cap)
  }

  // ---- the best of any rows ----------------------------------------------------------------

  lemma {:induction false} BestExists(table: Table, rows: set<Key>) returns (best: Key)
    requires rows != {} && rows <= table.Keys
    ensures Best(AddressTable, table, rows, best)
    decreases |rows|
  {
    var key :| key in rows;
    var others := rows - {key};
    assert rows == others + {key};
    if others == {} {
      NothingIsBeforeItself(RankOf(AddressTable, key, table[key]));
      best := key;
    } else {
      var second := BestExists(table, others);
      ImproveKeepsBest(AddressTable, table, others, Some(second), key);
      best := Improve(AddressTable, table, Some(second), key).value;
    }
  }

  /** Whatever is direct outranks whatever is not. */
  lemma ShownIsDirectIfAnyIs(table: Table, mac: Mac)
    ensures ShowsDirect(table, mac) <==> HasDirect(table, mac)
  {
    if k :| k in KeysOf(table, mac) && IsDirect(k.source) {
      var best := BestExists(table, KeysOf(table, mac));
      assert !RankOf(AddressTable, k, table[k]).Before(RankOf(AddressTable, best, table[best]));
      assert IsDirect(best.source);
    }
  }

  // ---- what the cap may take -----------------------------------------------------------------

  /** Any row that no other is older than may be the one taken. */
  lemma MayTake(put: Table, mac: Mac, cap: nat, gone: Key)
    requires |KeysOf(put, mac)| == cap + 1 && gone in KeysOf(put, mac)
    requires forall k :: k in KeysOf(put, mac) ==> put[gone].last <= put[k].last
    ensures Trimmed(put, put - {gone}, mac, cap)
    ensures KeysOf(put - {gone}, mac) == KeysOf(put, mac) - {gone}
  {
    assert KeysOf(put - {gone}, mac) == KeysOf(put, mac) - {gone};
  }

  lemma {:induction false} OldestExists(table: Table, rows: set<Key>) returns (oldest: Key)
    requires rows != {} && rows <= table.Keys
    ensures oldest in rows && forall k :: k in rows ==> table[oldest].last <= table[k].last
    decreases |rows|
  {
    oldest :| oldest in rows;
    var others := rows - {oldest};
    assert rows == others + {oldest};
    if others != {} {
      var second := OldestExists(table, others);
      if table[second].last < table[oldest].last { oldest := second; }
    }
  }

  lemma SomethingIsLeft(table: Table, key: Key, at: int, cap: nat) returns (kept: Table)
    requires |KeysOf(table, key.mac)| <= cap
    ensures MayLeave(table, key, at, cap, kept)
  {
    var put := Put(table, key, key.id, at);
    KeysAfterPut(table, key, at);
    if |KeysOf(put, key.mac)| <= cap {
      kept := put;
    } else {
      var oldest := OldestExists(put, KeysOf(put, key.mac));
      MayTake(put, key.mac, cap, oldest);
      kept := put - {oldest};
    }
  }

  // ---- the law ------------------------------------------------------------------------------

  /** Direct evidence can only be lost from a full table, and only if it is a single row that no other is older than. */
  lemma LossMeansRisk(table: Table, key: Key, at: int, cap: nat, kept: Table)
    requires |KeysOf(table, key.mac)| <= cap && !IsDirect(key.source) && HasDirect(table, key.mac)
    requires MayLeave(table, key, at, cap, kept) && !HasDirect(kept, key.mac)
    ensures AtRisk(table, key, at, cap)
  {
    var mac, put := key.mac, Put(table, key, key.id, at);
    var d :| d in KeysOf(table, mac) && IsDirect(d.source);
    KeysAfterPut(table, key, at);
    assert d !in KeysOf(kept, mac);
    if |KeysOf(put, mac)| <= cap { TrimmedOfAll(put, kept, mac, cap); }
    assert key in table ==> KeysOf(table, mac) + {key} == KeysOf(table, mac);
    var gone := OneIsTaken(put, kept, mac, cap);
    assert OnlyDirect(table, mac, d) && IsOldest(table, mac, at, d);
  }

  /** The choice of the row to evict, made so that the single direct row goes, or stays. */
  lemma RiskIsReal(table: Table, key: Key, at: int, cap: nat) returns (kept: Table)
    requires !IsDirect(key.source) && AtRisk(table, key, at, cap)
    ensures MayLeave(table, key, at, cap, kept) && !HasDirect(kept, key.mac)
  {
    var d :| OnlyDirect(table, key.mac, d) && IsOldest(table, key.mac, at, d);
    KeysAfterPut(table, key, at);
    MayTake(Put(table, key, key.id, at), key.mac, cap, d);
    kept := Put(table, key, key.id, at) - {d};
  }

  lemma TiesCanSpare(table: Table, key: Key, at: int, cap: nat) returns (kept: Table)
    requires !IsDirect(key.source) && AtRisk(table, key, at, cap) && !Doomed(table, key, at, cap)
    ensures MayLeave(table, key, at, cap, kept) && HasDirect(kept, key.mac)
  {
    var mac, put := key.mac, Put(table, key, key.id, at);
    var d :| OnlyDirect(table, mac, d) && IsOldest(table, mac, at, d);
    KeysAfterPut(table, key, at);
    assert !IsOlderThanAll(table, mac, at, d);
    var other :| other in KeysOf(put, mac) && other != d && put[other].last <= put[d].last;
    MayTake(put, mac, cap, other);
    kept := put - {other};
    assert d in KeysOf(kept, mac);
  }

  lemma DoomedIsLost(table: Table, key: Key, at: int, cap: nat, kept: Table)
    requires !IsDirect(key.source) && Doomed(table, key, at, cap) && MayLeave(table, key, at, cap, kept)
    ensures !HasDirect(kept, key.mac)
  {
    var mac, put := key.mac, Put(table, key, key.id, at);
    var d :| OnlyDirect(table, mac, d) && IsOlderThanAll(table, mac, at, d);
    KeysAfterPut(table, key, at);
    var gone := OneIsTaken(put, kept, mac, cap);
    assert d in KeysOf(put, mac);
    assert gone == d;
  }

  /**
   A lease may replace what direct observation shows exactly when the device is full, a single row of it is direct and
   none is older; it must exactly when every other row is newer. In all other cases a direct address stays shown.
   */
  lemma LeaseReplacesDirectExactlyWhen(table: Table, key: Key, at: int, cap: nat)
    requires |KeysOf(table, key.mac)| <= cap && !IsDirect(key.source) && ShowsDirect(table, key.mac)
    ensures (exists kept :: MayLeave(table, key, at, cap, kept) && !ShowsDirect(kept, key.mac))
            <==> AtRisk(table, key, at, cap)
    ensures (forall kept :: MayLeave(table, key, at, cap, kept) ==> !ShowsDirect(kept, key.mac))
            <==> Doomed(table, key, at, cap)
  {
    hide MayLeave, AtRisk, Doomed, ShowsDirect, HasDirect;
    ShownIsDirectIfAnyIs(table, key.mac);
    forall kept | MayLeave(table, key, at, cap, kept)
      ensures !ShowsDirect(kept, key.mac) ==> AtRisk(table, key, at, cap)
      ensures Doomed(table, key, at, cap) ==> !ShowsDirect(kept, key.mac)
    {
      ShownIsDirectIfAnyIs(kept, key.mac);
      if !HasDirect(kept, key.mac) { LossMeansRisk(table, key, at, cap, kept); }
      if Doomed(table, key, at, cap) { DoomedIsLost(table, key, at, cap, kept); }
    }
    if AtRisk(table, key, at, cap) {
      var kept := RiskIsReal(table, key, at, cap);
      ShownIsDirectIfAnyIs(kept, key.mac);
      if !Doomed(table, key, at, cap) {
        var spared := TiesCanSpare(table, key, at, cap);
        ShownIsDirectIfAnyIs(spared, key.mac);
      }
    } else {
      var kept := SomethingIsLeft(table, key, at, cap);
    }
  }
}
