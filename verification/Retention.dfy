/**
 The row cap: which observations of a device survive it.

 The cap evicts by age alone. Whatever comes and goes, a device ends up with its most recently observed keys, each with
 the time it was last observed; where keys tie in age the database may keep any of them, and nothing else is open.
 */
module Retention {
  import opened Options
  import opened Sets
  import opened Evidence

  ghost predicate Bounded(table: Table, cap: nat) {
    forall mac :: |KeysOf(table, mac)| <= cap
  }

  /** `kept` is `table` with the oldest rows of `mac` beyond the cap left out. */
  ghost predicate Trimmed(table: Table, kept: Table, mac: Mac, cap: nat) {
    && (forall key :: key in kept ==> key in table && kept[key] == table[key])
    && (forall key :: key in table && key.mac != mac ==> key in kept)
    && |KeysOf(kept, mac)| == (if |KeysOf(table, mac)| <= cap then |KeysOf(table, mac)| else cap)
    && forall gone, key :: gone in KeysOf(table, mac) - KeysOf(kept, mac) && key in KeysOf(kept, mac) ==>
         table[gone].last <= table[key].last
  }

  /** A row of `rows` that was last seen no later than any other. */
  method Oldest(table: Table, rows: set<Key>) returns (oldest: Key)
    requires rows != {} && rows <= table.Keys
    ensures oldest in rows && forall key :: key in rows ==> table[oldest].last <= table[key].last
  {
    oldest :| oldest in rows;
    var todo := rows - {oldest};
    while todo != {}
      invariant todo <= rows && oldest in rows
      invariant forall key :: key in rows - todo ==> table[oldest].last <= table[key].last
      decreases todo
    {
      var key :| key in todo;
      if table[key].last < table[oldest].last { oldest := key; }
      todo := todo - {key};
    }
  }

  method EnforceRowCap(table: Table, mac: Mac, cap: nat) returns (kept: Table)
    ensures Trimmed(table, kept, mac, cap)
  {
    kept := table;
    ghost var n := |KeysOf(table, mac)|;
    while |KeysOf(kept, mac)| > cap
      invariant forall key :: key in kept ==> key in table && kept[key] == table[key]
      invariant forall key :: key in table && key.mac != mac ==> key in kept
      invariant |KeysOf(kept, mac)| >= (if n <= cap then n else cap) && |KeysOf(kept, mac)| <= n
      invariant forall gone, key :: gone in KeysOf(table, mac) - KeysOf(kept, mac) && key in KeysOf(kept, mac) ==>
        table[gone].last <= table[key].last
      decreases |KeysOf(kept, mac)|
    {
      var rows := KeysOf(kept, mac);
      var oldest := Oldest(kept, rows);
      kept := kept - {oldest};
      assert KeysOf(kept, mac) == rows - {oldest};
    }
  }

  lemma TrimmedOfAll(table: Table, kept: Table, mac: Mac, cap: nat)
    requires Trimmed(table, kept, mac, cap) && |KeysOf(table, mac)| <= cap
    ensures kept == table
  {
    SubsetSize(KeysOf(kept, mac), KeysOf(table, mac));
    assert forall key :: key in table && key.mac == mac ==> key in KeysOf(kept, mac);
  }

  ghost predicate SameForOthers(a: Table, b: Table, mac: Mac) {
    forall key: Key :: key.mac != mac ==> (key in a <==> key in b) && (key in a ==> a[key] == b[key])
  }

  lemma OthersAreSpared(table: Table, key: Key, shown: string, at: int, after: Table, cap: nat)
    requires Trimmed(Put(table, key, shown, at), after, key.mac, cap)
    ensures SameForOthers(table, after, key.mac)
  {}

  lemma TrimmedIsBounded(initial: Table, table: Table, kept: Table, mac: Mac, cap: nat)
    requires Bounded(initial, cap) && Trimmed(table, kept, mac, cap)
    requires forall m :: m != mac ==> KeysOf(table, m) == KeysOf(initial, m)
    ensures Bounded(kept, cap)
  {
    forall m | m != mac ensures |KeysOf(kept, m)| <= cap {
      assert KeysOf(kept, m) == KeysOf(table, m);
    }
  }

  // ---- what is retained ---------------------------------------------------------------

  /** `at` is the last time `key` was observed. */
  ghost predicate LastSeenAt(seen: seq<Observation>, key: Key, at: int) {
    Observation(key, at) in seen && forall o :: o in seen && o.key == key ==> o.at <= at
  }

  /** What the cap left out: the device is full, and nothing of this key was observed later than any row it has. */
  ghost predicate LeftOut(table: Table, o: Observation, cap: nat) {
    && |KeysOf(table, o.key.mac)| == cap
    && forall key :: key in KeysOf(table, o.key.mac) ==> o.at <= table[key].last
  }

  /**
   Every row ends at the last observation of its key, and an observed key that has no row was left out by the cap:
   however often rows are evicted and come back, each device keeps its most recently observed keys.
   */
  ghost predicate Remembers(table: Table, seen: seq<Observation>, cap: nat) {
    && (forall key :: key in table ==> LastSeenAt(seen, key, table[key].last))
    && forall o :: o in seen && o.key !in table ==> LeftOut(table, o, cap)
  }

  /** A device whose observed keys all fit under the cap has exactly the evidence that was observed of it. */
  ghost predicate KeepsWhatFits(table: Table, seen: seq<Observation>, cap: nat) {
    var fold := PutAll(map[], seen);
    forall mac: Mac :: |KeysOf(fold, mac)| <= cap ==> SameRows(table, fold, mac)
  }

  ghost predicate SameRows(a: Table, b: Table, mac: Mac) {
    forall key: Key :: key.mac == mac ==> (key in a <==> key in b) && (key in a ==> a[key] == b[key])
  }

  lemma KeysAfterPut(table: Table, key: Key, at: int)
    ensures KeysOf(Put(table, key, key.id, at), key.mac) == KeysOf(table, key.mac) + {key}
  {}

  lemma RemembersStep(table: Table, seen: seq<Observation>, o: Observation, after: Table, cap: nat)
    requires cap >= 1 && Bounded(table, cap) && Remembers(table, seen, cap)
    requires Trimmed(Put(table, o.key, o.key.id, o.at), after, o.key.mac, cap)
    ensures Remembers(after, seen + [o], cap)
  {
    var put := Put(table, o.key, o.key.id, o.at);
    KeysAfterPut(table, o.key, o.at);
    if |KeysOf(put, o.key.mac)| <= cap {
      TrimmedOfAll(put, after, o.key.mac, cap);
      RemembersAddition(table, seen, o, cap);
    } else {
      RemembersEviction(table, seen, o, after, cap);
    }
  }

  lemma RemembersAddition(table: Table, seen: seq<Observation>, o: Observation, cap: nat)
    requires Remembers(table, seen, cap)
    requires o.key in table || |KeysOf(table, o.key.mac)| < cap
    ensures Remembers(Put(table, o.key, o.key.id, o.at), seen + [o], cap)
  {
    var put := Put(table, o.key, o.key.id, o.at);
    forall key | key in put ensures LastSeenAt(seen + [o], key, put[key].last) {
      if key in table { assert LastSeenAt(seen, key, table[key].last); }
    }
    forall p | p in seen + [o] && p.key !in put ensures LeftOut(put, p, cap) {
      assert LeftOut(table, p, cap);
      assert KeysOf(put, p.key.mac) == KeysOf(table, p.key.mac);
    }
  }

  lemma RemembersEviction(table: Table, seen: seq<Observation>, o: Observation, after: Table, cap: nat)
    requires cap >= 1 && Remembers(table, seen, cap)
    requires o.key !in table && |KeysOf(table, o.key.mac)| == cap
    requires Trimmed(Put(table, o.key, o.key.id, o.at), after, o.key.mac, cap)
    ensures Remembers(after, seen + [o], cap)
  {
    var mac, put := o.key.mac, Put(table, o.key, o.key.id, o.at);
    KeysAfterPut(table, o.key, o.at);
    assert o.key !in KeysOf(table, mac);
    var gone := OneIsTaken(put, after, mac, cap);
    hide Trimmed, Remembers, LeftOut, LastSeenAt, KeysOf;
    forall key | key in after ensures LastSeenAt(seen + [o], key, after[key].last) {
      RetainedIsLatest(table, seen, o, gone, key, cap);
    }
    forall p | p in seen + [o] && p.key !in after ensures LeftOut(after, p, cap) {
      if p.key.mac == mac {
        EvictedIsLeftOut(table, seen, o, gone, p, cap);
      } else {
        LeftOutElsewhere(table, seen, o, gone, p, cap);
      }
    }
  }

  lemma LeftOutElsewhere(table: Table, seen: seq<Observation>, o: Observation, gone: Key, p: Observation, cap: nat)
    requires Remembers(table, seen, cap) && gone.mac == o.key.mac
    requires var after := Put(table, o.key, o.key.id, o.at) - {gone};
      p in seen + [o] && p.key.mac != o.key.mac && p.key !in after
    ensures LeftOut(Put(table, o.key, o.key.id, o.at) - {gone}, p, cap)
  {
    assert LeftOut(table, p, cap);
    assert KeysOf(Put(table, o.key, o.key.id, o.at) - {gone}, p.key.mac) == KeysOf(table, p.key.mac);
  }

  /** A row that an overflow leaves tells the latest that is known: a new one is not older than the one taken. */
  lemma RetainedIsLatest(table: Table, seen: seq<Observation>, o: Observation, gone: Key, key: Key, cap: nat)
    requires Remembers(table, seen, cap) && o.key !in table
    requires var put := Put(table, o.key, o.key.id, o.at);
      gone in KeysOf(put, o.key.mac) && key in put && key != gone && (key == o.key ==> put[gone].last <= o.at)
    ensures LastSeenAt(seen + [o], key, Put(table, o.key, o.key.id, o.at)[key].last)
  {
    if key in table {
      assert LastSeenAt(seen, key, table[key].last);
    } else {
      assert gone in KeysOf(table, key.mac);
      assert forall p :: p in seen && p.key == key ==> LeftOut(table, p, cap);
    }
  }

  /** What an overflow leaves without a row was observed no later than any row that stays. */
  lemma EvictedIsLeftOut(table: Table, seen: seq<Observation>, o: Observation, gone: Key, p: Observation, cap: nat)
    requires Remembers(table, seen, cap) && o.key !in table && p.key.mac == o.key.mac && p in seen + [o]
    requires |KeysOf(Put(table, o.key, o.key.id, o.at), o.key.mac)| == cap + 1
    requires var put := Put(table, o.key, o.key.id, o.at);
      && gone in KeysOf(put, o.key.mac) && (p.key !in put || p.key == gone)
      && forall k :: k in KeysOf(put, o.key.mac) ==> put[gone].last <= put[k].last
    ensures LeftOut(Put(table, o.key, o.key.id, o.at) - {gone}, p, cap)
  {
    var put := Put(table, o.key, o.key.id, o.at);
    assert KeysOf(put - {gone}, o.key.mac) == KeysOf(put, o.key.mac) - {gone};
    if p.key in table {
      assert LastSeenAt(seen, gone, table[gone].last);
    } else if p in seen {
      assert LeftOut(table, p, cap);
      assert gone == o.key || gone in KeysOf(table, o.key.mac);
    }
  }

  /** An overflow by one row costs exactly one row, and one that no other is older than. */
  lemma OneIsTaken(put: Table, kept: Table, mac: Mac, cap: nat) returns (gone: Key)
    requires Trimmed(put, kept, mac, cap) && |KeysOf(put, mac)| == cap + 1
    ensures gone in KeysOf(put, mac) && kept == put - {gone} && KeysOf(kept, mac) == KeysOf(put, mac) - {gone}
    ensures forall k :: k in KeysOf(put, mac) ==> put[gone].last <= put[k].last
  {
    var lost := KeysOf(put, mac) - KeysOf(kept, mac);
    assert KeysOf(put, mac) == KeysOf(kept, mac) + lost;
    assert |lost| == 1;
    gone :| gone in lost;
    Single(lost, gone);
    OnlyThatIsGone(put, kept, mac, gone, cap);
  }

  lemma OnlyThatIsGone(put: Table, kept: Table, mac: Mac, gone: Key, cap: nat)
    requires Trimmed(put, kept, mac, cap) && gone in KeysOf(put, mac)
    requires KeysOf(kept, mac) == KeysOf(put, mac) - {gone}
    ensures kept == put - {gone}
  {
    forall key ensures key in kept <==> key in put && key != gone {
      assert key in KeysOf(kept, mac) <==> key in KeysOf(put, mac) - {gone};
    }
  }

  lemma Single(s: set<Key>, x: Key)
    requires |s| == 1 && x in s
    ensures s == {x}
  {
    assert |s - {x}| == 0;
  }

  lemma WhatFitsStep(table: Table, seen: seq<Observation>, o: Observation, after: Table, cap: nat)
    requires KeepsWhatFits(table, seen, cap)
    requires Trimmed(Put(table, o.key, o.key.id, o.at), after, o.key.mac, cap)
    ensures KeepsWhatFits(after, seen + [o], cap)
  {
    var (fold, next) := (PutAll(map[], seen), PutAll(map[], seen + [o]));
    PutAllAppend(map[], seen, o);
    hide PutAll, Trimmed, SameRows;
    forall mac: Mac | |KeysOf(next, mac)| <= cap ensures SameRows(after, next, mac) {
      SubsetSize(KeysOf(fold, mac), KeysOf(next, mac));
      OneMoreFits(table, fold, o, after, mac, cap);
    }
  }

  lemma OneMoreFits(table: Table, fold: Table, o: Observation, after: Table, mac: Mac, cap: nat)
    requires Trimmed(Put(table, o.key, o.key.id, o.at), after, o.key.mac, cap)
    requires SameRows(table, fold, mac) && |KeysOf(Put(fold, o.key, o.key.id, o.at), mac)| <= cap
    ensures SameRows(after, Put(fold, o.key, o.key.id, o.at), mac)
  {
    if mac == o.key.mac {
      var put, next := Put(table, o.key, o.key.id, o.at), Put(fold, o.key, o.key.id, o.at);
      assert KeysOf(put, mac) == KeysOf(next, mac);
      TrimmedOfAll(put, after, mac, cap);
    }
  }

  /** What is left of the observations when those of `mac` are forgotten. */
  function Without(seen: seq<Observation>, mac: Mac): seq<Observation> {
    if seen == [] then []
    else
      var (rest, last) := (Without(seen[..|seen| - 1], mac), seen[|seen| - 1]);
      if last.key.mac == mac then rest else rest + [last]
  }

  lemma {:induction false} WithoutIsTheRest(seen: seq<Observation>, mac: Mac)
    ensures forall o :: o in Without(seen, mac) <==> o in seen && o.key.mac != mac
  {
    if seen == [] {
    } else {
      var n := |seen| - 1;
      WithoutIsTheRest(seen[..n], mac);
      assert seen == seen[..n] + [seen[n]];
    }
  }

  lemma {:induction false} FoldWithout(seen: seq<Observation>, mac: Mac)
    ensures PutAll(map[], Without(seen, mac)) == PutAll(map[], seen) - KeysOf(PutAll(map[], seen), mac)
  {
    if seen == [] {
    } else {
      var n := |seen| - 1;
      FoldWithout(seen[..n], mac);
      PutAllAppend(map[], Without(seen[..n], mac), seen[n]);
      PutWithout(PutAll(map[], seen[..n]), seen[n], mac);
      hide KeysOf, Put;
    }
  }

  lemma PutWithout(table: Table, o: Observation, mac: Mac)
    ensures var put := Put(table, o.key, o.key.id, o.at);
      put - KeysOf(put, mac) == if o.key.mac == mac then table - KeysOf(table, mac)
                                else Put(table - KeysOf(table, mac), o.key, o.key.id, o.at)
  {}

  /** The evidence that a store holds under its cap, given what was observed. */
  ghost predicate Retains(table: Table, seen: seq<Observation>, cap: nat) {
    && Bounded(table, cap) && ShowsAddresses(table)
    && Remembers(table, seen, cap) && KeepsWhatFits(table, seen, cap)
  }

  /** Recording one observation under the cap keeps all of this. */
  lemma RetainsStep(table: Table, seen: seq<Observation>, o: Observation, after: Table, cap: nat)
    requires cap >= 1 && Retains(table, seen, cap)
    requires Trimmed(Put(table, o.key, o.key.id, o.at), after, o.key.mac, cap)
    ensures Retains(after, seen + [o], cap)
  {
    hide Remembers, KeepsWhatFits;
    RemembersStep(table, seen, o, after, cap);
    WhatFitsStep(table, seen, o, after, cap);
    var put := Put(table, o.key, o.key.id, o.at);
    forall m | m != o.key.mac ensures KeysOf(put, m) == KeysOf(table, m) {}
    TrimmedIsBounded(table, put, after, o.key.mac, cap);
  }

  /** Deleting one device leaves what is remembered of every other as it was. */
  lemma RemembersTheRest(table: Table, seen: seq<Observation>, mac: Mac, cap: nat)
    requires Remembers(table, seen, cap)
    ensures Remembers(table - KeysOf(table, mac), Without(seen, mac), cap)
  {
    var after := table - KeysOf(table, mac);
    WithoutIsTheRest(seen, mac);
    forall key | key in after ensures LastSeenAt(Without(seen, mac), key, after[key].last) {
      assert LastSeenAt(seen, key, table[key].last);
    }
    forall o | o in Without(seen, mac) && o.key !in after ensures LeftOut(after, o, cap) {
      assert LeftOut(table, o, cap) && KeysOf(after, o.key.mac) == KeysOf(table, o.key.mac);
    }
  }

  lemma WhatFitsOfTheRest(table: Table, seen: seq<Observation>, mac: Mac, cap: nat)
    requires KeepsWhatFits(table, seen, cap)
    ensures KeepsWhatFits(table - KeysOf(table, mac), Without(seen, mac), cap)
  {
    var after := table - KeysOf(table, mac);
    FoldWithout(seen, mac);
    var fold := PutAll(map[], seen);
    var rest := PutAll(map[], Without(seen, mac));
    forall m: Mac | |KeysOf(rest, m)| <= cap ensures SameRows(after, rest, m) {
      assert m != mac ==> KeysOf(rest, m) == KeysOf(fold, m);
    }
  }

  lemma RetainsTheRest(table: Table, seen: seq<Observation>, mac: Mac, cap: nat)
    requires Retains(table, seen, cap)
    ensures Retains(table - KeysOf(table, mac), Without(seen, mac), cap)
  {
    hide Remembers, KeepsWhatFits;
    RemembersTheRest(table, seen, mac, cap);
    WhatFitsOfTheRest(table, seen, mac, cap);
    BoundedWithout(table, mac, cap);
  }

  lemma BoundedWithout(table: Table, mac: Mac, cap: nat)
    requires Bounded(table, cap)
    ensures Bounded(table - KeysOf(table, mac), cap)
  {
    forall m ensures |KeysOf(table - KeysOf(table, mac), m)| <= cap {
      assert KeysOf(table - KeysOf(table, mac), m) == if m == mac then {} else KeysOf(table, m);
    }
  }

  // ---- what is open ---------------------------------------------------------------------

  /** Leaving out observations that a later one of the same key follows does not change what is to be remembered. */
  lemma EchoesAreRemembered(table: Table, all: seq<Observation>, some: seq<Observation>, cap: nat)
    requires KeepsTheLatest(all, some) && Remembers(table, some, cap)
    ensures Remembers(table, all, cap)
  {
    forall key | key in table ensures LastSeenAt(all, key, table[key].last) {
      assert LastSeenAt(some, key, table[key].last);
      assert forall o :: o in all && o.key == key ==> Echoed(some, key, o.at);
    }
    forall o | o in all && o.key !in table ensures LeftOut(table, o, cap) {
      assert Echoed(some, o.key, o.at);
      var later :| o.at <= later && Observation(o.key, later) in some;
      assert LeftOut(table, Observation(o.key, later), cap);
    }
  }

  /** The rows of one device in two tables: as many, equal where both have them, and otherwise tied for the oldest. */
  ghost predicate SameUpToTies(a: Table, b: Table, mac: Mac) {
    var (x, y) := (KeysOf(a, mac), KeysOf(b, mac));
    && |x| == |y|
    && (forall key :: key in x * y ==> a[key].last == b[key].last)
    && forall j, k :: j in x - y && k in y ==>
         a[j].last <= b[k].last && (k !in x ==> a[j].last == b[k].last)
  }

  /** Whatever the order in which rows were evicted, the same observations leave the same rows up to ties in age. */
  lemma RetainedUpToTies(a: Table, b: Table, seen: seq<Observation>, cap: nat, mac: Mac)
    requires Bounded(a, cap) && Remembers(a, seen, cap) && Bounded(b, cap) && Remembers(b, seen, cap)
    ensures SameUpToTies(a, b, mac)
  {
    var (x, y) := (KeysOf(a, mac), KeysOf(b, mac));
    MissingRows(a, b, seen, cap, mac);
    MissingRows(b, a, seen, cap, mac);
    assert |x| <= cap && |y| <= cap;
    if x - y == {} { SubsetSize(x, y); }
    if y - x == {} { SubsetSize(y, x); }
    forall key | key in x * y ensures a[key].last == b[key].last {
      assert LastSeenAt(seen, key, a[key].last) && LastSeenAt(seen, key, b[key].last);
    }
  }

  /** A row that only one of two tables has means that the other is full of rows that are no older. */
  lemma MissingRows(a: Table, b: Table, seen: seq<Observation>, cap: nat, mac: Mac)
    requires Remembers(a, seen, cap) && Remembers(b, seen, cap)
    ensures KeysOf(a, mac) - KeysOf(b, mac) != {} ==> |KeysOf(b, mac)| == cap
    ensures forall j, k :: j in KeysOf(a, mac) - KeysOf(b, mac) && k in KeysOf(b, mac) ==> a[j].last <= b[k].last
  {
    forall j | j in KeysOf(a, mac) - KeysOf(b, mac)
      ensures |KeysOf(b, mac)| == cap && forall k :: k in KeysOf(b, mac) ==> a[j].last <= b[k].last
    {
      assert LastSeenAt(seen, j, a[j].last);
      assert LeftOut(b, Observation(j, a[j].last), cap);
    }
  }

  /** Nothing that was left out of the rows of `mac` ties with one of them. */
  ghost predicate Settled(table: Table, seen: seq<Observation>, mac: Mac) {
    forall o, key :: o in seen && o.key.mac == mac && o.key !in table && key in KeysOf(table, mac) ==>
      o.at < table[key].last
  }

  ghost predicate Determined(table: Table, seen: seq<Observation>, cap: nat, mac: Mac) {
    forall b :: Bounded(b, cap) && ShowsAddresses(b) && Remembers(b, seen, cap) ==> SameButFirstFor(table, b, mac)
  }

  /** What the observations leave of a device is decided, but for first-seen times, exactly when nothing ties. */
  lemma DeterminedExactlyWhen(table: Table, seen: seq<Observation>, cap: nat, mac: Mac)
    requires Bounded(table, cap) && ShowsAddresses(table) && Remembers(table, seen, cap)
    ensures Determined(table, seen, cap, mac) <==> Settled(table, seen, mac)
  {
    if Settled(table, seen, mac) {
      forall b | Bounded(b, cap) && ShowsAddresses(b) && Remembers(b, seen, cap)
        ensures SameButFirstFor(table, b, mac)
      {
        NothingTies(table, b, seen, cap, mac);
      }
    } else {
      var o, key :| o in seen && o.key.mac == mac && o.key !in table && key in KeysOf(table, mac)
                    && o.at >= table[key].last;
      var other := TiesAreOpen(table, seen, o, key, cap);
      assert o.key in KeysOf(other, mac) && o.key !in KeysOf(table, mac);
    }
  }

  lemma NothingTies(a: Table, b: Table, seen: seq<Observation>, cap: nat, mac: Mac)
    requires Bounded(a, cap) && ShowsAddresses(a) && Remembers(a, seen, cap) && Settled(a, seen, mac)
    requires Bounded(b, cap) && ShowsAddresses(b) && Remembers(b, seen, cap)
    ensures SameButFirstFor(a, b, mac)
  {
    var (x, y) := (KeysOf(a, mac), KeysOf(b, mac));
    RetainedUpToTies(a, b, seen, cap, mac);
    SettledIsNewer(a, b, seen, cap, mac);
    EquallyMissing(x, y);
    SameRowsShowTheSame(a, b, mac);
    hide KeysOf, Settled, Remembers, Bounded, ShowsAddresses, SameButFirstFor;
  }

  lemma EquallyMissing(x: set<Key>, y: set<Key>)
    requires |x| == |y|
    ensures x == y || (x - y != {} && y - x != {})
  {
    assert |x - y| + |x * y| == |x| && |y - x| + |y * x| == |y| && x * y == y * x;
    assert x == (x - y) + x * y && y == (y - x) + y * x;
  }

  lemma SameRowsShowTheSame(a: Table, b: Table, mac: Mac)
    requires SameUpToTies(a, b, mac) && ShowsAddresses(a) && ShowsAddresses(b)
    ensures KeysOf(a, mac) == KeysOf(b, mac) ==> SameButFirstFor(a, b, mac)
  {}

  lemma SettledIsNewer(a: Table, b: Table, seen: seq<Observation>, cap: nat, mac: Mac)
    requires Settled(a, seen, mac) && Remembers(b, seen, cap)
    ensures forall j, k :: j in KeysOf(a, mac) && k in KeysOf(b, mac) - KeysOf(a, mac) ==> b[k].last < a[j].last
  {
    assert forall k :: k in KeysOf(b, mac) ==> LastSeenAt(seen, k, b[k].last);
  }

  /** Where an observation that was left out ties with a row, the cap could as well have taken that row. */
  lemma TiesAreOpen(table: Table, seen: seq<Observation>, o: Observation, key: Key, cap: nat) returns (other: Table)
    requires Bounded(table, cap) && ShowsAddresses(table) && Remembers(table, seen, cap)
    requires o in seen && o.key !in table && key in KeysOf(table, o.key.mac) && o.at >= table[key].last
    ensures Bounded(other, cap) && ShowsAddresses(other) && Remembers(other, seen, cap) && o.key in other
  {
    other := Exchanged(table, o, key);
    ExchangeKeepsSizes(table, o, key);
    assert LeftOut(table, o, cap) && LastSeenAt(seen, key, table[key].last);
    hide KeysOf;
    forall k | k in other ensures LastSeenAt(seen, k, other[k].last) {
      if k == o.key {
        assert forall p :: p in seen && p.key == k ==> LeftOut(table, p, cap);
      } else {
        assert LastSeenAt(seen, k, table[k].last);
      }
    }
    forall p | p in seen && p.key !in other ensures LeftOut(other, p, cap) {
      assert p.key != key ==> LeftOut(table, p, cap);
    }
  }

  function Exchanged(table: Table, o: Observation, key: Key): Table {
    (table - {key})[o.key := Row(o.key.id, o.at, o.at)]
  }

  lemma ExchangeKeepsSizes(table: Table, o: Observation, key: Key)
    requires o.key !in table && key in KeysOf(table, o.key.mac)
    ensures var other := Exchanged(table, o, key);
      forall m :: |KeysOf(other, m)| == |KeysOf(table, m)|
                  && KeysOf(other, m) == if m == o.key.mac then KeysOf(table, m) - {key} + {o.key} else KeysOf(table, m)
  {
    var other := Exchanged(table, o, key);
    forall m
      ensures KeysOf(other, m) == if m == o.key.mac then KeysOf(table, m) - {key} + {o.key} else KeysOf(table, m)
    {
      assert forall k :: k in KeysOf(other, m) <==> k in other && k.mac == m;
    }
  }
}
