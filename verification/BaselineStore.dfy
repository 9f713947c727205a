/**
 The baseline tables of one device and the comparison that maintains them.

 As in `PresenceStore`, `trace` records the calls and `Valid` ties every row and every logged change to
 `Baseline.RowRun` and `Baseline.ItemRun`, so all of `BaselineRuns` holds in every reachable state.
 */
module BaselineStore {
  import opened Options
  import opened Sets
  import opened Baseline
  import opened BaselineRuns

  const MAX_ITEMS := 200

  datatype Change =
    | ItemChange(key: ItemKey, event: ItemEvent)
    | ScalarChange(change: ScalarEvent)
    | BaselineReset(at: int)

  function EventsOf(c: Change, key: ItemKey): seq<ItemEvent> {
    match c
    case ItemChange(k, e) => if k == key then [e] else []
    case ScalarChange(_) => []
    case BaselineReset(at) => [Forgotten(at)]
  }

  function ItemLog(changes: seq<Change>, key: ItemKey): seq<ItemEvent> {
    if changes == [] then [] else ItemLog(changes[..|changes| - 1], key) + EventsOf(changes[|changes| - 1], key)
  }

  function ScalarLog(changes: seq<Change>): seq<ScalarEvent> {
    if changes == [] then []
    else
      var (rest, last) := (ScalarLog(changes[..|changes| - 1]), changes[|changes| - 1]);
      if last.ScalarChange? then rest + [last.change] else rest
  }

  lemma LogsAppend(changes: seq<Change>, c: Change)
    ensures forall key :: ItemLog(changes + [c], key) == ItemLog(changes, key) + EventsOf(c, key)
    ensures ScalarLog(changes + [c]) == ScalarLog(changes) + if c.ScalarChange? then [c.change] else []
  {
    assert (changes + [c])[..|changes|] == changes;
  }

  // ---- the row cap -------------------------------------------------------------------------

  type Items = map<ItemKey, Item>

  /** Rows that the cap keeps rather than others: normal ones, then present ones, then those seen last. */
  predicate Outranks(a: Item, b: Item) {
    if a.inBaseline != b.inBaseline then a.inBaseline
    else if a.present != b.present then a.present
    else a.lastSeen > b.lastSeen
  }

  /** `kept` is `items` without one row of the lowest rank, if there was one too many. */
  ghost predicate Capped(items: Items, kept: Items) {
    if |items| <= MAX_ITEMS then kept == items
    else
      exists gone ::
        gone in items && kept == items - {gone} && forall k :: k in items ==> !Outranks(items[gone], items[k])
  }

  /**
   What is left of `full` under the cap: nothing normal has gone while anything pending is still there, and nothing that
   has gone outranks a row that stayed and is as it was at the `start`.
   */
  ghost predicate Held(start: Items, full: Items, items: Items) {
    && (forall k :: k in items ==> k in full && items[k] == full[k])
    && |items| <= MAX_ITEMS && (items.Keys == full.Keys || |items| == MAX_ITEMS)
    && (forall k, j :: k in full && k !in items && full[k].inBaseline && j in items ==> items[j].inBaseline)
    && forall k, j :: k in full && k !in items && j in items && j in start && items[j] == start[j] ==>
         !Outranks(full[k], items[j])
  }

  method ApplyCap(items: Items) returns (kept: Items)
    ensures Capped(items, kept)
  {
    if |items| <= MAX_ITEMS { return items; }
    assert items.Keys != {};
    var lowest :| lowest in items.Keys;
    var todo := items.Keys - {lowest};
    while todo != {}
      invariant todo <= items.Keys && lowest in items
      invariant forall k :: k in items && k !in todo ==> !Outranks(items[lowest], items[k])
      decreases todo
    {
      var key :| key in todo;
      if Outranks(items[lowest], items[key]) { lowest := key; }
      todo := todo - {key};
    }
    kept := items - {lowest};
  }

  /** Saving a row that does not become less normal, and applying the cap, keeps to the rule. */
  lemma StillHeld(start: Items, full: Items, items: Items, key: ItemKey, item: Item, kept: Items)
    requires Held(start, full, items) && Capped(items[key := item], kept)
    requires key in full && full[key].inBaseline ==> item.inBaseline
    requires key in start ==> item != start[key]
    ensures Held(start, full[key := item], kept)
  {
    hide Held;
    var more := items[key := item];
    if |more| > MAX_ITEMS {
      var gone :| gone in more && kept == more - {gone} && forall k :: k in more ==> !Outranks(more[gone], more[k]);
      OneGoes(start, full, items, key, item, more, gone);
    } else {
      NoneGoes(start, full, items, key, item, more);
    }
  }

  lemma NoneGoes(start: Items, full: Items, items: Items, key: ItemKey, item: Item, more: Items)
    requires Held(start, full, items) && more == items[key := item] && |more| <= MAX_ITEMS
    requires key in full && full[key].inBaseline ==> item.inBaseline
    requires key in start ==> item != start[key]
    ensures Held(start, full[key := item], more)
  {
    assert more.Keys == items.Keys + {key};
    if key in items {
      assert more.Keys == items.Keys;
    } else {
      assert |more.Keys| == |items.Keys| + 1;
    }
  }

  lemma OneGoes(start: Items, full: Items, items: Items, key: ItemKey, item: Item, more: Items, gone: ItemKey)
    requires Held(start, full, items) && more == items[key := item] && |more| > MAX_ITEMS && gone in more
    requires forall k :: k in more ==> !Outranks(more[gone], more[k])
    requires key in start ==> item != start[key]
    ensures Held(start, full[key := item], more - {gone})
  {
    var kept := more - {gone};
    assert more.Keys == items.Keys + {key};
    if key in items { SubsetSize(more.Keys, items.Keys); }
    assert |more.Keys| == |items.Keys| + 1;
    assert kept.Keys == more.Keys - {gone};
    assert |kept.Keys| == |items.Keys|;
    assert !Outranks(more[gone], more[key]);
    forall k, j | k in full[key := item] && k !in kept && full[key := item][k].inBaseline && j in kept
      ensures kept[j].inBaseline
    {
      assert !Outranks(more[gone], more[j]);
    }
  }

  /** Nothing has to go from a table that is not too large. */
  lemma HeldFits(start: Items, full: Items, items: Items, bound: set<ItemKey>)
    requires Held(start, full, items) && full.Keys <= bound && |bound| <= MAX_ITEMS
    ensures items == full
  {
    SubsetSize(items.Keys, full.Keys);
    SubsetSize(full.Keys, bound);
  }

  class DeviceBaseline {
    const cfg: Config
    var row: Option<Row>
    var items: Items
    var changes: seq<Change>
    ghost var trace: Trace
    /** The items as they would be if nothing had been evicted since the call under way began. */
    ghost var full: Items
    /** The items as they were when it began. */
    ghost var start: Items

    ghost function CellOf(key: ItemKey): Cell
      reads this
    {
      Cell(if key in full then Some(full[key]) else None, ItemLog(changes, key))
    }

    ghost predicate Tracked()
      reads this
    {
      Held(start, full, items) && forall key :: key in full ==> Trackable(key.signal)
    }

    ghost predicate Agrees()
      reads this
    {
      && cfg.Valid()
      && Scalars(row, ScalarLog(changes)) == RowRun(trace, cfg)
      && forall key :: CellOf(key) == ItemRun(trace, key, cfg)
    }

    ghost predicate Valid()
      reads this
    {
      Agrees() && Tracked() && start == full == items
    }

    constructor (cfg: Config)
      requires cfg.Valid()
      ensures Valid() && this.cfg == cfg && trace == []
    {
      this.cfg := cfg;
      row, items, changes, trace, full, start := None, map[], [], [], map[], map[];
    }

    method Record(c: Change)
      modifies this`changes
      ensures changes == old(changes) + [c]
      ensures forall key :: ItemLog(changes, key) == old(ItemLog(changes, key)) + EventsOf(c, key)
      ensures ScalarLog(changes) == old(ScalarLog(changes)) + if c.ScalarChange? then [c.change] else []
    {
      LogsAppend(changes, c);
      changes := changes + [c];
    }

    method RecordWhen(condition: bool, e: ScalarEvent)
      modifies this`changes
      ensures forall key :: CellOf(key) == old(CellOf(key))
      ensures ScalarLog(changes) == old(ScalarLog(changes)) + When(condition, e)
    {
      if condition { Record(ScalarChange(e)); }
    }

    ghost method Commit(op: Op)
      requires cfg.Valid()
      requires Scalars(row, ScalarLog(changes)) == StepScalars(RowRun(trace, cfg), op, cfg)
      requires forall key :: CellOf(key) == StepItem(ItemRun(trace, key, cfg), RowRun(trace, cfg).row, op, key, cfg)
      modifies this`trace
      ensures Agrees() && trace == old(trace) + [op]
    {
      RunAppend(trace, op, cfg);
      trace := trace + [op];
    }

    /** Writes one row; the cap may take it, or another, right away. */
    method SaveItem(key: ItemKey, item: Item)
      requires Tracked() && Trackable(key.signal)
      requires key in full && full[key].inBaseline ==> item.inBaseline
      requires key in start ==> item != start[key]
      modifies this`items, this`full
      ensures Tracked() && full == old(full)[key := item]
    {
      ghost var before := items;
      items := ApplyCap(items[key := item]);
      StillHeld(start, full, before, key, item, items);
      full := full[key := item];
    }

    /** The row as it was read when the comparison began is still the one to judge. */
    ghost predicate Current(known: Items, key: ItemKey)
      reads this
    {
      CellOf(key).item == if key in known then Some(known[key]) else None
    }

    /** An observed value of a judged signal. */
    method MeetValue(known: Items, key: ItemKey, row: Row, d: Dossier)
      requires Tracked() && Trackable(key.signal) && Current(known, key) && known == start
      modifies this`items, this`full, this`changes
      ensures Tracked()
      ensures forall k :: CellOf(k) == if k == key then Meet(old(CellOf(k)), k, row, d, cfg) else old(CellOf(k))
      ensures ScalarLog(changes) == old(ScalarLog(changes))
    {
      hide Held;
      var admin := key in cfg.admin;
      if key !in known {
        var absorb := Learning(row) && !admin;
        SaveItem(key, Item(absorb, if absorb then Learned else Observed, true, d.now, d.now, None));
        if !absorb { Record(ItemChange(key, AppearedNow(key, row, d, cfg, false))); }
      } else {
        var item := known[key];
        if !item.present {
          SaveItem(key, item.(present := true, removedAt := None, lastSeen := d.now));
          if !item.inBaseline { Record(ItemChange(key, AppearedNow(key, row, d, cfg, true))); }
        } else if d.now - item.lastSeen >= LAST_SEEN_REFRESH {
          SaveItem(key, item.(lastSeen := d.now));
        }
      }
    }

    /** A stored item of a judged signal that was not observed. */
    method LoseItem(known: Items, key: ItemKey, row: Row, d: Dossier)
      requires Tracked() && key in known && Current(known, key) && key.signal != Ipv6Prefix && known == start
      modifies this`items, this`full, this`changes
      ensures Tracked()
      ensures forall k :: CellOf(k) == if k == key then Lose(old(CellOf(k)), k, row, d, cfg) else old(CellOf(k))
      ensures ScalarLog(changes) == old(ScalarLog(changes))
    {
      hide Held, ItemLog, ScalarLog;
      var item := known[key];
      assert key in full && full[key] == item;
      if !item.present { return; }
      if key.signal != Port && d.now - item.lastSeen < cfg.removalAfter { return; }
      SaveItem(key, item.(present := false, removedAt := Some(d.now)));
      Record(ItemChange(key, VanishedNow(key, item, row, d)));
    }

    /** One signal: every observed value, then every stored item that was not among them. */
    method CompareSignal(known: Items, signal: Signal, row: Row, d: Dossier)
      requires Tracked() && known == start && Trackable(signal)
      requires forall k: ItemKey :: k.signal == signal ==> Current(known, k)
      modifies this`items, this`full, this`changes
      ensures Tracked()
      ensures forall k :: CellOf(k) ==
                if k.signal == signal then CompareItem(old(CellOf(k)), k, Some(row), d, cfg) else old(CellOf(k))
      ensures ScalarLog(changes) == old(ScalarLog(changes))
    {
      hide Meet, Lose, ItemLog, ScalarLog, Held, Judged;
      if !Judged(signal, row, d) { return; }
      JudgeSignal(known, signal, row, d);
    }

    /** A signal that is judged: every observed value is met, and every other item is lost. */
    method JudgeSignal(known: Items, signal: Signal, row: Row, d: Dossier)
      requires Tracked() && known == start && Trackable(signal)
      requires forall k: ItemKey :: k.signal == signal ==> Current(known, k)
      modifies this`items, this`full, this`changes
      ensures Tracked()
      ensures forall k :: CellOf(k) ==
                if k.signal != signal then old(CellOf(k))
                else if k in d.observed then Meet(old(CellOf(k)), k, row, d, cfg)
                else Lose(old(CellOf(k)), k, row, d, cfg)
      ensures ScalarLog(changes) == old(ScalarLog(changes))
    {
      hide Meet, Lose, ItemLog, ScalarLog, Held;
      var values := set k | k in d.observed && k.signal == signal;
      var stored := set k | k in known && k.signal == signal && k !in values;
      MeetValues(known, values, row, d);
      assert forall k :: k in stored ==> CellOf(k) == old(CellOf(k));
      if signal == Ipv6Prefix {
        forall k: ItemKey | k.signal == signal && k !in values ensures Lose(CellOf(k), k, row, d, cfg) == CellOf(k) {
          LoseOnlyStored(CellOf(k), k, row, d, cfg);
        }
        return;
      }
      forall k | k in stored ensures Current(known, k) { assert old(Current(known, k)); }
      LoseItems(known, stored, row, d);
      forall k: ItemKey | k.signal == signal && k !in values && k !in stored
        ensures Lose(old(CellOf(k)), k, row, d, cfg) == old(CellOf(k))
      {
        LoseOnlyStored(old(CellOf(k)), k, row, d, cfg);
      }
    }

    method MeetValues(known: Items, values: set<ItemKey>, row: Row, d: Dossier)
      requires Tracked() && known == start && forall k :: k in values ==> Trackable(k.signal) && Current(known, k)
      modifies this`items, this`full, this`changes
      ensures Tracked()
      ensures forall k :: CellOf(k) == if k in values then Meet(old(CellOf(k)), k, row, d, cfg) else old(CellOf(k))
      ensures ScalarLog(changes) == old(ScalarLog(changes))
    {
      hide Held, Meet, ItemLog, ScalarLog;
      var todo := values;
      while todo != {}
        invariant todo <= values && Tracked()
        invariant forall k :: CellOf(k) ==
                    if k in values && k !in todo then Meet(old(CellOf(k)), k, row, d, cfg) else old(CellOf(k))
        invariant ScalarLog(changes) == old(ScalarLog(changes))
        decreases todo
      {
        var key :| key in todo;
        assert CellOf(key) == old(CellOf(key)) && old(Current(known, key));
        todo := todo - {key};
        MeetValue(known, key, row, d);
      }
    }

    method LoseItems(known: Items, stored: set<ItemKey>, row: Row, d: Dossier)
      requires Tracked() && known == start
      requires forall k :: k in stored ==> k in known && Current(known, k) && k.signal != Ipv6Prefix
      modifies this`items, this`full, this`changes
      ensures Tracked()
      ensures forall k :: CellOf(k) == if k in stored then Lose(old(CellOf(k)), k, row, d, cfg) else old(CellOf(k))
      ensures ScalarLog(changes) == old(ScalarLog(changes))
    {
      hide Held, Lose, ItemLog, ScalarLog;
      var todo := stored;
      while todo != {}
        invariant todo <= stored && Tracked()
        invariant forall k :: CellOf(k) ==
                    if k in stored && k !in todo then Lose(old(CellOf(k)), k, row, d, cfg) else old(CellOf(k))
        invariant ScalarLog(changes) == old(ScalarLog(changes))
        decreases todo
      {
        var key :| key in todo;
        assert CellOf(key) == old(CellOf(key)) && old(Current(known, key));
        todo := todo - {key};
        LoseItem(known, key, row, d);
      }
    }

    /** The seeding comparison: everything observed is normal, remote administration included. */
    method SeedItems(d: Dossier)
      requires Tracked() && start == full == map[]
      modifies this`items, this`full
      ensures Tracked()
      ensures forall k :: CellOf(k) == Seed(old(CellOf(k)), k, d)
    {
      hide Held, ItemLog;
      var values := set k | k in d.observed && Trackable(k.signal);
      var todo := values;
      while todo != {}
        invariant todo <= values && Tracked()
        invariant forall k :: CellOf(k) ==
                    if k in values && k !in todo then Seed(old(CellOf(k)), k, d) else old(CellOf(k))
        decreases todo
      {
        var key :| key in todo;
        assert CellOf(key) == old(CellOf(key)) && key !in old(full);
        todo := todo - {key};
        SaveItem(key, Item(true, Initial, true, d.now, d.now, None));
      }
    }

    method CompareAddresses(baseline: Row, d: Dossier) returns (next: Row)
      modifies this`changes
      ensures forall key :: CellOf(key) == old(CellOf(key))
      ensures next == AddressFields(baseline, d)
      ensures ScalarLog(changes) == old(ScalarLog(changes)) + AddressChanges(baseline, d)
    {
      hide ItemLog, ScalarLog;
      next := baseline;
      if PortsFresh(next, d) { next := next.(inspectionAt := d.inspectedAt); }
      if Differs(next.ipv4, d.ipv4) {
        Record(ScalarChange(IpChanged(d.now, next.ipv4.value, d.ipv4.value, Ip in next.excluded)));
      }
      next := next.(ipv4 := Keep(d.ipv4, next.ipv4));
      if HostnameDiffers(next, d) {
        Record(ScalarChange(HostnameChanged(d.now, next.hostname.value, d.hostname.value, Hostname in next.excluded)));
      }
      next := next.(hostname := Keep(d.hostname, next.hostname));
    }

    method CompareStanding(baseline: Row, d: Dossier) returns (next: Row)
      modifies this`changes
      ensures forall key :: CellOf(key) == old(CellOf(key))
      ensures next == StandingFields(baseline, d, cfg)
      ensures ScalarLog(changes) == old(ScalarLog(changes)) + StandingChanges(baseline, d, cfg)
    {
      hide ItemLog, ScalarLog;
      next := baseline;
      if d.identity.Some? {
        RecordWhen(IdentityDiffers(next, d), IdentityChanged(d.now, Identity in next.excluded));
        next := next.(category := Some(d.identity.value.0),
                      manufacturer := Keep(d.identity.value.1, next.manufacturer));
      }
      if d.trusted != next.trusted {
        Record(ScalarChange(TrustChanged(d.now, d.trusted)));
        next := next.(trusted := d.trusted);
      }
      if UnknownNow(d, cfg) && !next.unknownFlagged {
        Record(ScalarChange(UnknownPresent(d.now)));
        next := next.(unknownFlagged := true);
      } else if next.unknownFlagged && (d.trusted || !d.reviewNeeded) {
        next := next.(unknownFlagged := false);
      }
    }

    /**
     One comparison of the device with its baseline, and what the row cap takes meanwhile: nothing if all that is known
     and observed has room, and nothing normal unless everything that is left is normal.
     */
    method Compare(d: Dossier) returns (ghost evicted: set<ItemKey>)
      requires Valid()
      modifies this
      ensures Valid()
      ensures trace == old(trace) + [Op.Compare(d)] + (if evicted == {} then [] else [Evict(evicted)])
      ensures |old(items).Keys + d.observed| <= MAX_ITEMS ==> evicted == {}
      ensures items.Keys !! evicted && (evicted == {} <==> |items.Keys + evicted| <= MAX_ITEMS)
      ensures evicted != {} ==> |items| == MAX_ITEMS
      ensures forall k :: k in items.Keys + evicted <==> ItemRun(old(trace) + [Op.Compare(d)], k, cfg).item.Some?
      ensures forall k, j :: k in evicted && j in items && InBaseline(old(trace) + [Op.Compare(d)], k) ==>
                items[j].inBaseline
      ensures forall k, j :: k in evicted && j in items && j in old(items) && items[j] == old(items)[j] ==>
                var gone := ItemRun(old(trace) + [Op.Compare(d)], k, cfg).item.value;
                && (gone.inBaseline ==> items[j].inBaseline)
                && (gone.inBaseline == items[j].inBaseline ==>
                      && (gone.present ==> items[j].present)
                      && (gone.present == items[j].present ==> gone.lastSeen <= items[j].lastSeen))
    {
      hide RowRun, ItemRun, CompareItem, CompareScalars, ItemLog, ScalarLog, Held, Outranks, InBaseline;
      CompareRows(d);
      Commit(Op.Compare(d));
      evicted := full.Keys - items.Keys;
      WhatHasGone();
      LeftInOrder();
      Settle(evicted);
    }

    method CompareRows(d: Dossier)
      requires Valid()
      modifies this`row, this`items, this`full, this`changes
      ensures Tracked()
      ensures Scalars(row, ScalarLog(changes)) == CompareScalars(old(Scalars(row, ScalarLog(changes))), d, cfg)
      ensures forall k :: CellOf(k) == CompareItem(old(CellOf(k)), k, old(row), d, cfg)
      ensures |old(items).Keys + d.observed| <= MAX_ITEMS ==> items == full
    {
      hide ItemLog, ScalarLog;
      if row.None? {
        NothingWithoutABaseline();
        row := Some(FirstRow(d));
        SeedItems(d);
      } else {
        var original := row.value;
        CompareWith(original, d);
      }
      OnlyWhatIsKnownOrObserved(d);
      if |old(items).Keys + d.observed| <= MAX_ITEMS { HeldFits(start, full, items, old(items).Keys + d.observed); }
    }

    /** At the end of a call: what the cap took, in terms of the run. */
    lemma WhatHasGone()
      requires Agrees() && Tracked()
      ensures var gone := full.Keys - items.Keys;
        && (gone == {} <==> |items.Keys + gone| <= MAX_ITEMS)
        && (gone != {} ==> |items| == MAX_ITEMS)
        && (gone == {} ==> items == full)
        && (forall k :: k in items.Keys + gone <==> ItemRun(trace, k, cfg).item.Some?)
        && (forall k, j :: k in gone && j in items && InBaseline(trace, k) ==> items[j].inBaseline)
        && forall k, j :: k in gone && j in items && j in start && items[j] == start[j] ==>
             !Outranks(ItemRun(trace, k, cfg).item.value, items[j])
    {
      hide Outranks, ItemRun, RowRun, ItemLog;
      var gone := full.Keys - items.Keys;
      assert items.Keys + gone == full.Keys && items.Keys !! gone;
      assert |items.Keys + gone| == |items.Keys| + |gone|;
      forall k ensures (k in full <==> ItemRun(trace, k, cfg).item.Some?)
                       && (k in full ==> full[k] == ItemRun(trace, k, cfg).item.value) {
        assert CellOf(k) == ItemRun(trace, k, cfg);
      }
    }

    /** The order in which rows go: pending before normal, gone before present, old before recent. */
    lemma LeftInOrder()
      requires Agrees() && Tracked()
      ensures forall k, j :: k in full.Keys - items.Keys && j in items && j in start && items[j] == start[j] ==>
                var gone := ItemRun(trace, k, cfg).item.value;
                && (gone.inBaseline ==> items[j].inBaseline)
                && (gone.inBaseline == items[j].inBaseline ==>
                      && (gone.present ==> items[j].present)
                      && (gone.present == items[j].present ==> gone.lastSeen <= items[j].lastSeen))
    {
      WhatHasGone();
      hide Held, ItemRun, RowRun, ItemLog;
    }

    ghost predicate InBaseline(t: Trace, key: ItemKey) {
      var item := ItemRun(t, key, cfg).item; item.Some? && item.value.inBaseline
    }

    lemma NothingWithoutABaseline()
      requires Valid() && row.None?
      ensures full == map[]
    {
      forall key ensures key !in full {
        assert CellOf(key) == ItemRun(trace, key, cfg);
        ApprovalHasAReason(trace, key, cfg);
      }
    }

    twostate lemma OnlyWhatIsKnownOrObserved(d: Dossier)
      requires old(full) == old(items)
      requires forall k :: CellOf(k) == CompareItem(old(CellOf(k)), k, old(row), d, cfg)
      ensures full.Keys <= old(items).Keys + d.observed
    {
      forall k | k in full ensures k in old(items).Keys + d.observed {
        assert CellOf(k).item.Some?;
      }
    }

    /** Ends a call: what was evicted during it is forgotten. */
    ghost method Settle(evicted: set<ItemKey>)
      requires Agrees() && Tracked() && evicted == full.Keys - items.Keys
      modifies this`full, this`start, this`trace
      ensures Valid() && trace == old(trace) + (if evicted == {} then [] else [Evict(evicted)])
    {
      hide RowRun, ItemRun, ItemLog, ScalarLog, Held;
      Forget(evicted);
      if evicted != {} {
        Commit(Evict(evicted));
      } else {
        assert trace + [] == trace;
      }
    }

    ghost method Forget(evicted: set<ItemKey>)
      requires Tracked() && evicted == full.Keys - items.Keys
      modifies this`full, this`start
      ensures Tracked() && start == full == items
      ensures forall key :: CellOf(key) ==
                if key in evicted then old(CellOf(key)).(item := None) else old(CellOf(key))
    {
      hide ItemLog;
      full, start := items, items;
    }

    /** All four signals, against the row as it was when the comparison began. */
    method CompareItems(original: Row, d: Dossier)
      requires Tracked() && start == full == items
      modifies this`items, this`full, this`changes
      ensures Tracked()
      ensures forall k :: CellOf(k) == CompareItem(old(CellOf(k)), k, Some(original), d, cfg)
      ensures ScalarLog(changes) == old(ScalarLog(changes))
    {
      hide ItemLog, ScalarLog, CompareItem, Held;
      var known := items;
      CompareSignal(known, Port, original, d);
      CompareSignal(known, Mdns, original, d);
      CompareSignal(known, Ssdp, original, d);
      CompareSignal(known, Ipv6Prefix, original, d);
      forall k: ItemKey | !Trackable(k.signal)
        ensures CompareItem(old(CellOf(k)), k, Some(original), d, cfg) == old(CellOf(k))
      {
        UntrackedIsLeftAlone(old(CellOf(k)), k, original, d, cfg);
      }
    }

    method CompareWith(original: Row, d: Dossier)
      requires row == Some(original) && Tracked() && start == full == items
      modifies this`row, this`items, this`full, this`changes
      ensures row == Some(NextRow(original, d, cfg))
      ensures Tracked()
      ensures forall k :: CellOf(k) == CompareItem(old(CellOf(k)), k, Some(original), d, cfg)
      ensures ScalarLog(changes) == old(ScalarLog(changes)) + ScalarChanges(original, d, cfg)
    {
      hide ItemLog, ScalarLog, CompareItem, AddressFields, StandingFields, AddressChanges, StandingChanges, Held;
      var established := EstablishedNow(original, d, cfg);
      RecordWhen(established, Established(d.now));
      CompareItems(original, d);
      var next := CompareAddresses(original, d);
      SameChanges(original, next, d, cfg);
      next := CompareStanding(next, d);
      next := next.(establishedAt := if established then Some(d.now) else original.establishedAt);
      if next != original { row := Some(next); }
    }

    method ReviewAccepted(key: ItemKey)
      requires Valid()
      modifies this
      ensures Valid() && trace == old(trace) + [AcceptItem(key)]
    {
      if key in items && !items[key].inBaseline {
        SaveAccepted(key);
      }
      Commit(AcceptItem(key));
    }

    /** Accepting a row that is there takes no more room. */
    method SaveAccepted(key: ItemKey)
      requires Tracked() && start == full == items && key in items && !items[key].inBaseline
      modifies this`items, this`full, this`start
      ensures Tracked() && start == full == items
      ensures items == old(items)[key := old(items)[key].(inBaseline := true, origin := Accepted)]
    {
      SaveItem(key, items[key].(inBaseline := true, origin := Accepted));
      assert full.Keys == old(items).Keys;
      HeldFits(start, full, items, full.Keys);
      start := items;
    }

    method AcceptAllPending() returns (accepted: set<ItemKey>)
      requires Valid()
      modifies this
      ensures Valid() && trace == old(trace) + [AcceptPending]
      ensures accepted == set k | k in old(items) && !old(items)[k].inBaseline
    {
      accepted := set k | k in items && !items[k].inBaseline;
      var todo := accepted;
      while todo != {}
        invariant todo <= accepted && trace == old(trace) && changes == old(changes) && row == old(row)
        invariant Tracked() && start == full == items && items.Keys == old(items).Keys
        invariant forall k :: CellOf(k) ==
                    if k in accepted && k !in todo then Accept(old(CellOf(k))) else old(CellOf(k))
        decreases todo
      {
        hide Held, ItemLog, RowRun, ItemRun;
        var key :| key in todo;
        assert CellOf(key) == old(CellOf(key));
        todo := todo - {key};
        SaveAccepted(key);
      }
      forall k ensures CellOf(k) == Accept(old(CellOf(k))) {}
      Commit(AcceptPending);
    }

    method ResetBaseline(now: int)
      requires Valid()
      modifies this
      ensures Valid() && trace == old(trace) + [Reset(now)]
    {
      row, items, full, start := None, map[], map[], map[];
      Record(BaselineReset(now));
      Commit(Reset(now));
    }

    method SetExcludedSignals(signals: set<Signal>)
      requires Valid()
      modifies this
      ensures Valid() && trace == old(trace) + [Exclude(signals)]
    {
      if row.Some? { row := Some(row.value.(excluded := signals)); }
      Commit(Exclude(signals));
    }
  }

  /** `n` different ports. */
  function Ports(n: nat): (keys: set<ItemKey>)
    ensures |keys| == n
    ensures forall k :: k in keys ==> k.signal == Port && |k.value| < n
  {
    if n == 0 then {} else Ports(n - 1) + {ItemKey(Port, seq(n - 1, _ => '1'))}
  }

  /** The cap has work to do: a single comparison can leave any number of items to hold. */
  lemma AnyNumberOfItems(n: nat, cfg: Config) returns (d: Dossier, keys: set<ItemKey>)
    requires cfg.Valid()
    ensures |keys| == n && forall k :: k in keys <==> ItemRun([Op.Compare(d)], k, cfg).item.Some?
  {
    keys := Ports(n);
    d := Dossier(100, true, 90, 100, None, None, None, false, false, true, true, Some(50), Some(100), keys);
    var t: Trace := [];
    assert [Op.Compare(d)] == t + [Op.Compare(d)];
    RunAppend(t, Op.Compare(d), cfg);
  }

  lemma LoseOnlyStored(c: Cell, key: ItemKey, row: Row, d: Dossier, cfg: Config)
    requires c.item.None? || key.signal == Ipv6Prefix
    ensures Lose(c, key, row, d, cfg) == c
  {}

  lemma UntrackedIsLeftAlone(c: Cell, key: ItemKey, row: Row, d: Dossier, cfg: Config)
    requires !Trackable(key.signal)
    ensures CompareItem(c, key, Some(row), d, cfg) == c
  {}

  /** What is said about identity, trust and review does not depend on the address fields. */
  lemma SameChanges(row: Row, next: Row, d: Dossier, cfg: Config)
    requires next == AddressFields(row, d)
    ensures StandingChanges(next, d, cfg) == StandingChanges(row, d, cfg)
  {}
}
