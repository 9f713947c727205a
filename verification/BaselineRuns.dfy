/** What every run of comparisons, reviews and resets guarantees for a device's baseline. */
module BaselineRuns {
  import opened Options
  import opened Baseline

  // ---- approval ------------------------------------------------------------------

  /**
   Items exist only under a baseline; being in it is having been seeded, learned or accepted; remote administration is
   never learned.
   */
  lemma {:induction false} ApprovalHasAReason(t: Trace, key: ItemKey, cfg: Config)
    ensures var c := ItemRun(t, key, cfg);
      && (RowRun(t, cfg).row.None? ==> c.item.None?)
      && (c.item.Some? ==> (c.item.value.inBaseline <==> c.item.value.origin in {Initial, Learned, Accepted}))
      && (c.item.Some? && c.item.value.origin == Learned ==> key !in cfg.admin)
  {
    if t == [] {
    } else {
      ApprovalHasAReason(t[..|t| - 1], key, cfg);
    }
  }

  predicate Accepts(op: Op, key: ItemKey) { op == AcceptPending || op == AcceptItem(key) }

  predicate Evicts(op: Op, key: ItemKey) { op.Evict? && key in op.keys }

  /** Only an operator's acceptance moves a known item into the baseline; only a reset or the row cap takes one out. */
  lemma OnlyAcceptanceApproves(t: Trace, op: Op, key: ItemKey, cfg: Config)
    ensures var before, after := ItemRun(t, key, cfg).item, ItemRun(t + [op], key, cfg).item;
      before.Some? ==>
        && (after.None? <==> op.Reset? || Evicts(op, key))
        && (after.Some? && !before.value.inBaseline ==> (after.value.inBaseline <==> Accepts(op, key)))
        && (after.Some? && before.value.inBaseline ==>
            after.value.inBaseline && after.value.origin == before.value.origin)
  {
    ApprovalHasAReason(t, key, cfg);
    RunAppend(t, op, cfg);
  }

  /** An item that is pending could not be learned if it were met for the first time now. */
  ghost predicate BeyondLearning(row: Option<Row>, key: ItemKey, cfg: Config) {
    row.Some? && (key in cfg.admin || !Learning(row.value))
  }

  lemma {:induction false} PendingIsBeyondLearning(t: Trace, key: ItemKey, cfg: Config)
    ensures var item := ItemRun(t, key, cfg).item;
      item.Some? && !item.value.inBaseline ==> BeyondLearning(RowRun(t, cfg).row, key, cfg)
  {
    if t == [] {
    } else {
      PendingIsBeyondLearning(t[..|t| - 1], key, cfg);
      ApprovalHasAReason(t[..|t| - 1], key, cfg);
    }
  }

  /**
   Once pending, an item gets into the baseline only by an acceptance, over any run without a reset: being evicted and
   met again does not make it normal.
   */
  lemma {:induction false} PendingIsNeverLearned(t: Trace, s: Trace, key: ItemKey, cfg: Config)
    requires var item := ItemRun(t, key, cfg).item; item.Some? && !item.value.inBaseline
    requires forall op :: op in s ==> !op.Reset? && !Accepts(op, key)
    ensures var item := ItemRun(t + s, key, cfg).item; item.Some? ==> !item.value.inBaseline
    ensures BeyondLearning(RowRun(t + s, cfg).row, key, cfg)
  {
    if s == [] {
      assert t + s == t;
      PendingIsBeyondLearning(t, key, cfg);
    } else {
      var n := |s| - 1;
      assert t + s == t + s[..n] + [s[n]] && s[n] in s;
      PendingIsNeverLearned(t, s[..n], key, cfg);
      RunAppend(t + s[..n], s[n], cfg);
      hide RowRun, ItemRun;
    }
  }

  /** Step `i` seeds the baseline that is in force at the end of the run. */
  ghost predicate SeededAt(t: Trace, i: nat, cfg: Config) {
    && i < |t| && t[i].Compare? && RowRun(t[..i], cfg).row.None?
    && forall j :: i < j < |t| ==> !t[j].Reset?
  }

  predicate IsNormal(item: Option<Item>) { item.Some? && item.value.inBaseline }

  /** Past the seeding, no step but an acceptance makes a remote-administration service normal. */
  lemma AdministrationStep(c: Cell, s: Scalars, op: Op, key: ItemKey, cfg: Config)
    requires key in cfg.admin && !op.Reset? && !Accepts(op, key)
    requires s.row.Some?
    ensures StepScalars(s, op, cfg).row.Some?
    ensures IsNormal(StepItem(c, s.row, op, key, cfg).item) <==> IsNormal(c.item) && !Evicts(op, key)
  {}

  /** Seeding makes exactly what was observed normal. */
  lemma SeedingStep(c: Cell, s: Scalars, d: Dossier, key: ItemKey, cfg: Config)
    requires Trackable(key.signal) && s.row.None? && c.item.None?
    ensures StepScalars(s, Compare(d), cfg).row.Some?
    ensures IsNormal(StepItem(c, s.row, Compare(d), key, cfg).item) <==> key in d.observed
  {}

  /**
   Without an operator's acceptance, a remote-administration service is normal exactly if it was there when the baseline
   was seeded and the row cap has not taken it since.
   */
  lemma {:induction false} AdministrationIsNormalExactlyWhenSeeded(t: Trace, i: nat, key: ItemKey, cfg: Config)
    requires key in cfg.admin && Trackable(key.signal) && SeededAt(t, i, cfg)
    requires forall j :: i < j < |t| ==> !Accepts(t[j], key)
    ensures RowRun(t, cfg).row.Some?
    ensures IsNormal(ItemRun(t, key, cfg).item) <==>
            key in t[i].dossier.observed && forall j :: i < j < |t| ==> !Evicts(t[j], key)
  {
    var n := |t| - 1;
    var before := t[..n];
    RunAppend(before, t[n], cfg);
    assert t == before + [t[n]];
    hide RowRun, ItemRun, IsNormal, StepItem, StepScalars;
    var c, s := ItemRun(before, key, cfg), RowRun(before, cfg);
    if i == n {
      ApprovalHasAReason(before, key, cfg);
      SeedingStep(c, s, t[n].dossier, key, cfg);
    } else {
      assert before[..i] == t[..i];
      AdministrationIsNormalExactlyWhenSeeded(before, i, key, cfg);
      AdministrationStep(c, s, t[n], key, cfg);
      assert (forall j :: i < j < |t| ==> !Evicts(t[j], key))
             <==> (forall j :: i < j < n ==> !Evicts(before[j], key)) && !Evicts(t[n], key);
    }
  }

  /** The first comparison of a device approves a remote-administration service that nobody has approved. */
  lemma SeedingApprovesAdministration() returns (d: Dossier, key: ItemKey, cfg: Config)
    ensures cfg.Valid() && key in cfg.admin
    ensures ItemRun([Compare(d)], key, cfg).item == Some(Item(true, Initial, true, d.now, d.now, None))
  {
    key := ItemKey(Port, "22/tcp");
    cfg := Config(7 * DAY, 3600, 6 * 3600, {key});
    d := Dossier(100, true, 90, 100, None, None, None, false, false, true, true, Some(50), Some(100), {key});
    var t: Trace := [];
    assert [Compare(d)] == t + [Compare(d)];
    RunAppend(t, Compare(d), cfg);
  }

  predicate ClockAdvances(t: Trace) {
    forall j, k :: 0 <= j < k < |t| && t[j].Compare? && t[k].Compare? ==> t[j].dossier.now <= t[k].dossier.now
  }

  /** Learning really ends: with a clock that never runs back, nothing first seen afterwards counts as learned. */
  lemma {:induction false} LearnedWhileLearning(t: Trace, key: ItemKey, cfg: Config)
    requires ClockAdvances(t)
    ensures var item, row := ItemRun(t, key, cfg).item, RowRun(t, cfg).row;
      item.Some? && item.value.origin == Learned ==>
        && row.Some?
        && (row.value.establishedAt.Some? ==> item.value.firstSeen <= row.value.establishedAt.value)
        && exists j :: 0 <= j < |t| && t[j].Compare? && t[j].dossier.now == item.value.firstSeen
  {
    if t == [] {
    } else {
      var n := |t| - 1;
      LearnedWhileLearning(t[..n], key, cfg);
      ApprovalHasAReason(t[..n], key, cfg);
      LearnedStep(RowRun(t[..n], cfg), ItemRun(t[..n], key, cfg), t[n], key, cfg);
      hide StepItem, StepScalars;
      var before, after := ItemRun(t[..n], key, cfg).item, ItemRun(t, key, cfg).item;
      if IsLearned(after) && IsLearned(before) {
        var j :| 0 <= j < n && t[..n][j].Compare? && t[..n][j].dossier.now == before.value.firstSeen;
        assert t[j] == t[..n][j];
      }
    }
  }

  predicate IsLearned(item: Option<Item>) { item.Some? && item.value.origin == Learned }

  /** What is learned after one step was learned before, or just now; learning ends at a comparison or not at all. */
  lemma LearnedStep(s: Scalars, c: Cell, op: Op, key: ItemKey, cfg: Config)
    requires s.row.None? ==> c.item.None?
    ensures var (row, next) := (s.row, StepScalars(s, op, cfg).row);
      var (before, after) := (c.item, StepItem(c, s.row, op, key, cfg).item);
      IsLearned(after) ==>
        && next.Some?
        && if IsLearned(before)
           then after.value.firstSeen == before.value.firstSeen && row.Some?
                && (next.value.establishedAt == row.value.establishedAt
                    || (op.Compare? && next.value.establishedAt == Some(op.dossier.now)))
           else op.Compare? && after.value.firstSeen == op.dossier.now
                && (next.value.establishedAt.None? || next.value.establishedAt == Some(op.dossier.now))
  {}

  // ---- the change ledger ------------------------------------------------------------

  function SinceReset(log: seq<ItemEvent>): seq<ItemEvent> {
    if log == [] || log[|log| - 1].Forgotten? then []
    else SinceReset(log[..|log| - 1]) + [log[|log| - 1]]
  }

  lemma SinceResetAppend(log: seq<ItemEvent>, e: ItemEvent)
    ensures SinceReset(log + [e]) == if e.Forgotten? then [] else SinceReset(log) + [e]
  {
    assert (log + [e])[..|log|] == log;
  }

  /** New, removed, new, ...; only the first appearance is not a return. */
  ghost predicate Alternates(log: seq<ItemEvent>) {
    forall k :: 0 <= k < |log| ==>
      if k % 2 == 0 then log[k].Appeared? && (log[k].returned <==> k > 0) else log[k].Vanished?
  }

  /** The ledger of an item the operator has not accepted: strict alternation whose end says whether it is present. */
  ghost predicate Pending(c: Cell) {
    var log := SinceReset(c.log);
    match c.item
    case None => log == []
    case Some(i) => !i.inBaseline ==> Alternates(log) && log != [] && (i.present <==> |log| % 2 == 1)
  }

  lemma PendingStep(c: Cell, row: Option<Row>, op: Op, key: ItemKey, cfg: Config)
    requires Pending(c) && !Evicts(op, key)
    ensures Pending(StepItem(c, row, op, key, cfg))
  {
    hide SinceReset;
    var after := StepItem(c, row, op, key, cfg);
    if after.log != c.log { SinceResetAppend(c.log, after.log[|c.log|]); }
  }

  /** Since the last reset the row cap has not taken `key`. */
  predicate SparedSinceReset(t: Trace, key: ItemKey) {
    t == [] || t[|t| - 1].Reset? || (!Evicts(t[|t| - 1], key) && SparedSinceReset(t[..|t| - 1], key))
  }

  lemma {:induction false} PendingItemsAlternate(t: Trace, key: ItemKey, cfg: Config)
    requires SparedSinceReset(t, key)
    ensures Pending(ItemRun(t, key, cfg))
  {
    if t == [] {
    } else {
      var before, op := t[..|t| - 1], t[|t| - 1];
      if op.Reset? {
        SinceResetAppend(ItemRun(before, key, cfg).log, Forgotten(op.at));
      } else {
        PendingItemsAlternate(before, key, cfg);
        PendingStep(ItemRun(before, key, cfg), RowRun(before, cfg).row, op, key, cfg);
      }
    }
  }

  /** What the row cap has taken is reported as new when it is next met, unless it is learned then. */
  lemma EvictedItemsAreReportedAgain(t: Trace, keys: set<ItemKey>, d: Dossier, key: ItemKey, cfg: Config)
    requires key in keys && key in d.observed
    requires var row := RowRun(t, cfg).row; row.Some? && Judged(key.signal, row.value, d)
    ensures var row := RowRun(t, cfg).row.value;
      ItemRun(t + [Evict(keys)] + [Compare(d)], key, cfg).log == ItemRun(t, key, cfg).log +
        if Learning(row) && key !in cfg.admin then [] else [AppearedNow(key, row, d, cfg, false)]
  {
    RunAppend(t, Evict(keys), cfg);
    RunAppend(t + [Evict(keys)], Compare(d), cfg);
    hide RowRun, ItemRun;
    var log := ItemRun(t, key, cfg).log;
    assert log + [] == log;
  }

  // ---- settling -----------------------------------------------------------------------

  /** `s` neither resets nor evicts `key`, and every comparison in it sees `key` exactly if `seen`. */
  predicate Constantly(s: Trace, key: ItemKey, seen: bool) {
    forall op :: op in s ==> !op.Reset? && !Evicts(op, key) && (op.Compare? ==> (key in op.dossier.observed <==> seen))
  }

  /** At most one event since `c`, the one that brings the ledger into line with what is observed. */
  ghost predicate SettledFrom(c: Cell, d: Cell, seen: bool) {
    d.log == c.log ||
    (|d.log| == |c.log| + 1 && d.log[..|c.log|] == c.log && d.item.Some? && d.item.value.present == seen
     && if seen then d.log[|c.log|].Appeared? else d.log[|c.log|].Vanished?)
  }

  lemma SettledStep(c: Cell, d: Cell, row: Option<Row>, op: Op, key: ItemKey, seen: bool, cfg: Config)
    requires SettledFrom(c, d, seen) && !op.Reset? && !Evicts(op, key)
    requires op.Compare? ==> (key in op.dossier.observed <==> seen)
    ensures SettledFrom(c, StepItem(d, row, op, key, cfg), seen)
  {}

  /** While what is observed of an item stays the same, at most one change is recorded for it, whatever else happens. */
  lemma {:induction false} ConstantObservationsSettle(t: Trace, s: Trace, key: ItemKey, seen: bool, cfg: Config)
    requires Constantly(s, key, seen)
    ensures SettledFrom(ItemRun(t, key, cfg), ItemRun(t + s, key, cfg), seen)
  {
    if s == [] {
      assert t + s == t;
    } else {
      hide SettledFrom, StepItem, ItemRun, RowRun;
      var n := |s| - 1;
      assert t + s == t + s[..n] + [s[n]] && s[n] in s;
      assert forall op :: op in s[..n] ==> op in s;
      ConstantObservationsSettle(t, s[..n], key, seen, cfg);
      RunAppend(t + s[..n], s[n], cfg);
      var before := ItemRun(t + s[..n], key, cfg);
      SettledStep(ItemRun(t, key, cfg), before, RowRun(t + s[..n], cfg).row, s[n], key, seen, cfg);
    }
  }

  predicate SameView(s: Trace, key: ItemKey, seen: bool) {
    forall op :: op in s ==> !op.Reset? && (op.Compare? ==> (key in op.dossier.observed <==> seen))
  }

  function Evictions(s: Trace, key: ItemKey): nat {
    if s == [] then 0 else Evictions(s[..|s| - 1], key) + if Evicts(s[|s| - 1], key) then 1 else 0
  }

  /** Whether the ledger has still to be brought into line with what is observed. */
  function Owed(c: Cell, seen: bool): nat {
    if seen == (c.item.Some? && c.item.value.present) then 0 else 1
  }

  lemma OwedStep(c: Cell, row: Option<Row>, op: Op, key: ItemKey, seen: bool, cfg: Config)
    requires !op.Reset? && (op.Compare? ==> (key in op.dossier.observed <==> seen))
    ensures var d := StepItem(c, row, op, key, cfg);
      |d.log| + Owed(d, seen) <= |c.log| + Owed(c, seen) + if Evicts(op, key) then 1 else 0
  {}

  /** With evictions, a constant observation costs at most one change and one more for each time the item was taken. */
  lemma {:induction false} EachEvictionCostsOneChange(t: Trace, s: Trace, key: ItemKey, seen: bool, cfg: Config)
    requires SameView(s, key, seen)
    ensures var (c, d) := (ItemRun(t, key, cfg), ItemRun(t + s, key, cfg));
      |d.log| + Owed(d, seen) <= |c.log| + Owed(c, seen) + Evictions(s, key)
  {
    if s == [] {
      assert t + s == t;
    } else {
      hide Owed, StepItem, ItemRun, RowRun;
      var n := |s| - 1;
      assert t + s == t + s[..n] + [s[n]] && s[n] in s;
      EachEvictionCostsOneChange(t, s[..n], key, seen, cfg);
      RunAppend(t + s[..n], s[n], cfg);
      OwedStep(ItemRun(t + s[..n], key, cfg), RowRun(t + s[..n], cfg).row, s[n], key, seen, cfg);
    }
  }

  // ---- repeating a comparison -----------------------------------------------------------

  /** The scalar half: repeating a comparison changes nothing, unless it was the seeding one on a lingering stranger. */
  lemma RepeatingTheRow(s: Scalars, d: Dossier, cfg: Config)
    requires cfg.Valid()
    ensures var once := CompareScalars(s, d, cfg); var twice := CompareScalars(once, d, cfg);
      && (twice == once <==> !(s.row.None? && UnknownNow(d, cfg)))
      && twice.log == once.log + When(s.row.None? && UnknownNow(d, cfg), UnknownPresent(d.now))
  {
    var once := CompareScalars(s, d, cfg);
    var row := once.row.value;
    assert !EstablishedNow(row, d, cfg) && !PortsFresh(row, d);
    assert !Differs(row.ipv4, d.ipv4) && !Differs(row.hostname, d.hostname) && !IdentityDiffers(row, d);
    assert NextRow(row, d, cfg) == row.(unknownFlagged := row.unknownFlagged || UnknownNow(d, cfg));
    assert once.log + [] == once.log;
  }

  lemma RepeatingAnItem(c: Cell, key: ItemKey, row: Option<Row>, d: Dossier, cfg: Config)
    requires row.None? ==> c.item.None?
    ensures var once := CompareItem(c, key, row, d, cfg);
      var next := CompareScalars(Scalars(row, []), d, cfg).row;
      CompareItem(once, key, next, d, cfg) == once
  {}

  /**
   A second comparison at the same instant records nothing and leaves row and items as they are, with exactly one
   exception: seeding never asks whether the device is an unknown one that lingers, so the comparison after it may.
   */
  lemma SecondComparisonIsSilent(t: Trace, d: Dossier, cfg: Config)
    requires cfg.Valid()
    ensures forall key :: ItemRun(t + [Compare(d)] + [Compare(d)], key, cfg) == ItemRun(t + [Compare(d)], key, cfg)
    ensures RowRun(t + [Compare(d)] + [Compare(d)], cfg) == RowRun(t + [Compare(d)], cfg)
      <==> !(RowRun(t, cfg).row.None? && UnknownNow(d, cfg))
  {
    RunAppend(t, Compare(d), cfg);
    RunAppend(t + [Compare(d)], Compare(d), cfg);
    RepeatingTheRow(RowRun(t, cfg), d, cfg);
    forall key ensures ItemRun(t + [Compare(d)] + [Compare(d)], key, cfg) == ItemRun(t + [Compare(d)], key, cfg) {
      ApprovalHasAReason(t, key, cfg);
      RepeatingAnItem(ItemRun(t, key, cfg), key, RowRun(t, cfg).row, d, cfg);
    }
  }

  /**
   If the row cap takes items during the first comparison, the second is still silent about an item exactly unless it
   was taken, is observed and judged again, and is not learned.
   */
  lemma SilentAfterEvictionExactlyWhen(t: Trace, d: Dossier, keys: set<ItemKey>, key: ItemKey, cfg: Config)
    requires cfg.Valid()
    ensures var first := t + [Compare(d)];
      var row := RowRun(first, cfg).row;
      && row.Some?
      && (ItemRun(first + [Evict(keys)] + [Compare(d)], key, cfg).log == ItemRun(first, key, cfg).log <==>
          !(key in keys && key in d.observed && Judged(key.signal, row.value, d)
            && !(Learning(row.value) && key !in cfg.admin)))
      && (key !in keys ==> ItemRun(first + [Evict(keys)] + [Compare(d)], key, cfg) == ItemRun(first, key, cfg))
  {
    var first := t + [Compare(d)];
    RunAppend(t, Compare(d), cfg);
    RunAppend(first, Evict(keys), cfg);
    RunAppend(first + [Evict(keys)], Compare(d), cfg);
    ApprovalHasAReason(t, key, cfg);
    RepeatingAnItem(ItemRun(t, key, cfg), key, RowRun(t, cfg).row, d, cfg);
    SameNextRow(RowRun(t, cfg), d, cfg);
    hide RowRun, ItemRun;
  }

  /** The next row of a comparison does not depend on the log. */
  lemma SameNextRow(s: Scalars, d: Dossier, cfg: Config)
    ensures CompareScalars(s, d, cfg).row == CompareScalars(Scalars(s.row, []), d, cfg).row
    ensures CompareScalars(s, d, cfg).row.Some?
  {}

  /**
   The exception is real: a stranger turns up while the monitor is watching, the operator resets its baseline two hours
   later, and of the two comparisons that follow at once the second reports it.
   */
  lemma SeedingIsNotRepeatable() returns (t: Trace, d: Dossier, cfg: Config)
    ensures cfg.Valid() && d.watchingSince.Some? && d.firstSeen > d.watchingSince.value
    ensures RowRun(t + [Compare(d)], cfg).log == []
    ensures RowRun(t + [Compare(d)] + [Compare(d)], cfg).log == [UnknownPresent(d.now)]
  {
    cfg := Config(7 * DAY, 3600, 6 * 3600, {});
    var first := Dossier(100, true, 100, 100, None, None, None, false, false, true, true, Some(50), None, {});
    d := Dossier(7300, true, 100, 7300, None, None, None, false, false, true, true, Some(50), None, {});
    var s := Scalars(None, []);
    s := OnRow([], Compare(first), s, cfg);
    s := OnRow([] + [Compare(first)], Reset(7200), s, cfg);
    t := [] + [Compare(first)] + [Reset(7200)];
    assert s == Scalars(None, []);
    RepeatingTheRow(s, d, cfg);
    s := OnRow(t, Compare(d), s, cfg);
    s := OnRow(t + [Compare(d)], Compare(d), s, cfg);
  }

  lemma OnRow(t: Trace, op: Op, s: Scalars, cfg: Config) returns (next: Scalars)
    requires RowRun(t, cfg) == s
    ensures RowRun(t + [op], cfg) == next == StepScalars(s, op, cfg)
  {
    RunAppend(t, op, cfg);
    next := StepScalars(s, op, cfg);
  }
}
