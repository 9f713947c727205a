/**
 What a comparison judges and records, told from the comparisons before it.

 The row and the items of `Baseline` condense a run. Here every column is traced back to the comparisons since the one
 that seeded the baseline, and what the next comparison records is said in terms of those, so nothing below names the
 rules by which the columns are kept.
 */
module BaselineHistory {
  import opened Options
  import opened Baseline
  import opened BaselineRuns

  // ---- what the comparisons told ----------------------------------------------------------

  /** An empty text says as little as none. */
  function Named(text: Option<string>): Option<string> { if text == Some("") then None else text }

  function IPv4Of(d: Dossier): Option<string> { Named(d.ipv4) }

  function HostOf(d: Dossier): Option<string> { Named(d.hostname) }

  function CategoryOf(d: Dossier): Option<string> { if d.identity.Some? then Some(d.identity.value.0) else None }

  function MakerOf(d: Dossier): Option<string> { if d.identity.Some? then Named(d.identity.value.1) else None }

  /** The last thing that the comparisons from step `i` on told, if any of them told it. */
  ghost predicate ToldLast(t: Trace, i: nat, tell: Dossier -> Option<string>, v: Option<string>) {
    if v.None? then forall j :: i <= j < |t| && t[j].Compare? ==> tell(t[j].dossier).None?
    else exists j :: i <= j < |t| && t[j].Compare? && tell(t[j].dossier) == v
                     && forall k :: j < k < |t| && t[k].Compare? ==> tell(t[k].dossier).None?
  }

  lemma ToldByOneMore(t: Trace, op: Op, i: nat, tell: Dossier -> Option<string>, v: Option<string>)
    requires i <= |t| && ToldLast(t, i, tell, v)
    ensures ToldLast(t + [op], i, tell, if op.Compare? && tell(op.dossier).Some? then tell(op.dossier) else v)
  {
    var more := t + [op];
    assert more[|t|] == op && forall k :: 0 <= k < |t| ==> more[k] == t[k];
  }

  /** The trust, the inspection and the exclusions that the steps from `i` on gave last. */
  ghost predicate TrustTold(t: Trace, i: nat, trusted: bool) {
    exists j :: i <= j < |t| && t[j].Compare? && t[j].dossier.trusted == trusted
                && forall k :: j < k < |t| ==> !t[k].Compare?
  }

  ghost predicate ExcludedTold(t: Trace, i: nat, excluded: set<Signal>) {
    || (excluded == {} && forall j :: i < j < |t| ==> !t[j].Exclude?)
    || exists j :: i < j < |t| && t[j].Exclude? && t[j].signals == excluded
                   && forall k :: j < k < |t| ==> !t[k].Exclude?
  }

  /** The newest inspection that any of these comparisons was given. */
  ghost predicate NewestInspection(t: Trace, i: nat, at: Option<int>) {
    && (forall j :: i <= j < |t| && t[j].Compare? && t[j].dossier.inspectedAt.Some? ==>
          at.Some? && t[j].dossier.inspectedAt.value <= at.value)
    && (at.Some? ==> exists j :: i <= j < |t| && t[j].Compare? && t[j].dossier.inspectedAt == at)
  }

  /** Learning can end: long enough after the seeding at `start`, and the device was seen late enough for that. */
  predicate Ripe(start: int, d: Dossier, cfg: Config) {
    d.now >= start + cfg.learning && (d.lastSeen >= start + cfg.learning || d.lastSeen >= start + 24 * 60 * 60)
  }

  /** Learning ended at the first ripe comparison after the seeding one. */
  ghost predicate LearnedUntil(t: Trace, i: nat, at: Option<int>, cfg: Config)
    requires i < |t| && t[i].Compare?
  {
    var start := t[i].dossier.now;
    match at
    case None => forall j :: i < j < |t| && t[j].Compare? ==> !Ripe(start, t[j].dossier, cfg)
    case Some(end) =>
      exists j :: i < j < |t| && t[j].Compare? && Ripe(start, t[j].dossier, cfg) && t[j].dossier.now == end
                  && forall k :: i < k < j && t[k].Compare? ==> !Ripe(start, t[k].dossier, cfg)
  }

  /** A stranger who arrived after the monitor began to watch, is there, is not reviewed, and has stayed long enough. */
  predicate IsLingeringStranger(d: Dossier, cfg: Config) {
    && d.online && !d.trusted && d.reviewNeeded && d.reviewPending
    && (d.watchingSince.Some? ==> d.watchingSince.value < d.firstSeen)
    && d.firstSeen + cfg.unknownAfter <= d.now
  }

  /** A stranger was reported, and every comparison since left it untrusted and in need of review. */
  ghost predicate Reported(t: Trace, i: nat, cfg: Config) {
    exists j :: i < j < |t| && t[j].Compare? && IsLingeringStranger(t[j].dossier, cfg)
                && forall k :: j <= k < |t| && t[k].Compare? ==> !t[k].dossier.trusted && t[k].dossier.reviewNeeded
  }

  /** Every column of the row, told from the steps since the seeding at `i`. */
  ghost predicate RowTold(t: Trace, i: nat, row: Row, cfg: Config)
    requires i < |t| && t[i].Compare?
  {
    && row.startedAt == t[i].dossier.now
    && ToldLast(t, i, IPv4Of, Named(row.ipv4)) && ToldLast(t, i, HostOf, Named(row.hostname))
    && ToldLast(t, i, CategoryOf, row.category) && ToldLast(t, i, MakerOf, Named(row.manufacturer))
    && TrustTold(t, i, row.trusted) && ExcludedTold(t, i, row.excluded) && NewestInspection(t, i, row.inspectionAt)
    && LearnedUntil(t, i, row.establishedAt, cfg)
    && (row.unknownFlagged <==> Reported(t, i, cfg))
  }

  // ---- one more step ------------------------------------------------------------------------

  lemma SeedTold(t: Trace, d: Dossier, cfg: Config)
    ensures RowTold(t + [Compare(d)], |t|, FirstRow(d), cfg)
  {
    var more := t + [Compare(d)];
    assert more[|t|] == Compare(d);
    hide Ripe, IsLingeringStranger;
    assert ToldLast(more, |t|, IPv4Of, IPv4Of(d)) && ToldLast(more, |t|, HostOf, HostOf(d));
    assert ToldLast(more, |t|, CategoryOf, CategoryOf(d)) && ToldLast(more, |t|, MakerOf, MakerOf(d));
  }

  lemma TrustByOneMore(t: Trace, op: Op, i: nat, trusted: bool)
    requires i <= |t| && TrustTold(t, i, trusted)
    ensures TrustTold(t + [op], i, if op.Compare? then op.dossier.trusted else trusted)
  {
    var more := t + [op];
    assert more[|t|] == op && forall k :: 0 <= k < |t| ==> more[k] == t[k];
  }

  lemma ExcludedByOneMore(t: Trace, op: Op, i: nat, excluded: set<Signal>)
    requires i < |t| && ExcludedTold(t, i, excluded)
    ensures ExcludedTold(t + [op], i, if op.Exclude? then op.signals else excluded)
  {
    var more := t + [op];
    assert more[|t|] == op && forall k :: 0 <= k < |t| ==> more[k] == t[k];
  }

  lemma InspectionByOneMore(t: Trace, op: Op, i: nat, at: Option<int>)
    requires i <= |t| && NewestInspection(t, i, at)
    ensures NewestInspection(t + [op], i,
              if op.Compare? && op.dossier.inspectedAt.Some? && (at.None? || op.dossier.inspectedAt.value > at.value)
              then op.dossier.inspectedAt else at)
  {
    var more := t + [op];
    assert more[|t|] == op && forall k :: 0 <= k < |t| ==> more[k] == t[k];
  }

  lemma LearningByOneMore(t: Trace, op: Op, i: nat, at: Option<int>, cfg: Config)
    requires i < |t| && t[i].Compare? && LearnedUntil(t, i, at, cfg)
    ensures (t + [op])[i] == t[i]
    ensures LearnedUntil(t + [op], i, if at.None? && op.Compare? && Ripe(t[i].dossier.now, op.dossier, cfg)
                                      then Some(op.dossier.now) else at, cfg)
  {
    var more := t + [op];
    hide Ripe;
    assert more[|t|] == op && forall k :: 0 <= k < |t| ==> more[k] == t[k];
  }

  lemma ReportedByOneMore(t: Trace, op: Op, i: nat, cfg: Config)
    requires i < |t|
    ensures Reported(t + [op], i, cfg) <==>
      if !op.Compare? then Reported(t, i, cfg)
      else if Reported(t, i, cfg) then !op.dossier.trusted && op.dossier.reviewNeeded
      else IsLingeringStranger(op.dossier, cfg)
  {
    var more := t + [op];
    assert op.Compare? && IsLingeringStranger(op.dossier, cfg) ==> !op.dossier.trusted && op.dossier.reviewNeeded;
    hide IsLingeringStranger;
    assert more[|t|] == op && forall k :: 0 <= k < |t| ==> more[k] == t[k];
  }

  /** The next row, column by column. */
  lemma ColumnsByOneMore(row: Row, op: Op, cfg: Config)
    requires !op.Reset?
    ensures var next := StepScalars(Scalars(Some(row), []), op, cfg).row;
      && next.Some? && next.value.startedAt == row.startedAt
      && next.value.excluded == (if op.Exclude? then op.signals else row.excluded)
      && (!op.Compare? ==> next.value == row.(excluded := next.value.excluded))
  {}

  lemma ToldColumns(row: Row, d: Dossier, cfg: Config)
    ensures var next := NextRow(row, d, cfg);
      && Named(next.ipv4) == (if IPv4Of(d).Some? then IPv4Of(d) else Named(row.ipv4))
      && Named(next.hostname) == (if HostOf(d).Some? then HostOf(d) else Named(row.hostname))
      && next.category == (if CategoryOf(d).Some? then CategoryOf(d) else row.category)
      && Named(next.manufacturer) == (if MakerOf(d).Some? then MakerOf(d) else Named(row.manufacturer))
  {}

  lemma OtherColumns(row: Row, d: Dossier, cfg: Config)
    ensures var next := NextRow(row, d, cfg);
      && next.trusted == d.trusted
      && next.inspectionAt == (if d.inspectedAt.Some? && (row.inspectionAt.None? ||
                                 d.inspectedAt.value > row.inspectionAt.value) then d.inspectedAt else row.inspectionAt)
      && next.establishedAt == (if row.establishedAt.None? && Ripe(row.startedAt, d, cfg) then Some(d.now)
                                else row.establishedAt)
      && (next.unknownFlagged <==>
            if row.unknownFlagged then !d.trusted && d.reviewNeeded else IsLingeringStranger(d, cfg))
  {}

  lemma RowByOneMore(t: Trace, op: Op, i: nat, row: Row, cfg: Config)
    requires i < |t| && t[i].Compare? && RowTold(t, i, row, cfg) && !op.Reset?
    ensures (t + [op])[i] == t[i]
    ensures var next := StepScalars(Scalars(Some(row), []), op, cfg).row;
      next.Some? && RowTold(t + [op], i, next.value, cfg)
  {
    ToldByOneMore(t, op, i, IPv4Of, Named(row.ipv4));
    ToldByOneMore(t, op, i, HostOf, Named(row.hostname));
    ToldByOneMore(t, op, i, CategoryOf, row.category);
    ToldByOneMore(t, op, i, MakerOf, Named(row.manufacturer));
    TrustByOneMore(t, op, i, row.trusted);
    ExcludedByOneMore(t, op, i, row.excluded);
    InspectionByOneMore(t, op, i, row.inspectionAt);
    LearningByOneMore(t, op, i, row.establishedAt, cfg);
    ReportedByOneMore(t, op, i, cfg);
    ColumnsByOneMore(row, op, cfg);
    if op.Compare? {
      ToldColumns(row, op.dossier, cfg);
      OtherColumns(row, op.dossier, cfg);
    }
    hide ToldLast, TrustTold, ExcludedTold, NewestInspection, LearnedUntil, Reported, NextRow, Ripe;
    hide Named, IPv4Of, HostOf, CategoryOf, MakerOf, IsLingeringStranger;
  }

  /** While a baseline is in force its row tells what the comparisons since the seeding one told. */
  lemma {:induction false} RowIsTold(t: Trace, i: nat, cfg: Config)
    requires SeededAt(t, i, cfg)
    ensures var row := RowRun(t, cfg).row; row.Some? && RowTold(t, i, row.value, cfg)
  {
    var n := |t| - 1;
    var before, op := t[..n], t[n];
    assert t == before + [op];
    RunAppend(before, op, cfg);
    if i == n {
      SeedTold(before, op.dossier, cfg);
    } else {
      assert before[..i] == t[..i];
      RowIsTold(before, i, cfg);
      RowByOneMore(before, op, i, RowRun(before, cfg).row.value, cfg);
      RowAlone(RowRun(before, cfg), op, cfg);
      hide RowRun, RowTold, StepScalars;
    }
  }

  /** The next row does not depend on the log. */
  lemma RowAlone(s: Scalars, op: Op, cfg: Config)
    ensures StepScalars(s, op, cfg).row == StepScalars(Scalars(s.row, []), op, cfg).row
  {}

  lemma ToldOnce(t: Trace, i: nat, tell: Dossier -> Option<string>, a: Option<string>, b: Option<string>)
    requires ToldLast(t, i, tell, a) && ToldLast(t, i, tell, b)
    ensures a == b
  {}

  lemma SetOnce(t: Trace, i: nat, a: bool, b: bool, x: set<Signal>, y: set<Signal>)
    ensures TrustTold(t, i, a) && TrustTold(t, i, b) ==> a == b
    ensures ExcludedTold(t, i, x) && ExcludedTold(t, i, y) ==> x == y
  {}

  // ---- items ----------------------------------------------------------------------------------

  ghost predicate StillLearning(t: Trace, i: nat, cfg: Config)
    requires i < |t| && t[i].Compare?
  {
    forall j :: i < j < |t| && t[j].Compare? ==> !Ripe(t[i].dossier.now, t[j].dossier, cfg)
  }

  /**
   Ports are judged by an inspection newer than every one before, advertised services while the device is online, and
   prefixes always.
   */
  ghost predicate IsJudged(t: Trace, i: nat, signal: Signal, d: Dossier) {
    match signal
    case Port =>
      && d.inspectedAt.Some?
      && forall j :: i <= j < |t| && t[j].Compare? && t[j].dossier.inspectedAt.Some? ==>
           t[j].dossier.inspectedAt.value < d.inspectedAt.value
    case Mdns => d.online
    case Ssdp => d.online
    case Ipv6Prefix => true
    case _ => false
  }

  lemma JudgedExactlyWhen(t: Trace, i: nat, signal: Signal, d: Dossier, cfg: Config)
    requires SeededAt(t, i, cfg)
    ensures RowRun(t, cfg).row.Some?
    ensures Judged(signal, RowRun(t, cfg).row.value, d) <==> IsJudged(t, i, signal, d)
    ensures Learning(RowRun(t, cfg).row.value) <==> StillLearning(t, i, cfg)
  {
    RowIsTold(t, i, cfg);
    hide RowRun, Ripe, ToldLast, TrustTold, ExcludedTold, Reported;
  }

  /** What it does not judge a comparison leaves alone: the services of a device that is offline, for one. */
  lemma UnjudgedItemsStay(t: Trace, i: nat, d: Dossier, key: ItemKey, cfg: Config)
    requires SeededAt(t, i, cfg) && !IsJudged(t, i, key.signal, d)
    ensures ItemRun(t + [Compare(d)], key, cfg) == ItemRun(t, key, cfg)
  {
    JudgedExactlyWhen(t, i, key.signal, d, cfg);
    RunAppend(t, Compare(d), cfg);
    hide RowRun, ItemRun, Judged;
  }

  /** Prefixes are hints, remote administration is a warning, and so is a trusted server after learning. */
  ghost function Weight(t: Trace, i: nat, d: Dossier, key: ItemKey, cfg: Config): Significance
    requires i < |t| && t[i].Compare?
  {
    if key.signal == Ipv6Prefix then Info
    else if key in cfg.admin then High
    else if d.trusted && d.serverLike && !StillLearning(t, i, cfg) then Medium
    else Low
  }

  /** While learning lasts new items are learned, except for remote administration; any other is reported. */
  lemma NewItemsAreLearnedOrReported(t: Trace, i: nat, d: Dossier, key: ItemKey, excluded: set<Signal>, cfg: Config)
    requires SeededAt(t, i, cfg) && ExcludedTold(t, i, excluded)
    requires IsJudged(t, i, key.signal, d) && key in d.observed && ItemRun(t, key, cfg).item.None?
    ensures var log := ItemRun(t, key, cfg).log;
      ItemRun(t + [Compare(d)], key, cfg) ==
        if StillLearning(t, i, cfg) && key !in cfg.admin
        then Cell(Some(Item(true, Learned, true, d.now, d.now, None)), log)
        else Cell(Some(Item(false, Observed, true, d.now, d.now, None)),
                  log + [Appeared(d.now, false, Weight(t, i, d, key, cfg), key.signal in excluded)])
  {
    JudgedExactlyWhen(t, i, key.signal, d, cfg);
    ExcludedIs(t, i, excluded, cfg);
    RunAppend(t, Compare(d), cfg);
    hide RowRun, ItemRun, Judged, StillLearning;
  }

  /** What was gone is welcomed back, silently if it is normal; what was there is refreshed once an hour. */
  lemma KnownItemsAreKept(t: Trace, i: nat, d: Dossier, key: ItemKey, excluded: set<Signal>, cfg: Config)
    requires SeededAt(t, i, cfg) && ExcludedTold(t, i, excluded)
    requires IsJudged(t, i, key.signal, d) && key in d.observed && ItemRun(t, key, cfg).item.Some?
    ensures var c := ItemRun(t, key, cfg);
      var item := c.item.value;
      ItemRun(t + [Compare(d)], key, cfg) ==
        Cell(Some(item.(present := true,
                        removedAt := if item.present then item.removedAt else None,
                        lastSeen := if item.present && d.now < item.lastSeen + 60 * 60 then item.lastSeen else d.now)),
             c.log + if item.present || item.inBaseline then []
                     else [Appeared(d.now, true, Weight(t, i, d, key, cfg), key.signal in excluded)])
  {
    JudgedExactlyWhen(t, i, key.signal, d, cfg);
    ExcludedIs(t, i, excluded, cfg);
    RunAppend(t, Compare(d), cfg);
    hide RowRun, ItemRun, Judged, StillLearning;
    var log := ItemRun(t, key, cfg).log;
    assert log + [] == log;
  }

  /**
   What is missing is reported as gone exactly if it was there, is not a prefix, and has been missing for long enough,
   which for a port is at once.
   */
  lemma MissingItemsVanish(t: Trace, i: nat, d: Dossier, key: ItemKey, excluded: set<Signal>, cfg: Config)
    requires SeededAt(t, i, cfg) && ExcludedTold(t, i, excluded)
    requires IsJudged(t, i, key.signal, d) && key !in d.observed
    ensures var c := ItemRun(t, key, cfg);
      ItemRun(t + [Compare(d)], key, cfg) ==
        if c.item.Some? && c.item.value.present && key.signal != Ipv6Prefix
           && (key.signal == Port || c.item.value.lastSeen + cfg.removalAfter <= d.now)
        then Cell(Some(c.item.value.(present := false, removedAt := Some(d.now))),
                  c.log + [Vanished(d.now, if c.item.value.inBaseline then Low else Info, key.signal in excluded)])
        else c
  {
    JudgedExactlyWhen(t, i, key.signal, d, cfg);
    ExcludedIs(t, i, excluded, cfg);
    RunAppend(t, Compare(d), cfg);
    hide RowRun, ItemRun, Judged;
  }

  lemma ExcludedIs(t: Trace, i: nat, excluded: set<Signal>, cfg: Config)
    requires SeededAt(t, i, cfg) && ExcludedTold(t, i, excluded)
    ensures RowRun(t, cfg).row.Some? && RowRun(t, cfg).row.value.excluded == excluded
  {
    RowIsTold(t, i, cfg);
    SetOnce(t, i, true, true, RowRun(t, cfg).row.value.excluded, excluded);
  }

  /** The comparison that seeds a baseline takes everything it observes for normal and says nothing. */
  lemma SeedingIsSilent(t: Trace, d: Dossier, key: ItemKey, cfg: Config)
    requires RowRun(t, cfg).row.None?
    ensures RowRun(t + [Compare(d)], cfg).log == RowRun(t, cfg).log
    ensures ItemRun(t + [Compare(d)], key, cfg) ==
            Cell(if key in d.observed && key.signal in {Port, Mdns, Ssdp, Ipv6Prefix}
                 then Some(Item(true, Initial, true, d.now, d.now, None)) else None, ItemRun(t, key, cfg).log)
  {
    ApprovalHasAReason(t, key, cfg);
    RunAppend(t, Compare(d), cfg);
  }

  // ---- the device itself ------------------------------------------------------------------------

  predicate SameIgnoringCase(a: string, b: string) {
    |a| == |b| && forall k :: 0 <= k < |a| ==>
      || a[k] == b[k]
      || ('A' <= a[k] <= 'Z' && b[k] as int == a[k] as int + 32)
      || ('A' <= b[k] <= 'Z' && a[k] as int == b[k] as int + 32)
  }

  lemma LowerIgnoresCase(a: string, b: string)
    ensures Lower(a) == Lower(b) <==> SameIgnoringCase(a, b)
  {
    if Lower(a) == Lower(b) {
      forall k | 0 <= k < |a|
        ensures || a[k] == b[k]
                || ('A' <= a[k] <= 'Z' && b[k] as int == a[k] as int + 32)
                || ('A' <= b[k] <= 'Z' && a[k] as int == b[k] as int + 32)
      {
        assert |Lower(a)| == |a| && Lower(a)[k] == Lower(b)[k];
      }
    }
  }

  function AddressSaid(ip: Option<string>, d: Dossier, excluded: set<Signal>): seq<ScalarEvent> {
    if ip.Some? && IPv4Of(d).Some? && ip != IPv4Of(d)
    then [IpChanged(d.now, ip.value, d.ipv4.value, Ip in excluded)] else []
  }

  function HostSaid(host: Option<string>, d: Dossier, excluded: set<Signal>): seq<ScalarEvent> {
    if host.Some? && HostOf(d).Some? && !SameIgnoringCase(host.value, d.hostname.value)
    then [HostnameChanged(d.now, host.value, d.hostname.value, Hostname in excluded)] else []
  }

  /** A known category other than `Unknown`, or a known maker, is now another one. */
  predicate IdentityMoved(category: Option<string>, maker: Option<string>, d: Dossier) {
    || (category.Some? && CategoryOf(d).Some? && category != CategoryOf(d)
        && category != Some("Unknown") && CategoryOf(d) != Some("Unknown"))
    || (maker.Some? && MakerOf(d).Some? && maker != MakerOf(d))
  }

  lemma AddressesSaid(row: Row, d: Dossier)
    ensures AddressChanges(row, d)
         == AddressSaid(Named(row.ipv4), d, row.excluded) + HostSaid(Named(row.hostname), d, row.excluded)
  {
    if row.hostname.Some? && d.hostname.Some? { LowerIgnoresCase(row.hostname.value, d.hostname.value); }
    hide Lower, SameIgnoringCase;
  }

  lemma StandingSaid(row: Row, d: Dossier, cfg: Config)
    ensures StandingChanges(row, d, cfg)
         == Say(IdentityMoved(row.category, Named(row.manufacturer), d),
                IdentityChanged(d.now, Identity in row.excluded))
            + Say(d.trusted != row.trusted, TrustChanged(d.now, d.trusted))
            + Say(!row.unknownFlagged && IsLingeringStranger(d, cfg), UnknownPresent(d.now))
  {}

  ghost function Say(condition: bool, e: ScalarEvent): seq<ScalarEvent> { if condition then [e] else [] }

  /**
   Everything a comparison says about the device itself: learning ends at the first ripe comparison, an address, a host
   name, a category or a maker changes when both the last one told and this one are known, trust when it differs from
   the last comparison's, and a lingering stranger is reported unless it has been.
   */
  lemma RowChangesExactlyWhen(t: Trace, i: nat, d: Dossier, ip: Option<string>, host: Option<string>,
                              category: Option<string>, maker: Option<string>, trusted: bool, excluded: set<Signal>,
                              cfg: Config)
    requires SeededAt(t, i, cfg) && ToldLast(t, i, IPv4Of, ip) && ToldLast(t, i, HostOf, host)
    requires ToldLast(t, i, CategoryOf, category) && ToldLast(t, i, MakerOf, maker)
    requires TrustTold(t, i, trusted) && ExcludedTold(t, i, excluded)
    ensures RowRun(t + [Compare(d)], cfg).log == RowRun(t, cfg).log
      + Say(StillLearning(t, i, cfg) && Ripe(t[i].dossier.now, d, cfg), Established(d.now))
      + AddressSaid(ip, d, excluded) + HostSaid(host, d, excluded)
      + Say(IdentityMoved(category, maker, d), IdentityChanged(d.now, Identity in excluded))
      + Say(d.trusted != trusted, TrustChanged(d.now, d.trusted))
      + Say(!Reported(t, i, cfg) && IsLingeringStranger(d, cfg), UnknownPresent(d.now))
  {
    RowIsTold(t, i, cfg);
    var row := RowRun(t, cfg).row.value;
    ToldOnce(t, i, IPv4Of, Named(row.ipv4), ip);
    ToldOnce(t, i, HostOf, Named(row.hostname), host);
    ToldOnce(t, i, CategoryOf, row.category, category);
    ToldOnce(t, i, MakerOf, Named(row.manufacturer), maker);
    SetOnce(t, i, row.trusted, trusted, row.excluded, excluded);
    AddressesSaid(row, d);
    StandingSaid(row, d, cfg);
    JudgedExactlyWhen(t, i, Port, d, cfg);
    RunAppend(t, Compare(d), cfg);
    hide RowRun, ToldLast, TrustTold, ExcludedTold, NewestInspection, Reported, StillLearning, RowTold;
    hide SameIgnoringCase, AddressChanges, StandingChanges, IsLingeringStranger;
    InOrder(RowRun(t, cfg).log, Say(Learning(row) && Ripe(row.startedAt, d, cfg), Established(d.now)),
            AddressSaid(Named(row.ipv4), d, row.excluded), HostSaid(Named(row.hostname), d, row.excluded),
            Say(IdentityMoved(row.category, Named(row.manufacturer), d),
                IdentityChanged(d.now, Identity in row.excluded)),
            Say(d.trusted != row.trusted, TrustChanged(d.now, d.trusted)),
            Say(!row.unknownFlagged && IsLingeringStranger(d, cfg), UnknownPresent(d.now)));
  }

  lemma InOrder(s: seq<ScalarEvent>, a: seq<ScalarEvent>, b: seq<ScalarEvent>, c: seq<ScalarEvent>,
                d: seq<ScalarEvent>, e: seq<ScalarEvent>, f: seq<ScalarEvent>)
    ensures s + (a + (b + c) + (d + e + f)) == s + a + b + c + d + e + f
  {}
}
