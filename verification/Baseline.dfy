/**
 What is normal for one device, and what changed.

 Each tracked item (an open port, an advertised service, an IPv6 prefix) is judged on its own, given the device's
 baseline row, so a run is given here as one fold for the row and one fold per item. `BaselineStore` proves that the
 comparison, with its loops over signals, values and stored items, computes exactly these.
 */
module Baseline {
  import opened Options

  datatype Signal = Port | Mdns | Ssdp | Ipv6Prefix | Ip | Hostname | Identity

  datatype ItemKey = ItemKey(signal: Signal, value: string)

  datatype Origin = Initial | Learned | Accepted | Observed

  datatype Item = Item(
    inBaseline: bool, origin: Origin, present: bool, firstSeen: int, lastSeen: int, removedAt: Option<int>)

  datatype Significance = Info | Low | Medium | High

  /** What the change log says about one item; `Forgotten` is a baseline reset. */
  datatype ItemEvent =
    | Appeared(at: int, returned: bool, significance: Significance, suppressed: bool)
    | Vanished(at: int, significance: Significance, suppressed: bool)
    | Forgotten(at: int)

  datatype ScalarEvent =
    | Established(at: int)
    | IpChanged(at: int, was: string, now: string, suppressed: bool)
    | HostnameChanged(at: int, was: string, now: string, suppressed: bool)
    | IdentityChanged(at: int, suppressed: bool)
    | TrustChanged(at: int, trusted: bool)
    | UnknownPresent(at: int)

  /** The `device_baselines` row. */
  datatype Row = Row(
    startedAt: int, establishedAt: Option<int>, excluded: set<Signal>,
    ipv4: Option<string>, hostname: Option<string>, category: Option<string>, manufacturer: Option<string>,
    trusted: bool, inspectionAt: Option<int>, unknownFlagged: bool)

  /** Everything one comparison knows about the device; `identity` is absent while nothing is known. */
  datatype Dossier = Dossier(
    now: int, online: bool, firstSeen: int, lastSeen: int, ipv4: Option<string>, hostname: Option<string>,
    identity: Option<(string, Option<string>)>, serverLike: bool, trusted: bool,
    reviewPending: bool, reviewNeeded: bool, watchingSince: Option<int>,
    inspectedAt: Option<int>, observed: set<ItemKey>)

  datatype Config = Config(learning: int, unknownAfter: int, removalAfter: int, admin: set<ItemKey>) {
    /** The configuration loader accepts positive durations only. */
    predicate Valid() { learning > 0 && unknownAfter > 0 && removalAfter > 0 }
  }

  const DAY := 86400
  const LAST_SEEN_REFRESH := 3600

  // ---- one item ----------------------------------------------------------------

  datatype Cell = Cell(item: Option<Item>, log: seq<ItemEvent>)

  const UNTRACKED := Cell(None, [])

  predicate Learning(row: Row) { row.establishedAt.None? }

  predicate PortsFresh(row: Row, d: Dossier) {
    d.inspectedAt.Some? && (row.inspectionAt.None? || d.inspectedAt.value > row.inspectionAt.value)
  }

  /** Whether this comparison judges items of `s` at all. */
  predicate Judged(s: Signal, row: Row, d: Dossier) {
    match s
    case Port => PortsFresh(row, d)
    case Mdns => d.online
    case Ssdp => d.online
    case Ipv6Prefix => true
    case _ => false
  }

  predicate Trackable(s: Signal) { s in {Port, Mdns, Ssdp, Ipv6Prefix} }

  function NewSignificance(key: ItemKey, row: Row, d: Dossier, cfg: Config): Significance {
    if key.signal == Ipv6Prefix then Info
    else if key in cfg.admin then High
    else if !Learning(row) && d.trusted && d.serverLike then Medium
    else Low
  }

  function AppearedNow(key: ItemKey, row: Row, d: Dossier, cfg: Config, returned: bool): ItemEvent {
    Appeared(d.now, returned, NewSignificance(key, row, d, cfg), key.signal in row.excluded)
  }

  function VanishedNow(key: ItemKey, item: Item, row: Row, d: Dossier): ItemEvent {
    Vanished(d.now, if item.inBaseline then Low else Info, key.signal in row.excluded)
  }

  /** An observed value: learned, reported, welcomed back, or merely refreshed. */
  function Meet(c: Cell, key: ItemKey, row: Row, d: Dossier, cfg: Config): Cell {
    match c.item
    case None =>
      if Learning(row) && key !in cfg.admin then c.(item := Some(Item(true, Learned, true, d.now, d.now, None)))
      else Cell(Some(Item(false, Observed, true, d.now, d.now, None)),
                c.log + [AppearedNow(key, row, d, cfg, false)])
    case Some(i) =>
      if !i.present then
        Cell(Some(i.(present := true, removedAt := None, lastSeen := d.now)),
             if i.inBaseline then c.log else c.log + [AppearedNow(key, row, d, cfg, true)])
      else if d.now - i.lastSeen >= LAST_SEEN_REFRESH then c.(item := Some(i.(lastSeen := d.now)))
      else c
  }

  predicate GoneLongEnough(key: ItemKey, item: Item, d: Dossier, cfg: Config) {
    key.signal == Port || d.now - item.lastSeen >= cfg.removalAfter
  }

  /** A value that was not observed: removed, unless it is a prefix, already gone, or missing too briefly. */
  function Lose(c: Cell, key: ItemKey, row: Row, d: Dossier, cfg: Config): Cell {
    if key.signal == Ipv6Prefix || c.item.None? || !c.item.value.present
       || !GoneLongEnough(key, c.item.value, d, cfg) then c
    else Cell(Some(c.item.value.(present := false, removedAt := Some(d.now))),
              c.log + [VanishedNow(key, c.item.value, row, d)])
  }

  function Seed(c: Cell, key: ItemKey, d: Dossier): Cell {
    if key in d.observed && Trackable(key.signal) then
      c.(item := Some(Item(true, Initial, true,
                           if c.item.Some? then c.item.value.firstSeen else d.now, d.now, None)))
    else c
  }

  function CompareItem(c: Cell, key: ItemKey, row: Option<Row>, d: Dossier, cfg: Config): Cell {
    if row.None? then Seed(c, key, d)
    else if !Judged(key.signal, row.value, d) then c
    else if key in d.observed then Meet(c, key, row.value, d, cfg)
    else Lose(c, key, row.value, d, cfg)
  }

  function Accept(c: Cell): Cell {
    if c.item.Some? && !c.item.value.inBaseline then
      c.(item := Some(c.item.value.(inBaseline := true, origin := Accepted)))
    else c
  }

  // ---- the baseline row ----------------------------------------------------------

  function FirstRow(d: Dossier): Row {
    Row(d.now, None, {}, d.ipv4, d.hostname,
        if d.identity.Some? then Some(d.identity.value.0) else None,
        if d.identity.Some? then d.identity.value.1 else None,
        d.trusted, d.inspectedAt, false)
  }

  predicate EstablishedNow(row: Row, d: Dossier, cfg: Config) {
    Learning(row) && d.now - row.startedAt >= cfg.learning
    && d.lastSeen - row.startedAt >= if cfg.learning < DAY then cfg.learning else DAY
  }

  function Lower(s: string): string {
    seq(|s|, k requires 0 <= k < |s| => if 'A' <= s[k] <= 'Z' then (s[k] as int + 32) as char else s[k])
  }

  /** Both sides are known, non-empty and different. */
  predicate Differs(was: Option<string>, latest: Option<string>) {
    was.Some? && latest.Some? && was.value != "" && latest.value != "" && was.value != latest.value
  }

  predicate HostnameDiffers(row: Row, d: Dossier) {
    Differs(row.hostname, d.hostname) && Lower(row.hostname.value) != Lower(d.hostname.value)
  }

  predicate IdentityDiffers(row: Row, d: Dossier) {
    d.identity.Some? &&
    (var (category, maker) := d.identity.value;
     || (row.category.Some? && row.category.value != "Unknown" && category != "Unknown"
         && category != row.category.value)
     || Differs(row.manufacturer, maker))
  }

  predicate UnknownNow(d: Dossier, cfg: Config) {
    && (d.watchingSince.None? || d.firstSeen > d.watchingSince.value)
    && !d.trusted && d.online && d.reviewPending && d.reviewNeeded
    && d.now - d.firstSeen >= cfg.unknownAfter
  }

  function Keep(latest: Option<string>, was: Option<string>): Option<string> {
    if latest.Some? && latest.value != "" then latest else was
  }

  function AddressFields(row: Row, d: Dossier): Row {
    row.(inspectionAt := if PortsFresh(row, d) then d.inspectedAt else row.inspectionAt,
         ipv4 := Keep(d.ipv4, row.ipv4),
         hostname := Keep(d.hostname, row.hostname))
  }

  function StandingFields(row: Row, d: Dossier, cfg: Config): Row {
    row.(category := if d.identity.Some? then Some(d.identity.value.0) else row.category,
         manufacturer := if d.identity.Some? then Keep(d.identity.value.1, row.manufacturer) else row.manufacturer,
         trusted := d.trusted,
         unknownFlagged := if row.unknownFlagged then !d.trusted && d.reviewNeeded else UnknownNow(d, cfg))
  }

  function NextRow(row: Row, d: Dossier, cfg: Config): Row {
    StandingFields(AddressFields(row, d), d, cfg).(
      establishedAt := if EstablishedNow(row, d, cfg) then Some(d.now) else row.establishedAt)
  }

  function When(condition: bool, e: ScalarEvent): seq<ScalarEvent> {
    if condition then [e] else []
  }

  function AddressChanges(row: Row, d: Dossier): seq<ScalarEvent> {
    (if Differs(row.ipv4, d.ipv4)
     then [IpChanged(d.now, row.ipv4.value, d.ipv4.value, Ip in row.excluded)] else [])
    + (if HostnameDiffers(row, d)
       then [HostnameChanged(d.now, row.hostname.value, d.hostname.value, Hostname in row.excluded)] else [])
  }

  function StandingChanges(row: Row, d: Dossier, cfg: Config): seq<ScalarEvent> {
    When(IdentityDiffers(row, d), IdentityChanged(d.now, Identity in row.excluded))
    + When(d.trusted != row.trusted, TrustChanged(d.now, d.trusted))
    + When(!row.unknownFlagged && UnknownNow(d, cfg), UnknownPresent(d.now))
  }

  function ScalarChanges(row: Row, d: Dossier, cfg: Config): seq<ScalarEvent> {
    When(EstablishedNow(row, d, cfg), Established(d.now)) + AddressChanges(row, d) + StandingChanges(row, d, cfg)
  }

  datatype Scalars = Scalars(row: Option<Row>, log: seq<ScalarEvent>)

  function CompareScalars(s: Scalars, d: Dossier, cfg: Config): Scalars {
    if s.row.None? then s.(row := Some(FirstRow(d)))
    else Scalars(Some(NextRow(s.row.value, d, cfg)), s.log + ScalarChanges(s.row.value, d, cfg))
  }

  // ---- runs ------------------------------------------------------------------------

  /** `Evict` is what the row cap of the item table takes; nothing is logged about it. */
  datatype Op =
    | Compare(dossier: Dossier)
    | AcceptItem(key: ItemKey)
    | AcceptPending
    | Reset(at: int)
    | Evict(keys: set<ItemKey>)
    | Exclude(signals: set<Signal>)

  type Trace = seq<Op>

  function StepScalars(s: Scalars, op: Op, cfg: Config): Scalars {
    match op
    case Compare(d) => CompareScalars(s, d, cfg)
    case Reset(_) => s.(row := None)
    case Exclude(signals) => if s.row.Some? then s.(row := Some(s.row.value.(excluded := signals))) else s
    case _ => s
  }

  function StepItem(c: Cell, row: Option<Row>, op: Op, key: ItemKey, cfg: Config): Cell {
    match op
    case Compare(d) => CompareItem(c, key, row, d, cfg)
    case AcceptItem(k) => if k == key then Accept(c) else c
    case AcceptPending => Accept(c)
    case Reset(at) => Cell(None, c.log + [Forgotten(at)])
    case Evict(keys) => if key in keys then c.(item := None) else c
    case Exclude(_) => c
  }

  function RowRun(t: Trace, cfg: Config): Scalars {
    if t == [] then Scalars(None, []) else StepScalars(RowRun(t[..|t| - 1], cfg), t[|t| - 1], cfg)
  }

  function ItemRun(t: Trace, key: ItemKey, cfg: Config): Cell {
    if t == [] then UNTRACKED
    else StepItem(ItemRun(t[..|t| - 1], key, cfg), RowRun(t[..|t| - 1], cfg).row, t[|t| - 1], key, cfg)
  }

  lemma RunAppend(t: Trace, op: Op, cfg: Config)
    ensures RowRun(t + [op], cfg) == StepScalars(RowRun(t, cfg), op, cfg)
    ensures forall key ::
              ItemRun(t + [op], key, cfg) == StepItem(ItemRun(t, key, cfg), RowRun(t, cfg).row, op, key, cfg)
  {
    assert (t + [op])[..|t|] == t;
  }
}
