/**
 The alert tables of the store and the batch filter in front of the external channels.
 */
module Alerts {
  import opened Options
  import opened Throttle

  datatype Kind = Security | Lifecycle | Availability | NetworkService | Change

  /** The parts of a finding that decide whether it may be sent. */
  datatype Finding = Finding(
    mac: string, kind: Kind, severity: Severity, subject: string, lane: Option<string>, cooldown: Option<int>)

  datatype Config = Config(rateLimit: int, globalMax: int, globalWindow: int)

  function Name(s: Severity): string {
    match s
    case Info => "info"
    case Medium => "medium"
    case High => "high"
    case Critical => "critical"
  }

  function CooldownKey(f: Finding): Key {
    if f.kind == Availability then f.mac + "#availability#" + Name(f.severity)
    else if f.kind == NetworkService then "network_service#" + f.subject + "#" + Name(f.severity)
    else if f.lane.Some? then f.lane.value
    else f.mac
  }

  /** A normalised MAC address; what matters here is the colon after its first pair of digits. */
  predicate IsMac(s: string) { |s| == 17 && s[2] == ':' }

  /** A finding names a device, a network service, or the lane of the change it reports. */
  predicate WellFormed(f: Finding) {
    && (f.lane.Some? ==> "change#" <= f.lane.value)
    && (f.kind == NetworkService || IsMac(f.mac) || (f.lane.Some? && f.kind != Availability))
  }

  /** An absence and the recovery that answers it are in different lanes, whichever devices they are about. */
  lemma AbsenceNeverSwallowsRecovery(absence: Finding, recovery: Finding)
    requires absence.kind == recovery.kind == Availability
    requires absence.severity == Medium && recovery.severity == Info
    ensures CooldownKey(absence) != CooldownKey(recovery)
  {
    var a, r := CooldownKey(absence), CooldownKey(recovery);
    assert a[|a| - 1] == 'm' && r[|r| - 1] == 'o';
  }

  /** What findings that share a cooldown have in common. */
  predicate SameSubject(a: Finding, b: Finding) {
    if a.kind == NetworkService || b.kind == NetworkService
    then a.kind == b.kind && a.subject == b.subject && a.severity == b.severity
    else if a.kind == Availability || b.kind == Availability
    then a.kind == b.kind && a.mac == b.mac && a.severity == b.severity
    else if a.lane.Some? || b.lane.Some? then a.lane == b.lane
    else a.mac == b.mac
  }

  lemma NamesEndApart(a: Severity, b: Severity, x: string, y: string)
    requires x + "#" + Name(a) == y + "#" + Name(b)
    ensures a == b && x == y
  {
    var (s, t) := (x + "#" + Name(a), y + "#" + Name(b));
    assert s[|s| - 1] == Name(a)[|Name(a)| - 1] && t[|t| - 1] == Name(b)[|Name(b)| - 1];
    assert x == s[..|x|] && y == t[..|y|];
  }

  /** Findings share a cooldown exactly if they are about the same thing, whatever else they say. */
  lemma SameKeyExactlyWhen(a: Finding, b: Finding)
    requires WellFormed(a) && WellFormed(b)
    ensures CooldownKey(a) == CooldownKey(b) <==> SameSubject(a, b)
  {
    KeyBegins(a);
    KeyBegins(b);
    if CooldownKey(a) == CooldownKey(b) {
      if a.kind == NetworkService && b.kind == NetworkService {
        var (x, y) := ("network_service#" + a.subject, "network_service#" + b.subject);
        NamesEndApart(a.severity, b.severity, x, y);
        assert a.subject == x[16..] && b.subject == y[16..];
      } else if a.kind == Availability && b.kind == Availability {
        var (x, y) := (a.mac + "#availability", b.mac + "#availability");
        assert CooldownKey(a) == x + "#" + Name(a.severity) && CooldownKey(b) == y + "#" + Name(b.severity);
        NamesEndApart(a.severity, b.severity, x, y);
        assert a.mac == x[..17] && b.mac == y[..17];
      }
    }
  }

  /** The kinds of key differ in their length or their third character. */
  lemma KeyBegins(f: Finding)
    requires WellFormed(f)
    ensures var key := CooldownKey(f);
      && |key| > 2
      && (f.kind == NetworkService ==> key[2] == 't')
      && (f.kind == Availability ==> key[2] == ':' && |key| > 17)
      && (f.kind != NetworkService && f.kind != Availability && f.lane.Some? ==> key[2] == 'a')
      && (f.kind != NetworkService && f.kind != Availability && f.lane.None? ==> key[2] == ':' && |key| == 17)
  {
    if f.kind == NetworkService {
      assert CooldownKey(f)[..16] == "network_service#";
    } else if f.lane.Some? && f.kind != Availability {
      assert CooldownKey(f)[..7] == "change#";
    }
  }

  function CooldownOf(f: Finding, cfg: Config): int {
    if f.cooldown.Some? then f.cooldown.value else cfg.rateLimit
  }

  function AskFor(f: Finding, now: int, cfg: Config): Ask {
    Ask(CooldownKey(f), now, f.severity, CooldownOf(f, cfg))
  }

  function AsksFor(fs: seq<Finding>, now: int, cfg: Config): seq<Ask> {
    seq(|fs|, k requires 0 <= k < |fs| => AskFor(fs[k], now, cfg))
  }

  // ---- the batch order ---------------------------------------------------------

  function OfSeverity(fs: seq<Finding>, s: Severity): seq<Finding> {
    if fs == [] then [] else (if fs[0].severity == s then [fs[0]] else []) + OfSeverity(fs[1..], s)
  }

  /** A stable sort, most severe first. */
  function BySeverity(fs: seq<Finding>): seq<Finding> {
    OfSeverity(fs, Critical) + OfSeverity(fs, High) + OfSeverity(fs, Medium) + OfSeverity(fs, Info)
  }

  lemma {:induction false} OfSeverityHasIt(fs: seq<Finding>, s: Severity)
    ensures forall f :: f in OfSeverity(fs, s) <==> f in fs && f.severity == s
  {
    if fs == [] {
    } else {
      OfSeverityHasIt(fs[1..], s);
    }
  }

  ghost predicate MostSevereFirst(fs: seq<Finding>) {
    forall j, k :: 0 <= j < k < |fs| ==> Rank(fs[j].severity) >= Rank(fs[k].severity)
  }

  lemma BySeveritySorts(fs: seq<Finding>)
    ensures MostSevereFirst(BySeverity(fs))
  {
    var c, h, m, i := OfSeverity(fs, Critical), OfSeverity(fs, High), OfSeverity(fs, Medium), OfSeverity(fs, Info);
    OfSeverityHasIt(fs, Critical);
    OfSeverityHasIt(fs, High);
    OfSeverityHasIt(fs, Medium);
    OfSeverityHasIt(fs, Info);
    forall j | 0 <= j < |BySeverity(fs)|
      ensures BySeverity(fs)[j].severity ==
        if j < |c| then Critical else if j < |c + h| then High else if j < |c + h + m| then Medium else Info
    {
      var f := BySeverity(fs)[j];
      assert if j < |c| then f in c else if j < |c + h| then f in h else if j < |c + h + m| then f in m else f in i;
    }
  }

  lemma {:induction false} OfSeverityCounts(fs: seq<Finding>, s: Severity, f: Finding)
    ensures multiset(OfSeverity(fs, s))[f] == if f.severity == s then multiset(fs)[f] else 0
  {
    if fs == [] {
    } else {
      OfSeverityCounts(fs[1..], s, f);
      assert fs == [fs[0]] + fs[1..];
    }
  }

  lemma BySeverityPermutes(fs: seq<Finding>)
    ensures multiset(BySeverity(fs)) == multiset(fs)
    ensures forall f :: f in BySeverity(fs) <==> f in fs
  {
    hide OfSeverity;
    forall f ensures multiset(BySeverity(fs))[f] == multiset(fs)[f] {
      OfSeverityCounts(fs, Critical, f);
      OfSeverityCounts(fs, High, f);
      OfSeverityCounts(fs, Medium, f);
      OfSeverityCounts(fs, Info, f);
    }
    hide BySeverity;
    assert forall f :: f in BySeverity(fs) <==> f in multiset(BySeverity(fs));
  }

  // ---- the store's alert rows --------------------------------------------------------

  datatype LogRow = LogRow(at: int, severity: Severity)

  function RowFor(recorded: seq<Ask>): Option<LogRow> {
    if recorded == [] then None else Some(LogRow(recorded[|recorded| - 1].at, recorded[|recorded| - 1].severity))
  }

  lemma LastRow(recorded: seq<Ask>)
    ensures RowFor(recorded) == if Last(recorded).None? then None
                                else Some(LogRow(Last(recorded).value.at, Last(recorded).value.severity))
  {}

  /** One more call changes the row of its key alone, and only if it was due under a cooldown. */
  lemma RowAfter(asked: seq<Ask>, ask: Ask, key: Key)
    ensures RowFor(Recorded(asked + [ask], key)) ==
      if ask.key == key && ask.cooldown > 0 && Due(Last(Recorded(asked, key)), ask)
      then Some(LogRow(ask.at, ask.severity))
      else RowFor(Recorded(asked, key))
  {
    RecordedAppend(asked, ask, key);
  }

  // ---- what was sent ---------------------------------------------------------------------

  /** One finding that passed the filter, and when. */
  datatype Dispatch = Dispatch(finding: Finding, at: int)

  function TimesSent(sent: seq<Dispatch>): seq<int> {
    seq(|sent|, i requires 0 <= i < |sent| => sent[i].at)
  }

  /** When findings of one cooldown key were sent; those without a cooldown have no key to speak of. */
  function TimesSentAs(sent: seq<Dispatch>, key: Key, cfg: Config): seq<int> {
    if sent == [] then []
    else
      var (rest, last) := (TimesSentAs(sent[..|sent| - 1], key, cfg), sent[|sent| - 1]);
      if CooldownKey(last.finding) == key && CooldownOf(last.finding, cfg) > 0 then rest + [last.at] else rest
  }

  /** In no interval was more sent of a key than the cooldown recorded. */
  ghost predicate WithinRecorded(sent: seq<Dispatch>, asked: seq<Ask>, key: Key, cfg: Config) {
    forall from, length ::
      CountIn(TimesSentAs(sent, key, cfg), from, length) <= CountIn(Times(Recorded(asked, key)), from, length)
  }

  /** What was sent is what the budget granted, and of each key no more than its cooldown let through. */
  ghost predicate Accounted(sent: seq<Dispatch>, l: Ledger, asked: seq<Ask>, cfg: Config) {
    TimesSent(sent) == l.grants && forall key :: WithinRecorded(sent, asked, key, cfg)
  }

  /** A finding that was not sent can only leave more room. */
  lemma NotSending(sent: seq<Dispatch>, l: Ledger, asked: seq<Ask>, ask: Ask, cfg: Config)
    requires Accounted(sent, l, asked, cfg)
    ensures Accounted(sent, l, asked + [ask], cfg)
  {
    forall key ensures WithinRecorded(sent, asked + [ask], key, cfg) {
      assert WithinRecorded(sent, asked, key, cfg);
      RecordedAppend(asked, ask, key);
      var r := Recorded(asked, key);
      assert (r + [ask])[..|r|] == r;
      forall from, length
        ensures CountIn(TimesSentAs(sent, key, cfg), from, length)
                <= CountIn(Times(Recorded(asked + [ask], key)), from, length)
      {
        CountInAppend(Times(r), ask.at, from, length);
      }
    }
  }

  /** A finding that is due and granted is recorded, granted and sent at the same instant. */
  lemma Sending(sent: seq<Dispatch>, l: Ledger, l': Ledger, asked: seq<Ask>, f: Finding, now: int, cfg: Config)
    requires Accounted(sent, l, asked, cfg) && IsDue(asked, f, now, cfg) && l'.grants == l.grants + [now]
    ensures Accounted(sent + [Dispatch(f, now)], l', asked + [AskFor(f, now, cfg)], cfg)
  {
    var ask, more := AskFor(f, now, cfg), sent + [Dispatch(f, now)];
    assert more[..|sent|] == sent;
    assert TimesSent(more) == TimesSent(sent) + [now];
    forall key ensures WithinRecorded(more, asked + [ask], key, cfg) {
      assert WithinRecorded(sent, asked, key, cfg);
      RecordedAppend(asked, ask, key);
      var r := Recorded(asked, key);
      assert (r + [ask])[..|r|] == r;
      forall from, length
        ensures CountIn(TimesSentAs(more, key, cfg), from, length)
                <= CountIn(Times(Recorded(asked + [ask], key)), from, length)
      {
        CountInAppend(Times(r), now, from, length);
        CountInAppend(TimesSentAs(sent, key, cfg), now, from, length);
      }
    }
  }

  /** Everything asked of the two limiters so far came in clock order, and no later than `now`. */
  ghost predicate ClockAt(asked: seq<Ask>, requested: seq<int>, now: int) {
    && ClockAdvances(asked) && (forall a :: a in asked ==> a.at <= now)
    && NonDecreasing(requested) && (forall t :: t in requested ==> t <= now)
  }

  lemma ClockStays(asked: seq<Ask>, requested: seq<int>, now: int, later: int)
    requires ClockAt(asked, requested, now) && now <= later
    ensures ClockAt(asked, requested, later)
  {}

  /** The findings that the monitor hands over at one moment. */
  datatype Batch = Batch(findings: seq<Finding>, now: int)

  predicate InClockOrder(batches: seq<Batch>) {
    forall j, k :: 0 <= j < k < |batches| ==> batches[j].now <= batches[k].now
  }

  /** What passed the filter over several batches, with its times. */
  function AllSent(batches: seq<Batch>, results: seq<seq<Finding>>): seq<Dispatch>
    requires |results| == |batches|
  {
    if batches == [] then []
    else
      var n := |batches| - 1;
      AllSent(batches[..n], results[..n]) + Dispatched(results[n], batches[n].now)
  }

  lemma AllSentAppend(batches: seq<Batch>, n: nat, results: seq<seq<Finding>>, result: seq<Finding>)
    requires n < |batches| && |results| == n
    ensures AllSent(batches[..n + 1], results + [result])
         == AllSent(batches[..n], results) + Dispatched(result, batches[n].now)
  {
    assert batches[..n + 1][..n] == batches[..n] && (results + [result])[..n] == results;
  }

  lemma LaterStill(batches: seq<Batch>, n: nat, asked: seq<Ask>, requested: seq<int>)
    requires InClockOrder(batches) && n + 1 < |batches| && ClockAt(asked, requested, batches[n].now)
    ensures ClockAt(asked, requested, batches[n + 1].now)
  {
    ClockStays(asked, requested, batches[n].now, batches[n + 1].now);
  }

  class AlertStore {
    const cfg: Config
    var alertLog: map<Key, LogRow>
    var window: Option<Window>
    ghost var asked: seq<Ask>
    ghost var requested: seq<int>
    ghost var sent: seq<Dispatch>

    ghost function History(): Ledger
      reads this
    {
      SpendAll(requested, cfg.globalMax, cfg.globalWindow)
    }

    /** Each row is the last recorded dispatch of its key, and the window row is the budget's. */
    ghost predicate RowsAgree()
      reads this
    {
      && (forall key :: RowOf(key) == RowFor(Recorded(asked, key)))
      && window == History().window
    }

    ghost predicate Valid()
      reads this
    {
      RowsAgree() && Accounted(sent, History(), asked, cfg)
    }

    ghost function RowOf(key: Key): Option<LogRow>
      reads this
    {
      if key in alertLog then Some(alertLog[key]) else None
    }

    constructor (cfg: Config)
      ensures Valid() && this.cfg == cfg && asked == [] && requested == [] && sent == []
    {
      this.cfg := cfg;
      alertLog, window := map[], None;
      asked, requested, sent := [], [], [];
    }

    method DueForAlert(ask: Ask) returns (due: bool)
      requires Valid()
      modifies this`alertLog, this`asked
      ensures Valid() && asked == old(asked) + [ask]
      ensures due <==> Due(Last(Recorded(old(asked), ask.key)), ask)
    {
      hide Recorded, Extend, RowFor, Accounted;
      ghost var before := asked;
      NotSending(sent, History(), asked, ask, cfg);
      LastRow(Recorded(before, ask.key));
      assert RowOf(ask.key) == RowFor(Recorded(before, ask.key));
      due := true;
      if ask.cooldown > 0 {
        if ask.key in alertLog {
          var row := alertLog[ask.key];
          var elapsed := ask.at - row.at;
          var escalated := Rank(ask.severity) > Rank(row.severity);
          if elapsed < ask.cooldown && !escalated { due := false; }
        }
        if due { alertLog := alertLog[ask.key := LogRow(ask.at, ask.severity)]; }
      }
      asked := asked + [ask];
      forall key ensures RowOf(key) == RowFor(Recorded(asked, key)) {
        assert old(RowOf(key)) == RowFor(Recorded(before, key));
        RowAfter(before, ask, key);
      }
    }

    method ConsumeGlobalAlertBudget(now: int) returns (granted: bool)
      requires RowsAgree()
      modifies this`window, this`requested
      ensures RowsAgree() && requested == old(requested) + [now]
      ensures granted == Granted(old(window), now, cfg.globalMax, cfg.globalWindow)
      ensures History() == Spend(old(History()), now, cfg.globalMax, cfg.globalWindow)
    {
      assert (requested + [now])[..|requested|] == requested;
      requested := requested + [now];
      if cfg.globalMax <= 0 || cfg.globalWindow <= 0 { return true; }
      if window.None? || now - window.value.start >= cfg.globalWindow {
        window := Some(Window(now, 1));
        return true;
      }
      if window.value.count >= cfg.globalMax { return false; }
      window := Some(Window(window.value.start, window.value.count + 1));
      granted := true;
    }

    /**
     The batch filter. Cooldowns are asked, and recorded, before the budget: a finding the budget refuses has still
     used up its cooldown.
     */
    method FilterRateLimited(findings: seq<Finding>, now: int) returns (result: seq<Finding>)
      requires Valid()
      modifies this
      ensures Valid()
      ensures asked == old(asked) + AsksFor(BySeverity(findings), now, cfg)
      ensures Outcome(result, History()) == Filtered(old(asked), old(History()), BySeverity(findings), now, cfg)
      ensures sent == old(sent) + Dispatched(result, now)
      ensures requested == old(requested) + Moments(DueCount(old(asked), BySeverity(findings), now, cfg), now)
      ensures old(ClockAt(asked, requested, now)) ==> ClockAt(asked, requested, now)
    {
      hide Filtered, BySeverity, Accounted, DueCount, ClockAt, Sends, IsDue;
      hide Dispatched, Moments, AsksFor, Recorded, SpendAll;
      var ordered := BySeverity(findings);
      result := [];
      ghost var all := Filtered(asked, History(), ordered, now, cfg);
      ghost var charged := requested + Moments(DueCount(asked, ordered, now, cfg), now);
      ghost var (before, paid) := (asked, requested);
      assert ordered[0..] == ordered && all == all.After([]);
      NothingSent(sent, now);
      NothingAsked(ordered, now, cfg);
      var k := 0;
      while k < |ordered|
        invariant k <= |ordered|
        invariant Valid() && asked == before + AsksFor(ordered[..k], now, cfg)
        invariant sent == old(sent) + Dispatched(result, now)
        invariant charged == requested + Moments(DueCount(asked, ordered[k..], now, cfg), now)
        invariant all == Filtered(asked, History(), ordered[k..], now, cfg).After(result)
      {
        var f := ordered[k];
        FilteredStep(asked, History(), ordered[k..], now, cfg, result);
        assert ordered[k..][1..] == ordered[k + 1..];
        AsksForOneMore(ordered, k, now, cfg);
        DueCountStep(asked, ordered[k..], now, cfg, requested);
        DispatchedOneMore(old(sent), result, f, now);
        var passed := FilterOne(f, now);
        k := k + 1;
        if passed { result := result + [f]; }
      }
      assert ordered[..k] == ordered && ordered[k..] == [] && result + [] == result;
      NothingFiltered(asked, History(), now, cfg);
      NothingDue(asked, requested, now, cfg);
      ClockKeeps(before, paid, ordered, DueCount(before, ordered, now, cfg), now, cfg);
    }

    method FilterOne(f: Finding, now: int) returns (passed: bool)
      requires Valid()
      modifies this
      ensures Valid() && asked == old(asked) + [AskFor(f, now, cfg)]
      ensures passed == Sends(old(asked), old(History()), f, now, cfg)
      ensures sent == old(sent) + if passed then [Dispatch(f, now)] else []
      ensures requested == old(requested) + Moments(if IsDue(old(asked), f, now, cfg) then 1 else 0, now)
      ensures History() == if IsDue(old(asked), f, now, cfg)
                           then Spend(old(History()), now, cfg.globalMax, cfg.globalWindow) else old(History())
    {
      hide Recorded, SpendAll, Accounted;
      ghost var (before, l) := (asked, History());
      var due := DueForAlert(AskFor(f, now, cfg));
      passed := false;
      if due {
        passed := ConsumeGlobalAlertBudget(now);
        if passed {
          Sending(sent, l, History(), before, f, now, cfg);
          sent := sent + [Dispatch(f, now)];
        } else {
          SameGrants(sent, l, History(), asked, cfg);
        }
      }
    }

    ghost predicate SoFar(before: seq<Dispatch>, batches: seq<Batch>, n: nat, results: seq<seq<Finding>>)
      reads this
    {
      n <= |batches| && |results| == n && sent == before + AllSent(batches[..n], results)
    }

    lemma AllSentSoFar(before: seq<Dispatch>, batches: seq<Batch>, results: seq<seq<Finding>>)
      requires SoFar(before, batches, |batches|, results)
      ensures |results| == |batches| && sent == before + AllSent(batches, results)
    {
      assert batches[..|batches|] == batches;
    }

    method FilterNext(ghost before: seq<Dispatch>, batches: seq<Batch>, n: nat, results: seq<seq<Finding>>)
        returns (more: seq<seq<Finding>>)
      requires Valid() && n < |batches| && SoFar(before, batches, n, results)
      requires ClockAt(asked, requested, batches[n].now)
      modifies this
      ensures Valid() && SoFar(before, batches, n + 1, more) && ClockAt(asked, requested, batches[n].now)
    {
      hide Dispatched, AllSent, RowsAgree, Accounted, BySeverity, Filtered, ClockAt, AsksFor, DueCount, Moments;
      var result := FilterRateLimited(batches[n].findings, batches[n].now);
      AllSentAppend(batches, n, results, result);
      more := results + [result];
    }

    /**
     The monitor's emissions, one batch after another on a clock that never runs back: what is sent over the whole run
     stays within both limits.
     */
    method FilterBatches(batches: seq<Batch>) returns (results: seq<seq<Finding>>)
      requires Valid() && InClockOrder(batches)
      requires batches != [] ==> ClockAt(asked, requested, batches[0].now)
      modifies this
      ensures Valid() && |results| == |batches|
      ensures sent == old(sent) + AllSent(batches, results)
      ensures batches != [] ==> ClockAt(asked, requested, batches[|batches| - 1].now) && WithinBudget()
      ensures batches != [] ==> WithinCooldowns()
    {
      results := [];
      assert SoFar(sent, batches, 0, results);
      hide *;
      for n := 0 to |batches|
        invariant Valid() && |results| == n
        invariant SoFar(old(sent), batches, n, results)
        invariant n < |batches| ==> ClockAt(asked, requested, batches[n].now)
        invariant n == |batches| > 0 ==> ClockAt(asked, requested, batches[n - 1].now)
      {
        results := FilterNext(old(sent), batches, n, results);
        if n + 1 < |batches| { LaterStill(batches, n, asked, requested); }
      }
      AllSentSoFar(old(sent), batches, results);
      if batches != [] { OnTheClock(batches[|batches| - 1].now); }
    }

    ghost predicate WithinBudget()
      reads this
    {
      cfg.globalMax > 0 && cfg.globalWindow > 0 ==>
        && (forall from :: CountIn(TimesSent(sent), from, cfg.globalWindow) <= 2 * cfg.globalMax - 1)
        && (requested != [] ==>
              |sent| <= cfg.globalMax * ((requested[|requested| - 1] - requested[0]) / cfg.globalWindow + 1))
    }

    ghost predicate WithinCooldowns()
      reads this
    {
      forall key, cooldown, from :: (forall a :: a in asked && a.key == key ==> a.cooldown >= cooldown > 0) ==>
        CountIn(TimesSentAs(sent, key, cfg), from, cooldown) <= 4
    }

    lemma OnTheClock(now: int)
      requires Valid() && ClockAt(asked, requested, now)
      ensures WithinBudget() && WithinCooldowns()
    {
      forall from | cfg.globalMax > 0 && cfg.globalWindow > 0
        ensures CountIn(TimesSent(sent), from, cfg.globalWindow) <= 2 * cfg.globalMax - 1
      {
        SentStaysInBudget(from);
      }
      if cfg.globalMax > 0 && cfg.globalWindow > 0 { SentStaysInBudget(0); }
      forall key, cooldown, from | forall a :: a in asked && a.key == key ==> a.cooldown >= cooldown > 0
        ensures CountIn(TimesSentAs(sent, key, cfg), from, cooldown) <= 4
      {
        AtMostFourSent(key, cooldown, from);
      }
    }

    /** Whatever its phase, an interval as long as the window holds at most `2 * max - 1` sent findings. */
    lemma SentStaysInBudget(from: int)
      requires Valid() && cfg.globalMax > 0 && cfg.globalWindow > 0 && NonDecreasing(requested)
      ensures CountIn(TimesSent(sent), from, cfg.globalWindow) <= 2 * cfg.globalMax - 1
      ensures requested != [] ==>
                |sent| <= cfg.globalMax * ((requested[|requested| - 1] - requested[0]) / cfg.globalWindow + 1)
    {
      BudgetBoundsEveryInterval(requested, cfg.globalMax, cfg.globalWindow, from);
      if requested != [] { BudgetBoundsTheWholeRun(requested, cfg.globalMax, cfg.globalWindow); }
      assert |TimesSent(sent)| == |sent|;
    }

    /** The filter never closes for good: what is not cooling passes while the last window held less than the limit. */
    lemma PassesWhenThereIsRoom(f: Finding, now: int)
      requires Valid() && ClockAt(asked, requested, now)
      requires forall a :: a in asked && a.key == CooldownKey(f) ==> a.cooldown >= CooldownOf(f, cfg)
      requires !IsCooling(Recorded(asked, CooldownKey(f)), f, now, cfg)
      requires cfg.globalMax > 0 && cfg.globalWindow > 0 ==>
                 CountIn(TimesSent(sent), now - cfg.globalWindow + 1, cfg.globalWindow) < cfg.globalMax
      ensures Sends(asked, History(), f, now, cfg)
    {
      hide Recorded, SpendAll, IsCooling, TimesSent, CountIn, RowsAgree;
      DueUnlessCooling(asked, f, now, cfg);
      NoLaterThan(asked, requested, now);
      GrantedWithRoom(requested, now, cfg);
    }

    /** An interval as long as the cooldown of a key holds at most four sent findings of that key. */
    lemma AtMostFourSent(key: Key, cooldown: int, from: int)
      requires Valid() && KeyAdvances(asked, key)
      requires forall a :: a in asked && a.key == key ==> a.cooldown >= cooldown > 0
      ensures CountIn(TimesSentAs(sent, key, cfg), from, cooldown) <= 4
    {
      AtMostFourPerCooldown(asked, key, cooldown, from);
      assert WithinRecorded(sent, asked, key, cfg);
    }
  }

  lemma SameGrants(sent: seq<Dispatch>, l: Ledger, l': Ledger, asked: seq<Ask>, cfg: Config)
    requires Accounted(sent, l, asked, cfg) && l'.grants == l.grants
    ensures Accounted(sent, l', asked, cfg)
  {}

  function Dispatched(fs: seq<Finding>, now: int): seq<Dispatch> {
    seq(|fs|, i requires 0 <= i < |fs| => Dispatch(fs[i], now))
  }

  function Moments(n: nat, now: int): seq<int> {
    seq(n, _ => now)
  }

  /** How many findings of an ordered batch are due, each of which asks the budget once. */
  function DueCount(asked: seq<Ask>, fs: seq<Finding>, now: int, cfg: Config): nat
    decreases |fs|
  {
    if fs == [] then 0
    else
      (if IsDue(asked, fs[0], now, cfg) then 1 else 0)
      + DueCount(asked + [AskFor(fs[0], now, cfg)], fs[1..], now, cfg)
  }

  lemma NothingDue(asked: seq<Ask>, requested: seq<int>, now: int, cfg: Config)
    ensures requested + Moments(DueCount(asked, [], now, cfg), now) == requested
  {}

  lemma NothingSent(sent: seq<Dispatch>, now: int)
    ensures sent + Dispatched([], now) == sent
  {}

  lemma NothingAsked(fs: seq<Finding>, now: int, cfg: Config)
    ensures AsksFor(fs[..0], now, cfg) == []
  {}

  lemma DueCountStep(asked: seq<Ask>, fs: seq<Finding>, now: int, cfg: Config, requested: seq<int>)
    requires fs != []
    ensures requested + Moments(DueCount(asked, fs, now, cfg), now) ==
      requested + Moments(if IsDue(asked, fs[0], now, cfg) then 1 else 0, now)
      + Moments(DueCount(asked + [AskFor(fs[0], now, cfg)], fs[1..], now, cfg), now)
  {}

  lemma DispatchedOneMore(sent: seq<Dispatch>, fs: seq<Finding>, f: Finding, now: int)
    ensures sent + Dispatched(fs + [f], now) == sent + Dispatched(fs, now) + [Dispatch(f, now)]
    ensures sent + Dispatched(fs, now) + [] == sent + Dispatched(fs, now)
  {}

  lemma ClockKeeps(asked: seq<Ask>, requested: seq<int>, fs: seq<Finding>, n: nat, now: int, cfg: Config)
    ensures ClockAt(asked, requested, now) ==> ClockAt(asked + AsksFor(fs, now, cfg), requested + Moments(n, now), now)
  {
    if ClockAt(asked, requested, now) {
      var later := requested + Moments(n, now);
      forall j, k | 0 <= j < k < |later| ensures later[j] <= later[k] {
        assert k < |requested| ==> requested[j] <= requested[k];
        assert j < |requested| ==> requested[j] in requested;
      }
      var more := asked + AsksFor(fs, now, cfg);
      forall j, k | 0 <= j < k < |more| ensures more[j].at <= more[k].at {
        assert k < |asked| ==> asked[j].at <= asked[k].at;
        assert j < |asked| ==> asked[j] in asked;
      }
    }
  }

  predicate IsDue(asked: seq<Ask>, f: Finding, now: int, cfg: Config) {
    Due(Last(Recorded(asked, CooldownKey(f))), AskFor(f, now, cfg))
  }

  predicate Sends(asked: seq<Ask>, l: Ledger, f: Finding, now: int, cfg: Config) {
    IsDue(asked, f, now, cfg) && Granted(l.window, now, cfg.globalMax, cfg.globalWindow)
  }

  lemma AsksForOneMore(fs: seq<Finding>, k: nat, now: int, cfg: Config)
    requires k < |fs|
    ensures AsksFor(fs[..k + 1], now, cfg) == AsksFor(fs[..k], now, cfg) + [AskFor(fs[k], now, cfg)]
  {}

  lemma NothingFiltered(asked: seq<Ask>, l: Ledger, now: int, cfg: Config)
    ensures Filtered(asked, l, [], now, cfg) == Outcome([], l)
  {}

  lemma FilteredStep(asked: seq<Ask>, l: Ledger, fs: seq<Finding>, now: int, cfg: Config, before: seq<Finding>)
    requires fs != []
    ensures var l' := if IsDue(asked, fs[0], now, cfg) then Spend(l, now, cfg.globalMax, cfg.globalWindow) else l;
      Filtered(asked, l, fs, now, cfg).After(before) ==
      Filtered(asked + [AskFor(fs[0], now, cfg)], l', fs[1..], now, cfg).After(
        if Sends(asked, l, fs[0], now, cfg) then before + [fs[0]] else before)
  {
    hide Recorded;
    var l' := if IsDue(asked, fs[0], now, cfg) then Spend(l, now, cfg.globalMax, cfg.globalWindow) else l;
    AfterTwice(Filtered(asked + [AskFor(fs[0], now, cfg)], l', fs[1..], now, cfg), before, [fs[0]]);
  }

  /** What a batch sends, and the budget it leaves. */
  datatype Outcome = Outcome(sent: seq<Finding>, ledger: Ledger) {
    function After(before: seq<Finding>): Outcome { Outcome(before + sent, ledger) }
  }

  lemma AfterTwice(o: Outcome, a: seq<Finding>, b: seq<Finding>)
    ensures o.After(b).After(a) == o.After(a + b)
  {
    assert a + (b + o.sent) == a + b + o.sent;
  }

  /** The outcome of a batch that is already in order, given everything asked and spent before. */
  function Filtered(asked: seq<Ask>, l: Ledger, fs: seq<Finding>, now: int, cfg: Config): Outcome
    decreases |fs|
  {
    if fs == [] then Outcome([], l)
    else
      var ask := AskFor(fs[0], now, cfg);
      if !Throttle.Due(Last(Recorded(asked, ask.key)), ask) then Filtered(asked + [ask], l, fs[1..], now, cfg)
      else
        var rest := Filtered(asked + [ask], Spend(l, now, cfg.globalMax, cfg.globalWindow), fs[1..], now, cfg);
        if Granted(l.window, now, cfg.globalMax, cfg.globalWindow) then rest.After([fs[0]]) else rest
  }

  /** Of the findings with a cooldown, no two in one batch share a key. */
  ghost predicate OnePerKey(fs: seq<Finding>, cfg: Config) {
    forall j, k :: 0 <= j < k < |fs| && CooldownOf(fs[j], cfg) > 0 && CooldownOf(fs[k], cfg) > 0 ==>
      CooldownKey(fs[j]) != CooldownKey(fs[k])
  }

  /** A dispatch recorded just now holds back everything of its key that is no more severe. */
  lemma {:induction false} NothingMoreOfThisKey(
      asked: seq<Ask>, l: Ledger, fs: seq<Finding>, now: int, cfg: Config, sent: Ask)
    requires Last(Recorded(asked, sent.key)) == Some(sent) && sent.at == now
    requires forall g :: g in fs ==> Rank(g.severity) <= Rank(sent.severity)
    ensures forall g :: g in Filtered(asked, l, fs, now, cfg).sent && CooldownOf(g, cfg) > 0 ==>
              CooldownKey(g) != sent.key
    decreases |fs|
  {
    if fs == [] {
    } else {
      var ask := AskFor(fs[0], now, cfg);
      RecordedAppend(asked, ask, sent.key);
      NothingMoreOfThisKey(asked + [ask], l, fs[1..], now, cfg, sent);
      NothingMoreOfThisKey(asked + [ask], Spend(l, now, cfg.globalMax, cfg.globalWindow), fs[1..], now, cfg, sent);
    }
  }

  /**
   One batch sends at most one finding per key, the most severe of that key, and it sends only findings it was given.
   */
  lemma {:induction false} BatchSendsOnePerKey(asked: seq<Ask>, l: Ledger, fs: seq<Finding>, now: int, cfg: Config)
    requires MostSevereFirst(fs)
    ensures OnePerKey(Filtered(asked, l, fs, now, cfg).sent, cfg)
    ensures forall f :: f in Filtered(asked, l, fs, now, cfg).sent ==> f in fs
    decreases |fs|
  {
    if fs == [] {
    } else {
      var ask := AskFor(fs[0], now, cfg);
      var next := Spend(l, now, cfg.globalMax, cfg.globalWindow);
      BatchSendsOnePerKey(asked + [ask], l, fs[1..], now, cfg);
      BatchSendsOnePerKey(asked + [ask], next, fs[1..], now, cfg);
      if Due(Last(Recorded(asked, ask.key)), ask) && CooldownOf(fs[0], cfg) > 0 {
        RecordedAppend(asked, ask, ask.key);
        forall g | g in fs[1..] ensures Rank(g.severity) <= Rank(fs[0].severity) {}
        NothingMoreOfThisKey(asked + [ask], next, fs[1..], now, cfg, ask);
      }
    }
  }

  /** The budget is charged once for every finding sent, so its bounds are bounds on what leaves the machine. */
  lemma {:induction false} EverySendIsCharged(asked: seq<Ask>, l: Ledger, fs: seq<Finding>, now: int, cfg: Config)
    ensures var o := Filtered(asked, l, fs, now, cfg); o.ledger.grants == l.grants + seq(|o.sent|, _ => now)
    decreases |fs|
  {
    if fs == [] {
      assert l.grants == l.grants + seq(0, _ => now);
    } else {
      var ask := AskFor(fs[0], now, cfg);
      var next := Spend(l, now, cfg.globalMax, cfg.globalWindow);
      EverySendIsCharged(asked + [ask], l, fs[1..], now, cfg);
      EverySendIsCharged(asked + [ask], next, fs[1..], now, cfg);
      var rest := Filtered(asked + [ask], next, fs[1..], now, cfg);
      assert l.grants + [now] + seq(|rest.sent|, _ => now) == l.grants + seq(|rest.sent| + 1, _ => now);
    }
  }

  /** A batch with one more finding at its end. */
  lemma {:induction false} FilteredAppend(asked: seq<Ask>, l: Ledger, fs: seq<Finding>, f: Finding, now: int,
                                          cfg: Config)
    ensures var (o, p) := (Filtered(asked, l, fs, now, cfg), Filtered(asked, l, fs + [f], now, cfg));
      var asks := asked + AsksFor(fs, now, cfg);
      && p.sent == o.sent + (if Sends(asks, o.ledger, f, now, cfg) then [f] else [])
      && p.ledger == if IsDue(asks, f, now, cfg) then Spend(o.ledger, now, cfg.globalMax, cfg.globalWindow)
                     else o.ledger
    decreases |fs|
  {
    if fs == [] {
      assert fs + [f] == [f] && asked + AsksFor(fs, now, cfg) == asked && [f][1..] == [];
      assert [f] + [] == [f];
    } else {
      var ask := AskFor(fs[0], now, cfg);
      assert (fs + [f])[1..] == fs[1..] + [f];
      assert asked + AsksFor(fs, now, cfg) == asked + [ask] + AsksFor(fs[1..], now, cfg);
      FilteredAppend(asked + [ask], l, fs[1..], f, now, cfg);
      FilteredAppend(asked + [ask], Spend(l, now, cfg.globalMax, cfg.globalWindow), fs[1..], f, now, cfg);
    }
  }

  /** The budget's account after a batch is that of a history with one more request for each finding that was due. */
  lemma {:induction false} LedgerAfter(asked: seq<Ask>, times: seq<int>, fs: seq<Finding>, now: int, cfg: Config)
      returns (later: seq<int>)
    requires NonDecreasing(times) && NoneLater(times, now)
    ensures Filtered(asked, SpendAll(times, cfg.globalMax, cfg.globalWindow), fs, now, cfg).ledger
         == SpendAll(later, cfg.globalMax, cfg.globalWindow)
    ensures NonDecreasing(later) && NoneLater(later, now)
    decreases |fs|
  {
    if fs == [] {
      later := times;
    } else {
      hide SpendAll;
      var ask, more := AskFor(fs[0], now, cfg), times + [now];
      SpendAllAppend(times, now, cfg.globalMax, cfg.globalWindow);
      later := LedgerAfter(asked + [ask], if IsDue(asked, fs[0], now, cfg) then more else times, fs[1..], now, cfg);
    }
  }

  lemma SpendAllAppend(times: seq<int>, now: int, max: int, length: int)
    ensures SpendAll(times + [now], max, length) == Spend(SpendAll(times, max, length), now, max, length)
  {
    assert (times + [now])[..|times|] == times;
  }

  /** A dispatch less than a cooldown ago that was at least as severe; a cooldown of its own comes before the common. */
  predicate IsCooling(recorded: seq<Ask>, f: Finding, now: int, cfg: Config) {
    var cooldown := match f.cooldown case Some(own) => own case None => cfg.rateLimit;
    cooldown > 0 && exists a :: a in recorded && now - a.at < cooldown && Rank(a.severity) >= Rank(f.severity)
  }

  /** The window that the grants opened last is still open and has given all it can. */
  predicate IsSpent(grants: seq<int>, now: int, cfg: Config) {
    var start := OpenedAt(grants, cfg.globalWindow);
    && cfg.globalMax > 0 && cfg.globalWindow > 0 && start.Some? && now - start.value < cfg.globalWindow
    && CountIn(grants, start.value, cfg.globalWindow) >= cfg.globalMax
  }

  /**
   What a batch sends: the next finding passes exactly unless a dispatch of its key is still cooling, or the window is
   spent. No other reason holds a finding back.
   */
  lemma SentExactlyUnlessHeldBack(asked: seq<Ask>, times: seq<int>, fs: seq<Finding>, f: Finding, now: int, cfg: Config)
    requires ClockAt(asked, times, now)
    requires forall a :: a in asked + AsksFor(fs, now, cfg) && a.key == CooldownKey(f) ==>
               a.cooldown >= CooldownOf(f, cfg)
    ensures var l := SpendAll(times, cfg.globalMax, cfg.globalWindow);
      var (o, p) := (Filtered(asked, l, fs, now, cfg), Filtered(asked, l, fs + [f], now, cfg));
      var recorded := Recorded(asked + AsksFor(fs, now, cfg), CooldownKey(f));
      p.sent == o.sent + if IsCooling(recorded, f, now, cfg) || IsSpent(o.ledger.grants, now, cfg) then [] else [f]
  {
    var l := SpendAll(times, cfg.globalMax, cfg.globalWindow);
    var asks := asked + AsksFor(fs, now, cfg);
    FilteredAppend(asked, l, fs, f, now, cfg);
    DueUnlessCooling(asks, f, now, cfg) by { ClockStillAdvances(asked, times, fs, now, cfg); }
    NoLaterThan(asked, times, now);
    var later := LedgerAfter(asked, times, fs, now, cfg);
    GrantedUnlessSpent(later, now, cfg);
  }

  lemma ClockStillAdvances(asked: seq<Ask>, times: seq<int>, fs: seq<Finding>, now: int, cfg: Config)
    requires ClockAt(asked, times, now)
    ensures ClockAdvances(asked + AsksFor(fs, now, cfg))
    ensures forall a :: a in asked + AsksFor(fs, now, cfg) ==> a.at <= now
  {
    ClockKeeps(asked, times, fs, 0, now, cfg);
  }

  lemma DueUnlessCooling(asks: seq<Ask>, f: Finding, now: int, cfg: Config)
    requires ClockAdvances(asks) && forall a :: a in asks ==> a.at <= now
    requires forall a :: a in asks && a.key == CooldownKey(f) ==> a.cooldown >= CooldownOf(f, cfg)
    ensures IsDue(asks, f, now, cfg) <==> !IsCooling(Recorded(asks, CooldownKey(f)), f, now, cfg)
  {
    hide Recorded;
    var ask := AskFor(f, now, cfg);
    if ask.cooldown > 0 {
      forall k | 0 <= k < |asks| ensures asks[k].at <= now { assert asks[k] in asks; }
      DueExactlyWhenItEscalates(asks, ask);
    } else {
      NoCooldownNoRefusal(asks, ask);
    }
  }

  lemma NoLaterThan(asked: seq<Ask>, times: seq<int>, now: int)
    requires ClockAt(asked, times, now)
    ensures NonDecreasing(times) && NoneLater(times, now)
  {
    forall k | 0 <= k < |times| ensures times[k] <= now { assert times[k] in times; }
  }

  lemma GrantedWithRoom(times: seq<int>, now: int, cfg: Config)
    requires NonDecreasing(times) && NoneLater(times, now)
    requires cfg.globalMax > 0 && cfg.globalWindow > 0 ==>
               CountIn(SpendAll(times, cfg.globalMax, cfg.globalWindow).grants, now - cfg.globalWindow + 1,
                       cfg.globalWindow) < cfg.globalMax
    ensures Granted(SpendAll(times, cfg.globalMax, cfg.globalWindow).window, now, cfg.globalMax, cfg.globalWindow)
  {
    hide SpendAll, CountIn;
    SpendAllAppend(times, now, cfg.globalMax, cfg.globalWindow);
    if cfg.globalMax > 0 && cfg.globalWindow > 0 { RoomIsGranted(times, now, cfg.globalMax, cfg.globalWindow); }
  }

  lemma GrantedUnlessSpent(times: seq<int>, now: int, cfg: Config)
    requires NonDecreasing(times) && NoneLater(times, now)
    ensures var l := SpendAll(times, cfg.globalMax, cfg.globalWindow);
      Granted(l.window, now, cfg.globalMax, cfg.globalWindow) <==> !IsSpent(l.grants, now, cfg)
  {
    if cfg.globalMax > 0 && cfg.globalWindow > 0 {
      GrantedExactlyWhen(times, now, cfg.globalMax, cfg.globalWindow);
      SpendAllAppend(times, now, cfg.globalMax, cfg.globalWindow);
    }
  }

  /** A finding that the budget refuses has still used up its cooldown: the same finding is not due a moment later. */
  lemma RefusedByTheBudgetStillCoolsDown(asked: seq<Ask>, f: Finding, now: int, later: int, cfg: Config)
    requires CooldownOf(f, cfg) > 0 && Due(Last(Recorded(asked, CooldownKey(f))), AskFor(f, now, cfg))
    ensures Due(Last(Recorded(asked + [AskFor(f, now, cfg)], CooldownKey(f))), AskFor(f, later, cfg))
      <==> later - now >= CooldownOf(f, cfg)
  {
    RecordedAppend(asked, AskFor(f, now, cfg), CooldownKey(f));
  }
}
