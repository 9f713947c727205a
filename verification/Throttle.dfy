/**
 What may leave the machine, and how fast: the per-key cooldown and the global fixed-window budget.

 Both limiters are stated over the whole history of what was asked of them; the store keeps one row per key and one
 window row, and `AlertStore` shows that those rows are all of the history that matters.
 */
module Throttle {
  import opened Options

  datatype Severity = Info | Medium | High | Critical

  function Rank(s: Severity): nat {
    match s
    case Info => 0
    case Medium => 1
    case High => 2
    case Critical => 3
  }

  type Key = string

  // ---- the cooldown ------------------------------------------------------------

  /** One call of `due_for_alert`. */
  datatype Ask = Ask(key: Key, at: int, severity: Severity, cooldown: int)

  function Last<T>(s: seq<T>): Option<T> {
    if s == [] then None else Some(s[|s| - 1])
  }

  /** Due unless the key's last dispatch is recent and at least as severe. */
  predicate Due(last: Option<Ask>, ask: Ask) {
    ask.cooldown <= 0 || last.None? || ask.at - last.value.at >= ask.cooldown
    || Rank(ask.severity) > Rank(last.value.severity)
  }

  function Extend(recorded: seq<Ask>, key: Key, ask: Ask): seq<Ask> {
    if ask.key == key && ask.cooldown > 0 && Due(Last(recorded), ask) then recorded + [ask] else recorded
  }

  /** The dispatches of `key` that were recorded; with the cooldown off nothing is. */
  function Recorded(asked: seq<Ask>, key: Key): seq<Ask> {
    if asked == [] then [] else Extend(Recorded(asked[..|asked| - 1], key), key, asked[|asked| - 1])
  }

  lemma RecordedAppend(asked: seq<Ask>, ask: Ask, key: Key)
    ensures Recorded(asked + [ask], key) == Extend(Recorded(asked, key), key, ask)
  {
    assert (asked + [ask])[..|asked|] == asked;
  }

  predicate ClockAdvances(asked: seq<Ask>) {
    forall j, k :: 0 <= j < k < |asked| ==> asked[j].at <= asked[k].at
  }

  /** The clock of the calls for one key. */
  predicate KeyAdvances(asked: seq<Ask>, key: Key) {
    forall j, k :: 0 <= j < k < |asked| && asked[j].key == asked[k].key == key ==> asked[j].at <= asked[k].at
  }

  lemma {:induction false} RecordedInOrder(asked: seq<Ask>, key: Key)
    requires KeyAdvances(asked, key)
    ensures ClockAdvances(Recorded(asked, key))
    ensures forall a :: a in Recorded(asked, key) ==> a in asked && a.key == key
  {
    if asked == [] {
    } else {
      RecordedInOrder(asked[..|asked| - 1], key);
    }
  }

  /** Two dispatches of one key closer together than the cooldown are an escalation, from the first to the second. */
  lemma {:induction false} CloseDispatchesEscalate(asked: seq<Ask>, key: Key, cooldown: int, j: nat, k: nat)
    requires KeyAdvances(asked, key) && forall a :: a in asked && a.key == key ==> a.cooldown >= cooldown > 0
    requires j < k < |Recorded(asked, key)|
    requires Recorded(asked, key)[k].at - Recorded(asked, key)[j].at < cooldown
    ensures Rank(Recorded(asked, key)[j].severity) < Rank(Recorded(asked, key)[k].severity)
  {
    var prefix := asked[..|asked| - 1];
    var before, after := Recorded(prefix, key), Recorded(asked, key);
    RecordedInOrder(asked, key);
    if k < |before| {
      CloseDispatchesEscalate(prefix, key, cooldown, j, k);
    } else if j < |before| - 1 {
      assert after[|before| - 1].at <= after[k].at;
      CloseDispatchesEscalate(prefix, key, cooldown, j, |before| - 1);
    }
  }

  function Times(asks: seq<Ask>): seq<int> {
    if asks == [] then [] else Times(asks[..|asks| - 1]) + [asks[|asks| - 1].at]
  }

  /** How many of `ts` lie in the half-open interval of this length. */
  function CountIn(ts: seq<int>, from: int, length: int): nat {
    if ts == [] then 0
    else
      var (rest, t) := (CountIn(ts[..|ts| - 1], from, length), ts[|ts| - 1]);
      if from <= t < from + length then rest + 1 else rest
  }

  lemma CountInAppend(ts: seq<int>, t: int, from: int, length: int)
    ensures CountIn(ts + [t], from, length) == CountIn(ts, from, length) + if from <= t < from + length then 1 else 0
  {
    assert (ts + [t])[..|ts|] == ts;
  }

  /** While the interval from `from` lasts, each of these dispatches in it climbs one severity. */
  ghost predicate Climbs(r: seq<Ask>, from: int, cooldown: int) {
    var count := CountIn(Times(r), from, cooldown);
    && count <= 4
    && (r == [] || r[|r| - 1].at < from ==> count == 0)
    && (r != [] && r[|r| - 1].at < from + cooldown ==> count <= Rank(r[|r| - 1].severity) + 1)
  }

  lemma ClimbsOn(r: seq<Ask>, ask: Ask, from: int, cooldown: int)
    requires Climbs(r, from, cooldown) && ask.cooldown >= cooldown > 0 && Due(Last(r), ask)
    requires r != [] ==> r[|r| - 1].at <= ask.at
    ensures Climbs(r + [ask], from, cooldown)
  {
    assert (r + [ask])[..|r|] == r;
    CountInAppend(Times(r), ask.at, from, cooldown);
  }

  lemma {:induction false} CloseDispatchesClimb(asked: seq<Ask>, key: Key, cooldown: int, from: int)
    requires KeyAdvances(asked, key) && forall a :: a in asked && a.key == key ==> a.cooldown >= cooldown > 0
    ensures Climbs(Recorded(asked, key), from, cooldown)
  {
    if asked == [] {
    } else {
      var prefix, ask := asked[..|asked| - 1], asked[|asked| - 1];
      var before := Recorded(prefix, key);
      CloseDispatchesClimb(prefix, key, cooldown, from);
      if ask.key == key && Due(Last(before), ask) {
        if before != [] {
          RecordedInOrder(prefix, key);
          assert before[|before| - 1] in prefix;
        }
        ClimbsOn(before, ask, from, cooldown);
      }
    }
  }

  /** Any interval as long as the cooldown holds at most four dispatches of one key, one per severity. */
  lemma AtMostFourPerCooldown(asked: seq<Ask>, key: Key, cooldown: int, from: int)
    requires KeyAdvances(asked, key) && forall a :: a in asked && a.key == key ==> a.cooldown >= cooldown > 0
    ensures CountIn(Times(Recorded(asked, key)), from, cooldown) <= 4
  {
    CloseDispatchesClimb(asked, key, cooldown, from);
  }

  /** From `start` on, `key` is asked for at one severity only, and never under a shorter cooldown. */
  ghost predicate SteadySince(asked: seq<Ask>, start: nat, key: Key, severity: Severity, cooldown: int)
    requires start <= |asked|
  {
    forall a :: a in asked[start..] && a.key == key ==> a.severity == severity && a.cooldown >= cooldown
  }

  /** From index `n` on, dispatches have this severity and are a cooldown apart. */
  ghost predicate SpacedOut(r: seq<Ask>, n: nat, severity: Severity, cooldown: int) {
    && (forall k :: n <= k < |r| ==> r[k].severity == severity)
    && forall j, k :: n <= j < k < |r| ==> r[k].at - r[j].at >= cooldown
  }

  lemma SpacedOutStep(r: seq<Ask>, n: nat, key: Key, severity: Severity, cooldown: int, ask: Ask)
    requires cooldown > 0 && SpacedOut(r, n, severity, cooldown)
    requires ask.key == key ==> ask.severity == severity && ask.cooldown >= cooldown
    ensures SpacedOut(Extend(r, key, ask), n, severity, cooldown)
  {
    var after := Extend(r, key, ask);
    if after != r {
      forall j | n <= j < |r| ensures ask.at - r[j].at >= cooldown {
        assert r[|r| - 1].severity == severity;
      }
    }
  }

  /** Whatever was asked before, from then on the key is dispatched at most once per cooldown. */
  lemma {:induction false} SteadySeverityIsSpacedOut(asked: seq<Ask>, start: nat, key: Key, severity: Severity,
                                                     cooldown: int)
    requires start <= |asked| && cooldown > 0 && SteadySince(asked, start, key, severity, cooldown)
    ensures Recorded(asked[..start], key) <= Recorded(asked, key)
    ensures SpacedOut(Recorded(asked, key), |Recorded(asked[..start], key)|, severity, cooldown)
  {
    if start == |asked| {
      assert asked[..start] == asked;
    } else {
      var before, ask := asked[..|asked| - 1], asked[|asked| - 1];
      assert before[..start] == asked[..start] && asked[start..] == before[start..] + [ask];
      assert Recorded(asked, key) == Extend(Recorded(before, key), key, ask);
      hide Recorded;
      SteadySeverityIsSpacedOut(before, start, key, severity, cooldown);
      SpacedOutStep(Recorded(before, key), |Recorded(asked[..start], key)|, key, severity, cooldown, ask);
    }
  }

  /**
   An alert is due exactly when it is a strict escalation over every dispatch of its key less than a cooldown ago;
   it is refused exactly when one of those was at least as severe.
   */
  lemma DueExactlyWhenItEscalates(asked: seq<Ask>, ask: Ask)
    requires KeyAdvances(asked + [ask], ask.key) && ask.cooldown > 0
    requires forall a :: a in asked && a.key == ask.key ==> a.cooldown >= ask.cooldown
    ensures Due(Last(Recorded(asked, ask.key)), ask) <==>
            forall a :: a in Recorded(asked, ask.key) && ask.at - a.at < ask.cooldown ==>
              Rank(a.severity) < Rank(ask.severity)
  {
    var r := Recorded(asked, ask.key);
    ClockBefore(asked, ask);
    RecordedInOrder(asked, ask.key);
    if r != [] {
      var last := r[|r| - 1];
      assert last in r && last in asked;
      if a :| a in r && ask.at - a.at < ask.cooldown && Rank(a.severity) >= Rank(ask.severity) {
        var j :| 0 <= j < |r| && r[j] == a;
        if j < |r| - 1 { CloseDispatchesEscalate(asked, ask.key, ask.cooldown, j, |r| - 1); }
      }
    }
  }

  /** With the cooldown off nothing is refused, and nothing is recorded. */
  lemma NoCooldownNoRefusal(asked: seq<Ask>, ask: Ask)
    requires ask.cooldown <= 0
    ensures Due(Last(Recorded(asked, ask.key)), ask)
    ensures forall key :: Recorded(asked + [ask], key) == Recorded(asked, key)
  {
    forall key ensures Recorded(asked + [ask], key) == Recorded(asked, key) { RecordedAppend(asked, ask, key); }
  }

  lemma ClockBefore(asked: seq<Ask>, ask: Ask)
    requires KeyAdvances(asked + [ask], ask.key)
    ensures KeyAdvances(asked, ask.key) && forall a :: a in asked && a.key == ask.key ==> a.at <= ask.at
  {
    var all := asked + [ask];
    forall j, k | 0 <= j < k < |asked| && asked[j].key == asked[k].key == ask.key ensures asked[j].at <= asked[k].at {
      assert all[j].at <= all[k].at;
    }
    forall a | a in asked && a.key == ask.key ensures a.at <= ask.at {
      var k :| 0 <= k < |asked| && asked[k] == a;
      assert all[k].at <= all[|asked|].at;
    }
  }

  // ---- the global budget ---------------------------------------------------------

  datatype Window = Window(start: int, count: nat)

  predicate Granted(w: Option<Window>, now: int, max: int, length: int) {
    max <= 0 || length <= 0 || w.None? || now - w.value.start >= length || w.value.count < max
  }

  function Charge(w: Option<Window>, now: int, max: int, length: int): Option<Window> {
    if max <= 0 || length <= 0 then w
    else if w.None? || now - w.value.start >= length then Some(Window(now, 1))
    else if w.value.count >= max then w
    else Some(Window(w.value.start, w.value.count + 1))
  }

  /** The window row and the times granted so far. */
  datatype Ledger = Ledger(window: Option<Window>, grants: seq<int>)

  function Spend(l: Ledger, now: int, max: int, length: int): Ledger {
    Ledger(Charge(l.window, now, max, length),
           if Granted(l.window, now, max, length) then l.grants + [now] else l.grants)
  }

  function SpendAll(times: seq<int>, max: int, length: int): Ledger {
    if times == [] then Ledger(None, [])
    else Spend(SpendAll(times[..|times| - 1], max, length), times[|times| - 1], max, length)
  }

  predicate NonDecreasing(ts: seq<int>) {
    forall j, k :: 0 <= j < k < |ts| ==> ts[j] <= ts[k]
  }

  /** What the window row says about the dispatches inside one fixed interval that starts at `from`. */
  ghost predicate WindowAccounts(l: Ledger, from: int, max: int, length: int) {
    var count := CountIn(l.grants, from, length);
    match l.window
    case None => count == 0
    case Some(w) =>
      && 1 <= w.count <= max
      && (w.start < from ==> count <= w.count - 1)
      && (from <= w.start < from + length ==> count <= max - 1 + w.count)
      && (from + length <= w.start ==> count <= 2 * max - 1)
  }

  lemma {:induction false} NothingBefore(times: seq<int>, max: int, length: int, from: int)
    requires NonDecreasing(times) && (times != [] ==> times[|times| - 1] < from)
    ensures CountIn(SpendAll(times, max, length).grants, from, length) == 0
  {
    if times == [] {
    } else {
      var n := |times| - 1;
      NothingBefore(times[..n], max, length, from);
      CountInAppend(SpendAll(times[..n], max, length).grants, times[n], from, length);
    }
  }

  lemma {:induction false} WindowStartsInThePast(times: seq<int>, max: int, length: int)
    requires NonDecreasing(times) && max > 0 && length > 0
    ensures var w := SpendAll(times, max, length).window;
      w.None? == (times == []) && (w.Some? ==> w.value.start <= times[|times| - 1])
  {
    if times == [] {
    } else {
      WindowStartsInThePast(times[..|times| - 1], max, length);
    }
  }

  lemma WindowStep(l: Ledger, now: int, from: int, max: int, length: int)
    requires max > 0 && length > 0 && WindowAccounts(l, from, max, length)
    requires l.window.Some? ==> l.window.value.start <= now
    requires now < from ==> CountIn(l.grants, from, length) == 0
    ensures WindowAccounts(Spend(l, now, max, length), from, max, length)
  {
    hide CountIn;
    CountInAppend(l.grants, now, from, length);
  }

  lemma {:induction false} WindowAlwaysAccounts(times: seq<int>, max: int, length: int, from: int)
    requires max > 0 && length > 0 && NonDecreasing(times)
    ensures WindowAccounts(SpendAll(times, max, length), from, max, length)
  {
    if times == [] {
    } else {
      var n := |times| - 1;
      WindowAlwaysAccounts(times[..n], max, length, from);
      WindowStartsInThePast(times[..n], max, length);
      hide WindowAccounts, Spend, CountIn;
      if times[n] < from { NothingBefore(times[..n], max, length, from); }
      WindowStep(SpendAll(times[..n], max, length), times[n], from, max, length);
    }
  }

  /** Any interval as long as the window, whatever its phase, holds at most `2 * max - 1` dispatches. */
  lemma BudgetBoundsEveryInterval(times: seq<int>, max: int, length: int, from: int)
    requires max > 0 && length > 0 && NonDecreasing(times)
    ensures CountIn(SpendAll(times, max, length).grants, from, length) <= 2 * max - 1
  {
    WindowAlwaysAccounts(times, max, length, from);
  }

  /** Without a limit nothing is refused. */
  lemma {:induction false} NoLimitNoRefusal(times: seq<int>, max: int, length: int)
    requires max <= 0 || length <= 0
    ensures SpendAll(times, max, length).grants == times
  {
    if times == [] {
    } else {
      NoLimitNoRefusal(times[..|times| - 1], max, length);
    }
  }

  /** The moment at which the window in force was opened, told from the grants: each opening outlasts the one before. */
  function OpenedAt(grants: seq<int>, length: int): Option<int> {
    if grants == [] then None
    else
      var (before, last) := (OpenedAt(grants[..|grants| - 1], length), grants[|grants| - 1]);
      if before.None? || last - before.value >= length then Some(last) else before
  }

  /** The window row holds that moment, and how much was granted since. */
  ghost predicate WindowTells(l: Ledger, length: int) {
    match l.window
    case None => l.grants == []
    case Some(w) =>
      && OpenedAt(l.grants, length) == Some(w.start)
      && CountIn(l.grants, w.start, length) == w.count
      && forall k :: 0 <= k < |l.grants| ==> l.grants[k] < w.start + length
  }

  lemma {:induction false} NothingFrom(ts: seq<int>, from: int, length: int)
    requires forall k :: 0 <= k < |ts| ==> ts[k] < from
    ensures CountIn(ts, from, length) == 0
  {
    if ts == [] {
    } else {
      NothingFrom(ts[..|ts| - 1], from, length);
    }
  }

  lemma TellsStep(l: Ledger, now: int, max: int, length: int)
    requires max > 0 && length > 0 && WindowTells(l, length)
    requires l.window.Some? ==> l.window.value.start <= now
    ensures WindowTells(Spend(l, now, max, length), length)
  {
    hide CountIn;
    assert (l.grants + [now])[..|l.grants|] == l.grants;
    if l.window.None? || now - l.window.value.start >= length {
      NothingFrom(l.grants, now, length);
      CountInAppend(l.grants, now, now, length);
      assert OpenedAt(l.grants + [now], length) == Some(now);
      assert CountIn(l.grants + [now], now, length) == 1;
      assert Spend(l, now, max, length) == Ledger(Some(Window(now, 1)), l.grants + [now]);
    } else {
      CountInAppend(l.grants, now, l.window.value.start, length);
    }
  }

  lemma {:induction false} WindowAlwaysTells(times: seq<int>, max: int, length: int)
    requires max > 0 && length > 0 && NonDecreasing(times)
    ensures WindowTells(SpendAll(times, max, length), length)
  {
    if times == [] {
    } else {
      var n := |times| - 1;
      WindowAlwaysTells(times[..n], max, length);
      WindowStartsInThePast(times[..n], max, length);
      hide WindowTells, Spend;
      TellsStep(SpendAll(times[..n], max, length), times[n], max, length);
    }
  }

  /** A request is granted exactly unless the window that the grants opened last is still open and has given `max`. */
  lemma GrantedExactlyWhen(times: seq<int>, now: int, max: int, length: int)
    requires max > 0 && length > 0 && NonDecreasing(times)
    ensures var grants := SpendAll(times, max, length).grants;
      var start := OpenedAt(grants, length);
      SpendAll(times + [now], max, length).grants == grants +
        if start.Some? && now - start.value < length && CountIn(grants, start.value, length) >= max then [] else [now]
  {
    assert (times + [now])[..|times|] == times;
    WindowAlwaysTells(times, max, length);
    hide OpenedAt, CountIn;
  }

  predicate NoneLater(ts: seq<int>, now: int) {
    forall k :: 0 <= k < |ts| ==> ts[k] <= now
  }

  lemma {:induction false} GrantsAreNoLater(times: seq<int>, now: int, max: int, length: int)
    requires NoneLater(times, now)
    ensures NoneLater(SpendAll(times, max, length).grants, now)
  {
    if times == [] {
    } else {
      GrantsAreNoLater(times[..|times| - 1], now, max, length);
    }
  }

  /** An earlier start and a later end count no less. */
  lemma {:induction false} WiderCountsMore(ts: seq<int>, from: int, length: int, wider: int, span: int)
    requires wider <= from && from + length <= wider + span
    ensures CountIn(ts, from, length) <= CountIn(ts, wider, span)
  {
    if ts == [] {
    } else {
      WiderCountsMore(ts[..|ts| - 1], from, length, wider, span);
    }
  }

  /** Restricting an interval to the past loses nothing. */
  lemma {:induction false} NothingLater(ts: seq<int>, from: int, length: int, end: int)
    requires end <= from + length && forall k :: 0 <= k < |ts| ==> ts[k] < end
    ensures CountIn(ts, from, length) == CountIn(ts, from, end - from)
  {
    if ts == [] {
    } else {
      NothingLater(ts[..|ts| - 1], from, length, end);
    }
  }

  /** The budget never closes for good: a request is granted whenever less than `max` was within the last window. */
  lemma RoomIsGranted(times: seq<int>, now: int, max: int, length: int)
    requires max > 0 && length > 0 && NonDecreasing(times) && NoneLater(times, now)
    requires CountIn(SpendAll(times, max, length).grants, now - length + 1, length) < max
    ensures SpendAll(times + [now], max, length).grants == SpendAll(times, max, length).grants + [now]
  {
    hide SpendAll, OpenedAt, CountIn, NonDecreasing;
    var grants := SpendAll(times, max, length).grants;
    var start := OpenedAt(grants, length);
    GrantedExactlyWhen(times, now, max, length);
    GrantsAreNoLater(times, now, max, length);
    if start.Some? && now - start.value < length {
      NothingLater(grants, start.value, length, now + 1);
      WiderCountsMore(grants, start.value, now + 1 - start.value, now - length + 1, length);
    }
  }

  /** Over a run of duration `T` there are at most `max` dispatches per window begun: `max * (T / length + 1)`. */
  lemma BudgetBoundsTheWholeRun(times: seq<int>, max: int, length: int)
    requires max > 0 && length > 0 && NonDecreasing(times) && times != []
    ensures |SpendAll(times, max, length).grants| <= max * ((times[|times| - 1] - times[0]) / length + 1)
  {
    var windows := WindowsOpened(times, max, length);
    var T := times[|times| - 1] - times[0];
    DivideBound(windows - 1, T, length);
    MultiplyBound(max, windows, T / length + 1);
  }

  lemma DivideBound(n: nat, T: int, length: int)
    requires length > 0 && n * length <= T
    ensures n <= T / length
  {
    assert T == T / length * length + T % length;
    if n >= T / length + 1 {
      MultiplyBound(length, T / length + 1, n);
    }
  }

  lemma MultiplyBound(c: int, a: int, b: int)
    requires c >= 0 && a <= b
    ensures c * a <= c * b
  {}

  lemma {:induction false} WindowsOpened(times: seq<int>, max: int, length: int) returns (windows: nat)
    requires max > 0 && length > 0 && NonDecreasing(times) && times != []
    ensures var l := SpendAll(times, max, length);
      && l.window.Some? && windows >= 1 && 1 <= l.window.value.count <= max
      && |l.grants| <= max * windows
      && |l.grants| <= max * (windows - 1) + l.window.value.count
      && (windows - 1) * length <= l.window.value.start - times[0]
      && l.window.value.start <= times[|times| - 1]
  {
    var n := |times| - 1;
    if n == 0 {
      windows := 1;
      assert SpendAll(times[..0], max, length) == Ledger(None, []);
    } else {
      var before := SpendAll(times[..n], max, length);
      windows := WindowsOpened(times[..n], max, length);
      if times[n] - before.window.value.start >= length {
        windows := windows + 1;
        assert (windows - 1) * length == (windows - 2) * length + length;
        assert max * windows == max * (windows - 1) + max;
      } else {
        assert max * windows == max * (windows - 1) + max;
      }
    }
  }
}
