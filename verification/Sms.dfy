/** The durable SMS budget and the recipient loop that spends it. */
module Sms {
  const MAX_BODY_LEN := 480
  const SEGMENT_LEN := 153

  /** Trailing white space removed; which characters are white space is a parameter. */
  function Rstrip(text: string, space: char -> bool): string {
    if text == "" || !space(text[|text| - 1]) then text else Rstrip(text[..|text| - 1], space)
  }

  /** The compact body: cut to the limit, with an ellipsis when something was cut. */
  function Compact(text: string, space: char -> bool): string {
    if |text| > MAX_BODY_LEN then Rstrip(text[..MAX_BODY_LEN - 1], space) + ['\U{2026}'] else text
  }

  function SegmentCount(body: string): nat {
    if body == "" then 1 else (|body| + SEGMENT_LEN - 1) / SEGMENT_LEN
  }

  lemma {:induction false} RstripIsPrefix(text: string, space: char -> bool)
    ensures var kept := Rstrip(text, space);
      && kept <= text && (kept == "" || !space(kept[|kept| - 1]))
      && forall k :: |kept| <= k < |text| ==> space(text[k])
  {
    if text != "" && space(text[|text| - 1]) { RstripIsPrefix(text[..|text| - 1], space); }
  }

  /** One alert bills at least one and never more than four segments, and each segment but the last is full. */
  lemma AnAlertIsOneToFourSegments(text: string, space: char -> bool)
    ensures var body := Compact(text, space); var n := SegmentCount(body);
      |body| <= MAX_BODY_LEN && 1 <= n <= 4 && (n - 1) * SEGMENT_LEN < |body| + (if body == "" then 1 else 0)
      && |body| <= n * SEGMENT_LEN
  {
    if |text| > MAX_BODY_LEN { RstripIsPrefix(text[..MAX_BODY_LEN - 1], space); }
  }

  /** A short text is sent as it is; of a long one the beginning, without the white space before the cut, and a mark. */
  lemma TheBeginningIsSent(text: string, space: char -> bool)
    ensures var body := Compact(text, space);
      if |text| <= MAX_BODY_LEN then body == text
      else
        var n := |body| - 1;
        && 0 <= n < MAX_BODY_LEN && body[n] == '\U{2026}' && body[..n] == text[..n]
        && (n > 0 ==> !space(text[n - 1])) && forall k :: n <= k < MAX_BODY_LEN - 1 ==> space(text[k])
  {
    if |text| > MAX_BODY_LEN {
      var (cut, kept) := (text[..MAX_BODY_LEN - 1], Rstrip(text[..MAX_BODY_LEN - 1], space));
      RstripIsPrefix(cut, space);
      assert Compact(text, space)[..|kept|] == kept;
      assert forall k :: 0 <= k < |cut| ==> cut[k] == text[k];
    }
  }

  type Day = int

  class SmsBudget {
    /** `sms_budget`: segments used per calendar day. */
    var used: map<Day, nat>
    ghost var calls: seq<Call>

    /** The table is the sum of all calls, and every day it names stayed under the cap of some call. */
    ghost predicate Valid()
      reads this
    {
      && (forall d :: UsedOn(d) == Spent(calls, d))
      && forall d :: UsedOn(d) == 0 || UnderSomeCap(calls, UsedOn(d))
    }

    constructor ()
      ensures Valid() && used == map[] && calls == []
    {
      used, calls := map[], [];
    }

    function UsedOn(day: Day): nat
      reads this`used
    {
      if day in used then used[day] else 0
    }

    method Consume(segments: nat, day: Day, cap: int) returns (granted: bool)
      modifies this`used
      ensures granted <==> cap <= 0 || old(UsedOn(day)) + segments <= cap
      ensures forall d :: UsedOn(d) == old(UsedOn(d)) + if granted && cap > 0 && d == day then segments else 0
    {
      if cap <= 0 { return true; }
      if UsedOn(day) + segments > cap { return false; }
      used := used[day := UsedOn(day) + segments];
      granted := true;
    }

    /**
     The recipient loop. `days[k]` is the calendar day at the moment recipient `k` is reached; the first refusal ends
     the loop, so the recipients attempted are always the first ones. Within one day they are exactly as many as the
     rest of the budget pays for.
     */
    method SendTwilio(days: seq<Day>, segments: nat, cap: int) returns (attempted: nat)
      requires segments > 0 && Valid()
      modifies this
      ensures Valid() && attempted <= |days|
      ensures calls == old(calls) + [Call(days[..attempted], segments, cap)]
      ensures cap <= 0 ==> attempted == |days|
      ensures forall d :: UsedOn(d) == old(UsedOn(d)) + Charged(Call(days[..attempted], segments, cap), d)
      ensures cap > 0 ==> forall d :: UsedOn(d) <= cap || UsedOn(d) == old(UsedOn(d))
      ensures cap > 0 && days != [] && SameDay(days) ==>
                attempted == Affordable(|days|, old(UsedOn(days[0])), segments, cap)
    {
      attempted := ReachRecipients(days, segments, cap);
      if cap > 0 && days != [] && SameDay(days) {
        ServedOnOneDay(days, old(UsedOn(days[0])), segments, cap, attempted);
      }
      hide Billed, Spent, UnderSomeCap, Charged;
      ghost var (before, call) := (calls, Call(days[..attempted], segments, cap));
      calls := before + [call];
      forall d
        ensures UsedOn(d) == Spent(calls, d)
        ensures UsedOn(d) == 0 || UnderSomeCap(calls, UsedOn(d))
      {
        SpentAppend(before, call, d);
        UnderSomeCapAppend(before, call, UsedOn(d));
        assert old(UsedOn(d)) == Spent(before, d);
      }
    }

    method ReachRecipients(days: seq<Day>, segments: nat, cap: int) returns (attempted: nat)
      requires segments > 0
      modifies this`used
      ensures attempted <= |days|
      ensures cap <= 0 ==> attempted == |days|
      ensures forall d :: UsedOn(d) == old(UsedOn(d)) + Charged(Call(days[..attempted], segments, cap), d)
      ensures cap > 0 ==> forall d :: UsedOn(d) <= cap || UsedOn(d) == old(UsedOn(d))
      ensures cap > 0 && attempted > 0 ==> UsedOn(days[attempted - 1]) <= cap
      ensures attempted < |days| ==> UsedOn(days[attempted]) + segments > cap
    {
      attempted := 0;
      var granted := true;
      while attempted < |days|
        invariant attempted <= |days| && granted
        invariant forall d :: UsedOn(d) == old(UsedOn(d)) + Charged(Call(days[..attempted], segments, cap), d)
        invariant cap > 0 ==> forall d :: UsedOn(d) <= cap || UsedOn(d) == old(UsedOn(d))
        invariant cap > 0 && attempted > 0 ==> UsedOn(days[attempted - 1]) <= cap
      {
        granted := Consume(segments, days[attempted], cap);
        if !granted { break; }
        assert days[..attempted + 1][..attempted] == days[..attempted];
        attempted := attempted + 1;
      }
    }

    /** Under one cap no day ever exceeds it, and each day is charged for exactly who was reached on it. */
    lemma OneCapHolds(cap: int, day: Day)
      requires Valid() && cap > 0 && forall c :: c in calls ==> c.cap == cap
      ensures UsedOn(day) <= cap && UsedOn(day) == Spent(calls, day)
    {
      if UsedOn(day) != 0 {
        assert UnderSomeCap(calls, UsedOn(day));
      }
    }
  }

  /** One message: the days on which its recipients were reached, its segments and the cap it was sent under. */
  datatype Call = Call(days: seq<Day>, segments: nat, cap: int)

  ghost predicate UnderSomeCap(calls: seq<Call>, n: nat) {
    exists c :: c in calls && c.cap > 0 && n <= c.cap
  }

  lemma UnderSomeCapAppend(calls: seq<Call>, call: Call, n: nat)
    ensures UnderSomeCap(calls, n) || 0 < n <= call.cap ==> UnderSomeCap(calls + [call], n)
  {
    assert call in calls + [call];
    assert forall c :: c in calls ==> c in calls + [call];
  }

  /** What one message charges `day`: its segments times its recipients reached on that day; nothing without a cap. */
  function Charged(call: Call, day: Day): nat {
    if call.cap > 0 then Billed(call.days, day, call.segments) else 0
  }

  function Spent(calls: seq<Call>, day: Day): nat {
    if calls == [] then 0 else Spent(calls[..|calls| - 1], day) + Charged(calls[|calls| - 1], day)
  }

  lemma SpentAppend(calls: seq<Call>, call: Call, day: Day)
    ensures Spent(calls + [call], day) == Spent(calls, day) + Charged(call, day)
  {
    assert (calls + [call])[..|calls|] == calls;
  }

  predicate SameDay(days: seq<Day>) {
    forall k :: 0 <= k < |days| ==> days[k] == days[0]
  }

  /** What `day` is charged for the recipients reached at `days`. */
  function Billed(days: seq<Day>, day: Day, segments: nat): nat {
    if days == [] then 0
    else Billed(days[..|days| - 1], day, segments) + if days[|days| - 1] == day then segments else 0
  }

  lemma {:induction false} BilledOnOneDay(days: seq<Day>, day: Day, segments: nat)
    requires forall k :: 0 <= k < |days| ==> days[k] == day
    ensures Billed(days, day, segments) == segments * |days|
  {
    if days == [] {
    } else {
      BilledOnOneDay(days[..|days| - 1], day, segments);
      assert segments * |days| == segments * (|days| - 1) + segments;
    }
  }

  lemma ServedOnOneDay(days: seq<Day>, used: nat, segments: nat, cap: int, n: nat)
    requires segments > 0 && days != [] && SameDay(days) && n <= |days|
    requires used + Billed(days[..n], days[0], segments) <= cap || n == 0
    requires n < |days| ==> used + Billed(days[..n], days[0], segments) + segments > cap
    ensures n == Affordable(|days|, used, segments, cap)
  {
    BilledOnOneDay(days[..n], days[0], segments);
    AffordableIsExact(|days|, used, segments, cap, n);
  }

  function Affordable(recipients: nat, used: nat, segments: nat, cap: int): nat
    requires segments > 0
  {
    if used > cap then 0
    else if (cap - used) / segments < recipients then (cap - used) / segments else recipients
  }

  lemma ProductsKeepOrder(c: nat, a: nat, b: nat)
    requires a <= b
    ensures c * a <= c * b
  {}

  lemma OneMoreTimes(c: nat, a: nat, b: nat)
    requires a < b
    ensures c * a + c <= c * b
  {
    ProductsKeepOrder(c, a + 1, b);
    assert c * (a + 1) == c * a + c;
  }

  lemma AffordableIsExact(recipients: nat, used: nat, segments: nat, cap: int, n: nat)
    requires segments > 0 && n <= recipients
    requires used + segments * n <= cap || n == 0
    requires n < recipients ==> used + segments * n + segments > cap
    ensures n == Affordable(recipients, used, segments, cap)
  {
    if used <= cap {
      var room := cap - used;
      var q := room / segments;
      assert room == segments * q + room % segments;
      if n < q {
        OneMoreTimes(segments, n, q);
      } else if n > q {
        OneMoreTimes(segments, q, n);
      }
    } else if n > 0 {
      OneMoreTimes(segments, 0, n);
    }
  }
}
