/**
 The weighted vote that guesses what a device is.

 `InferIdentity` is the scoring loop; `Elects` and `Score` say what it computes. The lemmas are about the vote as an
 election: who wins, what reordering the rules may change, and what more evidence for the winners does.
 */
module IdentityVote {
  import opened Options

  datatype Field = Manufacturer | Category | Family | Platform

  /** A matched rule: its vote, with a positive weight, for a value in some of the fields. */
  datatype Rule = Rule(weight: nat, asserts: map<Field, string>, text: string)

  predicate Loaded(rules: seq<Rule>) {
    forall r :: r in rules ==> r.weight > 0
  }

  datatype Verdict = Verdict(winners: map<Field, string>, confidence: int, evidence: seq<Item>)

  /** One line of the explanation: a matched rule, whether it lost, and what it added to the confidence. */
  datatype Item = Item(text: string, conflicts: bool, weight: int)

  const ALL_FIELDS: set<Field> := {Manufacturer, Category, Family, Platform}

  // ---- sums over rules ------------------------------------------------------------

  function SumBy(rules: seq<Rule>, f: Rule -> int): int {
    if rules == [] then 0 else SumBy(rules[..|rules| - 1], f) + f(rules[|rules| - 1])
  }

  lemma {:induction false} SumConcat(a: seq<Rule>, b: seq<Rule>, f: Rule -> int)
    ensures SumBy(a + b, f) == SumBy(a, f) + SumBy(b, f)
  {
    if b == [] {
      assert a + b == a;
    } else {
      SumConcat(a, b[..|b| - 1], f);
      assert (a + b)[..|a + b| - 1] == a + b[..|b| - 1];
    }
  }

  lemma SumOne(r: Rule, f: Rule -> int)
    ensures SumBy([r], f) == f(r)
  {
    assert [r][..0] == [];
  }

  /** Sums do not depend on the order of the rules. */
  lemma {:induction false} SumPermutes(a: seq<Rule>, b: seq<Rule>, f: Rule -> int)
    requires multiset(a) == multiset(b)
    ensures SumBy(a, f) == SumBy(b, f)
    decreases |a|
  {
    if a == [] {
      assert multiset(b) == multiset{};
      assert b == [];
    } else {
      var n := |a| - 1;
      var r := a[n];
      assert a == a[..n] + [r];
      assert r in multiset(b);
      var k :| 0 <= k < |b| && b[k] == r;
      var rest := b[..k] + b[k + 1..];
      WithoutOne(b, k);
      SumWithoutOne(b, k, f);
      SumPermutes(a[..n], rest, f);
    }
  }

  lemma WithoutOne(b: seq<Rule>, k: nat)
    requires k < |b|
    ensures multiset(b[..k] + b[k + 1..]) == multiset(b) - multiset{b[k]}
  {
    assert b == b[..k] + [b[k]] + b[k + 1..];
  }

  lemma SumWithoutOne(b: seq<Rule>, k: nat, f: Rule -> int)
    requires k < |b|
    ensures SumBy(b, f) == SumBy(b[..k] + b[k + 1..], f) + f(b[k])
  {
    hide SumBy;
    assert b == b[..k] + [b[k]] + b[k + 1..];
    SumConcat(b[..k], b[k + 1..], f);
    SumConcat(b[..k] + [b[k]], b[k + 1..], f);
    SumConcat(b[..k], [b[k]], f);
    SumOne(b[k], f);
  }

  // ---- the election ----------------------------------------------------------------

  predicate VotesFor(r: Rule, field: Field, value: string) {
    field in r.asserts && r.asserts[field] == value
  }

  function Support(field: Field, value: string): Rule -> int {
    (r: Rule) => if VotesFor(r, field, value) then r.weight else 0
  }

  function Total(rules: seq<Rule>, field: Field, value: string): int {
    SumBy(rules, Support(field, value))
  }

  /** `value` has as much weight behind it as any other value asserted for the field. */
  ghost predicate IsTop(rules: seq<Rule>, field: Field, value: string) {
    forall r :: r in rules && field in r.asserts ==> Total(rules, field, r.asserts[field]) <= Total(rules, field, value)
  }

  /** `value` is a top value, and the first rule that votes for a top value votes for it. */
  ghost predicate Wins(rules: seq<Rule>, field: Field, value: string) {
    exists i: nat :: WinsAt(rules, field, value, i)
  }

  ghost predicate WinsAt(rules: seq<Rule>, field: Field, value: string, i: nat) {
    && i < |rules| && VotesFor(rules[i], field, value) && IsTop(rules, field, value)
    && forall j :: 0 <= j < i && field in rules[j].asserts ==> !IsTop(rules, field, rules[j].asserts[field])
  }

  predicate Asserted(rules: seq<Rule>, field: Field) {
    exists r :: r in rules && field in r.asserts
  }

  ghost predicate Elects(rules: seq<Rule>, winners: map<Field, string>) {
    forall field: Field ::
      if field in winners then Wins(rules, field, winners[field]) else !Asserted(rules, field)
  }

  lemma WinnerIsUnique(rules: seq<Rule>, field: Field, a: string, b: string)
    requires Wins(rules, field, a) && Wins(rules, field, b)
    ensures a == b
  {
    hide IsTop;
    var i: nat :| WinsAt(rules, field, a, i);
    var j: nat :| WinsAt(rules, field, b, j);
    assert rules[i].asserts[field] == a && rules[j].asserts[field] == b;
  }

  /** A rule conflicts if any value it asserts lost. */
  predicate Conflicts(r: Rule, winners: map<Field, string>) {
    exists field :: field in r.asserts && !(field in winners && winners[field] == r.asserts[field])
  }

  function Signed(winners: map<Field, string>): Rule -> int {
    (r: Rule) => if Conflicts(r, winners) then -(r.weight as int) else r.weight
  }

  function Score(rules: seq<Rule>, winners: map<Field, string>): int {
    SumBy(rules, Signed(winners))
  }

  function Clamp(n: int): int { if n < 0 then 0 else if n > 100 then 100 else n }

  function ItemFor(r: Rule, winners: map<Field, string>): Item {
    Item(r.text, Conflicts(r, winners), Signed(winners)(r))
  }

  function Items(rules: seq<Rule>, winners: map<Field, string>): seq<Item> {
    seq(|rules|, k requires 0 <= k < |rules| => ItemFor(rules[k], winners))
  }

  // ---- the order of the explanation -------------------------------------------------------

  predicate Descends(items: seq<Item>) {
    forall j, k :: 0 <= j < k < |items| ==> items[j].weight >= items[k].weight
  }

  function OfWeight(items: seq<Item>, weight: int): seq<Item> {
    if items == [] then []
    else (if items[0].weight == weight then [items[0]] else []) + OfWeight(items[1..], weight)
  }

  /** Before the first item that weighs no more. */
  function Insert(item: Item, items: seq<Item>): seq<Item> {
    if items == [] || items[0].weight <= item.weight then [item] + items
    else [items[0]] + Insert(item, items[1..])
  }

  /** A stable sort, heaviest first. */
  function Sorted(items: seq<Item>): seq<Item> {
    if items == [] then [] else Insert(items[0], Sorted(items[1..]))
  }

  lemma {:induction false} InsertDescends(item: Item, items: seq<Item>)
    requires Descends(items)
    ensures Descends(Insert(item, items))
    ensures forall i :: i in Insert(item, items) <==> i == item || i in items
  {
    if items == [] || items[0].weight <= item.weight {
    } else {
      var rest := Insert(item, items[1..]);
      InsertDescends(item, items[1..]);
      assert items == [items[0]] + items[1..];
      forall k | 0 <= k < |rest| ensures rest[k].weight <= items[0].weight {
        assert rest[k] in rest;
      }
    }
  }

  lemma {:induction false} InsertKeeps(item: Item, items: seq<Item>, weight: int)
    requires Descends(items)
    ensures OfWeight(Insert(item, items), weight) == OfWeight([item] + items, weight)
  {
    hide OfWeight, Descends;
    if items == [] || items[0].weight <= item.weight {
    } else {
      assert Descends(items[1..]) by { DescendsOn(items); }
      InsertKeeps(item, items[1..], weight);
      OfWeightFrom(items[0], Insert(item, items[1..]), weight);
      OfWeightFrom(items[0], items[1..], weight);
      OfWeightFrom(item, items, weight);
      OfWeightFrom(item, items[1..], weight);
      assert items == [items[0]] + items[1..];
    }
  }

  lemma DescendsOn(items: seq<Item>)
    requires Descends(items) && items != []
    ensures Descends(items[1..])
  {}

  lemma OfWeightFrom(first: Item, rest: seq<Item>, weight: int)
    ensures OfWeight([first] + rest, weight)
         == (if first.weight == weight then [first] else []) + OfWeight(rest, weight)
  {
    assert ([first] + rest)[1..] == rest;
  }

  /** Nothing is added or lost, and what is heavier comes first. */
  lemma {:induction false} SortedDescends(items: seq<Item>)
    ensures Descends(Sorted(items)) && multiset(Sorted(items)) == multiset(items)
  {
    if items == [] {
    } else {
      SortedDescends(items[1..]);
      InsertDescends(items[0], Sorted(items[1..]));
      InsertPermutes(items[0], Sorted(items[1..]));
      assert items == [items[0]] + items[1..];
      hide Insert, Descends;
    }
  }

  /** Items of one weight stay in the order in which their rules stand. */
  lemma {:induction false} SortedIsStable(items: seq<Item>, weight: int)
    ensures OfWeight(Sorted(items), weight) == OfWeight(items, weight)
  {
    if items == [] {
    } else {
      var rest := Sorted(items[1..]);
      SortedIsStable(items[1..], weight);
      SortedDescends(items[1..]);
      InsertKeeps(items[0], rest, weight);
      SameAfterHead(items, rest, weight);
      hide OfWeight, Insert, Descends;
    }
  }

  lemma {:induction false} InsertPermutes(item: Item, items: seq<Item>)
    ensures multiset(Insert(item, items)) == multiset(items) + multiset{item}
  {
    if items == [] || items[0].weight <= item.weight {
    } else {
      InsertPermutes(item, items[1..]);
      assert items == [items[0]] + items[1..];
    }
  }

  /** Heaviest first and stable leaves no choice. */
  lemma {:induction false} StableOrderIsUnique(a: seq<Item>, b: seq<Item>)
    requires Descends(a) && Descends(b) && forall weight :: OfWeight(a, weight) == OfWeight(b, weight)
    ensures a == b
  {
    if a == [] {
      HeadIsInIt(b);
    } else {
      var weight := a[0].weight;
      assert OfWeight(a, weight)[0] == a[0] && OfWeight(b, weight) == OfWeight(a, weight);
      OfWeightIsInIt(b, weight);
      OfWeightIsInIt(a, b[0].weight);
      assert OfWeight(b, b[0].weight)[0] == b[0] && OfWeight(a, b[0].weight) == OfWeight(b, b[0].weight);
      assert b[0].weight == weight;
      assert a[0] == b[0];
      forall u ensures OfWeight(a[1..], u) == OfWeight(b[1..], u) {
        assert OfWeight(a, u) == OfWeight(b, u);
        Rest(a, u);
        Rest(b, u);
      }
      StableOrderIsUnique(a[1..], b[1..]);
      assert a == [a[0]] + a[1..] && b == [b[0]] + b[1..];
    }
  }

  lemma SameAfterHead(items: seq<Item>, rest: seq<Item>, weight: int)
    requires items != [] && OfWeight(rest, weight) == OfWeight(items[1..], weight)
    ensures OfWeight([items[0]] + rest, weight) == OfWeight(items, weight)
  {
    assert ([items[0]] + rest)[1..] == rest;
  }

  lemma HeadIsInIt(items: seq<Item>)
    ensures items != [] ==> OfWeight(items, items[0].weight) != []
  {}

  lemma Rest(items: seq<Item>, weight: int)
    requires items != []
    ensures OfWeight(items[1..], weight) ==
            if items[0].weight == weight then OfWeight(items, weight)[1..] else OfWeight(items, weight)
  {}

  lemma {:induction false} OfWeightIsInIt(items: seq<Item>, weight: int)
    ensures forall i :: i in OfWeight(items, weight) ==> i in items && i.weight == weight
  {
    if items == [] {
    } else {
      OfWeightIsInIt(items[1..], weight);
    }
  }

  // ---- the scoring loop ----------------------------------------------------------------

  type Totals = map<(Field, string), int>

  /** Adds one rule's votes to the running totals. */
  method AddVotes(totals: Totals, r: Rule) returns (next: Totals)
    ensures forall f, v :: At(next, f, v) == At(totals, f, v) + Support(f, v)(r)
  {
    next := totals;
    var todo := r.asserts.Keys;
    while todo != {}
      invariant todo <= r.asserts.Keys
      invariant forall f, v :: At(next, f, v) == At(totals, f, v) + if f in todo then 0 else Support(f, v)(r)
      decreases todo
    {
      var f :| f in todo;
      todo := todo - {f};
      var v := r.asserts[f];
      next := next[(f, v) := At(next, f, v) + r.weight];
    }
  }

  function At(totals: Totals, f: Field, v: string): int {
    if (f, v) in totals then totals[(f, v)] else 0
  }

  method CountVotes(rules: seq<Rule>) returns (totals: Totals)
    ensures forall f, v :: At(totals, f, v) == Total(rules, f, v)
  {
    totals := map[];
    for k := 0 to |rules|
      invariant forall f, v :: At(totals, f, v) == Total(rules[..k], f, v)
    {
      assert rules[..k + 1][..k] == rules[..k] && rules[..k + 1] == rules[..k] + [rules[k]];
      totals := AddVotes(totals, rules[k]);
    }
    assert rules[..|rules|] == rules;
  }

  /** The top weight of a field, then the first rule that votes for a value of that weight. */
  method PickWinner(rules: seq<Rule>, field: Field, totals: Totals) returns (winner: Option<string>)
    requires forall f, v :: At(totals, f, v) == Total(rules, f, v)
    ensures if winner.Some? then Wins(rules, field, winner.value) else !Asserted(rules, field)
  {
    hide Total, SumBy;
    var best, top := 0, -1;
    for k := 0 to |rules|
      invariant -1 <= top < k
      invariant top >= 0 ==> field in rules[top].asserts && best == At(totals, field, rules[top].asserts[field])
      invariant forall j :: 0 <= j < k && field in rules[j].asserts ==>
                  top >= 0 && At(totals, field, rules[j].asserts[field]) <= best
    {
      if field in rules[k].asserts {
        var weight := At(totals, field, rules[k].asserts[field]);
        if top < 0 || weight > best { best, top := weight, k; }
      }
    }
    if top < 0 { return None; }
    var i := 0;
    while !(field in rules[i].asserts && At(totals, field, rules[i].asserts[field]) == best)
      invariant i <= top
      invariant forall j :: 0 <= j < i && field in rules[j].asserts ==>
                  At(totals, field, rules[j].asserts[field]) < best
      decreases top - i
    {
      i := i + 1;
    }
    var value := rules[i].asserts[field];
    winner := Some(value);
    assert IsTop(rules, field, value);
    forall j | 0 <= j < i && field in rules[j].asserts ensures !IsTop(rules, field, rules[j].asserts[field]) {
      assert rules[i] in rules;
    }
    assert WinsAt(rules, field, value, i);
  }

  method PickWinners(rules: seq<Rule>, totals: Totals) returns (winners: map<Field, string>)
    requires forall f, v :: At(totals, f, v) == Total(rules, f, v)
    ensures Elects(rules, winners)
  {
    hide Wins, Asserted;
    winners := map[];
    var todo := ALL_FIELDS;
    forall f: Field ensures f in todo { assert f.Manufacturer? || f.Category? || f.Family? || f.Platform?; }
    while todo != {}
      invariant todo <= ALL_FIELDS
      invariant forall f: Field :: f !in todo ==>
                  if f in winners then Wins(rules, f, winners[f]) else !Asserted(rules, f)
      invariant forall f :: f in todo ==> f !in winners
      decreases todo
    {
      var field :| field in todo;
      todo := todo - {field};
      var winner := PickWinner(rules, field, totals);
      if winner.Some? { winners := winners[field := winner.value]; }
    }
  }

  /** A supporting rule adds its weight, a conflicting one subtracts it. */
  method WeighEvidence(rules: seq<Rule>, winners: map<Field, string>) returns (confidence: int, evidence: seq<Item>)
    ensures confidence == Score(rules, winners) && evidence == Items(rules, winners)
  {
    confidence, evidence := 0, [];
    for k := 0 to |rules|
      invariant evidence == Items(rules[..k], winners)
      invariant confidence == SumBy(rules[..k], Signed(winners))
    {
      var r := rules[k];
      var conflicts := Conflicts(r, winners);
      var signed := if conflicts then -(r.weight as int) else r.weight;
      assert rules[..k + 1][..k] == rules[..k];
      confidence := confidence + signed;
      evidence := evidence + [Item(r.text, conflicts, signed)];
    }
    assert rules[..|rules|] == rules;
  }

  /** The winners, the clamped confidence and the evidence behind it: heaviest first, then in the order of the rules. */
  method InferIdentity(rules: seq<Rule>) returns (v: Verdict)
    ensures Elects(rules, v.winners)
    ensures 0 <= v.confidence <= 100
    ensures 0 <= Score(rules, v.winners) <= 100 ==> v.confidence == Score(rules, v.winners)
    ensures Score(rules, v.winners) < 0 ==> v.confidence == 0
    ensures Score(rules, v.winners) > 100 ==> v.confidence == 100
    ensures Descends(v.evidence) && multiset(v.evidence) == multiset(Items(rules, v.winners))
    ensures forall weight :: OfWeight(v.evidence, weight) == OfWeight(Items(rules, v.winners), weight)
  {
    var totals := CountVotes(rules);
    var winners := PickWinners(rules, totals);
    var confidence, evidence := WeighEvidence(rules, winners);
    SortedDescends(evidence);
    forall weight ensures OfWeight(Sorted(evidence), weight) == OfWeight(evidence, weight) {
      SortedIsStable(evidence, weight);
    }
    v := Verdict(winners, Clamp(confidence), Sorted(evidence));
  }

  /** A rule counts for the identity exactly if everything it asserts won, and against it exactly if something lost. */
  lemma ItemsTellWhoAgrees(rules: seq<Rule>, winners: map<Field, string>, k: nat)
    requires Loaded(rules) && k < |rules|
    ensures var item := Items(rules, winners)[k];
      && item.text == rules[k].text
      && (item.weight > 0 <==> Agrees(rules[k], winners))
      && (item.weight < 0 <==>
            exists f :: f in rules[k].asserts && !(f in winners && winners[f] == rules[k].asserts[f]))
      && (item.conflicts <==> item.weight < 0)
      && (item.weight == rules[k].weight || item.weight == -(rules[k].weight as int))
  {
    assert rules[k] in rules;
  }

  // ---- properties of the vote -------------------------------------------------------------

  /** The election is decided: any two outcomes of it are the same. */
  lemma ElectionIsDecided(rules: seq<Rule>, a: map<Field, string>, b: map<Field, string>)
    requires Elects(rules, a) && Elects(rules, b)
    ensures a == b
  {
    hide Wins, WinsAt;
    forall f: Field ensures (f in a <==> f in b) && (f in a ==> a[f] == b[f]) {
      if f in a { WinnerIsAsserted(rules, f, a[f]); }
      if f in b { WinnerIsAsserted(rules, f, b[f]); }
      if f in a && f in b { WinnerIsUnique(rules, f, a[f], b[f]); }
    }
  }

  lemma WinnerIsAsserted(rules: seq<Rule>, field: Field, value: string)
    requires Wins(rules, field, value)
    ensures Asserted(rules, field) && IsTop(rules, field, value)
    ensures exists r :: r in rules && VotesFor(r, field, value)
  {
    var i: nat :| WinsAt(rules, field, value, i);
    assert rules[i] in rules;
  }

  /** No two different values share the top weight of any field. */
  ghost predicate NoTies(rules: seq<Rule>) {
    forall field, q, r | q in rules && r in rules && field in q.asserts && field in r.asserts ::
      IsTop(rules, field, q.asserts[field]) && IsTop(rules, field, r.asserts[field]) ==>
        q.asserts[field] == r.asserts[field]
  }

  lemma TotalsPermute(a: seq<Rule>, b: seq<Rule>)
    requires multiset(a) == multiset(b)
    ensures forall f, v :: Total(a, f, v) == Total(b, f, v)
    ensures forall r :: r in a <==> r in b
    ensures forall f, v :: IsTop(a, f, v) <==> IsTop(b, f, v)
  {
    forall f, v ensures Total(a, f, v) == Total(b, f, v) { SumPermutes(a, b, Support(f, v)); }
    assert forall r :: r in a <==> r in multiset(a);
    assert forall r :: r in b <==> r in multiset(b);
  }

  /** Unless a field is tied, the order of the rules changes neither the winners nor the confidence. */
  lemma OrderOnlyBreaksTies(a: seq<Rule>, b: seq<Rule>, winners: map<Field, string>)
    requires multiset(a) == multiset(b) && NoTies(a) && Elects(a, winners)
    ensures Elects(b, winners) && Score(b, winners) == Score(a, winners)
  {
    TotalsPermute(a, b);
    SumPermutes(a, b, Signed(winners));
    forall f: Field
      ensures if f in winners then Wins(b, f, winners[f]) else !Asserted(b, f)
    {
      if f in winners { UntiedTopWins(a, b, f, winners[f]); }
    }
  }

  lemma UntiedTopWins(a: seq<Rule>, b: seq<Rule>, field: Field, value: string)
    requires multiset(a) == multiset(b) && NoTies(a) && Wins(a, field, value)
    ensures Wins(b, field, value)
  {
    TotalsPermute(a, b);
    WinnerIsAsserted(a, field, value);
    var r :| r in a && VotesFor(r, field, value);
    hide IsTop;
    var k := FirstVote(b, field, value, r);
    forall j | 0 <= j < k && field in b[j].asserts ensures !IsTop(b, field, b[j].asserts[field]) {
      assert b[j] in a;
    }
    assert WinsAt(b, field, value, k);
  }

  /** The first rule that votes for `value`. */
  lemma FirstVote(rules: seq<Rule>, field: Field, value: string, r: Rule) returns (k: nat)
    requires r in rules && VotesFor(r, field, value)
    ensures k < |rules| && VotesFor(rules[k], field, value)
    ensures forall j :: 0 <= j < k ==> !VotesFor(rules[j], field, value)
  {
    k := 0;
    while !VotesFor(rules[k], field, value)
      invariant k < |rules| && r in rules[k..]
      invariant forall j :: 0 <= j < k ==> !VotesFor(rules[j], field, value)
      decreases |rules| - k
    {
      assert rules[k..] == [rules[k]] + rules[k + 1..];
      k := k + 1;
    }
  }

  lemma TotalAppend(rules: seq<Rule>, r: Rule, field: Field, value: string)
    ensures Total(rules + [r], field, value) == Total(rules, field, value) + Support(field, value)(r)
  {
    assert (rules + [r])[..|rules|] == rules;
  }

  /** Everything the rule asserts won. */
  predicate Agrees(r: Rule, winners: map<Field, string>) {
    forall field :: field in r.asserts ==> field in winners && winners[field] == r.asserts[field]
  }

  /** Where nobody disagrees with the winners, the confidence is the weight of all rules. */
  lemma {:induction false} AgreementAddsUp(rules: seq<Rule>, winners: map<Field, string>)
    requires forall k :: 0 <= k < |rules| ==> Agrees(rules[k], winners)
    ensures Score(rules, winners) == SumBy(rules, (r: Rule) => r.weight)
  {
    if rules == [] {
    } else {
      var n := |rules| - 1;
      AgreementAddsUp(rules[..n], winners);
      assert Agrees(rules[n], winners);
    }
  }

  /** In general it is the weight of the rules that agree less the weight of those with a value that lost. */
  lemma {:induction false} ScoreIsAgreementLessDissent(rules: seq<Rule>, winners: map<Field, string>)
    ensures Score(rules, winners)
         == SumBy(rules, (r: Rule) => if Agrees(r, winners) then r.weight else -(r.weight as int))
  {
    if rules == [] {
    } else {
      var n := |rules| - 1;
      ScoreIsAgreementLessDissent(rules[..n], winners);
    }
  }

  /** The weight of all rules that assert `value`. */
  function WeightBehind(rules: seq<Rule>, field: Field, value: string): nat {
    if rules == [] then 0
    else
      var (rest, last) := (WeightBehind(rules[..|rules| - 1], field, value), rules[|rules| - 1]);
      if field in last.asserts && last.asserts[field] == value then rest + last.weight else rest
  }

  lemma {:induction false} TotalIsWeightBehind(rules: seq<Rule>, field: Field, value: string)
    ensures Total(rules, field, value) == WeightBehind(rules, field, value)
  {
    if rules == [] {
    } else {
      TotalIsWeightBehind(rules[..|rules| - 1], field, value);
    }
  }

  /** The winner of a field has at least as much weight behind it as any other value that is asserted for it. */
  lemma WinnersOutweigh(rules: seq<Rule>, winners: map<Field, string>, field: Field, r: Rule)
    requires Elects(rules, winners) && r in rules && field in r.asserts
    ensures field in winners
    ensures WeightBehind(rules, field, r.asserts[field]) <= WeightBehind(rules, field, winners[field])
  {
    assert Asserted(rules, field);
    WinnerIsAsserted(rules, field, winners[field]);
    TotalIsWeightBehind(rules, field, r.asserts[field]);
    TotalIsWeightBehind(rules, field, winners[field]);
  }

  /** Of the values that share the top weight the one asserted first wins. */
  lemma TiesGoToTheEarliest(rules: seq<Rule>, winners: map<Field, string>, field: Field, j: nat)
    requires Elects(rules, winners) && j < |rules| && field in rules[j].asserts
    requires field in winners
    requires WeightBehind(rules, field, rules[j].asserts[field]) == WeightBehind(rules, field, winners[field])
    ensures exists i :: 0 <= i <= j && field in rules[i].asserts && rules[i].asserts[field] == winners[field]
  {
    TotalIsWeightBehind(rules, field, rules[j].asserts[field]);
    TotalIsWeightBehind(rules, field, winners[field]);
    assert Wins(rules, field, winners[field]);
    var i: nat :| WinsAt(rules, field, winners[field], i);
    if j < i {
      assert IsTop(rules, field, rules[j].asserts[field]);
    }
  }

  /** More evidence for what already won - or evidence that claims nothing - keeps every winner and adds its weight. */
  lemma SupportOnlyStrengthens(rules: seq<Rule>, r: Rule, winners: map<Field, string>)
    requires Elects(rules, winners)
    requires forall field :: field in r.asserts ==> field in winners && winners[field] == r.asserts[field]
    ensures Elects(rules + [r], winners)
    ensures Score(rules + [r], winners) == Score(rules, winners) + r.weight
    ensures Clamp(Score(rules + [r], winners)) >= Clamp(Score(rules, winners))
  {
    SumConcat(rules, [r], Signed(winners));
    SumOne(r, Signed(winners));
    forall f: Field
      ensures if f in winners then Wins(rules + [r], f, winners[f]) else !Asserted(rules + [r], f)
    {
      if f in winners {
        StaysWinner(rules, r, f, winners[f]);
      } else {
        assert f !in r.asserts;
      }
    }
  }

  lemma StaysWinner(rules: seq<Rule>, r: Rule, field: Field, value: string)
    requires Wins(rules, field, value) && (field in r.asserts ==> r.asserts[field] == value)
    ensures Wins(rules + [r], field, value)
  {
    var i: nat :| WinsAt(rules, field, value, i);
    var more := rules + [r];
    forall v ensures Total(more, field, v) == Total(rules, field, v) + Support(field, v)(r) {
      TotalAppend(rules, r, field, v);
    }
    hide Total;
    assert IsTop(more, field, value);
    forall j | 0 <= j < i && field in more[j].asserts ensures !IsTop(more, field, more[j].asserts[field]) {
      var loser := rules[j].asserts[field];
      assert !IsTop(rules, field, loser);
      var q :| q in rules && field in q.asserts && Total(rules, field, q.asserts[field]) > Total(rules, field, loser);
      assert Total(rules, field, value) >= Total(rules, field, q.asserts[field]);
      assert loser != value;
      assert rules[i] in more && more[i].asserts[field] == value;
    }
    assert WinsAt(more, field, value, i);
  }

  /** Confidence is 0 not only when nothing matched: two rules that contradict each other evenly also cancel out. */
  lemma ConfidenceCanCancel() returns (rules: seq<Rule>, winners: map<Field, string>)
    ensures rules != [] && Loaded(rules) && Elects(rules, winners) && Score(rules, winners) == 0
  {
    var x := Rule(30, map[Category := "Phone"], "x");
    var y := Rule(30, map[Category := "Printer"], "y");
    rules, winners := [x, y], map[Category := "Phone"];
    assert rules == [x] + [y];
    forall f: Rule -> int ensures SumBy(rules, f) == f(x) + f(y) {
      SumConcat([x], [y], f);
      SumOne(x, f);
      SumOne(y, f);
    }
    assert IsTop(rules, Category, "Phone");
    assert WinsAt(rules, Category, "Phone", 0);
    assert Category in y.asserts && Conflicts(y, winners) && !Conflicts(x, winners);
  }

  /** Exactly when: the rules that agree with the winners weigh no more than the rules that do not. */
  lemma ConfidenceIsZeroExactlyWhenOutweighed(rules: seq<Rule>, winners: map<Field, string>)
    ensures Clamp(Score(rules, winners)) == 0 <==>
      SumBy(rules, (r: Rule) => if Agrees(r, winners) then r.weight else 0)
      <= SumBy(rules, (r: Rule) => if Agrees(r, winners) then 0 else r.weight)
  {
    ScoreSplits(rules, winners);
  }

  lemma {:induction false} ScoreSplits(rules: seq<Rule>, winners: map<Field, string>)
    ensures Score(rules, winners) ==
      SumBy(rules, (r: Rule) => if Agrees(r, winners) then r.weight else 0)
      - SumBy(rules, (r: Rule) => if Agrees(r, winners) then 0 else r.weight)
  {
    if rules == [] {
    } else {
      ScoreSplits(rules[..|rules| - 1], winners);
    }
  }
}
