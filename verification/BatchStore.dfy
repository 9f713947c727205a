/**
 Storing a passive batch, whole or coalesced.

 `ObserveBatch` is the monitor's loop over a drained queue. Below the row cap it leaves in the store exactly the
 evidence that `Evidence.PutAll` describes, so what is proved about that fold, and about coalescing, holds of the
 tables. At the cap the whole and the coalesced batch leave the same rows up to ties in age, and the address shown for a
 device is the same where nothing ties.
 */
module BatchStore {
  import opened Options
  import opened Sets
  import opened Evidence
  import opened Retention
  import opened EvidenceStore
  import Coalescing
  import Hearsay

  /** Nothing has to be evicted to hold all of `seen`. */
  ghost predicate Fits(table: Table, seen: seq<Observation>, cap: nat) {
    Bounded(PutAll(table, seen), cap)
  }

  lemma {:induction false} PutAllGrows(table: Table, seen: seq<Observation>, n: nat, mac: Mac)
    requires n <= |seen|
    ensures KeysOf(PutAll(table, seen[..n]), mac) <= KeysOf(PutAll(table, seen), mac)
  {
    if n == |seen| {
      assert seen[..n] == seen;
    } else {
      assert seen[..|seen| - 1][..n] == seen[..n];
      PutAllGrows(table, seen[..|seen| - 1], n, mac);
    }
  }

  lemma FitsSoFar(table: Table, seen: seq<Observation>, n: nat, cap: nat, mac: Mac)
    requires n <= |seen| && Fits(table, seen, cap)
    ensures |KeysOf(PutAll(table, seen[..n]), mac)| <= cap
  {
    PutAllGrows(table, seen, n, mac);
    SubsetSize(KeysOf(PutAll(table, seen[..n]), mac), KeysOf(PutAll(table, seen), mac));
  }

  lemma {:induction false} ObservationsOfPrefix(env: Coalescing.Reading, batch: seq<Coalescing.Packet>, n: nat)
    requires n <= |batch|
    ensures Coalescing.Observations(env, batch[..n]) <= Coalescing.Observations(env, batch)
  {
    if n == |batch| {
      assert batch[..n] == batch;
    } else {
      assert batch[..|batch| - 1][..n] == batch[..n];
      ObservationsOfPrefix(env, batch[..|batch| - 1], n);
    }
  }

  /** The host name a packet is stored with and where it comes from; `answer` is that of a reverse lookup, if made. */
  function NamedAs(p: Coalescing.Packet, resolve: bool, answer: Option<string>): (Option<string>, Option<Source>) {
    if Truthy(p.key.hostname) then (p.key.hostname, Some(DhcpOption12))
    else if resolve then (answer, if Truthy(answer) then Some(ReverseDns) else None)
    else (p.key.hostname, None)
  }

  function Macs(batch: seq<Coalescing.Packet>): set<Mac> {
    set p | p in batch :: p.key.mac
  }

  lemma MacsAppend(batch: seq<Coalescing.Packet>, p: Coalescing.Packet)
    ensures Macs(batch + [p]) == Macs(batch) + {p.key.mac}
  {
    assert forall q :: q in batch + [p] <==> q in batch || q == p;
  }

  /** What a packet reports itself comes first; what a lookup answers counts only without that, if it says anything. */
  lemma NamesAreReportedOrLookedUp(p: Coalescing.Packet, resolve: bool, answer: Option<string>)
    ensures var (name, source) := NamedAs(p, resolve, answer);
      && (p.key.hostname.Some? && p.key.hostname != Some("") ==> name == p.key.hostname && source == Some(DhcpOption12))
      && (source == Some(ReverseDns) ==> name == answer && answer.Some? && answer != Some("") && resolve)
      && (resolve && answer.Some? && answer != Some("") && p.key.hostname in {None, Some("")} ==>
            name == answer && source == Some(ReverseDns))
      && (source.None? <==> name in {None, Some("")})
  {}

  /** What storing one packet does to the evidence. */
  ghost predicate Stored(env: Coalescing.Reading, before: Table, after: Table, p: Coalescing.Packet, cap: nat) {
    if Coalescing.IsEvidence(env, p)
    then var o := Coalescing.ObservationOf(env, p); Trimmed(Put(before, o.key, o.key.id, o.at), after, o.key.mac, cap)
    else after == before
  }

  /** One more packet, none of whose device's rows has to go. */
  lemma OneMoreFits(env: Coalescing.Reading, table: Table, before: Table, after: Table,
                    batch: seq<Coalescing.Packet>, n: nat, cap: nat)
    requires n < |batch| && Fits(table, Coalescing.Observations(env, batch), cap)
    requires before == PutAll(table, Coalescing.Observations(env, batch[..n]))
    requires Stored(env, before, after, batch[n], cap)
    ensures after == PutAll(table, Coalescing.Observations(env, batch[..n + 1]))
  {
    var p := batch[n];
    assert batch[..n + 1][..n] == batch[..n];
    if Coalescing.IsEvidence(env, p) {
      var o := Coalescing.ObservationOf(env, p);
      var seen := Coalescing.Observations(env, batch[..n + 1]);
      ObservationsOfPrefix(env, batch, n + 1);
      assert Coalescing.Observations(env, batch)[..|seen|] == seen;
      FitsSoFar(table, Coalescing.Observations(env, batch), |seen|, cap, o.key.mac);
      PutAllAppend(table, Coalescing.Observations(env, batch[..n]), o);
      TrimmedOfAll(Put(before, o.key, o.key.id, o.at), after, o.key.mac, cap);
    }
  }

  /** What a store holds of the evidence: its address rows, all observations noted, and the devices known. */
  datatype Holdings = Holdings(table: Table, noted: seq<Observation>, known: set<Mac>)

  /** From `was` to `now` by the first `n` packets of a batch. */
  ghost predicate Advanced(env: Coalescing.Reading, batch: seq<Coalescing.Packet>, n: nat, cap: nat, was: Holdings,
                           now: Holdings)
    requires n <= |batch|
  {
    && now.known == was.known + Macs(batch[..n])
    && now.noted == was.noted + Coalescing.Observations(env, batch[..n])
    && (Fits(was.table, Coalescing.Observations(env, batch), cap) ==>
          now.table == PutAll(was.table, Coalescing.Observations(env, batch[..n])))
  }

  lemma AdvancedStep(env: Coalescing.Reading, batch: seq<Coalescing.Packet>, n: nat, cap: nat, was: Holdings,
                     now: Holdings, next: Holdings)
    requires n < |batch| && Advanced(env, batch, n, cap, was, now)
    requires Stored(env, now.table, next.table, batch[n], cap)
    requires next.noted == now.noted + Coalescing.Observations(env, [batch[n]])
    requires next.known == now.known + {batch[n].key.mac}
    ensures Advanced(env, batch, n + 1, cap, was, next)
  {
    hide Fits, PutAll, Coalescing.Observations, Stored, Macs;
    assert batch[..n + 1] == batch[..n] + [batch[n]];
    ObservationsAppend(env, batch[..n], batch[n]);
    MacsAppend(batch[..n], batch[n]);
    if Fits(was.table, Coalescing.Observations(env, batch), cap) {
      OneMoreFits(env, was.table, now.table, next.table, batch, n, cap);
    }
  }

  /** One packet as the monitor stores it; only a packet that names no host is looked up. */
  method ObservePacket(store: EvidenceStore, env: Coalescing.Reading, p: Coalescing.Packet, resolve: bool,
                       answer: Option<string>)
    requires store.Valid() && env.usable == store.texts.usable
    modifies store
    ensures store.Valid() && store.devices.Keys == old(store.devices).Keys + {p.key.mac}
    ensures forall m :: m in store.devices && m != p.key.mac ==> store.devices[m] == old(store.devices)[m]
    ensures Stored(env, old(store.addresses), store.addresses, p, store.cap)
    ensures store.noted == old(store.noted) + Coalescing.Observations(env, [p])
    ensures var (name, source) := NamedAs(p, resolve, answer);
      store.NameNoted(old(store.names), store.names, p.key.mac, name, source, Some(p.key.ip), env.iface(p.key.iface),
                      p.at)
  {
    var hostname := p.key.hostname;
    var source := if Truthy(hostname) then Some(DhcpOption12) else None;
    if !Truthy(hostname) && resolve {
      hostname := answer;
      if Truthy(hostname) { source := Some(ReverseDns); }
    }
    store.Observe(p.key.mac, Some(p.key.ip), hostname, p.at, env.iface(p.key.iface), p.key.source, source);
    ObservationsAppend(env, [], p);
    assert [] + [p] == [p];
  }

  lemma ObservationsAppend(env: Coalescing.Reading, batch: seq<Coalescing.Packet>, p: Coalescing.Packet)
    ensures Coalescing.Observations(env, batch + [p])
         == Coalescing.Observations(env, batch) + Coalescing.Observations(env, [p])
    ensures Coalescing.Observations(env, [p]) ==
            if Coalescing.IsEvidence(env, p) then [Coalescing.ObservationOf(env, p)] else []
  {
    assert (batch + [p])[..|batch|] == batch && [p][..0] == [];
  }

  /** Every packet is observed in order; with room for all of it, the evidence is the fold of the batch. */
  method ObserveBatch(store: EvidenceStore, env: Coalescing.Reading, batch: seq<Coalescing.Packet>, resolve: bool,
                      answers: seq<Option<string>>)
    requires store.Valid() && env.usable == store.texts.usable && |answers| == |batch|
    modifies store
    ensures store.Valid() && store.devices.Keys == old(store.devices).Keys + Macs(batch)
    ensures store.noted == old(store.noted) + Coalescing.Observations(env, batch)
    ensures Fits(old(store.addresses), Coalescing.Observations(env, batch), store.cap) ==>
              store.addresses == PutAll(old(store.addresses), Coalescing.Observations(env, batch))
  {
    ghost var was := Holdings(store.addresses, store.noted, store.devices.Keys);
    assert Advanced(env, batch, 0, store.cap, was, was);
    for n := 0 to |batch|
      invariant store.Valid()
      invariant Advanced(env, batch, n, store.cap, was, Holdings(store.addresses, store.noted, store.devices.Keys))
    {
      hide Advanced, Stored, EvidenceStore.Valid, EvidenceStore.NameNoted;
      ghost var now := Holdings(store.addresses, store.noted, store.devices.Keys);
      ObservePacket(store, env, batch[n], resolve, answers[n]);
      AdvancedStep(env, batch, n, store.cap, was, now, Holdings(store.addresses, store.noted, store.devices.Keys));
    }
    assert batch[..|batch|] == batch;
  }

  lemma CoalescedFitsToo(env: Coalescing.Reading, table: Table, batch: seq<Coalescing.Packet>,
                         kept: seq<Coalescing.Packet>, cap: nat)
    requires Coalescing.KeepsTheLatest(batch, kept) && ShowsAddresses(table)
    ensures Fits(table, Coalescing.Observations(env, batch), cap)
            <==> Fits(table, Coalescing.Observations(env, kept), cap)
  {
    Coalescing.CoalescingKeepsEvidence(env, table, batch, kept, "");
    var a := PutAll(table, Coalescing.Observations(env, batch));
    var b := PutAll(table, Coalescing.Observations(env, kept));
    assert forall mac :: KeysOf(a, mac) == KeysOf(b, mac);
  }

  /** What a store has noted before, followed by a batch or by its coalesced form. */
  lemma CoalescedAfterwards(env: Coalescing.Reading, before: seq<Observation>, batch: seq<Coalescing.Packet>,
                            kept: seq<Coalescing.Packet>)
    requires Coalescing.KeepsTheLatest(batch, kept)
    ensures KeepsTheLatest(before + Coalescing.Observations(env, batch), before + Coalescing.Observations(env, kept))
  {
    Coalescing.ObservationsKeepTheLatest(env, batch, kept);
    hide Coalescing.Observations, Coalescing.KeepsTheLatest;
    var (all, some) := (Coalescing.Observations(env, batch), Coalescing.Observations(env, kept));
    forall o | o in before + all ensures Echoed(before + some, o.key, o.at) {
      if o in before {
        assert o == Observation(o.key, o.at);
      } else {
        assert Echoed(some, o.key, o.at);
        var later :| o.at <= later && Observation(o.key, later) in some;
        assert Observation(o.key, later) in before + some;
      }
    }
  }

  /**
   Two stores, full or not, one of which was spared observations that a later one of the same key followed: their rows
   are the same up to ties in age, and where nothing ties they show the same address.
   */
  lemma BothWaysShowTheSame(whole: EvidenceStore, less: EvidenceStore, mac: Mac)
    requires whole.Valid() && less.Valid() && whole.cap == less.cap && KeepsTheLatest(whole.noted, less.noted)
    ensures SameUpToTies(whole.addresses, less.addresses, mac)
    ensures Settled(whole.addresses, whole.noted, mac) ==> SameButFirstFor(whole.addresses, less.addresses, mac)
    ensures Settled(whole.addresses, whole.noted, mac) && KeysOf(whole.addresses, mac) != {}
            && mac in whole.devices && mac in less.devices
            ==> whole.devices[mac].ip == less.devices[mac].ip
  {
    EchoesAreRemembered(less.addresses, whole.noted, less.noted, less.cap);
    RetainedUpToTies(whole.addresses, less.addresses, whole.noted, whole.cap, mac);
    DeterminedExactlyWhen(whole.addresses, whole.noted, whole.cap, mac);
    if Settled(whole.addresses, whole.noted, mac) && KeysOf(whole.addresses, mac) != {}
       && mac in whole.devices && mac in less.devices
    {
      ShownAlike(whole, less, mac);
    }
  }

  lemma ShownAlike(whole: EvidenceStore, less: EvidenceStore, mac: Mac)
    requires whole.Valid() && less.Valid() && SameButFirstFor(whole.addresses, less.addresses, mac)
    requires mac in whole.devices && mac in less.devices && KeysOf(whole.addresses, mac) != {}
    ensures whole.devices[mac].ip == less.devices[mac].ip
  {
    var best := Hearsay.BestExists(whole.addresses, KeysOf(whole.addresses, mac));
    var ip := whole.addresses[best].shown;
    assert Preferred(AddressTable, whole.addresses, mac, ip);
    FirstSeenIsNotRanked(whole.addresses, less.addresses, mac, ip);
    assert whole.Agrees(mac) && less.Agrees(mac);
  }
}
