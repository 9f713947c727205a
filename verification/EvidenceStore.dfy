/**
 The evidence tables of the device store, and the `ip` and `hostname` columns that cache what they prefer.

 `Valid` says that the cache agrees with the evidence for every device, that no device holds more rows than the cap,
 and that what it holds is the most recent of what was observed. Every method that an event outside the store reaches
 keeps it, also when the row that used to win is evicted.
 */
module EvidenceStore {
  import opened Options
  import opened Sets
  import opened Evidence
  import opened Retention

  /** The cached columns of one `devices` row. */
  datatype Shown = Shown(ip: Option<string>, hostname: Option<string>, lastSeen: int)

  /** The tests and normal forms of texts, which are not modelled further. */
  datatype Texts = Texts(usable: string -> bool, strip: string -> string, nameKey: string -> string)

  predicate IsDirect(s: Source) { s in {Arp, Ipv6Nd, Icmp} }

  function OrEmpty(s: Option<string>): string { if s.Some? then s.value else "" }

  predicate Truthy(s: Option<string>) { s.Some? && s.value != "" }

  class EvidenceStore {
    const cap: nat
    const texts: Texts
    var addresses: Table
    var names: Table
    var devices: map<Mac, Shown>
    /** Every address observation recorded so far of the devices that were not deleted since. */
    ghost var noted: seq<Observation>

    /** The columns of `mac` show what its evidence prefers. */
    ghost predicate Agrees(mac: Mac)
      requires mac in devices
      reads this
    {
      && (forall ip :: Preferred(AddressTable, addresses, mac, ip) ==> devices[mac].ip == Some(ip))
      && forall name :: Preferred(NameTable, names, mac, name) ==> devices[mac].hostname == Some(name)
    }

    ghost predicate InCap()
      reads this
    {
      cap >= 1 && Retains(addresses, noted, cap) && Bounded(names, cap)
    }

    ghost predicate Valid()
      reads this
    {
      InCap() && forall mac :: mac in devices ==> Agrees(mac)
    }

    constructor (maxRows: int, t: Texts)
      ensures Valid() && addresses == names == map[] && devices == map[] && noted == []
      ensures cap == (if maxRows < 1 then 1 else maxRows) && texts == t
    {
      cap := if maxRows < 1 then 1 else maxRows;
      texts := t;
      addresses, names, devices := map[], map[], map[];
      noted := [];
    }

    /** Widens the row of `key`, or adds one and evicts the oldest beyond the cap. */
    method Record(table: Table, key: Key, shown: string, at: int) returns (after: Table)
      requires Bounded(table, cap)
      ensures Trimmed(Put(table, key, shown, at), after, key.mac, cap)
      ensures Bounded(after, cap)
      ensures key in table ==> after == Put(table, key, shown, at)
    {
      after := Put(table, key, shown, at);
      ghost var put := after;
      assert forall m :: m != key.mac ==> KeysOf(put, m) == KeysOf(table, m);
      if key !in table {
        after := EnforceRowCap(after, key.mac, cap);
      } else {
        assert KeysOf(put, key.mac) == KeysOf(table, key.mac);
      }
      TrimmedIsBounded(table, put, after, key.mac, cap);
    }

    method RecordAddressEvidence(mac: Mac, ip: string, iface: Option<string>, source: Source, at: int)
      requires InCap()
      modifies this`addresses, this`noted
      ensures InCap()
      ensures noted == old(noted) +
        if texts.usable(ip) then [Observation(Key(mac, ip, OrEmpty(iface), source, ""), at)] else []
      ensures texts.usable(ip) ==>
                Trimmed(Put(old(addresses), Key(mac, ip, OrEmpty(iface), source, ""), ip, at), addresses, mac, cap)
      ensures !texts.usable(ip) ==> addresses == old(addresses)
      ensures SameForOthers(old(addresses), addresses, mac)
    {
      if texts.usable(ip) {
        hide Remembers, KeepsWhatFits, Trimmed, Put;
        ghost var before := addresses;
        ghost var o := Observation(Key(mac, ip, OrEmpty(iface), source, ""), at);
        addresses := Record(addresses, Key(mac, ip, OrEmpty(iface), source, ""), ip, at);
        RetainsStep(before, noted, o, addresses, cap);
        OthersAreSpared(before, o.key, ip, at, addresses, cap);
        noted := noted + [o];
      } else {
        assert noted + [] == noted;
      }
    }

    method RecordNameEvidence(mac: Mac, text: string, source: Source, ip: Option<string>, iface: Option<string>,
                              at: int)
      requires InCap()
      modifies this`names
      ensures InCap()
      ensures var name := texts.strip(text);
        if name == "" then names == old(names)
        else Trimmed(Put(old(names), Key(mac, texts.nameKey(name), OrEmpty(iface), source, OrEmpty(ip)), name, at),
                     names, mac, cap)
      ensures var name := texts.strip(text);
        var key := Key(mac, texts.nameKey(name), OrEmpty(iface), source, OrEmpty(ip));
        name != "" && key in names ==> names[key].shown == name
      ensures SameForOthers(old(names), names, mac)
    {
      var name := texts.strip(text);
      if name != "" {
        ghost var before, key := names, Key(mac, texts.nameKey(name), OrEmpty(iface), source, OrEmpty(ip));
        names := Record(names, Key(mac, texts.nameKey(name), OrEmpty(iface), source, OrEmpty(ip)), name, at);
        OthersAreSpared(before, key, name, at, names, cap);
      }
    }

    /** Writes the preferred values through; without evidence a column keeps what it had. */
    method RefreshPreferredFields(mac: Mac)
      modifies this`devices
      ensures devices.Keys == old(devices).Keys
      ensures forall m :: m in devices && m != mac ==> devices[m] == old(devices)[m]
      ensures mac in devices ==> Agrees(mac) && devices[mac].lastSeen == old(devices)[mac].lastSeen
      ensures mac in devices && KeysOf(addresses, mac) == {} ==> devices[mac].ip == old(devices)[mac].ip
      ensures mac in devices && KeysOf(names, mac) == {} ==> devices[mac].hostname == old(devices)[mac].hostname
    {
      var ip := PickPreferred(AddressTable, addresses, mac);
      var name := PickPreferred(NameTable, names, mac);
      if mac in devices {
        var row := devices[mac];
        devices := devices[mac := row.(ip := Coalesce(ip, row.ip), hostname := Coalesce(name, row.hostname))];
        forall other | Preferred(AddressTable, addresses, mac, other) ensures ip == Some(other) {
          if ip.Some? { PreferredIsUnique(AddressTable, addresses, mac, ip.value, other); }
        }
        forall other | Preferred(NameTable, names, mac, other) ensures name == Some(other) {
          if name.Some? { PreferredIsUnique(NameTable, names, mac, name.value, other); }
        }
      }
    }

    /** Whether an observation that reports `ip` moves the cached columns, which never go back in time. */
    predicate Advances(mac: Mac, seenAt: int)
      reads this
    {
      mac !in devices || seenAt >= devices[mac].lastSeen
    }

    /** The columns that an observation writes before the evidence has its say. */
    method Touch(mac: Mac, ip: Option<string>, hostname: Option<string>, seenAt: int)
      modifies this`devices
      ensures devices == old(devices)[mac := if old(Advances(mac, seenAt)) then Shown(ip, hostname, seenAt)
                                             else old(devices)[mac]]
    {
      if mac !in devices {
        devices := devices[mac := Shown(ip, hostname, seenAt)];
      } else {
        var row := devices[mac];
        var advance := seenAt >= row.lastSeen;
        devices := devices[mac := Shown(if advance then ip else row.ip, if advance then hostname else row.hostname,
                                        if advance then seenAt else row.lastSeen)];
      }
    }

    /** What one observation does to the address evidence: only a usable, directly observed address is recorded. */
    ghost predicate AddressNoted(before: Table, after: Table, mac: Mac, ip: Option<string>, iface: Option<string>,
                                 source: Source, at: int)
    {
      if Truthy(ip) && IsDirect(source) && texts.usable(ip.value)
      then Trimmed(Put(before, Key(mac, ip.value, OrEmpty(iface), source, ""), ip.value, at), after, mac, cap)
      else after == before
    }

    ghost predicate NameNoted(before: Table, after: Table, mac: Mac, text: Option<string>, source: Option<Source>,
                              ip: Option<string>, iface: Option<string>, at: int)
    {
      var name := if Truthy(text) then texts.strip(text.value) else "";
      if name != "" && source.Some?
      then Trimmed(Put(before, Key(mac, texts.nameKey(name), OrEmpty(iface), source.value, OrEmpty(ip)), name, at),
                   after, mac, cap)
      else after == before
    }

    /** The observations that one sighting records: at most one. */
    function Observed(mac: Mac, ip: Option<string>, iface: Option<string>, source: Source, at: int): seq<Observation> {
      if Truthy(ip) && IsDirect(source) && texts.usable(ip.value)
      then [Observation(Key(mac, ip.value, OrEmpty(iface), source, ""), at)] else []
    }

    /** A sighting is evidence of its address exactly if that is usable and was seen directly, on its own interface. */
    lemma DirectAddressesAreObserved(mac: Mac, ip: Option<string>, iface: Option<string>, source: Source, at: int)
      ensures Observed(mac, ip, iface, source, at) != [] <==>
              ip.Some? && ip.value != "" && texts.usable(ip.value) && source in {Arp, Ipv6Nd, Icmp}
      ensures forall o :: o in Observed(mac, ip, iface, source, at) ==>
                ip.Some? && o.at == at && o.key.mac == mac && o.key.id == ip.value && o.key.source == source
                && o.key.iface == match iface case Some(i) => i case None => ""
      ensures |Observed(mac, ip, iface, source, at)| <= 1
    {}

    method CollectEvidence(mac: Mac, ip: Option<string>, hostname: Option<string>, seenAt: int, iface: Option<string>,
                           source: Source, hostnameSource: Option<Source>)
      requires InCap()
      modifies this`addresses, this`names, this`noted
      ensures InCap() && noted == old(noted) + Observed(mac, ip, iface, source, seenAt)
      ensures AddressNoted(old(addresses), addresses, mac, ip, iface, source, seenAt)
      ensures NameNoted(old(names), names, mac, hostname, hostnameSource, ip, iface, seenAt)
      ensures SameForOthers(old(addresses), addresses, mac) && SameForOthers(old(names), names, mac)
    {
      hide Retains, Bounded, Trimmed, Put;
      if Truthy(ip) && IsDirect(source) {
        RecordAddressEvidence(mac, ip.value, iface, source, seenAt);
      } else {
        assert noted + [] == noted;
      }
      if Truthy(hostname) && hostnameSource.Some? {
        RecordNameEvidence(mac, hostname.value, hostnameSource.value, ip, iface, seenAt);
      }
    }

    method Observe(mac: Mac, ip: Option<string>, hostname: Option<string>, seenAt: int, iface: Option<string>,
                   source: Source, hostnameSource: Option<Source>)
      requires Valid()
      modifies this
      ensures Valid() && devices.Keys == old(devices).Keys + {mac}
      ensures noted == old(noted) + Observed(mac, ip, iface, source, seenAt)
      ensures forall m :: m in devices && m != mac ==> devices[m] == old(devices)[m]
      ensures AddressNoted(old(addresses), addresses, mac, ip, iface, source, seenAt)
      ensures NameNoted(old(names), names, mac, hostname, hostnameSource, ip, iface, seenAt)
      ensures mac in old(devices) && seenAt < old(devices)[mac].lastSeen ==>
                devices[mac].lastSeen == old(devices)[mac].lastSeen
                && (KeysOf(addresses, mac) == {} ==> devices[mac].ip == old(devices)[mac].ip)
                && (KeysOf(names, mac) == {} ==> devices[mac].hostname == old(devices)[mac].hostname)
      ensures mac !in old(devices) || seenAt >= old(devices)[mac].lastSeen ==>
                devices[mac].lastSeen == seenAt
                && (KeysOf(addresses, mac) == {} ==> devices[mac].ip == ip)
                && (KeysOf(names, mac) == {} ==> devices[mac].hostname == hostname)
    {
      hide AddressNoted, NameNoted, SameForOthers, PutAll, EvidenceStore.Observed;
      hide Preferred, Bounded, ShowsAddresses, KeysOf;
      Touch(mac, ip, hostname, seenAt);
      CollectEvidence(mac, ip, hostname, seenAt, iface, source, hostnameSource);
      RefreshPreferredFields(mac);
      OthersStillAgree(mac);
    }

    /** A lease that a DHCP server confirmed: hearsay about the client's address, and nothing about its presence. */
    method AcknowledgeLease(mac: Mac, offered: string, iface: string, observedAt: int)
      requires Valid()
      modifies this
      ensures Valid() && devices.Keys == old(devices).Keys && names == old(names)
      ensures noted == old(noted) +
        if texts.usable(offered) then [Observation(Key(mac, offered, iface, DhcpAck, ""), observedAt)] else []
      ensures forall m :: m in devices && m != mac ==> devices[m] == old(devices)[m]
      ensures mac in devices ==> devices[mac].lastSeen == old(devices)[mac].lastSeen
      ensures if texts.usable(offered)
              then Trimmed(Put(old(addresses), Key(mac, offered, iface, DhcpAck, ""), offered, observedAt),
                           addresses, mac, cap)
              else addresses == old(addresses)
    {
      RecordAddressEvidence(mac, offered, Some(iface), DhcpAck, observedAt);
      RefreshPreferredFields(mac);
      OthersStillAgree(mac);
    }

    method DeleteDevice(mac: Mac) returns (existed: bool)
      requires Valid()
      modifies this
      ensures Valid() && devices == old(devices) - {mac} && existed == (mac in old(devices))
      ensures noted == Without(old(noted), mac)
      ensures addresses == old(addresses) - KeysOf(old(addresses), mac) && names == old(names) - KeysOf(old(names), mac)
    {
      existed := mac in devices;
      RetainsTheRest(addresses, noted, mac, cap);
      BoundedWithout(names, mac, cap);
      noted := Without(noted, mac);
      addresses := addresses - KeysOf(addresses, mac);
      names := names - KeysOf(names, mac);
      devices := devices - {mac};
      hide Retains, Bounded;
      OthersStillAgree(mac);
    }

    /** What the cache shows for a device depends on its own rows alone. */
    twostate lemma OthersStillAgree(mac: Mac)
      requires old(Valid())
      requires SameForOthers(old(addresses), addresses, mac) && SameForOthers(old(names), names, mac)
      requires forall m :: m != mac && m in devices ==> m in old(devices) && devices[m] == old(devices)[m]
      ensures forall m :: m in devices && m != mac ==> Agrees(m)
    {
      forall m | m in devices && m != mac ensures Agrees(m) {
        assert old(Agrees(m));
        forall shown: string
          ensures Preferred(AddressTable, old(addresses), m, shown) <==> Preferred(AddressTable, addresses, m, shown)
          ensures Preferred(NameTable, old(names), m, shown) <==> Preferred(NameTable, names, m, shown)
        {
          OwnRowsDecide(AddressTable, old(addresses), addresses, m, shown);
          OwnRowsDecide(NameTable, old(names), names, m, shown);
        }
      }
    }
  }

  lemma OwnRowsDecide(kind: Kind, a: Table, b: Table, mac: Mac, shown: string)
    requires SameRows(a, b, mac)
    ensures Preferred(kind, a, mac, shown) <==> Preferred(kind, b, mac, shown)
  {
    assert KeysOf(a, mac) == KeysOf(b, mac);
    forall key ensures Best(kind, a, KeysOf(a, mac), key) <==> Best(kind, b, KeysOf(b, mac), key) {
      assert forall k :: k in KeysOf(a, mac) ==> RankOf(kind, k, a[k]) == RankOf(kind, k, b[k]);
    }
  }

  // ---- what recording can do to what is shown ----------------------------------------------------

  /** A direct observation later than all other evidence is shown at once, however full the table is. */
  lemma TheNewestDirectAddressIsShown(table: Table, kept: Table, key: Key, at: int, cap: nat)
    requires cap >= 1 && IsDirect(key.source) && Trimmed(Put(table, key, key.id, at), kept, key.mac, cap)
    requires forall k :: k in KeysOf(table, key.mac) ==> table[k].last < at
    ensures Preferred(AddressTable, kept, key.mac, key.id)
  {
    var put := Put(table, key, key.id, at);
    assert key in KeysOf(put, key.mac);
    SubsetSize({key}, KeysOf(put, key.mac));
    var other :| other in KeysOf(kept, key.mac);
    if key !in kept { EvictedIsOlder(put, kept, key, other, cap); }
    NothingIsBeforeItself(RankOf(AddressTable, key, put[key]));
    assert Best(AddressTable, kept, KeysOf(kept, key.mac), key);
  }

  lemma EvictedIsOlder(table: Table, kept: Table, gone: Key, key: Key, cap: nat)
    requires Trimmed(table, kept, key.mac, cap) && gone in KeysOf(table, key.mac) && gone !in kept && key in kept
    ensures table[gone].last <= table[key].last
  {
    assert gone in KeysOf(table, key.mac) - KeysOf(kept, key.mac) && key in KeysOf(kept, key.mac);
  }

  /** Hearsay displaces what direct observation shows only by evicting it. */
  lemma HearsayDisplacesOnlyByEviction(table: Table, kept: Table, best: Key, key: Key, at: int, cap: nat)
    requires Best(AddressTable, table, KeysOf(table, key.mac), best) && ShowsAddresses(table)
    requires IsDirect(best.source) && !IsDirect(key.source)
    requires Trimmed(Put(table, key, key.id, at), kept, key.mac, cap)
    ensures best in kept ==> Preferred(AddressTable, kept, key.mac, best.id)
    ensures |KeysOf(Put(table, key, key.id, at), key.mac)| <= cap ==> best in kept
  {
    var put := Put(table, key, key.id, at);
    if best in kept {
      forall k | k in KeysOf(kept, key.mac)
        ensures !RankOf(AddressTable, k, kept[k]).Before(RankOf(AddressTable, best, kept[best]))
      {
        assert k != key ==> k in KeysOf(table, key.mac);
      }
      assert Best(AddressTable, kept, KeysOf(kept, key.mac), best);
    }
    if |KeysOf(put, key.mac)| <= cap { TrimmedOfAll(put, kept, key.mac, cap); }
  }

  /** At the cap, one later lease is enough to evict a direct observation and to be shown in its place. */
  lemma HearsayCanEvictDirectEvidence() returns (table: Table, kept: Table, best: Key, key: Key)
    ensures Best(AddressTable, table, KeysOf(table, key.mac), best) && IsDirect(best.source) && !IsDirect(key.source)
    ensures Trimmed(Put(table, key, key.id, 2), kept, key.mac, 1)
    ensures best.id != key.id && Preferred(AddressTable, kept, key.mac, key.id)
  {
    best, key := Key("m", "10.0.0.1", "", Arp, ""), Key("m", "10.0.0.2", "", DhcpAck, "");
    assert best.id[7] == '1' && key.id[7] == '2';
    table := map[best := Row(best.id, 1, 1)];
    kept := map[key := Row(key.id, 2, 2)];
    assert KeysOf(table, "m") == {best} && KeysOf(kept, "m") == {key};
    assert KeysOf(Put(table, key, key.id, 2), "m") == {best, key};
    NothingIsBeforeItself(RankOf(AddressTable, best, table[best]));
    NothingIsBeforeItself(RankOf(AddressTable, key, kept[key]));
    assert Best(AddressTable, table, KeysOf(table, key.mac), best);
    assert Best(AddressTable, kept, KeysOf(kept, key.mac), key);
  }
}
