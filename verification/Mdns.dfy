/**
 Parsing one captured mDNS response: record framing (sections 4.1.1 and 4.1.3 of RFC 1035), the five record types the
 monitor understands, and the bounded TXT attributes.

 `None` stands for the parse error that makes the caller drop the whole datagram. Names stay lists of raw labels;
 turning bytes into text is a parameter (`Text`), so everything here holds for any decoding.
 */
module Mdns {
  import opened Options
  import opened DnsName

  const MAX_RECORDS := 64
  const MAX_ATTRIBUTES := 8
  const MAX_VALUE_LEN := 128
  const MAX_TOTAL_BYTES := 512

  const TYPE_A := 1
  const TYPE_PTR := 12
  const TYPE_TXT := 16
  const TYPE_AAAA := 28
  const TYPE_SRV := 33

  const ATTRIBUTE_ALLOWLIST: set<string> :=
    {"md", "model", "ty", "product", "note", "description", "usb_mfg", "usb_mdl", "fn"}

  /** How bytes are shown: whether an owner is the service-type enumeration name, and a TXT key and value as text. */
  datatype Text = Text(enumeration: seq<Label> -> bool, key: Bytes -> string, value: Bytes -> string)

  type Attributes = seq<(string, string)>

  datatype Claim =
    | Ptr(serviceType: seq<Label>, instance: seq<Label>)
    | Srv(instance: seq<Label>, host: seq<Label>, port: nat)
    | Txt(instance: seq<Label>, attributes: Attributes)
    | A(host: seq<Label>, address: Bytes)
    | Aaaa(host: seq<Label>, address: Bytes)

  datatype Sighting = Sighting(ttl: nat, cacheFlush: bool, claim: Claim)

  function U16(data: Bytes, pos: nat): nat
    requires pos + 2 <= |data|
  {
    data[pos] as int * 256 + data[pos + 1]
  }

  function U32(data: Bytes, pos: nat): nat
    requires pos + 4 <= |data|
  {
    U16(data, pos) * 0x10000 + U16(data, pos + 2)
  }

  function Min(a: nat, b: nat): nat { if a < b then a else b }

  // ---- TXT attributes ----------------------------------------------------------

  /** The complete length-prefixed strings from `pos` on; a truncated last one is ignored. */
  function Strings(rdata: Bytes, pos: nat): seq<Bytes>
    decreases |rdata| - pos
  {
    if pos >= |rdata| || pos + 1 + rdata[pos] > |rdata| then []
    else [rdata[pos + 1..pos + 1 + rdata[pos]]] + Strings(rdata, pos + 1 + rdata[pos])
  }

  /** The text before and after the first `=`; without one it is all key. */
  function Split(entry: Bytes): (Bytes, Bytes) {
    if entry == [] then ([], [])
    else if entry[0] == 61 then ([], entry[1..])
    else var (k, v) := Split(entry[1..]); ([entry[0]] + k, v)
  }

  /** A long value is cut, with an ellipsis in the last place. */
  function Shorten(value: string): string {
    if |value| > MAX_VALUE_LEN then value[..MAX_VALUE_LEN - 1] + ['\U{2026}'] else value
  }

  function Keys(attrs: Attributes): set<string> { set a | a in attrs :: a.0 }

  function Total(attrs: Attributes): nat {
    if attrs == [] then 0 else Total(attrs[..|attrs| - 1]) + |attrs[|attrs| - 1].1|
  }

  /** One string is kept if its key is allowed and new and its value still fits. */
  function Keep(attrs: Attributes, entry: Bytes, text: Text): Attributes {
    var key, value := text.key(Split(entry).0), Shorten(text.value(Split(entry).1));
    if key in ATTRIBUTE_ALLOWLIST && key !in Keys(attrs) && Total(attrs) + |value| <= MAX_TOTAL_BYTES
    then attrs + [(key, value)] else attrs
  }

  function KeepAll(attrs: Attributes, entries: seq<Bytes>, text: Text): Attributes
    decreases |entries|
  {
    if entries == [] || |attrs| >= MAX_ATTRIBUTES then attrs
    else KeepAll(Keep(attrs, entries[0], text), entries[1..], text)
  }

  method KeepEntry(attrs: Attributes, total: nat, entry: Bytes, text: Text) returns (kept: Attributes, size: nat)
    requires total == Total(attrs)
    ensures kept == Keep(attrs, entry, text) && size == Total(kept)
  {
    kept, size := attrs, total;
    var (keyBytes, valueBytes) := Split(entry);
    var key := text.key(keyBytes);
    if key !in ATTRIBUTE_ALLOWLIST || key in Keys(attrs) { return; }
    var value := Shorten(text.value(valueBytes));
    if total + |value| > MAX_TOTAL_BYTES { return; }
    kept, size := attrs + [(key, value)], total + |value|;
    assert kept[..|attrs|] == attrs;
  }

  method ParseTxtRdata(rdata: Bytes, text: Text) returns (attrs: Attributes)
    ensures attrs == KeepAll([], Strings(rdata, 0), text)
  {
    hide Keep, Split, Keys, Shorten;
    attrs := [];
    var total := 0;
    var pos := 0;
    while pos < |rdata| && |attrs| < MAX_ATTRIBUTES
      invariant total == Total(attrs)
      invariant KeepAll([], Strings(rdata, 0), text) == KeepAll(attrs, Strings(rdata, pos), text)
    {
      var length := rdata[pos];
      if pos + 1 + length > |rdata| { break; }
      var entry := rdata[pos + 1..pos + 1 + length];
      assert Strings(rdata, pos)[0] == entry && Strings(rdata, pos)[1..] == Strings(rdata, pos + 1 + length);
      attrs, total := KeepEntry(attrs, total, entry, text);
      pos := pos + 1 + length;
    }
  }

  ghost predicate Bounded(attrs: Attributes) {
    && |attrs| <= MAX_ATTRIBUTES && Total(attrs) <= MAX_TOTAL_BYTES && Keys(attrs) <= ATTRIBUTE_ALLOWLIST
    && (forall a :: a in attrs ==> |a.1| <= MAX_VALUE_LEN)
    && forall j, k :: 0 <= j < k < |attrs| ==> attrs[j].0 != attrs[k].0
  }

  /** However many strings a record carries, what is kept is a small set of distinct allowed keys. */
  lemma {:induction false} AttributesAreBounded(attrs: Attributes, entries: seq<Bytes>, text: Text)
    requires Bounded(attrs)
    ensures Bounded(KeepAll(attrs, entries, text))
    decreases |entries|
  {
    if entries != [] && |attrs| < MAX_ATTRIBUTES {
      var kept := Keep(attrs, entries[0], text);
      if kept != attrs {
        assert kept[..|attrs|] == attrs;
        assert kept[|attrs|].0 !in Keys(attrs);
        forall j | 0 <= j < |attrs| ensures attrs[j].0 in Keys(attrs) { assert attrs[j] in attrs; }
      }
      AttributesAreBounded(kept, entries[1..], text);
    }
  }

  predicate EncodableStrings(entries: seq<Bytes>) {
    forall e :: e in entries ==> |e| < 0x100
  }

  function EncodeStrings(entries: seq<Bytes>): Bytes
    requires EncodableStrings(entries)
  {
    if entries == [] then [] else [|entries[0]|] + entries[0] + EncodeStrings(entries[1..])
  }

  lemma {:induction false} ReadsBackStrings(rdata: Bytes, pos: nat, entries: seq<Bytes>)
    requires EncodableStrings(entries) && pos <= |rdata| && rdata[pos..] == EncodeStrings(entries)
    ensures Strings(rdata, pos) == entries
    decreases |entries|
  {
    if entries == [] {
    } else {
      var first, rest := entries[0], EncodeStrings(entries[1..]);
      var tail := rdata[pos..];
      assert tail == [|first|] + first + rest;
      assert rdata[pos] == tail[0];
      assert rdata[pos + 1..pos + 1 + |first|] == tail[1..1 + |first|] == first;
      assert rdata[pos + 1 + |first|..] == tail[1 + |first|..] == rest;
      ReadsBackStrings(rdata, pos + 1 + |first|, entries[1..]);
    }
  }

  /** A text is shown whole, or as its first 127 characters and a mark. */
  lemma LongValuesAreCut(value: string)
    ensures |value| <= 128 ==> Shorten(value) == value
    ensures |value| > 128 ==> |Shorten(value)| == 128 && Shorten(value)[..127] == value[..127]
                              && Shorten(value)[127] == '\U{2026}'
  {}

  /** A string splits at its first `=`, which belongs to neither side; without one it is all key. */
  lemma {:induction false} SplitsAtTheFirst(entry: Bytes)
    ensures var (k, v) := Split(entry);
      && 61 !in k
      && entry == (if 61 in entry then k + [61] + v else k)
      && (61 !in entry ==> v == [])
  {
    if entry == [] {
    } else if entry[0] == 61 {
      assert entry == [61] + entry[1..];
    } else {
      SplitsAtTheFirst(entry[1..]);
      var (k, v) := Split(entry[1..]);
      assert entry == [entry[0]] + entry[1..];
      assert [entry[0]] + (k + [61] + v) == [entry[0]] + k + [61] + v;
    }
  }

  function EncodeEntry(key: Bytes, value: Bytes): Bytes { key + [61] + value }

  /** A written pair is split again as it was. */
  lemma {:induction false} ReadsBackEntry(key: Bytes, value: Bytes)
    requires 61 !in key
    ensures Split(EncodeEntry(key, value)) == (key, value)
  {
    var entry := EncodeEntry(key, value);
    if key == [] {
      assert entry == [61] + value;
    } else {
      assert entry[1..] == EncodeEntry(key[1..], value);
      ReadsBackEntry(key[1..], value);
      assert key == [key[0]] + key[1..];
    }
  }

  /** One more string is kept exactly if there is room for it and its key is allowed and new; nothing kept is lost. */
  lemma {:induction false} OneMoreString(attrs: Attributes, entries: seq<Bytes>, entry: Bytes, text: Text)
    ensures var kept := KeepAll(attrs, entries, text);
      var (key, value) := (text.key(Split(entry).0), Shorten(text.value(Split(entry).1)));
      KeepAll(attrs, entries + [entry], text) == kept +
        if |kept| < 8 && key in ATTRIBUTE_ALLOWLIST && (forall a :: a in kept ==> a.0 != key)
           && Total(kept) + |value| <= 512
        then [(key, value)] else []
    decreases |entries|
  {
    if entries == [] {
      assert entries + [entry] == [entry] && [entry][1..] == [];
    } else if |attrs| < MAX_ATTRIBUTES {
      assert (entries + [entry])[1..] == entries[1..] + [entry];
      OneMoreString(Keep(attrs, entries[0], text), entries[1..], entry, text);
    }
  }

  predicate EncodablePairs(pairs: seq<(Bytes, Bytes)>) {
    forall p :: p in pairs ==> 61 !in p.0
  }

  function Entries(pairs: seq<(Bytes, Bytes)>): seq<Bytes> {
    if pairs == [] then []
    else
      var last := pairs[|pairs| - 1];
      Entries(pairs[..|pairs| - 1]) + [EncodeEntry(last.0, last.1)]
  }

  function Shown(pairs: seq<(Bytes, Bytes)>, text: Text): Attributes {
    seq(|pairs|, k requires 0 <= k < |pairs| => (text.key(pairs[k].0), text.value(pairs[k].1)))
  }

  /** At most eight pairs with different allowed keys and values within the limits are read back, all and in order. */
  lemma {:induction false} ReadsBackAttributes(pairs: seq<(Bytes, Bytes)>, text: Text)
    requires EncodablePairs(pairs) && Bounded(Shown(pairs, text))
    ensures KeepAll([], Entries(pairs), text) == Shown(pairs, text)
  {
    if pairs == [] {
    } else {
      var n := |pairs| - 1;
      var before, last := pairs[..n], pairs[n];
      var (some, all) := (Shown(before, text), Shown(pairs, text));
      assert all == some + [all[n]] && all[..n] == some;
      BoundedPrefix(all, n);
      ReadsBackAttributes(before, text);
      OneMoreString([], Entries(before), EncodeEntry(last.0, last.1), text);
      assert last in pairs && all[n] in all && all[n].0 in Keys(all);
      ReadsBackEntry(last.0, last.1);
      LongValuesAreCut(text.value(last.1));
      assert forall a :: a in some ==> a.0 != all[n].0;
    }
  }

  lemma BoundedPrefix(attrs: Attributes, n: nat)
    requires Bounded(attrs) && |attrs| == n + 1
    ensures Bounded(attrs[..n])
  {
    forall key | key in Keys(attrs[..n]) ensures key in Keys(attrs) {
      var a :| a in attrs[..n] && a.0 == key;
      assert a in attrs;
    }
  }

  // ---- records ------------------------------------------------------------------

  /** One examined record: what it claims, if anything the monitor uses, and where the next one starts. */
  datatype Examined = Examined(sighting: Option<Sighting>, next: nat)

  /** The claim of a record whose payload is `data[at..at + length]`; the outer option is the parse error. */
  function ReadClaim(data: Bytes, owner: seq<Label>, rtype: nat, at: nat, length: nat, text: Text)
      : Option<Option<Claim>>
    requires at + length <= |data|
  {
    if rtype == TYPE_PTR then
      var target := Read(data, at, at, 0);
      if target.None? then None
      else if target.value.labels == [] || text.enumeration(owner) then Some(None)
      else Some(Some(Ptr(owner, target.value.labels)))
    else if rtype == TYPE_SRV then
      if length < 6 then Some(None)
      else
        var target := Read(data, at + 6, at + 6, 0);
        if target.None? then None else Some(Some(Srv(owner, target.value.labels, U16(data, at + 4))))
    else if rtype == TYPE_TXT then
      Some(Some(Txt(owner, KeepAll([], Strings(data[at..at + length], 0), text))))
    else if rtype == TYPE_A && length == 4 then Some(Some(A(owner, data[at..at + length])))
    else if rtype == TYPE_AAAA && length == 16 then Some(Some(Aaaa(owner, data[at..at + length])))
    else Some(None)
  }

  /** Where the payload of a record names something, if it does. */
  function TargetAt(rtype: nat, at: nat, length: nat): Option<nat> {
    if rtype == TYPE_PTR then Some(at)
    else if rtype == TYPE_SRV && length >= 6 then Some(at + 6)
    else None
  }

  /**
   A record means what it would mean in a datagram that ends with it exactly when the name it refers to, if any, is not
   readable at all or touches nothing behind the record.
   */
  lemma ConfinedExactlyWhen(data: Bytes, owner: seq<Label>, rtype: nat, at: nat, length: nat, text: Text)
    requires at + length <= |data|
    ensures var target := TargetAt(rtype, at, length);
      ReadClaim(data[..at + length], owner, rtype, at, length, text) == ReadClaim(data, owner, rtype, at, length, text)
      <==> (target.Some? && SpelledAt(data, target.value) ==> SpelledWithin(data, target.value, at + length))
  {
    var end := at + length;
    assert data[..end][at..end] == data[at..end];
    if TargetAt(rtype, at, length).Some? {
      var target := TargetAt(rtype, at, length).value;
      ReadsWithinItsReach(data, end, target);
      AcceptsExactlyTheGrammar(data, target);
      hide Read, SpelledAt, SpelledWithin;
    }
  }

  /** A PTR record without payload is understood as naming whatever name follows it, which is nothing of its own. */
  lemma EmptyPtrNamesWhatFollows(data: Bytes, owner: seq<Label>, at: nat, labels: seq<Label>, text: Text)
    requires Encodable(labels) && labels != [] && At(data, at, EncodeName(labels)) && !text.enumeration(owner)
    ensures ReadClaim(data, owner, TYPE_PTR, at, 0, text) == Some(Some(Ptr(owner, labels)))
    ensures ReadClaim(data[..at], owner, TYPE_PTR, at, 0, text) == None
  {
    ReadsBackNames(data, at, labels);
  }

  function ReadRecord(data: Bytes, offset: nat, text: Text): Option<Examined> {
    var name := Read(data, offset, offset, 0);
    if name.None? || name.value.next + 10 > |data| then None
    else
      var fixed := name.value.next;
      var at, length := fixed + 10, U16(data, fixed + 8);
      if at + length > |data| then None
      else
        var claim := ReadClaim(data, name.value.labels, U16(data, fixed), at, length, text);
        if claim.None? then None
        else Some(Examined(
          if claim.value.None? then None
          else Some(Sighting(U32(data, fixed + 4), U16(data, fixed + 2) >= 0x8000, claim.value.value)),
          at + length))
  }

  function Listed(s: Option<Sighting>): seq<Sighting> {
    if s.Some? then [s.value] else []
  }

  function Append(before: seq<Sighting>, rest: Option<seq<Sighting>>): Option<seq<Sighting>> {
    if rest.Some? then Some(before + rest.value) else None
  }

  /** The sightings of exactly `count` consecutive records, in message order. */
  function ReadRecords(data: Bytes, offset: nat, count: nat, text: Text): Option<seq<Sighting>>
    decreases count
  {
    if count == 0 then Some([])
    else
      var record := ReadRecord(data, offset, text);
      if record.None? then None
      else Append(Listed(record.value.sighting), ReadRecords(data, record.value.next, count - 1, text))
  }

  function SkipQuestions(data: Bytes, offset: nat, count: nat): Option<nat>
    decreases count
  {
    if count == 0 then Some(offset)
    else
      var name := Read(data, offset, offset, 0);
      if name.None? || name.value.next + 4 > |data| then None
      else SkipQuestions(data, name.value.next + 4, count - 1)
  }

  predicate IsResponse(data: Bytes) { |data| >= 12 && U16(data, 2) >= 0x8000 }

  /** The whole parser: a query yields nothing, a response its first `MAX_RECORDS` records. */
  function Parse(data: Bytes, text: Text): Option<seq<Sighting>> {
    if |data| < 12 then None
    else if !IsResponse(data) then Some([])
    else
      var start := SkipQuestions(data, 12, Min(U16(data, 4), MAX_RECORDS));
      if start.None? then None
      else ReadRecords(data, start.value, Min(U16(data, 6) + U16(data, 8) + U16(data, 10), MAX_RECORDS), text)
  }

  lemma AppendTwice(a: seq<Sighting>, b: seq<Sighting>, rest: Option<seq<Sighting>>)
    ensures Append(a, Append(b, rest)) == Append(a + b, rest)
  {
    if rest.Some? { assert a + (b + rest.value) == a + b + rest.value; }
  }

  method ExamineClaim(data: Bytes, owner: seq<Label>, rtype: nat, at: nat, length: nat, text: Text)
      returns (claim: Option<Option<Claim>>)
    requires at + length <= |data|
    ensures claim == ReadClaim(data, owner, rtype, at, length, text)
  {
    hide Read, KeepAll, Strings;
    var rdata := data[at..at + length];
    claim := Some(None);
    if rtype == TYPE_PTR {
      var target := ReadName(data, at, 0);
      if target.None? { return None; }
      if target.value.labels == [] { return; }
      if text.enumeration(owner) { return; }
      claim := Some(Some(Ptr(owner, target.value.labels)));
    } else if rtype == TYPE_SRV {
      if |rdata| < 6 { return; }
      var target := ReadName(data, at + 6, 0);
      if target.None? { return None; }
      claim := Some(Some(Srv(owner, target.value.labels, U16(data, at + 4))));
    } else if rtype == TYPE_TXT {
      var attributes := ParseTxtRdata(rdata, text);
      claim := Some(Some(Txt(owner, attributes)));
    } else if rtype == TYPE_A {
      if |rdata| != 4 { return; }
      claim := Some(Some(A(owner, rdata)));
    } else if rtype == TYPE_AAAA {
      if |rdata| != 16 { return; }
      claim := Some(Some(Aaaa(owner, rdata)));
    }
  }

  method ExamineRecord(data: Bytes, offset: nat, text: Text) returns (record: Option<Examined>)
    ensures record == ReadRecord(data, offset, text)
  {
    var name := ReadName(data, offset, 0);
    if name.None? || name.value.next + 10 > |data| { return None; }
    var fixed := name.value.next;
    var length := U16(data, fixed + 8);
    var at := fixed + 10;
    if at + length > |data| { return None; }
    var claim := ExamineClaim(data, name.value.labels, U16(data, fixed), at, length, text);
    if claim.None? { return None; }
    var sighting := None;
    if claim.value.Some? {
      var cacheFlush := U16(data, fixed + 2) >= 0x8000;
      sighting := Some(Sighting(U32(data, fixed + 4), cacheFlush, claim.value.value));
    }
    record := Some(Examined(sighting, at + length));
  }

  /** How many records the first sections announce. */
  function Claimed(counts: seq<nat>, sections: nat): nat
    requires sections <= |counts|
  {
    if sections == 0 then 0 else Claimed(counts, sections - 1) + counts[sections - 1]
  }

  method SkipAllQuestions(data: Bytes, count: nat) returns (start: Option<nat>)
    ensures start == SkipQuestions(data, 12, count)
  {
    var offset: nat := 12;
    for q := 0 to count
      invariant SkipQuestions(data, 12, count) == SkipQuestions(data, offset, count - q)
    {
      var name := ReadName(data, offset, 0);
      if name.None? { return None; }
      if name.value.next + 4 > |data| { return None; }
      offset := name.value.next + 4;
    }
    start := Some(offset);
  }

  /** The record sections one after another, all drawing on one budget of `MAX_RECORDS`. */
  method ExamineSections(data: Bytes, start: nat, counts: seq<nat>, text: Text) returns (result: Option<seq<Sighting>>)
    ensures result == ReadRecords(data, start, Min(Claimed(counts, |counts|), MAX_RECORDS), text)
  {
    hide Read, ReadRecord;
    ghost var total := Min(Claimed(counts, |counts|), MAX_RECORDS);
    ghost var goal := ReadRecords(data, start, total, text);
    var sightings: seq<Sighting> := [];
    var processed, offset := 0, start;
    assert goal == Append([], goal) by { if goal.Some? { assert [] + goal.value == goal.value; } }
    for section := 0 to |counts|
      invariant processed == Min(Claimed(counts, section), MAX_RECORDS) <= total
      invariant goal == Append(sightings, ReadRecords(data, offset, total - processed, text))
    {
      ClaimedGrows(counts, section + 1);
      var k := 0;
      while k < Min(counts[section], MAX_RECORDS) && processed < MAX_RECORDS
        invariant k <= Min(counts[section], MAX_RECORDS)
        invariant processed == Min(Claimed(counts, section) + k, MAX_RECORDS) <= total
        invariant goal == Append(sightings, ReadRecords(data, offset, total - processed, text))
        decreases MAX_RECORDS - processed
      {
        var record := ExamineRecord(data, offset, text);
        if record.None? { return None; }
        AppendTwice(sightings, Listed(record.value.sighting),
                    ReadRecords(data, record.value.next, total - processed - 1, text));
        sightings := sightings + Listed(record.value.sighting);
        offset := record.value.next;
        processed := processed + 1;
        k := k + 1;
      }
    }
    assert sightings + [] == sightings;
    result := Some(sightings);
  }

  lemma {:induction false} ClaimedGrows(counts: seq<nat>, sections: nat)
    requires sections <= |counts|
    ensures Claimed(counts, sections) <= Claimed(counts, |counts|)
    decreases |counts| - sections
  {
    if sections < |counts| { ClaimedGrows(counts, sections + 1); }
  }

  lemma ClaimedByThree(counts: seq<nat>)
    requires |counts| == 3
    ensures Claimed(counts, 3) == counts[0] + counts[1] + counts[2]
  {
    assert Claimed(counts, 1) == Claimed(counts, 0) + counts[0];
    assert Claimed(counts, 2) == Claimed(counts, 1) + counts[1];
  }

  method ParsePacket(data: Bytes, text: Text) returns (result: Option<seq<Sighting>>)
    ensures result == Parse(data, text)
  {
    if |data| < 12 { return None; }
    if U16(data, 2) < 0x8000 { return Some([]); }
    var start := SkipAllQuestions(data, Min(U16(data, 4), MAX_RECORDS));
    if start.None? { return None; }
    var counts: seq<nat> := [U16(data, 6), U16(data, 8), U16(data, 10)];
    ClaimedByThree(counts);
    result := ExamineSections(data, start.value, counts, text);
  }

  // ---- writing messages -----------------------------------------------------------

  datatype Body =
    | PtrBody(target: seq<Label>)
    | SrvBody(priority: nat, weight: nat, port: nat, target: seq<Label>)
    | TxtBody(strings: seq<Bytes>)
    | ABody(address: Bytes)
    | AaaaBody(address: Bytes)
    | OtherBody(rtype: nat, rdata: Bytes)

  datatype Record = Record(owner: seq<Label>, rrclass: nat, ttl: nat, body: Body)

  datatype Question = Question(name: seq<Label>, fixed: Bytes)

  datatype Message = Message(id: nat, flags: nat, questions: seq<Question>,
                             answers: seq<Record>, authorities: seq<Record>, additionals: seq<Record>)

  predicate Fits16(n: nat) { n < 0x10000 }

  predicate EncodableBody(body: Body) {
    match body
    case PtrBody(target) => Encodable(target)
    case SrvBody(priority, weight, port, target) =>
      Fits16(priority) && Fits16(weight) && Fits16(port) && Encodable(target)
    case TxtBody(strings) => EncodableStrings(strings)
    case ABody(address) => |address| == 4
    case AaaaBody(address) => |address| == 16
    case OtherBody(rtype, _) => Fits16(rtype) && rtype !in {TYPE_A, TYPE_PTR, TYPE_TXT, TYPE_AAAA, TYPE_SRV}
  }

  predicate EncodableRecord(r: Record) {
    Encodable(r.owner) && Fits16(r.rrclass) && r.ttl < 0x1_0000_0000
    && EncodableBody(r.body) && Fits16(|EncodeBody(r.body)|)
  }

  function Bytes16(n: nat): Bytes
    requires Fits16(n)
  {
    [n / 256, n % 256]
  }

  function TypeOf(body: Body): nat {
    match body
    case PtrBody(_) => TYPE_PTR
    case SrvBody(_, _, _, _) => TYPE_SRV
    case TxtBody(_) => TYPE_TXT
    case ABody(_) => TYPE_A
    case AaaaBody(_) => TYPE_AAAA
    case OtherBody(rtype, _) => rtype
  }

  function EncodeBody(body: Body): Bytes
    requires EncodableBody(body)
  {
    match body
    case PtrBody(target) => EncodeName(target)
    case SrvBody(priority, weight, port, target) =>
      Bytes16(priority) + Bytes16(weight) + Bytes16(port) + EncodeName(target)
    case TxtBody(strings) => EncodeStrings(strings)
    case ABody(address) => address
    case AaaaBody(address) => address
    case OtherBody(_, rdata) => rdata
  }

  function EncodeFixed(r: Record): Bytes
    requires EncodableRecord(r)
  {
    Bytes16(TypeOf(r.body)) + Bytes16(r.rrclass) + Bytes16(r.ttl / 0x10000) + Bytes16(r.ttl % 0x10000)
    + Bytes16(|EncodeBody(r.body)|)
  }

  function EncodeRecord(r: Record): Bytes
    requires EncodableRecord(r)
  {
    EncodeName(r.owner) + EncodeFixed(r) + EncodeBody(r.body)
  }

  /** What a correctly written record should be understood as. */
  function Meaning(r: Record, text: Text): Option<Claim> {
    match r.body
    case PtrBody(target) => if target == [] || text.enumeration(r.owner) then None else Some(Ptr(r.owner, target))
    case SrvBody(_, _, port, target) => Some(Srv(r.owner, target, port))
    case TxtBody(strings) => Some(Txt(r.owner, KeepAll([], strings, text)))
    case ABody(address) => Some(A(r.owner, address))
    case AaaaBody(address) => Some(Aaaa(r.owner, address))
    case OtherBody(_, _) => None
  }

  function MeaningOf(r: Record, text: Text): Option<Sighting> {
    var claim := Meaning(r, text);
    if claim.Some? then Some(Sighting(r.ttl, r.rrclass >= 0x8000, claim.value)) else None
  }

  function MeaningOfAll(records: seq<Record>, text: Text): seq<Sighting> {
    if records == [] then [] else Listed(MeaningOf(records[0], text)) + MeaningOfAll(records[1..], text)
  }

  lemma ReadsBack16(data: Bytes, pos: nat, n: nat)
    requires Fits16(n) && At(data, pos, Bytes16(n))
    ensures U16(data, pos) == n
  {
    assert data[pos] == data[pos..pos + 2][0] && data[pos + 1] == data[pos..pos + 2][1];
  }

  lemma ReadsBackFixed(data: Bytes, pos: nat, r: Record)
    requires EncodableRecord(r) && At(data, pos, EncodeFixed(r))
    ensures pos + 10 <= |data| && U16(data, pos) == TypeOf(r.body) && U16(data, pos + 2) == r.rrclass
    ensures U32(data, pos + 4) == r.ttl && U16(data, pos + 8) == |EncodeBody(r.body)|
    ensures |EncodeFixed(r)| == 10
  {
    var a, b, c := Bytes16(TypeOf(r.body)), Bytes16(r.rrclass), Bytes16(r.ttl / 0x10000);
    var d, e := Bytes16(r.ttl % 0x10000), Bytes16(|EncodeBody(r.body)|);
    AtSplit(data, pos, a + b + c + d, e);
    AtSplit(data, pos, a + b + c, d);
    AtSplit(data, pos, a + b, c);
    AtSplit(data, pos, a, b);
    ReadsBack16(data, pos, TypeOf(r.body));
    ReadsBack16(data, pos + 2, r.rrclass);
    ReadsBack16(data, pos + 4, r.ttl / 0x10000);
    ReadsBack16(data, pos + 6, r.ttl % 0x10000);
    ReadsBack16(data, pos + 8, |EncodeBody(r.body)|);
  }

  lemma ReadsBackBody(data: Bytes, at: nat, r: Record, text: Text)
    requires EncodableRecord(r) && At(data, at, EncodeBody(r.body))
    ensures at + |EncodeBody(r.body)| <= |data|
    ensures ReadClaim(data, r.owner, TypeOf(r.body), at, |EncodeBody(r.body)|, text) == Some(Meaning(r, text))
  {
    match r.body
    case PtrBody(target) =>
      ReadsBackNames(data, at, target);
    case SrvBody(priority, weight, port, target) =>
      var front := Bytes16(priority) + Bytes16(weight);
      AtSplit(data, at, front + Bytes16(port), EncodeName(target));
      AtSplit(data, at, front, Bytes16(port));
      ReadsBack16(data, at + 4, port);
      ReadsBackNames(data, at + 6, target);
    case TxtBody(strings) =>
      var rdata := data[at..at + |EncodeBody(r.body)|];
      assert rdata[0..] == EncodeStrings(strings);
      ReadsBackStrings(rdata, 0, strings);
    case ABody(_) =>
    case AaaaBody(_) =>
    case OtherBody(_, _) =>
  }

  /** A record written anywhere in a message is read back as what it means, and reading resumes right after it. */
  lemma ReadsBackRecord(data: Bytes, pos: nat, r: Record, text: Text)
    requires EncodableRecord(r) && At(data, pos, EncodeRecord(r))
    ensures ReadRecord(data, pos, text) == Some(Examined(MeaningOf(r, text), pos + |EncodeRecord(r)|))
  {
    hide At, Read, EncodeName, EncodeFixed, EncodeBody, ReadClaim, Meaning;
    AtSplit(data, pos, EncodeName(r.owner) + EncodeFixed(r), EncodeBody(r.body));
    AtSplit(data, pos, EncodeName(r.owner), EncodeFixed(r));
    ReadsBackNames(data, pos, r.owner);
    var fixed := pos + |EncodeName(r.owner)|;
    ReadsBackFixed(data, fixed, r);
    ReadsBackBody(data, fixed + 10, r, text);
  }

  predicate EncodableRecords(records: seq<Record>) {
    forall r :: r in records ==> EncodableRecord(r)
  }

  function EncodeRecords(records: seq<Record>): Bytes
    requires EncodableRecords(records)
  {
    if records == [] then [] else EncodeRecord(records[0]) + EncodeRecords(records[1..])
  }

  /** From `pos` on, reading record after record gives the meanings of `records`. */
  predicate Legible(data: Bytes, pos: nat, records: seq<Record>, text: Text)
    decreases |records|
  {
    records == [] ||
    var first := ReadRecord(data, pos, text);
    && first.Some? && first.value.sighting == MeaningOf(records[0], text)
    && Legible(data, first.value.next, records[1..], text)
  }

  lemma {:induction false} WrittenIsLegible(data: Bytes, pos: nat, records: seq<Record>, text: Text)
    requires EncodableRecords(records) && At(data, pos, EncodeRecords(records))
    ensures Legible(data, pos, records, text)
    decreases |records|
  {
    hide At, EncodeRecord, ReadRecord, MeaningOf;
    if records != [] {
      AtSplit(data, pos, EncodeRecord(records[0]), EncodeRecords(records[1..]));
      ReadsBackRecord(data, pos, records[0], text);
      WrittenIsLegible(data, pos + |EncodeRecord(records[0])|, records[1..], text);
    }
  }

  lemma {:induction false} LegibleIsRead(data: Bytes, pos: nat, records: seq<Record>, count: nat, text: Text)
    requires Legible(data, pos, records, text) && count <= |records|
    ensures ReadRecords(data, pos, count, text) == Some(MeaningOfAll(records[..count], text))
    decreases count
  {
    if count > 0 {
      var read := records[..count];
      assert read[0] == records[0] && read[1..] == records[1..][..count - 1];
      LegibleIsRead(data, ReadRecord(data, pos, text).value.next, records[1..], count - 1, text);
    }
  }

  predicate EncodableQuestions(questions: seq<Question>) {
    forall q :: q in questions ==> Encodable(q.name) && |q.fixed| == 4
  }

  function EncodeQuestions(questions: seq<Question>): Bytes
    requires EncodableQuestions(questions)
  {
    if questions == [] then []
    else EncodeName(questions[0].name) + questions[0].fixed + EncodeQuestions(questions[1..])
  }

  lemma {:induction false} SkipsQuestions(data: Bytes, pos: nat, questions: seq<Question>)
    requires EncodableQuestions(questions) && At(data, pos, EncodeQuestions(questions))
    ensures SkipQuestions(data, pos, |questions|) == Some(pos + |EncodeQuestions(questions)|)
    decreases |questions|
  {
    hide At, Read, EncodeName;
    if questions != [] {
      var name, fixed, rest := EncodeName(questions[0].name), questions[0].fixed, questions[1..];
      AtSplit(data, pos, name + fixed, EncodeQuestions(rest));
      AtSplit(data, pos, name, fixed);
      ReadsBackNames(data, pos, questions[0].name);
      SkipsQuestions(data, pos + |name + fixed|, rest);
    }
  }

  function RecordsOf(m: Message): seq<Record> {
    m.answers + m.authorities + m.additionals
  }

  predicate EncodableMessage(m: Message) {
    && Fits16(m.id) && Fits16(m.flags) && Fits16(|m.questions|)
    && Fits16(|m.answers|) && Fits16(|m.authorities|) && Fits16(|m.additionals|)
    && EncodableQuestions(m.questions) && EncodableRecords(RecordsOf(m))
  }

  function EncodeHeader(m: Message): Bytes
    requires EncodableMessage(m)
  {
    Bytes16(m.id) + Bytes16(m.flags) + Bytes16(|m.questions|)
    + Bytes16(|m.answers|) + Bytes16(|m.authorities|) + Bytes16(|m.additionals|)
  }

  function EncodeMessage(m: Message): Bytes
    requires EncodableMessage(m)
  {
    EncodeHeader(m) + EncodeQuestions(m.questions) + EncodeRecords(RecordsOf(m))
  }

  lemma ReadsBackHeader(data: Bytes, m: Message)
    requires EncodableMessage(m) && At(data, 0, EncodeHeader(m))
    ensures |data| >= 12 && U16(data, 2) == m.flags && U16(data, 4) == |m.questions|
    ensures U16(data, 6) == |m.answers| && U16(data, 8) == |m.authorities| && U16(data, 10) == |m.additionals|
  {
    var a, b, c := Bytes16(m.id), Bytes16(m.flags), Bytes16(|m.questions|);
    var d, e, f := Bytes16(|m.answers|), Bytes16(|m.authorities|), Bytes16(|m.additionals|);
    AtSplit(data, 0, a + b + c + d + e, f);
    AtSplit(data, 0, a + b + c + d, e);
    AtSplit(data, 0, a + b + c, d);
    AtSplit(data, 0, a + b, c);
    AtSplit(data, 0, a, b);
    ReadsBack16(data, 2, m.flags);
    ReadsBack16(data, 4, |m.questions|);
    ReadsBack16(data, 6, |m.answers|);
    ReadsBack16(data, 8, |m.authorities|);
    ReadsBack16(data, 10, |m.additionals|);
  }

  /**
   Any response with at most `MAX_RECORDS` questions is read back as the meanings of its first `MAX_RECORDS` records,
   in message order and regardless of how they are spread over the sections. Trailing bytes change nothing.
   */
  lemma ReadsBackMessages(m: Message, trailing: Bytes, text: Text)
    requires EncodableMessage(m) && m.flags >= 0x8000 && |m.questions| <= MAX_RECORDS
    ensures var records := RecordsOf(m);
      Parse(EncodeMessage(m) + trailing, text) == Some(MeaningOfAll(records[..Min(|records|, MAX_RECORDS)], text))
  {
    PartsOfMessage(m, trailing);
    ReadsLaidOutMessage(EncodeMessage(m) + trailing, m, text);
  }

  /** A written query yields nothing, however many known answers it carries and whatever follows it. */
  lemma QueriesYieldNothing(m: Message, trailing: Bytes, text: Text)
    requires EncodableMessage(m) && m.flags < 0x8000
    ensures Parse(EncodeMessage(m) + trailing, text) == Some([])
  {
    hide EncodeHeader, EncodeQuestions, EncodeRecords, At;
    PartsOfMessage(m, trailing);
    ReadsBackHeader(EncodeMessage(m) + trailing, m);
  }

  /** The header, the questions and the records of `m` follow one another at the start of `data`. */
  predicate LaidOut(data: Bytes, m: Message)
    requires EncodableMessage(m)
  {
    At(data, 0, EncodeHeader(m)) && At(data, 12, EncodeQuestions(m.questions))
    && At(data, 12 + |EncodeQuestions(m.questions)|, EncodeRecords(RecordsOf(m)))
  }

  lemma ReadsLaidOutMessage(data: Bytes, m: Message, text: Text)
    requires EncodableMessage(m) && m.flags >= 0x8000 && |m.questions| <= MAX_RECORDS && LaidOut(data, m)
    ensures var records := RecordsOf(m);
      Parse(data, text) == Some(MeaningOfAll(records[..Min(|records|, MAX_RECORDS)], text))
  {
    hide At, EncodeHeader, EncodeRecords, EncodeQuestions, SkipQuestions, ReadRecords, MeaningOfAll, Legible;
    var records := RecordsOf(m);
    ReadsBackHeader(data, m);
    SkipsQuestions(data, 12, m.questions);
    var start := 12 + |EncodeQuestions(m.questions)|;
    WrittenIsLegible(data, start, records, text);
    LegibleIsRead(data, start, records, Min(|records|, MAX_RECORDS), text);
  }

  lemma PartsOfMessage(m: Message, trailing: Bytes)
    requires EncodableMessage(m)
    ensures LaidOut(EncodeMessage(m) + trailing, m)
  {
    var data := EncodeMessage(m) + trailing;
    var header, questions, records := EncodeHeader(m), EncodeQuestions(m.questions), EncodeRecords(RecordsOf(m));
    assert data[0..0 + |EncodeMessage(m)|] == EncodeMessage(m);
    AtSplit(data, 0, header + questions, records);
    AtSplit(data, 0, header, questions);
  }
}
