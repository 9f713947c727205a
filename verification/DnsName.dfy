/**
 Reading domain names from an untrusted datagram.

 `Shape` and the functions on it are the grammar of section 4.1.4 of RFC 1035: a name is a run of labels ended by the
 root or by a pointer to a name that starts earlier. `ReadName` is the reader as the monitor runs it. The lemmas show
 that it accepts exactly the names of that grammar with at most `MAX_HOPS` pointers, and returns what they denote.
 */
module DnsName {
  import opened Options

  type byte = x: int | 0 <= x < 256
  type Bytes = seq<byte>
  type Label = seq<byte>

  const MAX_HOPS := 20

  datatype Name = Name(labels: seq<Label>, next: nat)

  // ---- the grammar -----------------------------------------------------------

  datatype Shape = Root | Labelled(rest: Shape) | Pointer(target: Shape)

  /** The 14-bit offset of the pointer at `pos`, whose two top bits are set. */
  function Target(data: Bytes, pos: nat): nat
    requires pos + 1 < |data| && data[pos] >= 0xC0
  {
    (data[pos] as int - 0xC0) * 256 + data[pos + 1]
  }

  /** The bytes from `pos` on are a name of this shape; `start` is where the current run of labels began. */
  predicate Spells(data: Bytes, start: nat, pos: nat, shape: Shape)
    decreases shape
  {
    match shape
    case Root => pos < |data| && data[pos] == 0
    case Labelled(rest) =>
      pos < |data| && 0 < data[pos] < 0x40 && pos + 1 + data[pos] <= |data|
      && Spells(data, start, pos + 1 + data[pos], rest)
    case Pointer(target) =>
      pos + 1 < |data| && data[pos] >= 0xC0 && Target(data, pos) < start
      && Spells(data, Target(data, pos), Target(data, pos), target)
  }

  function Labels(data: Bytes, start: nat, pos: nat, shape: Shape): seq<Label>
    requires Spells(data, start, pos, shape)
    decreases shape
  {
    match shape
    case Root => []
    case Labelled(rest) => [data[pos + 1..pos + 1 + data[pos]]] + Labels(data, start, pos + 1 + data[pos], rest)
    case Pointer(target) => Labels(data, Target(data, pos), Target(data, pos), target)
  }

  /** The offset just after the name: after the root byte, or after the first pointer. */
  function End(data: Bytes, start: nat, pos: nat, shape: Shape): nat
    requires Spells(data, start, pos, shape)
    decreases shape
  {
    match shape
    case Root => pos + 1
    case Labelled(rest) => End(data, start, pos + 1 + data[pos], rest)
    case Pointer(_) => pos + 2
  }

  function Hops(shape: Shape): nat {
    match shape
    case Root => 0
    case Labelled(rest) => Hops(rest)
    case Pointer(target) => 1 + Hops(target)
  }

  // ---- the reader ------------------------------------------------------------

  function Prepend(labels: seq<Label>, name: Option<Name>): Option<Name> {
    if name.Some? then Some(Name(labels + name.value.labels, name.value.next)) else None
  }

  /** What `ReadName` returns when it has reached `pos` in the run of labels that began at `start`. */
  function Read(data: Bytes, start: nat, pos: nat, depth: nat): Option<Name>
    decreases start, |data| - pos
  {
    if depth > MAX_HOPS || pos >= |data| then None
    else if data[pos] == 0 then Some(Name([], pos + 1))
    else if data[pos] >= 0xC0 then
      if pos + 1 >= |data| || Target(data, pos) >= start then None
      else
        var name := Read(data, Target(data, pos), Target(data, pos), depth + 1);
        if name.Some? then Some(Name(name.value.labels, pos + 2)) else None
    else if data[pos] >= 0x40 || pos + 1 + data[pos] > |data| then None
    else Prepend([data[pos + 1..pos + 1 + data[pos]]], Read(data, start, pos + 1 + data[pos], depth))
  }

  lemma PrependTwice(a: seq<Label>, b: seq<Label>, name: Option<Name>)
    ensures Prepend(a, Prepend(b, name)) == Prepend(a + b, name)
  {
    if name.Some? { assert a + (b + name.value.labels) == a + b + name.value.labels; }
  }

  lemma PrependNothing(name: Option<Name>)
    ensures Prepend([], name) == name
  {
    if name.Some? { assert [] + name.value.labels == name.value.labels; }
  }

  /** The loop over labels with one recursive call per pointer; every pointer strictly lowers `offset`. */
  method ReadName(data: Bytes, offset: nat, depth: nat) returns (name: Option<Name>)
    ensures name == Read(data, offset, offset, depth)
    decreases offset
  {
    if depth > MAX_HOPS { return None; }
    var labels: seq<Label> := [];
    var pos := offset;
    PrependNothing(Read(data, offset, pos, depth));
    while true
      invariant Read(data, offset, offset, depth) == Prepend(labels, Read(data, offset, pos, depth))
      decreases |data| - pos
    {
      if pos >= |data| { return None; }
      var length := data[pos];
      if length == 0 {
        assert labels + [] == labels;
        return Some(Name(labels, pos + 1));
      }
      if length >= 0xC0 {
        if pos + 1 >= |data| { return None; }
        var pointer := (length as int - 0xC0) * 256 + data[pos + 1];
        if pointer >= offset { return None; }
        var sub := ReadName(data, pointer, depth + 1);
        return if sub.Some? then Some(Name(labels + sub.value.labels, pos + 2)) else None;
      }
      if length >= 0x40 { return None; }
      if pos + 1 + length > |data| { return None; }
      var piece := data[pos + 1..pos + 1 + length];
      PrependTwice(labels, [piece], Read(data, offset, pos + 1 + length, depth));
      labels := labels + [piece];
      pos := pos + 1 + length;
    }
  }

  // ---- the reader and the grammar agree ------------------------------------------

  lemma {:induction false} ReadsEverySpelledName(data: Bytes, start: nat, pos: nat, depth: nat, shape: Shape)
    requires Spells(data, start, pos, shape) && depth + Hops(shape) <= MAX_HOPS
    ensures Read(data, start, pos, depth) == Some(Name(Labels(data, start, pos, shape), End(data, start, pos, shape)))
    decreases shape
  {
    match shape
    case Root =>
    case Labelled(rest) => ReadsEverySpelledName(data, start, pos + 1 + data[pos], depth, rest);
    case Pointer(target) => ReadsEverySpelledName(data, Target(data, pos), Target(data, pos), depth + 1, target);
  }

  lemma {:induction false} ReadsOnlySpelledNames(data: Bytes, start: nat, pos: nat, depth: nat) returns (shape: Shape)
    requires Read(data, start, pos, depth).Some?
    ensures Spells(data, start, pos, shape) && depth + Hops(shape) <= MAX_HOPS
    decreases start, |data| - pos
  {
    if data[pos] == 0 {
      shape := Root;
    } else if data[pos] >= 0xC0 {
      var target := ReadsOnlySpelledNames(data, Target(data, pos), Target(data, pos), depth + 1);
      shape := Pointer(target);
    } else {
      var rest := ReadsOnlySpelledNames(data, start, pos + 1 + data[pos], depth);
      shape := Labelled(rest);
    }
  }

  ghost predicate SpelledAt(data: Bytes, offset: nat) {
    exists shape :: Spells(data, offset, offset, shape) && Hops(shape) <= MAX_HOPS
  }

  /** Read from its start, a name is accepted exactly when the grammar has it with at most `MAX_HOPS` pointers. */
  lemma AcceptsExactlyTheGrammar(data: Bytes, offset: nat)
    ensures Read(data, offset, offset, 0).Some? <==> SpelledAt(data, offset)
  {
    if Read(data, offset, offset, 0).Some? {
      var shape := ReadsOnlySpelledNames(data, offset, offset, 0);
    }
    if SpelledAt(data, offset) {
      var shape :| Spells(data, offset, offset, shape) && Hops(shape) <= MAX_HOPS;
      ReadsEverySpelledName(data, offset, offset, 0, shape);
    }
  }

  /** A byte string spells at most one name at an offset. */
  lemma {:induction false} SpellingIsUnique(data: Bytes, start: nat, pos: nat, a: Shape, b: Shape)
    requires Spells(data, start, pos, a) && Spells(data, start, pos, b)
    ensures a == b
    decreases a
  {
    match a
    case Root =>
    case Labelled(rest) => SpellingIsUnique(data, start, pos + 1 + data[pos], rest, b.rest);
    case Pointer(target) => SpellingIsUnique(data, Target(data, pos), Target(data, pos), target, b.target);
  }

  /** Accepted labels have 1 to 63 bytes, and reading resumes after the name but still inside the datagram. */
  lemma {:induction false} ResultIsInBounds(data: Bytes, start: nat, pos: nat, depth: nat)
    requires Read(data, start, pos, depth).Some?
    ensures var name := Read(data, start, pos, depth).value;
      && pos < name.next <= |data|
      && forall l :: l in name.labels ==> 0 < |l| < 0x40
    decreases start, |data| - pos
  {
    if data[pos] == 0 {
    } else if data[pos] >= 0xC0 {
      ResultIsInBounds(data, Target(data, pos), Target(data, pos), depth + 1);
    } else {
      ResultIsInBounds(data, start, pos + 1 + data[pos], depth);
    }
  }

  // ---- how far a name reaches ----------------------------------------------------

  function Max(a: nat, b: nat): nat { if a < b then b else a }

  /** One past the last byte that a name touches, what its pointers lead to included. */
  function Reach(data: Bytes, start: nat, pos: nat, shape: Shape): nat
    requires Spells(data, start, pos, shape)
    decreases shape
  {
    match shape
    case Root => pos + 1
    case Labelled(rest) => Reach(data, start, pos + 1 + data[pos], rest)
    case Pointer(target) => Max(pos + 2, Reach(data, Target(data, pos), Target(data, pos), target))
  }

  /** A datagram that is cut off spells the names that reach no further than the cut, and spells them alike. */
  lemma {:induction false} SpellsWithinItsReach(data: Bytes, n: nat, start: nat, pos: nat, shape: Shape)
    requires n <= |data|
    ensures Spells(data[..n], start, pos, shape) <==>
            Spells(data, start, pos, shape) && Reach(data, start, pos, shape) <= n
    ensures Spells(data[..n], start, pos, shape) ==>
      && Labels(data[..n], start, pos, shape) == Labels(data, start, pos, shape)
      && End(data[..n], start, pos, shape) == End(data, start, pos, shape)
    decreases shape
  {
    if Spells(data, start, pos, shape) { ReachIsAhead(data, start, pos, shape); }
    match shape
    case Root =>
    case Labelled(rest) =>
      if pos < n {
        SpellsWithinItsReach(data, n, start, pos + 1 + data[pos], rest);
        assert pos + 1 + data[pos] <= n ==>
          data[..n][pos + 1..pos + 1 + data[pos]] == data[pos + 1..pos + 1 + data[pos]];
      }
    case Pointer(target) =>
      if pos + 1 < n && data[pos] >= 0xC0 {
        SpellsWithinItsReach(data, n, Target(data, pos), Target(data, pos), target);
      }
  }

  lemma {:induction false} ReachIsAhead(data: Bytes, start: nat, pos: nat, shape: Shape)
    requires Spells(data, start, pos, shape)
    ensures pos < End(data, start, pos, shape) <= Reach(data, start, pos, shape) <= |data|
    decreases shape
  {
    match shape
    case Root =>
    case Labelled(rest) => ReachIsAhead(data, start, pos + 1 + data[pos], rest);
    case Pointer(target) => ReachIsAhead(data, Target(data, pos), Target(data, pos), target);
  }

  /** A name with at most `MAX_HOPS` pointers stands at `offset` and touches nothing from `n` on. */
  ghost predicate SpelledWithin(data: Bytes, offset: nat, n: nat) {
    exists shape ::
      Spells(data, offset, offset, shape) && Hops(shape) <= MAX_HOPS && Reach(data, offset, offset, shape) <= n
  }

  /** Cutting a datagram off leaves exactly the names that reach no further, and never changes one. */
  lemma ReadsWithinItsReach(data: Bytes, n: nat, offset: nat)
    requires n <= |data|
    ensures Read(data[..n], offset, offset, 0) ==
            if SpelledWithin(data, offset, n) then Read(data, offset, offset, 0) else None
  {
    if SpelledWithin(data, offset, n) {
      var shape :| Spells(data, offset, offset, shape) && Hops(shape) <= MAX_HOPS
                   && Reach(data, offset, offset, shape) <= n;
      SpellsWithinItsReach(data, n, offset, offset, shape);
      ReadsEverySpelledName(data, offset, offset, 0, shape);
      ReadsEverySpelledName(data[..n], offset, offset, 0, shape);
    } else if Read(data[..n], offset, offset, 0).Some? {
      var shape := ReadsOnlySpelledNames(data[..n], offset, offset, 0);
      SpellsWithinItsReach(data, n, offset, offset, shape);
    }
  }

  // ---- how long a name gets --------------------------------------------------------

  /** The length of a name without compression, which section 2.3.4 of RFC 1035 limits to 255 bytes. */
  function WireLength(labels: seq<Label>): nat {
    if labels == [] then 1 else 1 + |labels[0]| + WireLength(labels[1..])
  }

  const RFC_NAME_LIMIT := 255

  lemma {:induction false} WireLengthOfJoined(a: seq<Label>, b: seq<Label>)
    ensures WireLength(a + b) + 1 == WireLength(a) + WireLength(b)
    decreases |a|
  {
    if a == [] {
      assert a + b == b;
    } else {
      assert (a + b)[1..] == a[1..] + b;
      WireLengthOfJoined(a[1..], b);
    }
  }

  /** What the length bytes that spell a name add up to. */
  function SpelledLength(data: Bytes, start: nat, pos: nat, shape: Shape): nat
    requires Spells(data, start, pos, shape)
    decreases shape
  {
    match shape
    case Root => 1
    case Labelled(rest) => 1 + data[pos] + SpelledLength(data, start, pos + 1 + data[pos], rest)
    case Pointer(target) => SpelledLength(data, Target(data, pos), Target(data, pos), target)
  }

  lemma {:induction false} SpelledLengthIsWireLength(data: Bytes, start: nat, pos: nat, shape: Shape)
    requires Spells(data, start, pos, shape)
    ensures SpelledLength(data, start, pos, shape) == WireLength(Labels(data, start, pos, shape))
    decreases shape
  {
    match shape
    case Root =>
    case Labelled(rest) => SpelledLengthIsWireLength(data, start, pos + 1 + data[pos], rest);
    case Pointer(target) => SpelledLengthIsWireLength(data, Target(data, pos), Target(data, pos), target);
  }

  /** Every name of the grammar is accepted; it obeys the limit of RFC 1035 exactly if its length bytes do. */
  lemma ObeysTheLimitExactlyWhen(data: Bytes, offset: nat, shape: Shape)
    requires Spells(data, offset, offset, shape) && Hops(shape) <= MAX_HOPS
    ensures var name := Read(data, offset, offset, 0);
      && name.Some?
      && (WireLength(name.value.labels) <= RFC_NAME_LIMIT
          <==> SpelledLength(data, offset, offset, shape) <= RFC_NAME_LIMIT)
  {
    ReadsEverySpelledName(data, offset, offset, 0, shape);
    SpelledLengthIsWireLength(data, offset, offset, shape);
  }

  /**
   What bounds an accepted name is the datagram: it has at most as many bytes as the datagram for each of its
   `MAX_HOPS + 1` runs of labels.
   */
  lemma {:induction false} LengthIsBoundedByTheDatagram(data: Bytes, start: nat, pos: nat, depth: nat)
    requires Read(data, start, pos, depth).Some?
    ensures WireLength(Read(data, start, pos, depth).value.labels) <= (MAX_HOPS + 1 - depth) * |data| - pos
    decreases start, |data| - pos
  {
    if data[pos] == 0 {
      assert (MAX_HOPS + 1 - depth) * |data| >= |data|;
    } else if data[pos] >= 0xC0 {
      LengthIsBoundedByTheDatagram(data, Target(data, pos), Target(data, pos), depth + 1);
      assert (MAX_HOPS + 1 - depth) * |data| == (MAX_HOPS + 1 - (depth + 1)) * |data| + |data|;
    } else {
      var first, rest := data[pos + 1..pos + 1 + data[pos]], Read(data, start, pos + 1 + data[pos], depth);
      LengthIsBoundedByTheDatagram(data, start, pos + 1 + data[pos], depth);
      WireLengthOfJoined([first], rest.value.labels);
    }
  }

  // ---- writing names -----------------------------------------------------------

  predicate Encodable(labels: seq<Label>) {
    forall l :: l in labels ==> 0 < |l| < 0x40
  }

  function EncodeLabels(labels: seq<Label>): Bytes
    requires Encodable(labels)
  {
    if labels == [] then [] else [|labels[0]|] + labels[0] + EncodeLabels(labels[1..])
  }

  function EncodeName(labels: seq<Label>): Bytes
    requires Encodable(labels)
  {
    EncodeLabels(labels) + [0]
  }

  /** `part` stands in `data` at `pos`. */
  predicate At(data: Bytes, pos: nat, part: Bytes) {
    pos + |part| <= |data| && data[pos..pos + |part|] == part
  }

  lemma AtSplit(data: Bytes, pos: nat, a: Bytes, b: Bytes)
    requires At(data, pos, a + b)
    ensures At(data, pos, a) && At(data, pos + |a|, b)
  {
    var whole := data[pos..pos + |a + b|];
    assert whole[..|a|] == a && whole[|a|..] == b;
    assert data[pos..pos + |a|] == whole[..|a|];
    assert data[pos + |a|..pos + |a| + |b|] == whole[|a|..];
  }

  lemma ReadsBackLabel(data: Bytes, start: nat, pos: nat, depth: nat, first: Label)
    requires 0 < |first| < 0x40 && At(data, pos, [|first|] + first) && depth <= MAX_HOPS
    ensures Read(data, start, pos, depth) == Prepend([first], Read(data, start, pos + 1 + |first|, depth))
  {
    AtSplit(data, pos, [|first|], first);
    assert data[pos] == data[pos..pos + 1][0];
  }

  /** Labels written in full are read back in order, followed by whatever name comes next. */
  lemma {:induction false} ReadsBackLabels(data: Bytes, start: nat, pos: nat, depth: nat, labels: seq<Label>)
    requires Encodable(labels) && At(data, pos, EncodeLabels(labels)) && depth <= MAX_HOPS
    ensures Read(data, start, pos, depth) == Prepend(labels, Read(data, start, pos + |EncodeLabels(labels)|, depth))
    decreases |labels|
  {
    hide Read;
    if labels == [] {
      PrependNothing(Read(data, start, pos, depth));
    } else {
      var first, rest := labels[0], labels[1..];
      var after := pos + 1 + |first|;
      AtSplit(data, pos, [|first|] + first, EncodeLabels(rest));
      ReadsBackLabel(data, start, pos, depth, first);
      ReadsBackLabels(data, start, after, depth, rest);
      var tail := Read(data, start, after + |EncodeLabels(rest)|, depth);
      PrependTwice([first], rest, tail);
      assert [first] + rest == labels;
      assert Read(data, start, pos, depth) == Prepend(labels, tail);
    }
  }

  /** Every label list survives being written without compression and read back, wherever it stands. */
  lemma ReadsBackNames(data: Bytes, pos: nat, labels: seq<Label>)
    requires Encodable(labels) && At(data, pos, EncodeName(labels))
    ensures Read(data, pos, pos, 0) == Some(Name(labels, pos + |EncodeName(labels)|))
  {
    AtSplit(data, pos, EncodeLabels(labels), [0]);
    ReadsBackLabels(data, pos, pos, 0, labels);
    var root := pos + |EncodeLabels(labels)|;
    assert data[root] == data[root..root + 1][0];
    assert labels + [] == labels;
  }

  lemma {:induction false} WireLengthIsWritten(labels: seq<Label>)
    requires Encodable(labels)
    ensures |EncodeName(labels)| == WireLength(labels)
  {
    if labels == [] {
    } else {
      WireLengthIsWritten(labels[1..]);
    }
  }

  /** Names of any number of labels are read, so also those beyond the limit. */
  lemma LongNamesAreRead(count: nat) returns (data: Bytes)
    ensures var name := Read(data, 0, 0, 0);
      && name.Some? && |name.value.labels| == count
      && WireLength(name.value.labels) == 64 * count + 1
      && (WireLength(name.value.labels) > RFC_NAME_LIMIT <==> count >= 4)
  {
    var part: Label := seq(63, _ => 97);
    var labels := seq(count, _ => part);
    data := EncodeName(labels);
    ReadsBackNames(data, 0, labels);
    WireLengthOfRepeated(labels, part);
  }

  lemma {:induction false} WireLengthOfRepeated(labels: seq<Label>, part: Label)
    requires forall k :: 0 <= k < |labels| ==> labels[k] == part
    ensures WireLength(labels) == 1 + (1 + |part|) * |labels|
  {
    if labels == [] {
    } else {
      WireLengthOfRepeated(labels[1..], part);
      assert (1 + |part|) * |labels| == (1 + |part|) * |labels[1..]| + (1 + |part|);
    }
  }

  /** Compression is invisible: labels followed by a pointer to an earlier name read as the two joined. */
  lemma ReadsThroughPointers(data: Bytes, pos: nat, labels: seq<Label>, target: nat)
    requires Encodable(labels) && target < pos && target < 0x4000
    requires At(data, pos, EncodeLabels(labels) + EncodePointer(target))
    requires Read(data, target, target, 1).Some?
    ensures Read(data, pos, pos, 0) ==
      Some(Name(labels + Read(data, target, target, 1).value.labels, pos + |EncodeLabels(labels)| + 2))
  {
    hide Read, EncodeLabels;
    AtSplit(data, pos, EncodeLabels(labels), EncodePointer(target));
    ReadsBackLabels(data, pos, pos, 0, labels);
    ReadsBackPointer(data, pos, pos + |EncodeLabels(labels)|, target);
  }

  function EncodePointer(target: nat): Bytes
    requires target < 0x4000
  {
    [0xC0 + target / 256, target % 256]
  }

  lemma ReadsBackPointer(data: Bytes, start: nat, pos: nat, target: nat)
    requires target < start && target < 0x4000 && At(data, pos, EncodePointer(target))
    requires Read(data, target, target, 1).Some?
    ensures Read(data, start, pos, 0) == Some(Name(Read(data, target, target, 1).value.labels, pos + 2))
  {
    assert data[pos] == data[pos..pos + 2][0] && data[pos + 1] == data[pos..pos + 2][1];
  }
}
