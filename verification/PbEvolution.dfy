/** Sender and receiver with different tables: what the wire type of a field is for. */
module PbEvolution {
  import opened Bytes
  import opened PbVarint
  import opened PbFields
  import opened PbMessage
  import opened PbDecode
  import opened PbRoundTrip
  import opened PbUnknown
  import opened PbRequired

  // ----- the wire type put out says how to pass over the bytes behind it -----

  /** Whoever knows only the wire type of an encoded value passes over exactly its bytes. */
  lemma ValueSkipped(f: Field, v: Value, y: seq<byte>)
    requires TypedValue(f, v) && |EncValue(f, v)| < TWO32
    ensures SkipField(EncValue(f, v) + y, WireType(f.kind)) == Ok((), y)
  {
    hide EncodeVarint, LittleEndian, EncMsg, ZigZag;
    match f.kind
    case Varint | UVarint => SkipEncodedVarint(v.n % TWO64, y);
    case SVarint => SkipEncodedVarint(ZigZag(v.n) % TWO64, y);
    case Fixed32 => TakePrefix(LittleEndian(v.n % TWO32, 4), y);
    case Fixed64 => TakePrefix(LittleEndian(v.n % TWO64, 8), y);
    case Bytes | Str | FixedBytes => TakeDelimitedPrefix(v.b, y);
    case Sub(fs) => TakeDelimitedPrefix(EncMsg(fs, v.slots), y);
  }

  /** The same for a packed array, whose wire type is 2. */
  lemma PackedSkipped(f: Field, vs: seq<Value>, y: seq<byte>)
    requires |EncPacked(f, vs)| < TWO32
    ensures SkipField(WithLength(EncPacked(f, vs)) + y, 2) == Ok((), y)
  {
    hide EncPacked;
    TakeDelimitedPrefix(EncPacked(f, vs), y);
  }

  // ----- an encoded field is ignored by a table that lacks it -----

  predicate LacksTag(fields: seq<Field>, tag: nat) {
    forall f | f in fields :: f.tag != tag
  }

  lemma SkippedStep(fields: seq<Field>, tag: nat, wire: nat, x: seq<byte>, y: seq<byte>,
                    slots: seq<Slot>, seen: set<nat>)
    requires 0 < tag <= PB_SIZE_MAX && wire < 8 && LacksTag(fields, tag) && |slots| == |fields|
    requires SkipField(x + y, wire) == Ok((), y)
    ensures IgnoredAt(fields, EncTag(tag, wire) + x, y, slots, seen)
  {
    hide EncTag, SkipField, DecodeTag, DecodeLoop;
    Assoc(EncTag(tag, wire), x, y);
    DecodeEncTag(tag, wire, x + y);
    var s := EncTag(tag, wire) + (x + y);
    assert DecodeStep(fields, s, slots, seen) == Next(y, slots, seen);
    LoopNext(fields, s, slots, seen, Next(y, slots, seen));
  }

  /** A tag the table lacks, and bytes that its wire type passes over. */
  lemma TaggedIgnored(fields: seq<Field>, tag: nat, wire: nat, x: seq<byte>)
    requires 0 < tag <= PB_SIZE_MAX && wire < 8 && LacksTag(fields, tag)
    requires forall y :: SkipField(x + y, wire) == Ok((), y)
    ensures Ignored(fields, EncTag(tag, wire) + x)
  {
    var u := EncTag(tag, wire) + x;
    forall y, slots, seen ensures IgnoredAt(fields, u, y, slots, seen) {
      if |slots| == |fields| {
        SkippedStep(fields, tag, wire, x, y, slots, seen);
      }
    }
  }

  lemma ValueIgnored(fields: seq<Field>, f: Field, v: Value)
    requires WellFormedField(f) && LacksTag(fields, f.tag) && TypedValue(f, v) && |EncValue(f, v)| < TWO32
    ensures Ignored(fields, EncTagged(f, v))
  {
    hide TypedValue, EncValue, EncTag, SkipField, Ignored, LacksTag;
    forall y ensures SkipField(EncValue(f, v) + y, WireType(f.kind)) == Ok((), y) {
      ValueSkipped(f, v, y);
    }
    TaggedIgnored(fields, f.tag, WireType(f.kind), EncValue(f, v));
  }

  lemma PackedIgnored(fields: seq<Field>, f: Field, vs: seq<Value>)
    requires WellFormedField(f) && LacksTag(fields, f.tag) && |EncPacked(f, vs)| < TWO32
    ensures Ignored(fields, EncTag(f.tag, 2) + WithLength(EncPacked(f, vs)))
  {
    hide EncPacked, EncTag, SkipField, Ignored, LacksTag, WithLength;
    forall y ensures SkipField(WithLength(EncPacked(f, vs)) + y, 2) == Ok((), y) {
      PackedSkipped(f, vs, y);
    }
    TaggedIgnored(fields, f.tag, 2, WithLength(EncPacked(f, vs)));
  }

  lemma NothingIgnored(fields: seq<Field>)
    ensures Ignored(fields, [])
  {
    hide DecodeLoop;
    forall y, slots, seen ensures IgnoredAt(fields, [], y, slots, seen) {
      assert [] + y == y;
    }
  }

  lemma BothIgnored(fields: seq<Field>, u: seq<byte>, w: seq<byte>)
    requires Ignored(fields, u) && Ignored(fields, w)
    ensures Ignored(fields, u + w)
  {
    hide DecodeLoop;
    forall y, slots, seen ensures IgnoredAt(fields, u + w, y, slots, seen) {
      Assoc(u, w, y);
      assert IgnoredAt(fields, u, w + y, slots, seen) && IgnoredAt(fields, w, y, slots, seen);
    }
  }

  lemma {:induction false} EntriesIgnored(fields: seq<Field>, f: Field, vs: seq<Value>)
    requires WellFormedField(f) && LacksTag(fields, f.tag) && |EncUnpacked(f, vs)| < TWO32
    requires forall v | v in vs :: TypedValue(f, v)
    ensures Ignored(fields, EncUnpacked(f, vs))
    decreases |vs|
  {
    hide TypedValue, EncTag, EncValue, Ignored, LacksTag, WellFormedField;
    if vs == [] {
      NothingIgnored(fields);
    } else {
      ValueIgnored(fields, f, vs[0]);
      EntriesIgnored(fields, f, vs[1..]);
      BothIgnored(fields, EncTagged(f, vs[0]), EncUnpacked(f, vs[1..]));
    }
  }

  /** Whatever a field puts out is ignored by a table that lacks its tag. */
  lemma SlotIgnored(fields: seq<Field>, f: Field, s: Slot)
    requires WellFormedField(f) && LacksTag(fields, f.tag) && TypedSlot(f, s) && |EncSlot(f, s)| < TWO32
    ensures Ignored(fields, EncSlot(f, s))
  {
    hide TypedValue, EncTag, EncValue, EncPacked, Ignored, LacksTag, WellFormedField, IsZeroValue;
    if EncSlot(f, s) == [] {
      NothingIgnored(fields);
    } else {
      match s
      case One(v) => ValueIgnored(fields, f, v);
      case Opt(o) => ValueIgnored(fields, f, o.value);
      case Many(vs) => if Packable(f.kind) { PackedIgnored(fields, f, vs); } else { EntriesIgnored(fields, f, vs); }
    }
  }

  // ----- a table without one of the sender's fields -----

  function Drop<T>(s: seq<T>, k: nat): (r: seq<T>)
    requires k < |s|
    ensures |r| == |s| - 1
    ensures forall j | 0 <= j < |r| :: r[j] == s[if j < k then j else j + 1]
  {
    s[..k] + s[k + 1..]
  }

  /** The same field for the wire format; where it is kept may differ. */
  predicate SameOnWire(f: Field, g: Field) {
    f.tag == g.tag && f.rule == g.rule && f.kind == g.kind && f.dataSize == g.dataSize
  }

  /** `older` has all fields of `newer` but field `k`. */
  predicate LacksField(older: seq<Field>, newer: seq<Field>, k: nat) {
    k < |newer| && |older| == |newer| - 1
    && forall j | 0 <= j < |older| :: SameOnWire(older[j], Drop(newer, k)[j])
  }

  lemma SameValue(f: Field, g: Field, v: Value)
    requires SameOnWire(f, g)
    ensures EncValue(f, v) == EncValue(g, v) && EncTagged(f, v) == EncTagged(g, v)
  {
    hide EncodeVarint, LittleEndian, EncMsg, ZigZag;
  }

  lemma SameTyping(f: Field, g: Field, v: Value)
    requires SameOnWire(f, g)
    ensures TypedValue(f, v) == TypedValue(g, v)
    ensures IsZeroValue(f, v) == IsZeroValue(g, v) && Encodable(f, v) == Encodable(g, v)
  {
    hide TypedSlots, IsZeroSlot, EncodableSlot;
  }

  lemma SameWellFormed(f: Field, g: Field)
    requires SameOnWire(f, g) && WellFormedField(f)
    ensures WellFormedField(g)
  {
    hide WellFormed;
  }

  lemma {:induction false} SameEntries(f: Field, g: Field, vs: seq<Value>)
    requires SameOnWire(f, g)
    ensures EncPacked(f, vs) == EncPacked(g, vs) && EncUnpacked(f, vs) == EncUnpacked(g, vs)
    decreases |vs|
  {
    hide EncValue, EncTagged;
    if vs != [] {
      SameValue(f, g, vs[0]);
      SameEntries(f, g, vs[1..]);
    }
  }

  lemma SameSlotText(f: Field, g: Field, s: Slot)
    requires SameOnWire(f, g)
    ensures EncSlot(f, s) == EncSlot(g, s)
  {
    hide EncValue, EncTagged, EncPacked, EncUnpacked, IsZeroValue;
    match s
    case One(v) =>
      SameValue(f, g, v);
      SameTyping(f, g, v);
    case Opt(o) => if o.Some? { SameValue(f, g, o.value); }
    case Many(vs) => SameEntries(f, g, vs);
  }

  lemma SameSlotTyping(f: Field, g: Field, s: Slot)
    requires SameOnWire(f, g) && TypedSlot(f, s) && EncodableSlot(f, s)
    ensures TypedSlot(g, s) && EncodableSlot(g, s)
  {
    hide TypedValue, Encodable, IsZeroValue;
    forall v ensures TypedValue(f, v) == TypedValue(g, v) && IsZeroValue(f, v) == IsZeroValue(g, v)
                     && Encodable(f, v) == Encodable(g, v)
    {
      SameTyping(f, g, v);
    }
  }

  lemma AtDrop(older: seq<Field>, newer: seq<Field>, k: nat, j: nat)
    requires LacksField(older, newer, k) && j < |older|
    ensures SameOnWire(older[j], newer[if j < k then j else j + 1])
    ensures SameOnWire(newer[if j < k then j else j + 1], older[j])
  {
  }

  // ----- the older table is well-formed, and the rest of the message is a message of it -----

  lemma OlderWellFormed(older: seq<Field>, newer: seq<Field>, k: nat)
    requires LacksField(older, newer, k) && WellFormed(newer)
    ensures WellFormed(older) && LacksTag(older, newer[k].tag)
  {
    hide WellFormedField;
    forall j | 0 <= j < |older| ensures WellFormedField(older[j]) && older[j].tag != newer[k].tag {
      AtDrop(older, newer, k, j);
      SameWellFormed(newer[if j < k then j else j + 1], older[j]);
    }
    forall i, j | 0 <= i < j < |older| ensures older[i].tag != older[j].tag {
      AtDrop(older, newer, k, i);
      AtDrop(older, newer, k, j);
    }
  }

  lemma OlderTyped(older: seq<Field>, newer: seq<Field>, m: seq<Slot>, k: nat)
    requires LacksField(older, newer, k) && TypedSlots(newer, m) && EncodableSlots(newer, m)
    requires |m| == |newer| && AtMostOnePerUnion(older, Drop(m, k))
    ensures TypedSlots(older, Drop(m, k)) && EncodableSlots(older, Drop(m, k))
  {
    hide TypedSlot, EncodableSlot, AtMostOnePerUnion;
    forall j | 0 <= j < |older|
      ensures TypedSlot(older[j], Drop(m, k)[j]) && EncodableSlot(older[j], Drop(m, k)[j])
    {
      AtDrop(older, newer, k, j);
      SameSlotTyping(newer[if j < k then j else j + 1], older[j], Drop(m, k)[j]);
    }
  }

  lemma {:induction false} OlderTextBefore(older: seq<Field>, newer: seq<Field>, m: seq<Slot>, k: nat, j: nat)
    requires LacksField(older, newer, k) && |m| == |newer| && j <= k
    ensures EncUpTo(older, Drop(m, k), j) == EncUpTo(newer, m, j)
  {
    hide EncSlot, SameOnWire;
    if j > 0 {
      AtDrop(older, newer, k, j - 1);
      SameSlotText(older[j - 1], newer[j - 1], m[j - 1]);
      OlderTextBefore(older, newer, m, k, j - 1);
    }
  }

  lemma {:induction false} OlderTextBehind(older: seq<Field>, newer: seq<Field>, m: seq<Slot>, k: nat, j: nat)
    requires LacksField(older, newer, k) && |m| == |newer| && k <= j <= |older|
    ensures EncFrom(older, Drop(m, k), j, |older|) == EncFrom(newer, m, j + 1, |newer|)
    decreases |older| - j
  {
    hide EncSlot, SameOnWire;
    if j < |older| {
      AtDrop(older, newer, k, j);
      SameSlotText(older[j], newer[j + 1], m[j + 1]);
      OlderTextBehind(older, newer, m, k, j + 1);
    }
  }

  /** The newer encoding is the older one with the field in its place. */
  lemma FieldInserted(older: seq<Field>, newer: seq<Field>, m: seq<Slot>, k: nat)
    requires LacksField(older, newer, k) && |m| == |newer|
    ensures k < |newer| && |Drop(m, k)| == |older| == |newer| - 1
    ensures |EncUpTo(older, Drop(m, k), k)| <= |EncMsg(older, Drop(m, k))|
    ensures EncMsg(older, Drop(m, k)) == Without(newer, m, k)
    ensures |EncMsg(newer, m)| == |EncMsg(older, Drop(m, k))| + |EncSlot(newer[k], m[k])|
    ensures EncMsg(newer, m)
         == Insert(EncMsg(older, Drop(m, k)), |EncUpTo(older, Drop(m, k), k)|, EncSlot(newer[k], m[k]))
  {
    hide EncSlot, SameOnWire, EncMsg, EncUpTo, Drop;
    OlderTextBefore(older, newer, m, k, k);
    OlderTextBehind(older, newer, m, k, k);
    MessageSplits(older, Drop(m, k), k);
    MessageSplits(newer, m, k);
    var before, rest := EncUpTo(newer, m, k), EncFrom(newer, m, k + 1, |newer|);
    assert (before + rest)[..|before|] == before && (before + rest)[|before|..] == rest;
    Assoc(before, EncSlot(newer[k], m[k]), rest);
  }

  lemma BehindFields(fields: seq<Field>, m: seq<Slot>, k: nat)
    requires WellFormed(fields) && TypedSlots(fields, m) && EncodableSlots(fields, m)
    requires |EncMsg(fields, m)| < TWO32 && FitsSlots(fields, Defaults(fields), m) && k <= |fields| == |m|
    ensures Boundary(fields, EncMsg(fields, m), |EncUpTo(fields, m, k)|, Defaults(fields), {})
  {
    hide WellFormed, TypedSlots, EncodableSlots, EncMsg, EncUpTo, FitsSlots, Boundary;
    EncodedBoundary(fields, m, k, 0);
  }

  lemma FieldOf(fields: seq<Field>, m: seq<Slot>, k: nat)
    requires WellFormed(fields) && TypedSlots(fields, m) && k < |fields|
    ensures |m| == |fields| && WellFormedField(fields[k]) && TypedSlot(fields[k], m[k])
  {
  }

  /**
   * A receiver that does not know field `k` gets the message without it, and all other fields as they were
   * sent. Its unions must not hold two of them.
   */
  lemma OlderReceiver(older: seq<Field>, newer: seq<Field>, m: seq<Slot>, k: nat)
    requires LacksField(older, newer, k) && WellFormed(newer)
    requires TypedSlots(newer, m) && EncodableSlots(newer, m) && |EncMsg(newer, m)| < TWO32
    requires |m| == |newer| && AtMostOnePerUnion(older, Drop(m, k))
    requires FitsSlots(older, Defaults(older), Drop(m, k))
    ensures Decode(older, EncMsg(newer, m)) == Some(Drop(m, k))
  {
    hide *;
    OlderWellFormed(older, newer, k);
    OlderTyped(older, newer, m, k);
    FieldInserted(older, newer, m, k);
    FieldOf(newer, m, k);
    SlotIgnored(older, newer[k], m[k]);
    BehindFields(older, Drop(m, k), k);
    IgnoredAnywhere(older, EncMsg(older, Drop(m, k)), |EncUpTo(older, Drop(m, k), k)|, EncSlot(newer[k], m[k]));
    RoundTrip(older, Drop(m, k));
  }

  /**
   * A receiver that expects a field `k` more than was sent finds its default there, unless the field is
   * one of its first 64 required ones.
   */
  lemma NewerReceiver(older: seq<Field>, newer: seq<Field>, m: seq<Slot>, k: nat)
    requires LacksField(older, newer, k) && WellFormed(newer)
    requires TypedSlots(newer, m) && EncodableSlots(newer, m) && |EncMsg(newer, m)| < TWO32
    requires |m| == |newer| && FitsSlots(newer, Defaults(newer), m)
    ensures Decode(newer, EncMsg(older, Drop(m, k)))
         == if newer[k].rule.Required? && RequiredBefore(newer, k) < 64 then None
            else Some(m[k := DefaultSlot(newer[k])])
  {
    hide *;
    FieldInserted(older, newer, m, k);
    MissingField(newer, m, k);
  }
}
