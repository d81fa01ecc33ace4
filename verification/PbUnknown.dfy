/** The decoder reads no further than the field it decodes, so unknown fields can be inserted anywhere. */
module PbUnknown {
  import opened Bytes
  import opened PbVarint
  import opened PbFields
  import opened PbMessage
  import opened PbDecode
  import opened PbRoundTrip

  /** The bytes of `s` in front of its suffix `rest`. */
  function Front(s: seq<byte>, rest: seq<byte>): (front: seq<byte>)
    requires |rest| <= |s|
  {
    s[..|s| - |rest|]
  }

  /** Moving the first byte over to the consumed side. */
  lemma FrontTail(s: seq<byte>, rest: seq<byte>, y: seq<byte>)
    requires |rest| < |s|
    ensures var t := Front(s, rest) + y;
      t[0] == s[0] && t[1..] == Front(s[1..], rest) + y
    ensures |rest| == |s| - 1 ==> Front(s[1..], rest) + y == y
    ensures s[1..] == Front(s[1..], rest) + rest ==> s == Front(s, rest) + rest
  {
  }

  // ----- each reader depends only on the bytes it consumes -----

  lemma {:induction false} VarintLocal(s: seq<byte>, bitpos: nat, acc: nat, y: seq<byte>)
    requires DecodeVarintFrom(s, bitpos, acc).Ok?
    ensures var r := DecodeVarintFrom(s, bitpos, acc);
      s == Front(s, r.rest) + r.rest && DecodeVarintFrom(Front(s, r.rest) + y, bitpos, acc) == Ok(r.value, y)
    decreases |s|
  {
    hide ShiftIn64, Front;
    var r := DecodeVarintFrom(s, bitpos, acc);
    FrontTail(s, r.rest, y);
    if s[0] >= 128 {
      VarintLocal(s[1..], bitpos + 7, acc + ShiftIn64(s[0], bitpos), y);
    }
  }

  lemma {:induction false} Varint32FromLocal(s: seq<byte>, bitpos: nat, acc: nat, y: seq<byte>)
    requires DecodeVarint32From(s, bitpos, acc).Ok?
    ensures var r := DecodeVarint32From(s, bitpos, acc);
      s == Front(s, r.rest) + r.rest && DecodeVarint32From(Front(s, r.rest) + y, bitpos, acc) == Ok(r.value, y)
    decreases |s|
  {
    hide ShiftIn32, Front;
    var r := DecodeVarint32From(s, bitpos, acc);
    FrontTail(s, r.rest, y);
    if s[0] >= 128 {
      var acc' := if bitpos >= 32 then acc else acc + ShiftIn32(s[0], bitpos);
      Varint32FromLocal(s[1..], bitpos + 7, acc', y);
    }
  }

  lemma Varint32Local(s: seq<byte>, y: seq<byte>)
    requires DecodeVarint32(s).Ok?
    ensures var r := DecodeVarint32(s);
      s == Front(s, r.rest) + r.rest && DecodeVarint32(Front(s, r.rest) + y) == Ok(r.value, y)
  {
    var r := DecodeVarint32(s);
    FrontTail(s, r.rest, y);
    if s[0] >= 128 {
      Varint32FromLocal(s[1..], 7, s[0] % 128, y);
    }
  }

  lemma TakeLocal(s: seq<byte>, n: nat, y: seq<byte>)
    requires Take(s, n).Ok?
    ensures var r := Take(s, n);
      s == Front(s, r.rest) + r.rest && Take(Front(s, r.rest) + y, n) == Ok(r.value, y)
  {
    assert Front(s, s[n..]) == s[..n];
    TakePrefix(s[..n], y);
  }

  lemma Rejoin(s: seq<byte>, t: seq<byte>, u: seq<byte>, y: seq<byte>)
    requires |u| <= |t| <= |s| && s == Front(s, t) + t && t == Front(t, u) + u
    ensures s == Front(s, u) + u
    ensures Front(s, u) + y == Front(s, t) + (Front(t, u) + y)
  {
    assert Front(s, u) == Front(s, t) + Front(t, u);
  }

  lemma TakeDelimitedLocal(s: seq<byte>, y: seq<byte>)
    requires TakeDelimited(s).Ok?
    ensures var r := TakeDelimited(s);
      s == Front(s, r.rest) + r.rest && TakeDelimited(Front(s, r.rest) + y) == Ok(r.value, y)
  {
    hide DecodeVarint32;
    var len, r := DecodeVarint32(s), TakeDelimited(s);
    var body := r.value;
    Varint32Local(s, body + y);
    assert len.rest == body + r.rest && body == Front(len.rest, r.rest);
    Rejoin(s, len.rest, r.rest, y);
    TakePrefix(body, y);
  }

  lemma {:induction false} SkipVarintLocal(s: seq<byte>, y: seq<byte>)
    requires SkipVarint(s).Ok?
    ensures var r := SkipVarint(s);
      s == Front(s, r.rest) + r.rest && SkipVarint(Front(s, r.rest) + y) == Ok((), y)
  {
    var r := SkipVarint(s);
    FrontTail(s, r.rest, y);
    if s[0] >= 128 {
      SkipVarintLocal(s[1..], y);
    }
  }

  lemma SkipFieldLocal(s: seq<byte>, wire: nat, y: seq<byte>)
    requires SkipField(s, wire).Ok?
    ensures var r := SkipField(s, wire);
      s == Front(s, r.rest) + r.rest && SkipField(Front(s, r.rest) + y, wire) == Ok((), y)
  {
    if wire == 0 { SkipVarintLocal(s, y); }
    else if wire == 1 { TakeLocal(s, 8, y); }
    else if wire == 2 { TakeDelimitedLocal(s, y); }
    else { TakeLocal(s, 4, y); }
  }

  lemma DecodeNumberLocal(f: Field, s: seq<byte>, cur: Value, y: seq<byte>)
    requires Packable(f.kind) && DecodeValue(f, s, cur).Ok?
    ensures var r := DecodeValue(f, s, cur);
      s == Front(s, r.rest) + r.rest && DecodeValue(f, Front(s, r.rest) + y, cur) == Ok(r.value, y)
  {
    if f.kind.Fixed32? { TakeLocal(s, 4, y); }
    else if f.kind.Fixed64? { TakeLocal(s, 8, y); }
    else { VarintLocal(s, 0, 0, y); }
  }

  lemma DecodeValueLocal(f: Field, s: seq<byte>, cur: Value, y: seq<byte>)
    requires DecodeValue(f, s, cur).Ok?
    ensures var r := DecodeValue(f, s, cur);
      s == Front(s, r.rest) + r.rest && DecodeValue(f, Front(s, r.rest) + y, cur) == Ok(r.value, y)
  {
    if Packable(f.kind) {
      DecodeNumberLocal(f, s, cur, y);
    } else {
      TakeDelimitedLocal(s, y);
    }
  }

  lemma DecodeSlotLocal(f: Field, wire: nat, s: seq<byte>, cur: Slot, y: seq<byte>)
    requires DecodeSlot(f, wire, s, cur).Ok?
    ensures var r := DecodeSlot(f, wire, s, cur);
      s == Front(s, r.rest) + r.rest && DecodeSlot(f, wire, Front(s, r.rest) + y, cur) == Ok(r.value, y)
  {
    hide DecodeValue, TakeDelimited, DecodePacked;
    match f.rule
    case Required | Singular | Optional => DecodeValueLocal(f, s, OrDefault(f, cur), y);
    case OneOf => DecodeValueLocal(f, s, DefaultValue(f), y);
    case Repeated(max) =>
      if wire == 2 && Packable(f.kind) {
        TakeDelimitedLocal(s, y);
      } else {
        DecodeValueLocal(f, s, DefaultValue(f), y);
      }
  }

  lemma DecodeTagLocal(s: seq<byte>, y: seq<byte>)
    requires DecodeTag(s).TagRead?
    ensures var r := DecodeTag(s);
      s == Front(s, r.rest) + r.rest && DecodeTag(Front(s, r.rest) + y) == TagRead(r.tag, r.wire, y)
  {
    Varint32Local(s, y);
  }

  /** A decoder step that goes on gives the same step whatever follows the bytes it consumed. */
  lemma DecodeStepLocal(fields: seq<Field>, s: seq<byte>, slots: seq<Slot>, seen: set<nat>, y: seq<byte>)
    requires |slots| == |fields| && DecodeStep(fields, s, slots, seen).Next?
    ensures var r := DecodeStep(fields, s, slots, seen);
      && s == Front(s, r.rest) + r.rest
      && DecodeStep(fields, Front(s, r.rest) + y, slots, seen) == Next(y, r.slots, r.seen)
  {
    var t := DecodeTag(s);
    var r := DecodeStep(fields, s, slots, seen);
    match FindFrom(fields, t.tag, 0)
    case None =>
      SkipFieldLocal(t.rest, t.wire, y);
      DecodeTagLocal(s, Front(t.rest, r.rest) + y);
      Rejoin(s, t.rest, r.rest, y);
    case Some(i) =>
      DecodeSlotLocal(fields[i], t.wire, t.rest, slots[i], y);
      DecodeTagLocal(s, Front(t.rest, r.rest) + y);
      Rejoin(s, t.rest, r.rest, y);
  }

  // ----- unknown fields -----

  datatype Payload = AsVarint(v: nat) | As64Bit(b: seq<byte>) | AsString(b: seq<byte>) | As32Bit(b: seq<byte>)

  predicate ValidPayload(p: Payload) {
    match p
    case AsVarint(v) => v < TWO64
    case As64Bit(b) => |b| == 8
    case AsString(b) => |b| < TWO32
    case As32Bit(b) => |b| == 4
  }

  lemma {:induction false} SkipEncodedVarint(v: nat, y: seq<byte>)
    ensures SkipVarint(EncodeVarint(v) + y) == Ok((), y)
  {
    EncodeVarintHead(v, y);
    if v >= 128 { SkipEncodedVarint(v / 128, y); }
  }

  function PayloadWire(p: Payload): (w: nat)
    ensures w < 8
  {
    match p case AsVarint(_) => 0 case As64Bit(_) => 1 case AsString(_) => 2 case As32Bit(_) => 5
  }

  function PayloadBytes(p: Payload): seq<byte> {
    match p
    case AsVarint(v) => EncodeVarint(v)
    case As64Bit(b) => b
    case AsString(b) => WithLength(b)
    case As32Bit(b) => b
  }

  /** A well-formed field of the wire format. */
  function EncUnknown(tag: nat, p: Payload): seq<byte> {
    EncTag(tag, PayloadWire(p)) + PayloadBytes(p)
  }

  lemma SkipPayload(p: Payload, y: seq<byte>)
    requires ValidPayload(p)
    ensures SkipField(PayloadBytes(p) + y, PayloadWire(p)) == Ok((), y)
  {
    match p
    case AsVarint(v) => SkipEncodedVarint(v, y);
    case AsString(b) => TakeDelimitedPrefix(b, y);
    case As64Bit(b) => TakePrefix(b, y);
    case As32Bit(b) => TakePrefix(b, y);
  }

  lemma DecodeAnyTag(tag: nat, wire: nat, y: seq<byte>)
    requires 0 < tag < 0x2000_0000 && wire < 8
    ensures DecodeTag(EncTag(tag, wire) + y) == TagRead(tag, wire, y)
  {
    DecodeEncodeVarint32(tag * 8 + wire, y);
  }

  lemma SkipUnknown(fields: seq<Field>, tag: nat, p: Payload, y: seq<byte>, slots: seq<Slot>, seen: set<nat>)
    requires |slots| == |fields| && ValidPayload(p) && 0 < tag < 0x2000_0000
    requires forall f | f in fields :: f.tag != tag
    ensures DecodeStep(fields, EncUnknown(tag, p) + y, slots, seen) == Next(y, slots, seen)
  {
    hide EncTag, PayloadBytes, PayloadWire, SkipField, DecodeTag, ValidPayload;
    var rest := PayloadBytes(p) + y;
    Assoc(EncTag(tag, PayloadWire(p)), PayloadBytes(p), y);
    DecodeAnyTag(tag, PayloadWire(p), rest);
    SkipPayload(p, y);
  }

  /** After some number of fields the decoder of `s` stands at byte `p`. */
  predicate Boundary(fields: seq<Field>, s: seq<byte>, p: nat, slots: seq<Slot>, seen: set<nat>)
    requires |slots| == |fields|
    decreases |s|
  {
    p == 0
    || (s != [] && match DecodeStep(fields, s, slots, seen)
        case Next(rest, slots', seen') =>
          |s| - |rest| <= p && Boundary(fields, rest, p - (|s| - |rest|), slots', seen')
        case _ => false)
  }

  function Insert(s: seq<byte>, p: nat, u: seq<byte>): seq<byte>
    requires p <= |s|
  {
    s[..p] + u + s[p..]
  }

  lemma InsertBehind(s: seq<byte>, rest: seq<byte>, p: nat, u: seq<byte>)
    requires |rest| <= |s| && s == Front(s, rest) + rest && |s| - |rest| <= p <= |s|
    ensures Insert(s, p, u) == Front(s, rest) + Insert(rest, p - (|s| - |rest|), u)
  {
    var n := |s| - |rest|;
    assert s[..p] == Front(s, rest) + rest[..p - n];
    assert s[p..] == rest[p - n..];
  }

  lemma InsertInFront(s: seq<byte>, u: seq<byte>)
    ensures Insert(s, 0, u) == u + s
  {
  }

  lemma LoopNext(fields: seq<Field>, s: seq<byte>, slots: seq<Slot>, seen: set<nat>, r: Step)
    requires |slots| == |fields| && s != [] && DecodeStep(fields, s, slots, seen) == r && r.Next?
    ensures DecodeLoop(fields, s, slots, seen) == DecodeLoop(fields, r.rest, r.slots, r.seen)
  {
  }

  lemma SameStepBeforeInsertion(fields: seq<Field>, s: seq<byte>, p: nat, u: seq<byte>,
                                slots: seq<Slot>, seen: set<nat>, r: Step)
    requires |slots| == |fields| && s != [] && DecodeStep(fields, s, slots, seen) == r && r.Next?
    requires |s| - |r.rest| <= p <= |s|
    ensures DecodeLoop(fields, s, slots, seen) == DecodeLoop(fields, r.rest, r.slots, r.seen)
    ensures DecodeLoop(fields, Insert(s, p, u), slots, seen)
         == DecodeLoop(fields, Insert(r.rest, p - (|s| - |r.rest|), u), r.slots, r.seen)
  {
    var tail := Insert(r.rest, p - (|s| - |r.rest|), u);
    DecodeStepLocal(fields, s, slots, seen, tail);
    InsertBehind(s, r.rest, p, u);
    LoopNext(fields, s, slots, seen, r);
    LoopNext(fields, Front(s, r.rest) + tail, slots, seen, Next(tail, r.slots, r.seen));
  }

  /** Bytes that the decoder of a table passes over, wherever a field may begin. */
  ghost predicate Ignored(fields: seq<Field>, u: seq<byte>) {
    forall y, slots, seen :: IgnoredAt(fields, u, y, slots, seen)
  }

  predicate IgnoredAt(fields: seq<Field>, u: seq<byte>, y: seq<byte>, slots: seq<Slot>, seen: set<nat>) {
    |slots| == |fields| ==> DecodeLoop(fields, u + y, slots, seen) == DecodeLoop(fields, y, slots, seen)
  }

  lemma {:induction false} InsertInLoop(fields: seq<Field>, s: seq<byte>, p: nat, u: seq<byte>,
                                        slots: seq<Slot>, seen: set<nat>)
    requires |slots| == |fields| && p <= |s| && Boundary(fields, s, p, slots, seen) && Ignored(fields, u)
    ensures DecodeLoop(fields, Insert(s, p, u), slots, seen) == DecodeLoop(fields, s, slots, seen)
    decreases |s|
  {
    hide DecodeStep, DecodeLoop, Insert;
    if p == 0 {
      InsertInFront(s, u);
      assert IgnoredAt(fields, u, s, slots, seen);
    } else {
      var r := DecodeStep(fields, s, slots, seen);
      SameStepBeforeInsertion(fields, s, p, u, slots, seen, r);
      InsertInLoop(fields, r.rest, p - (|s| - |r.rest|), u, r.slots, r.seen);
    }
  }

  /** At any field boundary of any input, ignored bytes change nothing: neither result nor failure. */
  lemma IgnoredAnywhere(fields: seq<Field>, s: seq<byte>, p: nat, u: seq<byte>)
    requires p <= |s| && Boundary(fields, s, p, Defaults(fields), {}) && Ignored(fields, u)
    ensures Decode(fields, Insert(s, p, u)) == Decode(fields, s)
  {
    hide Ignored, Boundary, DecodeLoop, Insert;
    InsertInLoop(fields, s, p, u, Defaults(fields), {});
  }

  lemma UnknownIsIgnored(fields: seq<Field>, tag: nat, payload: Payload)
    requires ValidPayload(payload) && 0 < tag < 0x2000_0000 && (forall f | f in fields :: f.tag != tag)
    ensures Ignored(fields, EncUnknown(tag, payload))
  {
    hide DecodeStep, DecodeLoop, EncUnknown, ValidPayload;
    var u := EncUnknown(tag, payload);
    forall y, slots, seen ensures IgnoredAt(fields, u, y, slots, seen) {
      if |slots| == |fields| {
        SkipUnknown(fields, tag, payload, y, slots, seen);
        LoopNext(fields, u + y, slots, seen, Next(y, slots, seen));
      }
    }
  }

  /** At any field boundary of any input, an unknown field changes nothing: neither result nor failure. */
  lemma UnknownFieldIgnored(fields: seq<Field>, s: seq<byte>, p: nat, tag: nat, payload: Payload)
    requires p <= |s| && Boundary(fields, s, p, Defaults(fields), {})
    requires ValidPayload(payload) && 0 < tag < 0x2000_0000 && (forall f | f in fields :: f.tag != tag)
    ensures Decode(fields, Insert(s, p, EncUnknown(tag, payload))) == Decode(fields, s)
  {
    hide Ignored, Boundary, Decode, EncUnknown, Insert, ValidPayload;
    UnknownIsIgnored(fields, tag, payload);
    IgnoredAnywhere(fields, s, p, EncUnknown(tag, payload));
  }

  // ----- what ends a message at a boundary -----

  datatype State = State(slots: seq<Slot>, seen: set<nat>)

  /** Slots and marks when the decoder stands at `p`. */
  function StateAt(fields: seq<Field>, s: seq<byte>, p: nat, slots: seq<Slot>, seen: set<nat>): (r: State)
    requires |slots| == |fields| && Boundary(fields, s, p, slots, seen)
    ensures |r.slots| == |fields|
    decreases |s|
  {
    if p == 0 then State(slots, seen)
    else
      var r := DecodeStep(fields, s, slots, seen);
      StateAt(fields, r.rest, p - (|s| - |r.rest|), r.slots, r.seen)
  }

  lemma PrefixBehind(s: seq<byte>, rest: seq<byte>, p: nat, y: seq<byte>)
    requires |rest| <= |s| && s == Front(s, rest) + rest && |s| - |rest| <= p <= |s|
    ensures s[..p] + y == Front(s, rest) + (rest[..p - (|s| - |rest|)] + y)
  {
    assert s[..p] == Front(s, rest) + rest[..p - (|s| - |rest|)];
  }

  /** Whatever follows a boundary is decoded from the state there. */
  lemma {:induction false} FromBoundary(fields: seq<Field>, s: seq<byte>, p: nat, y: seq<byte>,
                                        slots: seq<Slot>, seen: set<nat>)
    requires |slots| == |fields| && p <= |s| && Boundary(fields, s, p, slots, seen)
    ensures var at := StateAt(fields, s, p, slots, seen);
            DecodeLoop(fields, s[..p] + y, slots, seen) == DecodeLoop(fields, y, at.slots, at.seen)
    decreases |s|
  {
    hide DecodeStep, DecodeLoop, Front;
    if p == 0 {
      assert s[..0] + y == y;
    } else {
      var r := DecodeStep(fields, s, slots, seen);
      var tail := r.rest[..p - (|s| - |r.rest|)] + y;
      DecodeStepLocal(fields, s, slots, seen, tail);
      PrefixBehind(s, r.rest, p, y);
      LoopNext(fields, Front(s, r.rest) + tail, slots, seen, Next(tail, r.slots, r.seen));
      FromBoundary(fields, r.rest, p - (|s| - |r.rest|), y, r.slots, r.seen);
    }
  }

  lemma ZeroStops(fields: seq<Field>, y: seq<byte>, slots: seq<Slot>, seen: set<nat>)
    requires |slots| == |fields|
    ensures DecodeLoop(fields, [0] + y, slots, seen) == DecodeLoop(fields, [], slots, seen)
  {
    assert ([0] + y)[0] == 0;
  }

  /** A zero byte in the place of a tag ends the message there, whatever follows. */
  lemma ZeroTagEnds(fields: seq<Field>, s: seq<byte>, p: nat, y: seq<byte>)
    requires p <= |s| && Boundary(fields, s, p, Defaults(fields), {})
    ensures Decode(fields, s[..p] + ([0] + y)) == Decode(fields, s[..p])
  {
    hide Boundary, DecodeLoop, StateAt;
    var at := StateAt(fields, s, p, Defaults(fields), {});
    FromBoundary(fields, s, p, [0] + y, Defaults(fields), {});
    FromBoundary(fields, s, p, [], Defaults(fields), {});
    ZeroStops(fields, y, at.slots, at.seen);
    assert s[..p] + [] == s[..p];
  }

  lemma BadWireStep(fields: seq<Field>, tag: nat, wire: nat, y: seq<byte>, slots: seq<Slot>, seen: set<nat>)
    requires |slots| == |fields| && 0 < tag < 0x2000_0000 && (forall f | f in fields :: f.tag != tag)
    requires wire in {3, 4, 6, 7}
    ensures DecodeLoop(fields, EncTag(tag, wire) + y, slots, seen) == None
  {
    hide EncTag, DecodeTag;
    DecodeAnyTag(tag, wire, y);
    assert EncTag(tag, wire) + y != [];
  }

  /** An unknown field of a wire type other than 0, 1, 2 and 5 makes the message refused. */
  lemma BadWireRefused(fields: seq<Field>, s: seq<byte>, p: nat, tag: nat, wire: nat, y: seq<byte>)
    requires p <= |s| && Boundary(fields, s, p, Defaults(fields), {})
    requires 0 < tag < 0x2000_0000 && (forall f | f in fields :: f.tag != tag) && wire in {3, 4, 6, 7}
    ensures Decode(fields, s[..p] + (EncTag(tag, wire) + y)) == None
  {
    hide Boundary, DecodeLoop, StateAt, EncTag;
    var at := StateAt(fields, s, p, Defaults(fields), {});
    FromBoundary(fields, s, p, EncTag(tag, wire) + y, Defaults(fields), {});
    BadWireStep(fields, tag, wire, y, at.slots, at.seen);
  }

  // ----- the boundaries of an encoding -----

  /** A step over `x` in front of a boundary. */
  lemma BoundaryBehind(fields: seq<Field>, x: seq<byte>, y: seq<byte>, q: nat, slots: seq<Slot>, seen: set<nat>)
    requires |slots| == |fields| && x + y != []
    requires DecodeStep(fields, x + y, slots, seen).Next? && DecodeStep(fields, x + y, slots, seen).rest == y
    requires var r := DecodeStep(fields, x + y, slots, seen); Boundary(fields, y, q, r.slots, r.seen)
    ensures Boundary(fields, x + y, |x| + q, slots, seen)
  {
    hide DecodeStep;
  }

  /** One entry of an array that is not packed. */
  lemma EntryBoundary(fields: seq<Field>, i: nat, slots: seq<Slot>, v: Value, y: seq<byte>, q: nat, seen: set<nat>)
    requires WellFormed(fields) && i < |fields| == |slots|
    requires fields[i].rule.Repeated? && !Packable(fields[i].kind) && slots[i].Many?
    requires TypedValue(fields[i], v) && Encodable(fields[i], v) && |EncTagged(fields[i], v)| < TWO32
    requires |slots[i].vs| < fields[i].rule.max && FitsValue(fields[i], DefaultValue(fields[i]), v)
    requires Boundary(fields, y, q, slots[i := Many(slots[i].vs + [v])], seen + {i})
    ensures Boundary(fields, EncTagged(fields[i], v) + y, |EncTagged(fields[i], v)| + q, slots, seen)
  {
    hide DecodeStep, EncTagged, Boundary, FitsValue, TypedValue, Encodable, WellFormed;
    EntryStep(fields, i, slots, v, y, seen);
    BoundaryBehind(fields, EncTagged(fields[i], v), y, q, slots, seen);
  }

  /** Entries that an array of field `f` can take up. */
  ghost predicate Entries(f: Field, vs: seq<Value>) {
    |EncUnpacked(f, vs)| < TWO32 && AllFit(f, vs) && forall v | v in vs :: TypedValue(f, v) && Encodable(f, v)
  }

  lemma FirstEntry(f: Field, vs: seq<Value>)
    requires vs != [] && Entries(f, vs)
    ensures EncUnpacked(f, vs) == EncTagged(f, vs[0]) + EncUnpacked(f, vs[1..])
    ensures TypedValue(f, vs[0]) && Encodable(f, vs[0]) && FitsValue(f, DefaultValue(f), vs[0])
    ensures |EncTagged(f, vs[0])| < TWO32 && Entries(f, vs[1..])
    ensures |vs| == 1 ==> EncUnpacked(f, vs[1..]) == []
  {
    hide TypedValue, Encodable, FitsValue, EncTagged;
  }

  lemma {:induction false} EntriesBoundary(fields: seq<Field>, i: nat, slots: seq<Slot>, vs: seq<Value>,
                                           y: seq<byte>, q: nat, seen: set<nat>)
    requires WellFormed(fields) && i < |fields| == |slots|
    requires fields[i].rule.Repeated? && !Packable(fields[i].kind) && slots[i].Many? && vs != []
    requires Entries(fields[i], vs) && |slots[i].vs| + |vs| <= fields[i].rule.max
    requires Boundary(fields, y, q, slots[i := Many(slots[i].vs + vs)], seen + {i})
    ensures Boundary(fields, EncUnpacked(fields[i], vs) + y, |EncUnpacked(fields[i], vs)| + q, slots, seen)
    decreases |vs|
  {
    hide *;
    var f, ws, v := fields[i], slots[i].vs, vs[0];
    FirstEntry(f, vs);
    var x, more := EncTagged(f, v), EncUnpacked(f, vs[1..]);
    var slots' := slots[i := Many(ws + [v])];
    assert slots'[i := Many(ws + vs)] == slots[i := Many(ws + vs)];
    if |vs| == 1 {
      assert vs == [v] && more + y == y && x + more == x;
      EntryBoundary(fields, i, slots, v, y, q, seen);
    } else {
      assert ws + [v] + vs[1..] == ws + vs && seen + {i} + {i} == seen + {i};
      EntriesBoundary(fields, i, slots', vs[1..], y, q, seen + {i});
      EntryBoundary(fields, i, slots, v, more + y, |more| + q, seen);
      Assoc(x, more, y);
    }
  }

  lemma ManyEntries(f: Field, ws: seq<Value>, vs: seq<Value>)
    requires vs != [] && f.rule.Repeated? && !Packable(f.kind)
    requires TypedSlot(f, Many(vs)) && EncodableSlot(f, Many(vs)) && FitsSlot(f, Many(ws), Many(vs))
    requires |EncSlot(f, Many(vs))| < TWO32
    ensures Entries(f, vs) && EncSlot(f, Many(vs)) == EncUnpacked(f, vs) && |ws| + |vs| <= f.rule.max
  {
    hide TypedValue, Encodable, FitsValue;
  }

  /** Whatever boundary lies behind an encoded field, the field moves it on by its own length. */
  lemma SlotBoundary(fields: seq<Field>, i: nat, slots: seq<Slot>, b: Slot, y: seq<byte>, q: nat, seen: set<nat>)
    requires WellFormed(fields) && i < |fields| == |slots|
    requires TypedSlot(fields[i], slots[i]) && TypedSlot(fields[i], b) && EncodableSlot(fields[i], b)
    requires |EncSlot(fields[i], b)| < TWO32 && FitsSlot(fields[i], slots[i], b)
    requires Boundary(fields, y, q, MergeSlot(fields, slots, i, b), SeenWith(seen, fields[i], b, i))
    ensures Boundary(fields, EncSlot(fields[i], b) + y, |EncSlot(fields[i], b)| + q, slots, seen)
  {
    hide DecodeStep, Boundary, FitsValue, TypedValue, Encodable, WellFormed;
    var f, x := fields[i], EncSlot(fields[i], b);
    if x == [] {
      assert x + y == y;
      AbsorbNothing(fields, i, slots, b);
    } else if !b.Many? {
      SingleStep(fields, i, slots, b, y, seen);
      BoundaryBehind(fields, x, y, q, slots, seen);
    } else if Packable(f.kind) {
      PackedStep(fields, i, slots, b.vs, y, seen);
      BoundaryBehind(fields, x, y, q, slots, seen);
    } else {
      ManyEntries(f, slots[i].vs, b.vs);
      hide EncSlot, Entries;
      EntriesBoundary(fields, i, slots, b.vs, y, q, seen);
    }
  }

  /** The encoding of the fields from `i` up to `k`. */
  function EncFrom(fields: seq<Field>, b: seq<Slot>, i: nat, k: nat): seq<byte>
    requires i <= k <= |fields| == |b|
    decreases k - i
  {
    if i == k then [] else EncSlot(fields[i], b[i]) + EncFrom(fields, b, i + 1, k)
  }

  lemma {:induction false} EncUpToSplits(fields: seq<Field>, b: seq<Slot>, i: nat, k: nat)
    requires i <= k <= |fields| == |b|
    ensures EncUpTo(fields, b, k) == EncUpTo(fields, b, i) + EncFrom(fields, b, i, k)
    decreases k - i
  {
    if i < k {
      EncUpToSplits(fields, b, i + 1, k);
      Assoc(EncUpTo(fields, b, i), EncSlot(fields[i], b[i]), EncFrom(fields, b, i + 1, k));
    }
  }

  lemma NextMerge(fields: seq<Field>, a: seq<Slot>, b: seq<Slot>, i: nat)
    requires i < |fields| == |a| == |b|
    ensures MergeUpTo(fields, a, b, i + 1) == MergeSlot(fields, MergeUpTo(fields, a, b, i), i, b[i])
  {
  }

  /** What the fields before field `i` leave of it still takes up its new value. */
  lemma FieldParts(fields: seq<Field>, a: seq<Slot>, b: seq<Slot>, i: nat)
    requires TypedSlots(fields, a) && TypedSlots(fields, b) && EncodableSlots(fields, b)
    requires i < |fields| && FitsSlots(fields, a, b)
    ensures |a| == |b| == |fields|
    ensures var m := MergeUpTo(fields, a, b, i);
            TypedSlot(fields[i], m[i]) && TypedSlot(fields[i], b[i]) && EncodableSlot(fields[i], b[i])
            && FitsSlot(fields[i], m[i], b[i])
  {
    MergeUntouched(fields, a, b, i, i);
    assert TypedSlot(fields[i], a[i]) && TypedSlot(fields[i], b[i]) && FitsSlot(fields[i], a[i], b[i]);
  }

  /** One field of a message that is decoded over `a` after the fields before it. */
  lemma FieldBoundary(fields: seq<Field>, a: seq<Slot>, b: seq<Slot>, i: nat, y: seq<byte>, q: nat, seen: set<nat>)
    requires WellFormed(fields) && TypedSlots(fields, a) && TypedSlots(fields, b) && EncodableSlots(fields, b)
    requires i < |fields| && |EncSlot(fields[i], b[i])| < TWO32 && FitsSlots(fields, a, b)
    requires Boundary(fields, y, q, MergeUpTo(fields, a, b, i + 1), SeenWith(seen, fields[i], b[i], i))
    ensures var x := EncSlot(fields[i], b[i]); Boundary(fields, x + y, |x| + q, MergeUpTo(fields, a, b, i), seen)
  {
    hide *;
    FieldParts(fields, a, b, i);
    NextMerge(fields, a, b, i);
    SlotBoundary(fields, i, MergeUpTo(fields, a, b, i), b[i], y, q, seen);
  }

  lemma AtOnce(fields: seq<Field>, s: seq<byte>, slots: seq<Slot>, seen: set<nat>)
    requires |slots| == |fields|
    ensures Boundary(fields, s, 0, slots, seen)
  {
  }

  /** The fields seen once those from `i` up to `k` have been decoded. */
  ghost function SeenFrom(fields: seq<Field>, b: seq<Slot>, i: nat, k: nat, seen: set<nat>): set<nat>
    requires i <= k <= |fields| == |b|
    decreases k - i
  {
    if i == k then seen else SeenFrom(fields, b, i + 1, k, SeenWith(seen, fields[i], b[i], i))
  }

  lemma SameLength(fields: seq<Field>, a: seq<Slot>)
    requires TypedSlots(fields, a)
    ensures |a| == |fields|
  {
  }

  lemma NextField(fields: seq<Field>, b: seq<Slot>, i: nat, k: nat, seen: set<nat>)
    requires i <= k <= |fields| == |b|
    ensures i == k ==> EncFrom(fields, b, i, k) == [] && SeenFrom(fields, b, i, k, seen) == seen
    ensures i < k ==> EncFrom(fields, b, i, k) == EncSlot(fields[i], b[i]) + EncFrom(fields, b, i + 1, k)
    ensures i < k ==>
      SeenFrom(fields, b, i, k, seen) == SeenFrom(fields, b, i + 1, k, SeenWith(seen, fields[i], b[i], i))
  {
    hide EncSlot;
  }

  /** Whatever boundary lies behind some encoded fields, they move it on by their own length. */
  lemma {:induction false} FieldsBoundary(fields: seq<Field>, a: seq<Slot>, b: seq<Slot>, i: nat, k: nat, y: seq<byte>,
                                          q: nat, seen: set<nat>)
    requires WellFormed(fields) && TypedSlots(fields, a) && TypedSlots(fields, b) && EncodableSlots(fields, b)
    requires i <= k <= |fields| && |EncFrom(fields, b, i, k)| < TWO32 && FitsSlots(fields, a, b)
    requires Boundary(fields, y, q, MergeUpTo(fields, a, b, k), SeenFrom(fields, b, i, k, seen))
    ensures var x := EncFrom(fields, b, i, k); Boundary(fields, x + y, |x| + q, MergeUpTo(fields, a, b, i), seen)
    decreases k - i
  {
    hide *;
    SameLength(fields, a);
    SameLength(fields, b);
    NextField(fields, b, i, k, seen);
    if i == k {
      assert [] + y == y;
    } else {
      var x, more := EncSlot(fields[i], b[i]), EncFrom(fields, b, i + 1, k);
      FieldsBoundary(fields, a, b, i + 1, k, y, q, SeenWith(seen, fields[i], b[i], i));
      FieldBoundary(fields, a, b, i, more + y, |more| + q, seen);
      Assoc(x, more, y);
    }
  }

  // ----- fields and entries of an encoding -----

  /** Some first fields of a message, and `n` entries of the next one, which then has entries of its own. */
  predicate FieldsAndEntries(fields: seq<Field>, m: seq<Slot>, k: nat, n: nat)
    requires |m| == |fields|
  {
    if n == 0 then k <= |fields|
    else k < |fields| && m[k].Many? && !Packable(fields[k].kind) && n <= |m[k].vs|
  }

  function EntriesText(fields: seq<Field>, m: seq<Slot>, k: nat, n: nat): seq<byte>
    requires |m| == |fields| && FieldsAndEntries(fields, m, k, n)
  {
    if n == 0 then [] else EncUnpacked(fields[k], m[k].vs[..n])
  }

  /** Where they end in the encoding. */
  function EndOf(fields: seq<Field>, m: seq<Slot>, k: nat, n: nat): nat
    requires |m| == |fields| && FieldsAndEntries(fields, m, k, n)
  {
    |EncUpTo(fields, m, k)| + |EntriesText(fields, m, k, n)|
  }

  lemma {:induction false} EntriesSplit(f: Field, vs: seq<Value>, n: nat)
    requires n <= |vs|
    ensures EncUnpacked(f, vs) == EncUnpacked(f, vs[..n]) + EncUnpacked(f, vs[n..])
  {
    if n == 0 {
      assert vs[0..] == vs;
    } else {
      hide EncTagged;
      EntriesSplit(f, vs[1..], n - 1);
      assert vs[..n][1..] == vs[1..][..n - 1] && vs[1..][n - 1..] == vs[n..];
      Assoc(EncTagged(f, vs[0]), EncUnpacked(f, vs[..n][1..]), EncUnpacked(f, vs[n..]));
    }
  }

  lemma FirstEntries(f: Field, vs: seq<Value>, n: nat)
    requires n <= |vs| && Entries(f, vs)
    ensures Entries(f, vs[..n])
  {
    hide TypedValue, Encodable, FitsValue, EncUnpacked;
    EntriesSplit(f, vs, n);
  }

  /** Inside field `k`, behind its first `n` entries. */
  lemma EntriesOfField(fields: seq<Field>, a: seq<Slot>, m: seq<Slot>, k: nat, n: nat, y: seq<byte>, seen: set<nat>)
    requires WellFormed(fields) && TypedSlots(fields, a) && TypedSlots(fields, m) && EncodableSlots(fields, m)
    requires |m| == |fields| && FitsSlots(fields, a, m) && 0 < n && FieldsAndEntries(fields, m, k, n)
    requires |EncSlot(fields[k], m[k])| < TWO32
    ensures var at := |EntriesText(fields, m, k, n)|;
            Boundary(fields, EncSlot(fields[k], m[k]) + y, at, MergeUpTo(fields, a, m, k), seen)
  {
    var f, vs, slots := fields[k], m[k].vs, MergeUpTo(fields, a, m, k);
    FieldParts(fields, a, m, k);
    ManyEntries(f, slots[k].vs, vs);
    hide Boundary, WellFormed, TypedSlots, EncodableSlots, FitsSlots, EncSlot, MergeUpTo, EncUnpacked, Entries;
    FirstEntries(f, vs, n);
    EntriesSplit(f, vs, n);
    var rest := EncUnpacked(f, vs[n..]) + y;
    Assoc(EncUnpacked(f, vs[..n]), EncUnpacked(f, vs[n..]), y);
    AtOnce(fields, rest, slots[k := Many(slots[k].vs + vs[..n])], seen + {k});
    EntriesBoundary(fields, k, slots, vs[..n], rest, 0, seen);
  }

  lemma NoMerge(fields: seq<Field>, m: seq<Slot>)
    requires |m| == |fields|
    ensures MergeUpTo(fields, Defaults(fields), m, 0) == Defaults(fields)
  {
  }

  /** From field `k` on, `n` entries of it end at a boundary. */
  lemma EntriesBehind(fields: seq<Field>, a: seq<Slot>, m: seq<Slot>, k: nat, n: nat, seen: set<nat>)
    requires WellFormed(fields) && TypedSlots(fields, a) && TypedSlots(fields, m) && EncodableSlots(fields, m)
    requires |m| == |fields| && FitsSlots(fields, a, m) && FieldsAndEntries(fields, m, k, n)
    requires |EncFrom(fields, m, k, |fields|)| < TWO32
    ensures |EntriesText(fields, m, k, n)| <= |EncFrom(fields, m, k, |fields|)|
    ensures var at := |EntriesText(fields, m, k, n)|;
            Boundary(fields, EncFrom(fields, m, k, |fields|), at, MergeUpTo(fields, a, m, k), seen)
  {
    hide Boundary, WellFormed, TypedSlots, EncodableSlots, FitsSlots, MergeUpTo, EncUnpacked;
    SameLength(fields, a);
    if n == 0 {
      AtOnce(fields, EncFrom(fields, m, k, |fields|), MergeUpTo(fields, a, m, k), seen);
    } else {
      EntriesSplit(fields[k], m[k].vs, n);
      EntriesOfField(fields, a, m, k, n, EncFrom(fields, m, k + 1, |fields|), seen);
    }
  }

  lemma EndIs(fields: seq<Field>, m: seq<Slot>, k: nat, n: nat)
    requires |m| == |fields| && FieldsAndEntries(fields, m, k, n)
    ensures k <= |fields|
    ensures EndOf(fields, m, k, n) == |EncUpTo(fields, m, k)| + |EntriesText(fields, m, k, n)|
  {
  }

  lemma MessageSplits(fields: seq<Field>, m: seq<Slot>, k: nat)
    requires k <= |fields| == |m|
    ensures EncUpTo(fields, m, k) == EncFrom(fields, m, 0, k)
    ensures EncMsg(fields, m) == EncFrom(fields, m, 0, k) + EncFrom(fields, m, k, |fields|)
  {
    hide EncFrom, EncSlot;
    EncUpToSplits(fields, m, k, |fields|);
    EncUpToSplits(fields, m, 0, k);
    assert EncUpTo(fields, m, 0) == [];
  }

  /** In the encoding of a message that fits, the end of every field and of every single entry is a boundary. */
  lemma EncodedBoundary(fields: seq<Field>, m: seq<Slot>, k: nat, n: nat)
    requires WellFormed(fields) && TypedSlots(fields, m) && EncodableSlots(fields, m)
    requires |EncMsg(fields, m)| < TWO32 && FitsSlots(fields, Defaults(fields), m)
    requires |m| == |fields| && FieldsAndEntries(fields, m, k, n)
    ensures EndOf(fields, m, k, n) <= |EncMsg(fields, m)|
    ensures Boundary(fields, EncMsg(fields, m), EndOf(fields, m, k, n), Defaults(fields), {})
  {
    hide *;
    EndIs(fields, m, k, n);
    MessageSplits(fields, m, k);
    DefaultsTyped(fields);
    var x, y := EncFrom(fields, m, 0, k), EncFrom(fields, m, k, |fields|);
    EntriesBehind(fields, Defaults(fields), m, k, n, SeenFrom(fields, m, 0, k, {}));
    NoMerge(fields, m);
    FieldsBoundary(fields, Defaults(fields), m, 0, k, y, |EntriesText(fields, m, k, n)|, {});
  }

  /** An unknown field between any two fields or entries of an encoded message: the message comes back. */
  lemma UnknownBetweenFields(fields: seq<Field>, m: seq<Slot>, k: nat, n: nat, tag: nat, payload: Payload)
    requires WellFormed(fields) && TypedSlots(fields, m) && EncodableSlots(fields, m)
    requires |EncMsg(fields, m)| < TWO32 && FitsSlots(fields, Defaults(fields), m)
    requires |m| == |fields| && FieldsAndEntries(fields, m, k, n)
    requires ValidPayload(payload) && 0 < tag < 0x2000_0000 && (forall f | f in fields :: f.tag != tag)
    ensures EndOf(fields, m, k, n) <= |EncMsg(fields, m)|
    ensures Decode(fields, Insert(EncMsg(fields, m), EndOf(fields, m, k, n), EncUnknown(tag, payload))) == Some(m)
  {
    hide EncMsg, EndOf, Boundary, Decode, WellFormed, TypedSlots, EncodableSlots, FitsSlots;
    EncodedBoundary(fields, m, k, n);
    UnknownFieldIgnored(fields, EncMsg(fields, m), EndOf(fields, m, k, n), tag, payload);
    RoundTrip(fields, m);
  }
}
