/** Message values over a descriptor table: typing, defaults, the wire encoding and field-wise merge. */
module PbMessage {
  import opened Bytes
  import opened PbVarint
  import opened PbFields

  /** A field value: integers by value (fixed ones as raw bits), byte strings, submessages. */
  datatype Value = Num(n: int) | Blob(b: seq<byte>) | Msg(slots: seq<Slot>)

  /** What one field of a structure holds; `Opt` covers has_ fields and union members. */
  datatype Slot = One(v: Value) | Opt(o: Option<Value>) | Many(vs: seq<Value>)

  /** offsetof(pb_bytes_array_t, bytes) with a 16-bit pb_size_t. */
  const BYTES_HEADER: nat := 2

  // ----- C typing of a structure -----

  predicate IntegerSize(size: nat) {
    size == 1 || size == 2 || size == 4 || size == 8
  }

  /** Half the number of values an integer of `size` bytes has. */
  function HalfRange(size: nat): (h: nat)
    ensures 0 < h <= TWO63
  {
    if size == 1 then 0x80 else if size == 2 then 0x8000 else if size == 4 then 0x8000_0000 else TWO63
  }

  predicate TypedValue(f: Field, v: Value)
    decreases f, 0
  {
    match f.kind
    case Varint | SVarint => v.Num? && -(HalfRange(f.dataSize) as int) <= v.n < HalfRange(f.dataSize)
    case UVarint => v.Num? && 0 <= v.n < 2 * HalfRange(f.dataSize)
    case Fixed32 => v.Num? && 0 <= v.n < TWO32
    case Fixed64 => v.Num? && 0 <= v.n < TWO64
    case Bytes => v.Blob? && |v.b| <= PB_SIZE_MAX
    case Str => v.Blob? && |v.b| <= f.dataSize && 0 !in v.b
    case FixedBytes => v.Blob? && |v.b| == f.dataSize
    case Sub(fs) => v.Msg? && TypedSlots(fs, v.slots)
    case Extension => false
  }

  predicate TypedSlot(f: Field, s: Slot)
    decreases f, 1
  {
    match f.rule
    case Required | Singular => s.One? && TypedValue(f, s.v)
    case Optional | OneOf => s.Opt? && (s.o.Some? ==> TypedValue(f, s.o.value))
    case Repeated(_) => s.Many? && forall v | v in s.vs :: TypedValue(f, v)
  }

  predicate TypedSlots(fields: seq<Field>, slots: seq<Slot>)
    decreases fields, 2
  {
    && |slots| == |fields|
    && (forall i | 0 <= i < |fields| :: TypedSlot(fields[i], slots[i]))
    && AtMostOnePerUnion(fields, slots)
  }

  predicate AtMostOnePerUnion(fields: seq<Field>, slots: seq<Slot>)
    requires |slots| == |fields|
  {
    forall i, j | 0 <= i < j < |fields| && SameUnion(fields, i, j) :: !IsSet(slots[i]) || !IsSet(slots[j])
  }

  predicate IsSet(s: Slot) {
    s.Opt? && s.o.Some?
  }

  /** What generated tables satisfy: distinct non-zero tags and no extension placeholder. */
  predicate WellFormed(fields: seq<Field>)
    decreases fields
  {
    && (forall i, j | 0 <= i < j < |fields| :: fields[i].tag != fields[j].tag)
    && (forall f | f in fields :: WellFormedField(f))
  }

  predicate WellFormedField(f: Field)
    decreases f
  {
    && 0 < f.tag <= PB_SIZE_MAX && f.dataSize <= PB_SIZE_MAX
    && match f.kind
       case Sub(fs) => WellFormed(fs)
       case Extension => false
       case _ => true
  }

  lemma WellFormedTags(fields: seq<Field>)
    requires WellFormed(fields)
    ensures forall f | f in fields :: f.tag != 0
  {
    forall f | f in fields ensures f.tag != 0 { assert WellFormedField(f); }
  }

  // ----- initial values -----

  function Zeros(n: nat): (z: seq<byte>)
    ensures |z| == n && forall b | b in z :: b == 0
  {
    seq(n, _ => 0)
  }

  function DefaultValue(f: Field): Value
    decreases f, 0
  {
    match f.kind
    case Bytes | Str => Blob([])
    case FixedBytes => Blob(Zeros(f.dataSize))
    case Sub(fs) => Msg(Defaults(fs))
    case _ => Num(0)
  }

  function DefaultSlot(f: Field): Slot
    decreases f, 1
  {
    match f.rule
    case Required | Singular => One(DefaultValue(f))
    case Optional | OneOf => Opt(None)
    case Repeated(_) => Many([])
  }

  /** `pb_message_set_to_defaults`. */
  function Defaults(fields: seq<Field>): (slots: seq<Slot>)
    ensures |slots| == |fields|
    decreases fields, 2
  {
    seq(|fields|, i requires 0 <= i < |fields| => DefaultSlot(fields[i]))
  }

  /** `pb_check_proto3_default_value` below its first tests, for a singular field. */
  predicate IsZeroValue(f: Field, v: Value)
    decreases f, 0
  {
    match f.kind
    case Bytes | Str => v.Blob? && v.b == []
    case FixedBytes => f.dataSize == 0
    case Sub(fs) => v.Msg? && |v.slots| == |fs| && forall i | 0 <= i < |fs| :: IsZeroSlot(fs[i], v.slots[i])
    case _ => v == Num(0)
  }

  /** `pb_check_proto3_default_value`. */
  predicate IsZeroSlot(f: Field, s: Slot)
    decreases f, 1
  {
    match f.rule
    case Required => false
    case Singular => s.One? && IsZeroValue(f, s.v)
    case Optional | OneOf => s == Opt(None)
    case Repeated(_) => s == Many([])
  }

  // ----- encoding -----

  predicate Packable(k: Kind) {
    k.Varint? || k.UVarint? || k.SVarint? || k.Fixed32? || k.Fixed64?
  }

  function WireType(k: Kind): (w: nat)
    ensures w < 8
  {
    match k
    case Varint | UVarint | SVarint => 0
    case Fixed32 => 5
    case Fixed64 => 1
    case _ => 2
  }

  function EncTag(tag: nat, wire: nat): seq<byte> {
    EncodeVarint(tag * 8 + wire)
  }

  function WithLength(b: seq<byte>): seq<byte> {
    EncodeVarint(|b|) + b
  }

  /** The bytes the field encoder of `f` produces, tag excluded. */
  function EncValue(f: Field, v: Value): seq<byte>
    decreases f, 0
  {
    match v
    case Num(n) => (
      match f.kind
      case SVarint => EncodeVarint(ZigZag(n) % TWO64)
      case Fixed32 => LittleEndian(n % TWO32, 4)
      case Fixed64 => LittleEndian(n % TWO64, 8)
      case _ => EncodeVarint(n % TWO64))
    case Blob(b) => WithLength(b)
    case Msg(slots) => if f.kind.Sub? then WithLength(EncMsg(f.kind.fields, slots)) else []
  }

  function EncTagged(f: Field, v: Value): seq<byte>
    decreases f, 1
  {
    EncTag(f.tag, WireType(f.kind)) + EncValue(f, v)
  }

  /** Array entries back to back: the body of a packed array. */
  function EncPacked(f: Field, vs: seq<Value>): seq<byte>
    decreases f, 2, |vs|
  {
    if vs == [] then [] else EncValue(f, vs[0]) + EncPacked(f, vs[1..])
  }

  function EncUnpacked(f: Field, vs: seq<Value>): seq<byte>
    decreases f, 2, |vs|
  {
    if vs == [] then [] else EncTagged(f, vs[0]) + EncUnpacked(f, vs[1..])
  }

  function EncSlot(f: Field, s: Slot): seq<byte>
    decreases f, 3
  {
    match s
    case One(v) => if f.rule.Singular? && IsZeroValue(f, v) then [] else EncTagged(f, v)
    case Opt(o) => if o.Some? then EncTagged(f, o.value) else []
    case Many(vs) =>
      if vs == [] then []
      else if Packable(f.kind) then EncTag(f.tag, 2) + WithLength(EncPacked(f, vs))
      else EncUnpacked(f, vs)
  }

  function EncUpTo(fields: seq<Field>, slots: seq<Slot>, k: nat): seq<byte>
    requires k <= |fields|
    decreases fields, 4, k
  {
    if k == 0 then []
    else EncUpTo(fields, slots, k - 1) + if k <= |slots| then EncSlot(fields[k - 1], slots[k - 1]) else []
  }

  function EncMsg(fields: seq<Field>, slots: seq<Slot>): seq<byte>
    decreases fields, 5
  {
    EncUpTo(fields, slots, |fields|)
  }

  /** The values the encoder does not refuse. */
  predicate Encodable(f: Field, v: Value)
    decreases f, 0
  {
    match f.kind
    case Varint | UVarint | SVarint => IntegerSize(f.dataSize)
    case Bytes => v.Blob? && |v.b| + BYTES_HEADER <= f.dataSize
    case Sub(fs) => v.Msg? && |v.slots| == |fs| && forall i | 0 <= i < |fs| :: EncodableSlot(fs[i], v.slots[i])
    case _ => true
  }

  predicate EncodableSlot(f: Field, s: Slot)
    decreases f, 1
  {
    match s
    case One(v) => (f.rule.Singular? && IsZeroValue(f, v)) || Encodable(f, v)
    case Opt(o) => o.Some? ==> Encodable(f, o.value)
    case Many(vs) => vs == [] || (f.rule.Repeated? && |vs| <= f.rule.max && forall v | v in vs :: Encodable(f, v))
  }

  predicate EncodableSlots(fields: seq<Field>, slots: seq<Slot>) {
    |slots| == |fields| && forall i | 0 <= i < |fields| :: EncodableSlot(fields[i], slots[i])
  }

  // ----- merging -----

  /** The union member that field `i` shares storage with is dropped. */
  function ClearUnion(fields: seq<Field>, slots: seq<Slot>, i: nat): (r: seq<Slot>)
    requires i < |fields| == |slots|
    ensures |r| == |slots|
  {
    seq(|slots|, j requires 0 <= j < |slots| => if SameUnion(fields, i, j) then Opt(None) else slots[j])
  }

  function MergeValue(f: Field, a: Value, b: Value): Value
    decreases f, 0
  {
    if f.kind.Sub? && a.Msg? && b.Msg? && |a.slots| == |b.slots| == |f.kind.fields|
    then Msg(MergeUpTo(f.kind.fields, a.slots, b.slots, |f.kind.fields|))
    else b
  }

  /** `slots` after the occurrences of field `i` in the encoding of `b` have been absorbed. */
  function MergeSlot(fields: seq<Field>, slots: seq<Slot>, i: nat, b: Slot): (r: seq<Slot>)
    requires i < |fields| == |slots|
    ensures |r| == |slots|
    decreases fields, 1
  {
    var f, a := fields[i], slots[i];
    match f.rule
    case Required => if a.One? && b.One? then slots[i := One(MergeValue(f, a.v, b.v))] else slots
    case Singular =>
      if a.One? && b.One? && !IsZeroValue(f, b.v) then slots[i := One(MergeValue(f, a.v, b.v))] else slots
    case Optional =>
      if IsSet(b) then slots[i := Opt(Some(MergeValue(f, OrDefault(f, a), b.o.value)))] else slots
    case OneOf => if IsSet(b) then ClearUnion(fields, slots, i)[i := b] else slots
    case Repeated(_) => if a.Many? && b.Many? then slots[i := Many(a.vs + b.vs)] else slots
  }

  function OrDefault(f: Field, s: Slot): Value {
    match s
    case One(v) => v
    case Opt(o) => if o.Some? then o.value else DefaultValue(f)
    case Many(_) => DefaultValue(f)
  }

  function MergeUpTo(fields: seq<Field>, a: seq<Slot>, b: seq<Slot>, k: nat): (r: seq<Slot>)
    requires k <= |fields| == |a| == |b|
    ensures |r| == |fields|
    decreases fields, 2, k
  {
    if k == 0 then a else MergeSlot(fields, MergeUpTo(fields, a, b, k - 1), k - 1, b[k - 1])
  }

  function Merge(fields: seq<Field>, a: seq<Slot>, b: seq<Slot>): (r: seq<Slot>)
    requires |fields| == |a| == |b|
    ensures |r| == |fields|
  {
    MergeUpTo(fields, a, b, |fields|)
  }

  /** No merged array outgrows its storage and every string of `b` leaves room for its terminator. */
  predicate FitsValue(f: Field, a: Value, b: Value)
    decreases f, 0
  {
    match f.kind
    case Str => b.Blob? && |b.b| < f.dataSize
    case Sub(fs) => a.Msg? && b.Msg? && |a.slots| == |b.slots| == |fs|
                    && forall i | 0 <= i < |fs| :: FitsSlot(fs[i], a.slots[i], b.slots[i])
    case _ => true
  }

  predicate FitsSlot(f: Field, a: Slot, b: Slot)
    decreases f, 1
  {
    match b
    case One(v) => (f.rule.Singular? && IsZeroValue(f, v)) || FitsValue(f, if a.One? then a.v else DefaultValue(f), v)
    case Opt(o) =>
      o.Some? ==> FitsValue(f, if f.rule.Optional? then OrDefault(f, a) else DefaultValue(f), o.value)
    case Many(vs) =>
      vs == [] || (f.rule.Repeated? && a.Many? && |a.vs| + |vs| <= f.rule.max
                   && forall v | v in vs :: FitsValue(f, DefaultValue(f), v))
  }

  predicate FitsSlots(fields: seq<Field>, a: seq<Slot>, b: seq<Slot>) {
    |a| == |b| == |fields| && forall i | 0 <= i < |fields| :: FitsSlot(fields[i], a[i], b[i])
  }
}
