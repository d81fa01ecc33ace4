/** The decoder as a function of the input bytes and the structure decoded into. */
module PbDecode {
  import opened Bytes
  import opened PbVarint
  import opened PbFields
  import opened PbMessage

  // ----- reading -----

  function Take(s: seq<byte>, n: nat): (r: Parsed<seq<byte>>)
    ensures r.Ok? ==> |r.rest| + n == |s|
  {
    if |s| < n then Fail else Ok(s[..n], s[n..])
  }

  /** A 32-bit length and that many bytes: the substream of `pb_make_string_substream`. */
  function TakeDelimited(s: seq<byte>): (r: Parsed<seq<byte>>)
    ensures r.Ok? ==> |r.rest| < |s|
  {
    match DecodeVarint32(s)
    case Fail => Fail
    case Ok(n, rest) => Take(rest, n)
  }

  datatype TagResult = TagEnd | TagError | TagRead(tag: nat, wire: nat, rest: seq<byte>)

  /** `pb_decode_tag` on a non-empty stream; a zero ends the message. */
  function DecodeTag(s: seq<byte>): (r: TagResult)
    ensures r.TagRead? ==> |r.rest| < |s| && r.wire < 8
  {
    match DecodeVarint32(s)
    case Fail => TagError
    case Ok(v, rest) => if v == 0 then TagEnd else TagRead(v / 8, v % 8, rest)
  }

  function SkipVarint(s: seq<byte>): (r: Parsed<()>)
    ensures r.Ok? ==> |r.rest| < |s|
  {
    if s == [] then Fail else if s[0] >= 128 then SkipVarint(s[1..]) else Ok((), s[1..])
  }

  function SkipField(s: seq<byte>, wire: nat): (r: Parsed<()>)
    ensures r.Ok? ==> |r.rest| <= |s|
  {
    if wire == 0 then SkipVarint(s)
    else if wire == 1 then match Take(s, 8) { case Fail => Fail case Ok(_, rest) => Ok((), rest) }
    else if wire == 2 then match TakeDelimited(s) { case Fail => Fail case Ok(_, rest) => Ok((), rest) }
    else if wire == 5 then match Take(s, 4) { case Fail => Fail case Ok(_, rest) => Ok((), rest) }
    else Fail
  }

  // ----- field values -----

  /** The C cast of `v` to a signed integer type; `half` is half its range. */
  function Signed(v: int, half: nat): int
    requires half > 0
  {
    var w := v % (2 * half);
    if w >= half then w - 2 * half else w
  }

  /** The overflow checks of the three varint field decoders. */
  function Narrow(f: Field, v: nat): Option<int> {
    var h: int := HalfRange(f.dataSize);
    if !IntegerSize(f.dataSize) then None
    else match f.kind
      case UVarint => if v < 2 * h then Some(v) else None
      case SVarint => var n := UnZigZag(v); if -h <= n < h then Some(n) else None
      case _ =>
        var n := if f.dataSize == 8 then Signed(v, TWO63) else Signed(v, 0x8000_0000);
        if -h <= n < h then Some(n) else None
  }

  /** The C string in a byte array: everything before the first NUL. */
  function CString(b: seq<byte>): (c: seq<byte>)
    ensures |c| <= |b| && 0 !in c
  {
    if b == [] || b[0] == 0 then [] else [b[0]] + CString(b[1..])
  }

  /** The blob a bytes, string or fixed-length field makes of a received body. */
  function AcceptBlob(f: Field, body: seq<byte>): Option<seq<byte>> {
    match f.kind
    case Bytes =>
      if |body| > PB_SIZE_MAX || |body| + BYTES_HEADER > f.dataSize then None else Some(body)
    case Str =>
      if |body| + 1 >= TWO32 || |body| + 1 > f.dataSize then None else Some(CString(body))
    case _ =>
      if |body| > PB_SIZE_MAX then None
      else if |body| == 0 then Some(Zeros(f.dataSize))
      else if |body| != f.dataSize then None else Some(body)
  }

  /** The field decoder of `f`; `cur` is the submessage already in place. */
  function DecodeValue(f: Field, s: seq<byte>, cur: Value): (r: Parsed<Value>)
    ensures r.Ok? ==> |r.rest| < |s|
    decreases f, 0, 0
  {
    match f.kind
    case Varint | UVarint | SVarint => (
      match DecodeVarint(s)
      case Fail => Fail
      case Ok(v, rest) => match Narrow(f, v) { case None => Fail case Some(n) => Ok(Num(n), rest) })
    case Fixed32 => (
      match Take(s, 4)
      case Fail => Fail
      case Ok(b, rest) => Ok(Num(FromLittleEndian(b)), rest))
    case Fixed64 => (
      match Take(s, 8)
      case Fail => Fail
      case Ok(b, rest) => Ok(Num(FromLittleEndian(b)), rest))
    case Bytes | Str | FixedBytes => (
      match TakeDelimited(s)
      case Fail => Fail
      case Ok(b, rest) => match AcceptBlob(f, b) { case None => Fail case Some(c) => Ok(Blob(c), rest) })
    case Sub(fs) => (
      match TakeDelimited(s)
      case Fail => Fail
      case Ok(b, rest) =>
        if !cur.Msg? || |cur.slots| != |fs| then Fail
        else match DecodeNoInit(fs, b, cur.slots) { case None => Fail case Some(m) => Ok(Msg(m), rest) })
    case Extension => Fail
  }

  /** The loop over a packed array: it must use up its body before the array is full. */
  function DecodePacked(f: Field, body: seq<byte>, vs: seq<Value>, max: nat): Option<seq<Value>>
    decreases f, 1, |body|
  {
    if body == [] then Some(vs)
    else if |vs| >= max then None
    else match DecodeValue(f, body, DefaultValue(f))
      case Fail => None
      case Ok(v, rest) => DecodePacked(f, rest, vs + [v], max)
  }

  /** `decode_static_field`: what becomes of the field's own slot. */
  function DecodeSlot(f: Field, wire: nat, s: seq<byte>, cur: Slot): (r: Parsed<Slot>)
    ensures r.Ok? ==> |r.rest| < |s|
    decreases f, 2, 0
  {
    match f.rule
    case Required | Singular => (
      match DecodeValue(f, s, OrDefault(f, cur))
      case Fail => Fail
      case Ok(v, rest) => Ok(One(v), rest))
    case Optional => (
      match DecodeValue(f, s, OrDefault(f, cur))
      case Fail => Fail
      case Ok(v, rest) => Ok(Opt(Some(v)), rest))
    case OneOf => (
      match DecodeValue(f, s, DefaultValue(f))
      case Fail => Fail
      case Ok(v, rest) => Ok(Opt(Some(v)), rest))
    case Repeated(max) =>
      var vs := if cur.Many? then cur.vs else [];
      if wire == 2 && Packable(f.kind) then
        match TakeDelimited(s)
        case Fail => Fail
        case Ok(body, rest) =>
          match DecodePacked(f, body, vs, max) { case None => Fail case Some(ws) => Ok(Many(ws), rest) }
      else if |vs| >= max then Fail
      else match DecodeValue(f, s, DefaultValue(f))
        case Fail => Fail
        case Ok(v, rest) => Ok(Many(vs + [v]), rest)
  }

  // ----- messages -----

  function FindFrom(fields: seq<Field>, tag: nat, i: nat): (r: Option<nat>)
    requires i <= |fields|
    ensures r.Some? ==> i <= r.value < |fields| && Matches(fields[r.value], tag)
    ensures r.None? ==> forall j | i <= j < |fields| :: !Matches(fields[j], tag)
    decreases |fields| - i
  {
    if i == |fields| then None
    else if Matches(fields[i], tag) then Some(i) else FindFrom(fields, tag, i + 1)
  }

  function Store(fields: seq<Field>, slots: seq<Slot>, i: nat, s: Slot): (r: seq<Slot>)
    requires i < |fields| == |slots|
    ensures |r| == |slots|
  {
    if fields[i].rule.OneOf? then ClearUnion(fields, slots, i)[i := s] else slots[i := s]
  }

  datatype Step = Stop | Error | Next(rest: seq<byte>, slots: seq<Slot>, seen: set<nat>)

  /** One turn of the loop of `pb_decode_noinit`. */
  function DecodeStep(fields: seq<Field>, s: seq<byte>, slots: seq<Slot>, seen: set<nat>): (r: Step)
    requires |slots| == |fields|
    ensures r.Next? ==> |r.rest| < |s| && |r.slots| == |fields|
    decreases fields, 0, |s|
  {
    match DecodeTag(s)
    case TagEnd => Stop
    case TagError => Error
    case TagRead(tag, wire, rest) =>
      if fields == [] && tag == 0 then Error  // the terminator itself matches, and has no data size
      else match FindFrom(fields, tag, 0)
        case None => (
          match SkipField(rest, wire)
          case Fail => Error
          case Ok(_, rest') => Next(rest', slots, seen))
        case Some(i) =>
          match DecodeSlot(fields[i], wire, rest, slots[i])
          case Fail => Error
          case Ok(v, rest') => Next(rest', Store(fields, slots, i, v), seen + {i})
  }

  function DecodeLoop(fields: seq<Field>, s: seq<byte>, slots: seq<Slot>, seen: set<nat>)
    : (r: Option<(seq<Slot>, set<nat>)>)
    requires |slots| == |fields|
    ensures r.Some? ==> |r.value.0| == |fields|
    decreases fields, 1, |s|
  {
    if s == [] then Some((slots, seen))
    else match DecodeStep(fields, s, slots, seen)
      case Stop => Some((slots, seen))
      case Error => None
      case Next(rest, slots', seen') => DecodeLoop(fields, rest, slots', seen')
  }

  /** PB_MAX_REQUIRED_FIELDS. */
  const MAX_REQUIRED: nat := 64

  /** Every required field the decoder tracks has been seen. */
  predicate RequiredSeen(fields: seq<Field>, seen: set<nat>) {
    forall i | 0 <= i < |fields| && fields[i].rule.Required? && RequiredBefore(fields, i) < MAX_REQUIRED :: i in seen
  }

  function DecodeNoInit(fields: seq<Field>, s: seq<byte>, slots: seq<Slot>): (r: Option<seq<Slot>>)
    requires |slots| == |fields|
    ensures r.Some? ==> |r.value| == |fields|
    decreases fields, 2, |s|
  {
    match DecodeLoop(fields, s, slots, {})
    case None => None
    case Some((slots', seen)) => if RequiredSeen(fields, seen) then Some(slots') else None
  }

  /** `pb_decode`. */
  function Decode(fields: seq<Field>, s: seq<byte>): (r: Option<seq<Slot>>)
  {
    DecodeNoInit(fields, s, Defaults(fields))
  }
}
