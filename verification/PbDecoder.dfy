/** `pb_decode` step by step: the field decoders, the packed loop and the message loop. */
module PbDecoder {
  import opened Bytes
  import opened PbVarint
  import opened PbFields
  import opened PbMessage
  import opened PbDecode
  import opened PbRoundTrip
  import opened PbIStream

  // ----- integer fields -----

  /** A cast keeps exactly the values of its type. */
  lemma CastExact(n: int, size: nat)
    requires IntegerSize(size)
    ensures var h: int := HalfRange(size);
      Signed(n, HalfRange(size)) == n <==> -h <= n < h
  {
  }

  method DecVarint(stream: IStream, f: Field) returns (ok: bool, v: int)
    requires stream.Valid() && f.kind.Varint?
    modifies stream
    ensures stream.Valid() && stream.End() == old(stream.End())
    ensures ok <==> DecodeValue(f, old(stream.Contents()), Num(0)).Ok?
    ensures ok ==> Ok(Num(v), stream.Contents()) == DecodeValue(f, old(stream.Contents()), Num(0))
  {
    var got, value := stream.DecodeVarint();
    if !got {
      return false, 0;
    }
    var svalue := if f.dataSize == 8 then Signed(value, TWO63) else Signed(value, 0x8000_0000);
    var clamped := svalue;
    if f.dataSize == 8 {
      clamped := svalue;
    } else if f.dataSize == 4 {
      clamped := Signed(svalue, 0x8000_0000);
    } else if f.dataSize == 2 {
      clamped := Signed(svalue, 0x8000);
    } else if f.dataSize == 1 {
      clamped := Signed(svalue, 0x80);
    } else {
      return false, 0;
    }
    CastExact(svalue, f.dataSize);
    return clamped == svalue, svalue;
  }

  method DecUvarint(stream: IStream, f: Field) returns (ok: bool, v: nat)
    requires stream.Valid() && f.kind.UVarint?
    modifies stream
    ensures stream.Valid() && stream.End() == old(stream.End())
    ensures ok <==> DecodeValue(f, old(stream.Contents()), Num(0)).Ok?
    ensures ok ==> Ok(Num(v), stream.Contents()) == DecodeValue(f, old(stream.Contents()), Num(0))
  {
    var got, value := stream.DecodeVarint();
    if !got {
      return false, 0;
    }
    var clamped := value;
    if f.dataSize == 8 {
      clamped := value % 0x1_0000_0000_0000_0000;
    } else if f.dataSize == 4 {
      clamped := value % 0x1_0000_0000;
    } else if f.dataSize == 2 {
      clamped := value % 0x1_0000;
    } else if f.dataSize == 1 {
      clamped := value % 0x100;
    } else {
      return false, 0;
    }
    return clamped == value, value;
  }

  method DecSvarint(stream: IStream, f: Field) returns (ok: bool, v: int)
    requires stream.Valid() && f.kind.SVarint?
    modifies stream
    ensures stream.Valid() && stream.End() == old(stream.End())
    ensures ok <==> DecodeValue(f, old(stream.Contents()), Num(0)).Ok?
    ensures ok ==> Ok(Num(v), stream.Contents()) == DecodeValue(f, old(stream.Contents()), Num(0))
  {
    var got, zigzagged := stream.DecodeVarint();
    if !got {
      return false, 0;
    }
    var value: int := zigzagged / 2;
    if zigzagged % 2 == 1 {
      value := -value - 1;
    }
    var clamped := value;
    if f.dataSize == 8 {
      clamped := Signed(value, TWO63);
    } else if f.dataSize == 4 {
      clamped := Signed(value, 0x8000_0000);
    } else if f.dataSize == 2 {
      clamped := Signed(value, 0x8000);
    } else if f.dataSize == 1 {
      clamped := Signed(value, 0x80);
    } else {
      return false, 0;
    }
    CastExact(value, f.dataSize);
    return clamped == value, value;
  }

  // ----- delimited fields -----

  method DecBytes(stream: IStream, f: Field) returns (ok: bool, b: seq<byte>)
    requires stream.Valid() && f.kind.Bytes?
    modifies stream
    ensures stream.Valid() && stream.End() == old(stream.End())
    ensures ok <==> DecodeValue(f, old(stream.Contents()), Num(0)).Ok?
    ensures ok ==> Ok(Blob(b), stream.Contents()) == DecodeValue(f, old(stream.Contents()), Num(0))
  {
    var got, size, _ := stream.DecodeVarint32();
    if !got || size > PB_SIZE_MAX {
      return false, [];
    }
    var allocSize := size + BYTES_HEADER;
    if allocSize > f.dataSize {
      return false, [];
    }
    ok, b := stream.Read(size);
  }

  /** What the string decoder makes of a length and that many bytes. */
  lemma StringValue(f: Field, s: seq<byte>)
    requires f.kind.Str?
    ensures DecodeValue(f, s, Num(0))
            == match TakeDelimited(s)
               case Fail => Fail
               case Ok(b, rest) =>
                 if |b| + 1 >= TWO32 || |b| + 1 > f.dataSize then Fail else Ok(Blob(CString(b)), rest)
  {
    hide TakeDelimited, CString;
  }

  method DecString(stream: IStream, f: Field) returns (ok: bool, b: seq<byte>)
    requires stream.Valid() && f.kind.Str?
    modifies stream
    ensures stream.Valid() && stream.End() == old(stream.End())
    ensures ok <==> DecodeValue(f, old(stream.Contents()), Num(0)).Ok?
    ensures ok ==> Ok(Blob(CString(b)), stream.Contents()) == DecodeValue(f, old(stream.Contents()), Num(0))
  {
    StringValue(f, stream.Contents());
    hide PbVarint.DecodeVarint32, PbDecode.CString, DecodeValue;
    var got, size, _ := stream.DecodeVarint32();
    if !got {
      return false, [];
    }
    var allocSize := (size + 1) % TWO32;
    Varint32Bound(old(stream.Contents()));
    if allocSize < size || allocSize > f.dataSize {
      return false, [];
    }
    ok, b := stream.Read(size);
  }

  /** Room for the bits below `bitpos`, in a 32-bit word. */
  function Room(bitpos: nat): nat {
    if bitpos == 7 then 0x80 else if bitpos == 14 then 0x4000 else if bitpos == 21 then 0x20_0000
    else if bitpos == 28 then 0x1000_0000 else TWO32
  }

  lemma ShiftedIntoRoom(b: byte, bitpos: nat, acc: nat)
    requires bitpos == 7 || bitpos == 14 || bitpos == 21 || bitpos == 28
    requires acc < Room(bitpos)
    ensures acc + ShiftIn32(b, bitpos) < Room(bitpos + 7)
  {
    ShiftLeftIsProduct(b % 128, bitpos);
    Pow2Constants();
    Pow2Add(7, 7);
    Pow2Add(7, 14);
    if bitpos == 28 {
      var x := (b % 128) * 0x1000_0000;
      assert x % TWO32 <= 15 * 0x1000_0000;
    }
  }

  lemma {:induction false} Varint32FromBound(s: seq<byte>, bitpos: nat, acc: nat)
    requires acc < Room(bitpos)
    requires bitpos == 7 || bitpos == 14 || bitpos == 21 || bitpos == 28 || bitpos >= 35
    ensures DecodeVarint32From(s, bitpos, acc).Ok? ==> DecodeVarint32From(s, bitpos, acc).value < TWO32
    decreases |s|
  {
    if s != [] {
      if bitpos >= 35 {
        Varint32FromBound(s[1..], bitpos + 7, acc);
      } else {
        ShiftedIntoRoom(s[0], bitpos, acc);
        Varint32FromBound(s[1..], bitpos + 7, acc + ShiftIn32(s[0], bitpos));
      }
    }
  }

  lemma Varint32Bound(s: seq<byte>)
    ensures PbVarint.DecodeVarint32(s).Ok? ==> PbVarint.DecodeVarint32(s).value < TWO32
  {
    if s != [] && s[0] >= 128 { Varint32FromBound(s[1..], 7, s[0] % 128); }
  }

  method DecFixedLengthBytes(stream: IStream, f: Field) returns (ok: bool, b: seq<byte>)
    requires stream.Valid() && f.kind.FixedBytes? && f.dataSize <= PB_SIZE_MAX
    modifies stream
    ensures stream.Valid() && stream.End() == old(stream.End())
    ensures ok <==> DecodeValue(f, old(stream.Contents()), Num(0)).Ok?
    ensures ok ==> Ok(Blob(b), stream.Contents()) == DecodeValue(f, old(stream.Contents()), Num(0))
  {
    var got, size, _ := stream.DecodeVarint32();
    if !got || size > PB_SIZE_MAX {
      return false, [];
    }
    if size == 0 {
      assert stream.Contents()[0..] == stream.Contents();
      return true, Zeros(f.dataSize);
    }
    if size != f.dataSize {
      return false, [];
    }
    ok, b := stream.Read(f.dataSize);
  }

  method DecFixed(stream: IStream, f: Field) returns (ok: bool, v: nat)
    requires stream.Valid() && (f.kind.Fixed32? || f.kind.Fixed64?)
    modifies stream
    ensures stream.Valid() && stream.End() == old(stream.End())
    ensures ok <==> DecodeValue(f, old(stream.Contents()), Num(0)).Ok?
    ensures ok ==> Ok(Num(v), stream.Contents()) == DecodeValue(f, old(stream.Contents()), Num(0))
  {
    var got, b := stream.Read(if f.kind.Fixed32? then 4 else 8);
    if !got {
      return false, 0;
    }
    v := FromLittleEndian(b);
    return true, v;
  }

  // ----- fields and messages -----

  method DecodeFieldValue(stream: IStream, f: Field, cur: Value) returns (ok: bool, v: Value)
    requires stream.Valid() && WellFormedField(f)
    modifies stream
    ensures stream.Valid() && stream.End() <= old(stream.End()) && (ok ==> stream.End() == old(stream.End()))
    ensures ok <==> DecodeValue(f, old(stream.Contents()), cur).Ok?
    ensures ok ==> Ok(v, stream.Contents()) == DecodeValue(f, old(stream.Contents()), cur)
    decreases f, 1
  {
    var n: int, b: seq<byte>;
    match f.kind {
      case Varint => ok, n := DecVarint(stream, f); v := Num(n);
      case UVarint => ok, n := DecUvarint(stream, f); v := Num(n);
      case SVarint => ok, n := DecSvarint(stream, f); v := Num(n);
      case Fixed32 => ok, n := DecFixed(stream, f); v := Num(n);
      case Fixed64 => ok, n := DecFixed(stream, f); v := Num(n);
      case Bytes => ok, b := DecBytes(stream, f); v := Blob(b);
      case Str => ok, b := DecString(stream, f); v := Blob(CString(b));
      case FixedBytes => ok, b := DecFixedLengthBytes(stream, f); v := Blob(b);
      case Sub(fs) => ok, v := DecSubmessage(stream, f, cur);
    }
  }

  /** A structure of another shape than its table cannot occur in C; the model refuses it. */
  method DecSubmessage(stream: IStream, f: Field, cur: Value) returns (ok: bool, v: Value)
    requires stream.Valid() && WellFormedField(f) && f.kind.Sub?
    modifies stream
    ensures stream.Valid() && stream.End() <= old(stream.End()) && (ok ==> stream.End() == old(stream.End()))
    ensures ok <==> DecodeValue(f, old(stream.Contents()), cur).Ok?
    ensures ok ==> Ok(v, stream.Contents()) == DecodeValue(f, old(stream.Contents()), cur)
    decreases f, 0
  {
    if !cur.Msg? || |cur.slots| != |f.kind.fields| {
      return false, cur;
    }
    var made, sub := stream.MakeSubstream();
    if !made {
      return false, cur;
    }
    var status, slots := DecodeMessage(sub, f.kind.fields, cur.slots);
    var closed := stream.CloseSubstream(sub);
    return status, Msg(slots);
  }

  /** The packed branch of `decode_static_field`. */
  method DecodePackedArray(stream: IStream, f: Field, max: nat, entries: seq<Value>)
    returns (ok: bool, vs: seq<Value>)
    requires stream.Valid() && WellFormedField(f) && Packable(f.kind)
    modifies stream
    ensures stream.Valid() && stream.End() <= old(stream.End()) && (ok ==> stream.End() == old(stream.End()))
    ensures ok <==> PackedResult(f, old(stream.Contents()), entries, max).Ok?
    ensures ok ==> Ok(vs, stream.Contents()) == PackedResult(f, old(stream.Contents()), entries, max)
    decreases f, 2
  {
    hide TakeDelimited, DecodeValue, WellFormedField;
    var made, sub := stream.MakeSubstream();
    vs := entries;
    if !made {
      return false, vs;
    }
    ghost var body, end, parent := sub.Contents(), sub.End(), stream.bytesLeft;
    var status := true;
    while sub.bytesLeft > 0 && |vs| < max && status
      invariant fresh(sub) && sub.memory == stream.memory
      invariant stream.bytesLeft == parent && stream.state + parent <= old(stream.End())
      invariant sub.Valid() && sub.End() <= end && (status ==> sub.End() == end)
      invariant DecodePacked(f, body, entries, max)
             == if status then DecodePacked(f, sub.Contents(), vs, max) else None
      decreases status, sub.bytesLeft
    {
      var got, v := DecodeFieldValue(sub, f, DefaultValue(f));
      if got {
        vs := vs + [v];
      } else {
        status := false;
      }
    }
    if sub.bytesLeft != 0 {
      return false, vs;
    }
    var closed := stream.CloseSubstream(sub);
    return status, vs;
  }

  function PackedResult(f: Field, s: seq<byte>, entries: seq<Value>, max: nat): Parsed<seq<Value>> {
    match TakeDelimited(s)
    case Fail => Fail
    case Ok(body, rest) => match DecodePacked(f, body, entries, max) { case None => Fail case Some(vs) => Ok(vs, rest) }
  }

  method DecodeStaticField(stream: IStream, wire: nat, f: Field, cur: Slot) returns (ok: bool, slot: Slot)
    requires stream.Valid() && WellFormedField(f)
    modifies stream
    ensures stream.Valid() && stream.End() <= old(stream.End()) && (ok ==> stream.End() == old(stream.End()))
    ensures ok <==> DecodeSlot(f, wire, old(stream.Contents()), cur).Ok?
    ensures ok ==> Ok(slot, stream.Contents()) == DecodeSlot(f, wire, old(stream.Contents()), cur)
    decreases f, 3
  {
    var v: Value;
    slot := cur;
    match f.rule {
      case Required | Singular =>
        ok, v := DecodeFieldValue(stream, f, OrDefault(f, cur));
        slot := One(v);
      case Optional =>
        ok, v := DecodeFieldValue(stream, f, OrDefault(f, cur));
        slot := Opt(Some(v));
      case OneOf =>
        ok, v := DecodeFieldValue(stream, f, DefaultValue(f));
        slot := Opt(Some(v));
      case Repeated(max) =>
        var vs := if cur.Many? then cur.vs else [];
        if wire == 2 && Packable(f.kind) {
          ok, vs := DecodePackedArray(stream, f, max, vs);
          slot := Many(vs);
        } else {
          if |vs| >= max {
            return false, cur;
          }
          ok, v := DecodeFieldValue(stream, f, DefaultValue(f));
          slot := Many(vs + [v]);
        }
    }
  }

  // ----- required fields -----

  lemma {:induction false} RequiredBeforeMonotone(fields: seq<Field>, i: nat, j: nat)
    requires i <= j
    ensures RequiredBefore(fields, i) <= RequiredBefore(fields, j)
    ensures i < j && FieldAt(fields, i).rule.Required? ==> RequiredBefore(fields, i) < RequiredBefore(fields, j)
    decreases j
  {
    if i < j { RequiredBeforeMonotone(fields, i, j - 1); }
  }

  /** The `k`-th required field. */
  lemma {:induction false} RequiredPosition(fields: seq<Field>, n: nat, k: nat) returns (i: nat)
    requires k < RequiredBefore(fields, n)
    ensures i < n && FieldAt(fields, i).rule.Required? && RequiredBefore(fields, i) == k
    decreases n
  {
    if k < RequiredBefore(fields, n - 1) { i := RequiredPosition(fields, n - 1, k); } else { i := n - 1; }
  }

  /** `flags` is the fields_seen bit field for the positions in `seen`. */
  ghost predicate Tracks(fields: seq<Field>, flags: seq<bool>, seen: set<nat>) {
    |flags| == MAX_REQUIRED
    && forall i | 0 <= i < |fields| && fields[i].rule.Required? && RequiredBefore(fields, i) < MAX_REQUIRED ::
         flags[RequiredBefore(fields, i)] <==> i in seen
  }

  lemma TracksOneMore(fields: seq<Field>, flags: seq<bool>, seen: set<nat>, i: nat)
    requires Tracks(fields, flags, seen) && i < |fields|
    ensures fields[i].rule.Required? && RequiredBefore(fields, i) < MAX_REQUIRED ==>
              Tracks(fields, flags[RequiredBefore(fields, i) := true], seen + {i})
    ensures !(fields[i].rule.Required? && RequiredBefore(fields, i) < MAX_REQUIRED)
            ==> Tracks(fields, flags, seen + {i})
  {
    forall j | 0 <= j < |fields| && j != i && fields[j].rule.Required? && fields[i].rule.Required?
      ensures RequiredBefore(fields, j) != RequiredBefore(fields, i)
    {
      if i < j { RequiredBeforeMonotone(fields, i, j); } else { RequiredBeforeMonotone(fields, j, i); }
    }
  }

  /** The check after the loop: count the required fields, then look at as many flags. */
  method CheckRequired(iter: FieldIter, flags: seq<bool>, ghost seen: set<nat>) returns (ok: bool)
    requires iter.Valid() && Tracks(iter.start, flags, seen)
    requires forall f | f in iter.start :: f.tag != 0
    modifies iter
    ensures ok <==> RequiredSeen(iter.start, seen)
  {
    var count, lastRule := iter.requiredFieldIndex, FieldAt(iter.start, iter.pos).rule;
    ghost var at := iter.pos;
    var more := iter.Next();
    while more
      invariant iter.Valid() && more == (at + 1 < |iter.start|)
      invariant iter.pos == if more then at + 1 else 0
      invariant at < |iter.start| || at == |iter.start| == 0
      invariant count == RequiredBefore(iter.start, at) && lastRule == FieldAt(iter.start, at).rule
      decreases |iter.start| - at
    {
      count, lastRule := iter.requiredFieldIndex, FieldAt(iter.start, iter.pos).rule;
      at := iter.pos;
      more := iter.Next();
    }
    if lastRule.Required? && FieldAt(iter.start, iter.pos).tag != 0 {
      count := count + 1;
    }
    assert count == RequiredBefore(iter.start, |iter.start|);
    if count > MAX_REQUIRED {
      count := MAX_REQUIRED;
    }
    ok := forall k | 0 <= k < count :: flags[k];
    FlagsDecide(iter.start, flags, seen, count);
  }

  lemma FlagsDecide(fields: seq<Field>, flags: seq<bool>, seen: set<nat>, count: nat)
    requires Tracks(fields, flags, seen)
    requires var n := RequiredBefore(fields, |fields|);
      count == if n > MAX_REQUIRED then MAX_REQUIRED else n
    ensures (forall k | 0 <= k < count :: flags[k]) <==> RequiredSeen(fields, seen)
  {
    forall i | 0 <= i < |fields| && fields[i].rule.Required?
      ensures RequiredBefore(fields, i) < RequiredBefore(fields, |fields|)
    {
      RequiredBeforeMonotone(fields, i, |fields|);
    }
    if RequiredSeen(fields, seen) {
      forall k | 0 <= k < count
        ensures flags[k]
      {
        var i := RequiredPosition(fields, |fields|, k);
      }
    }
  }

  // ----- the message loop -----

  lemma FoundIsUnique(fields: seq<Field>, pos: nat, tag: nat)
    requires WellFormed(fields) && pos < |fields| && Matches(fields[pos], tag)
    ensures FindFrom(fields, tag, 0) == Some(pos)
  {
    FindOwnTag(fields, pos, 0);
  }

  datatype Outcome = Failed | Ended | Continue

  /** One turn of the loop: a tag, then a field that is decoded or skipped. */
  method DecodeTurn(stream: IStream, iter: FieldIter, flags: seq<bool>, slots: seq<Slot>, ghost seen: set<nat>)
    returns (outcome: Outcome, flags': seq<bool>, slots': seq<Slot>, ghost seen': set<nat>)
    requires stream.Valid() && stream.bytesLeft > 0 && iter.Valid() && WellFormed(iter.start)
    requires |slots| == |iter.start| && Tracks(iter.start, flags, seen)
    modifies stream, iter
    ensures stream.Valid() && stream.End() <= old(stream.End()) && iter.Valid()
    ensures outcome == match DecodeStep(iter.start, old(stream.Contents()), slots, seen)
                       case Stop => Ended case Error => Failed case Next(_, _, _) => Continue
    ensures outcome.Continue? ==>
      DecodeStep(iter.start, old(stream.Contents()), slots, seen) == Next(stream.Contents(), slots', seen')
    ensures |slots'| == |iter.start| && Tracks(iter.start, flags', seen')
    ensures !outcome.Failed? ==> stream.End() == old(stream.End())
    ensures outcome.Ended? ==> slots' == slots && seen' == seen
    decreases iter.start, 4
  {
    hide WellFormed, WellFormedField, DecodeSlot, PbDecode.SkipField, PbDecode.DecodeTag, Tracks, RequiredBefore, Store,
      DataAt, SizeAt;
    WellFormedTags(iter.start);
    var fields := iter.start;
    flags', slots', seen' := flags, slots, seen;
    var got, wire, tag, eof := stream.DecodeTag();
    if !got {
      return if eof then Ended else Failed, flags, slots, seen;
    }
    var found := iter.Find(tag);
    if !found {
      var skipped := stream.SkipField(wire);
      return if skipped then Continue else Failed, flags, slots, seen;
    }
    if iter.pos == |fields| {
      // The terminator of an empty table: its data size is invalid.
      var decoded, _ := DecVarint(stream, LAST_FIELD);
      return Failed, flags, slots, seen;
    }
    FoundIsUnique(fields, iter.pos, tag);
    var decoded;
    decoded, flags', slots', seen' := DecodeFound(stream, wire, iter, flags, slots, seen);
    return if decoded then Continue else Failed, flags', slots', seen';
  }

  /** The field the iterator has found: mark it seen, decode it, store it. */
  method DecodeFound(stream: IStream, wire: nat, iter: FieldIter, flags: seq<bool>, slots: seq<Slot>,
                     ghost seen: set<nat>)
    returns (ok: bool, flags': seq<bool>, slots': seq<Slot>, ghost seen': set<nat>)
    requires stream.Valid() && iter.Valid() && WellFormed(iter.start) && iter.pos < |iter.start| == |slots|
    requires Tracks(iter.start, flags, seen)
    modifies stream
    ensures stream.Valid() && stream.End() <= old(stream.End()) && (ok ==> stream.End() == old(stream.End()))
    ensures ok <==> DecodeSlot(iter.start[iter.pos], wire, old(stream.Contents()), slots[iter.pos]).Ok?
    ensures |slots'| == |iter.start| && Tracks(iter.start, flags', seen') && seen' == seen + {iter.pos}
    ensures ok ==>
      var r := DecodeSlot(iter.start[iter.pos], wire, old(stream.Contents()), slots[iter.pos]);
      r.rest == stream.Contents() && slots' == Store(iter.start, slots, iter.pos, r.value)
    decreases iter.start, 3
  {
    var i, fields := iter.pos, iter.start;
    flags', slots' := flags, slots;
    assert WellFormedField(fields[i]);
    if fields[i].rule.Required? && iter.requiredFieldIndex < MAX_REQUIRED {
      flags' := flags[iter.requiredFieldIndex := true];
    }
    TracksOneMore(fields, flags, seen, i);
    seen' := seen + {i};
    var slot;
    ok, slot := DecodeStaticField(stream, wire, fields[i], slots[i]);
    if ok {
      slots' := Store(fields, slots, i, slot);
    }
  }

  /** `pb_decode_noinit`. */
  method DecodeMessage(stream: IStream, fields: seq<Field>, dest: seq<Slot>) returns (ok: bool, slots: seq<Slot>)
    requires stream.Valid() && WellFormed(fields) && |dest| == |fields|
    modifies stream
    ensures stream.Valid() && stream.End() <= old(stream.End()) && (ok ==> stream.End() == old(stream.End()))
    ensures |slots| == |fields|
    ensures ok <==> DecodeNoInit(fields, old(stream.Contents()), dest).Some?
    ensures ok ==> Some(slots) == DecodeNoInit(fields, old(stream.Contents()), dest)
    decreases fields, 5
  {
    var iter := new FieldIter(fields, 0);
    var flags := seq(MAX_REQUIRED, _ => false);
    ghost var seen, input := {}, stream.Contents();
    slots := dest;
    var outcome := Continue;
    while stream.bytesLeft != 0 && outcome.Continue?
      invariant stream.Valid() && stream.End() == old(stream.End()) && !outcome.Failed?
      invariant iter.Valid() && iter.start == fields && fresh(iter) && |slots| == |fields|
      invariant Tracks(fields, flags, seen)
      invariant DecodeLoop(fields, input, dest, {})
             == if outcome.Ended? then Some((slots, seen)) else DecodeLoop(fields, stream.Contents(), slots, seen)
      decreases outcome.Continue?, stream.bytesLeft
    {
      outcome, flags, slots, seen := DecodeTurn(stream, iter, flags, slots, seen);
      if outcome.Failed? {
        return false, slots;
      }
    }
    WellFormedTags(fields);
    ok := CheckRequired(iter, flags, seen);
  }

  /** `pb_decode`. */
  method DecodeStream(stream: IStream, fields: seq<Field>) returns (ok: bool, slots: seq<Slot>)
    requires stream.Valid() && WellFormed(fields)
    modifies stream
    ensures stream.Valid()
    ensures ok <==> Decode(fields, old(stream.Contents())).Some?
    ensures ok ==> Some(slots) == Decode(fields, old(stream.Contents()))
  {
    ok, slots := DecodeMessage(stream, fields, Defaults(fields));
  }
}
