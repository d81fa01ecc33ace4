/** `pb_encode` step by step: sizing and writing are the same calls on two kinds of stream. */
module PbEncoder {
  import opened Bytes
  import opened PbVarint
  import opened PbFields
  import opened PbMessage
  import opened PbRoundTrip
  import opened PbOStream
  import PbIStream
  import PbDecoder

  // ----- field encoders -----

  method EncInteger(stream: OStream, f: Field, n: int) returns (err: Error)
    requires stream.Valid() && TypedValue(f, Num(n)) && (f.kind.Varint? || f.kind.UVarint? || f.kind.SVarint?)
    modifies stream, stream.buf
    ensures stream.Valid() && err != SubmsgSizeChanged && old(stream.out) <= stream.out
    ensures err == NoError <==> Encodable(f, Num(n)) && old(stream.Room(EncValue(f, Num(n))))
    ensures err == NoError ==> stream.out == old(stream.out) + EncValue(f, Num(n))
  {
    if f.dataSize != 1 && f.dataSize != 2 && f.dataSize != 4 && f.dataSize != 8 {
      return InvalidDataSize;
    }
    if f.kind.SVarint? {
      ZigZagBijection(n, 0);
      var zigzagged := 2 * n;
      if n < 0 {
        zigzagged := -2 * n - 1;  // ~(value << 1)
      }
      assert ZigZag(n) % TWO64 == ZigZag(n);
      err := stream.PutVarint(zigzagged);
    } else {
      err := stream.PutVarint(n % TWO64);
    }
  }

  method EncFixed(stream: OStream, f: Field, n: int) returns (err: Error)
    requires stream.Valid() && TypedValue(f, Num(n)) && (f.kind.Fixed32? || f.kind.Fixed64?)
    modifies stream, stream.buf
    ensures stream.Valid() && err != SubmsgSizeChanged && old(stream.out) <= stream.out
    ensures err == NoError <==> old(stream.Room(EncValue(f, Num(n))))
    ensures err == NoError ==> stream.out == old(stream.out) + EncValue(f, Num(n))
  {
    var b := if f.kind.Fixed32? then LittleEndian(n % TWO32, 4) else LittleEndian(n % TWO64, 8);
    err := stream.Write(b);
  }

  method EncBytes(stream: OStream, f: Field, b: seq<byte>) returns (err: Error)
    requires stream.Valid() && TypedValue(f, Blob(b)) && f.dataSize <= PB_SIZE_MAX
    requires f.kind.Bytes? || f.kind.Str? || f.kind.FixedBytes?
    modifies stream, stream.buf
    ensures stream.Valid() && err != SubmsgSizeChanged && old(stream.out) <= stream.out
    ensures err == NoError <==> Encodable(f, Blob(b)) && old(stream.Room(EncValue(f, Blob(b))))
    ensures err == NoError ==> stream.out == old(stream.out) + EncValue(f, Blob(b))
  {
    if f.kind.Bytes? && |b| + BYTES_HEADER > f.dataSize {
      return BytesSizeExceeded;
    }
    err := stream.PutString(b);
  }

  method EncFieldValue(stream: OStream, f: Field, v: Value) returns (err: Error)
    requires stream.Valid() && WellFormedField(f) && TypedValue(f, v) && |EncValue(f, v)| < TWO32
    modifies stream, stream.buf
    ensures stream.Valid() && err != SubmsgSizeChanged && old(stream.out) <= stream.out
    ensures err == NoError <==> Encodable(f, v) && old(stream.Room(EncValue(f, v)))
    ensures err == NoError ==> stream.out == old(stream.out) + EncValue(f, v)
    decreases f, 1
  {
    match f.kind {
      case Varint | UVarint | SVarint => err := EncInteger(stream, f, v.n);
      case Fixed32 | Fixed64 => err := EncFixed(stream, f, v.n);
      case Bytes | Str | FixedBytes => err := EncBytes(stream, f, v.b);
      case Sub(fs) => err := EncSubmessage(stream, fs, v.slots);
    }
  }

  /** `pb_encode_submessage`: size it, write the length, then write it into a stream of that size. */
  method EncSubmessage(stream: OStream, fields: seq<Field>, slots: seq<Slot>) returns (err: Error)
    requires stream.Valid() && WellFormed(fields) && TypedSlots(fields, slots)
    requires |WithLength(EncMsg(fields, slots))| < TWO32
    modifies stream, stream.buf
    ensures stream.Valid() && err != SubmsgSizeChanged && old(stream.out) <= stream.out
    ensures err == NoError <==> EncodableSlots(fields, slots) && old(stream.Room(WithLength(EncMsg(fields, slots))))
    ensures err == NoError ==> stream.out == old(stream.out) + WithLength(EncMsg(fields, slots))
    decreases fields, 10
  {
    ghost var body := EncMsg(fields, slots);
    var sizer := new OStream.Sizing();
    err := EncodeMessage(sizer, fields, slots);
    if err != NoError {
      return;
    }
    var size := sizer.bytesWritten;
    err := stream.PutVarint(size);
    if err != NoError {
      return;
    }
    if stream.sizing {
      err := stream.Count(size, body);
    } else {
      err := WriteSubmessage(stream, fields, slots, size);
    }
    Assoc(old(stream.out), EncodeVarint(|body|), body);
  }

  /** The second pass; its size check cannot fail. */
  method WriteSubmessage(stream: OStream, fields: seq<Field>, slots: seq<Slot>, size: nat) returns (err: Error)
    requires stream.Valid() && !stream.sizing && WellFormed(fields) && TypedSlots(fields, slots)
    requires EncodableSlots(fields, slots) && size == |EncMsg(fields, slots)| < TWO32
    modifies stream, stream.buf
    ensures stream.Valid() && err != SubmsgSizeChanged && old(stream.out) <= stream.out
    ensures err == NoError <==> old(stream.Room(EncMsg(fields, slots)))
    ensures err == NoError ==> stream.out == old(stream.out) + EncMsg(fields, slots)
    decreases fields, 9, 1
  {
    hide EncMsg, EncodableSlots, TypedSlots, WellFormed, Overwrite;
    if stream.bytesWritten + size > stream.maxSize {
      return StreamFull;
    }
    ghost var body := EncMsg(fields, slots);
    assert [] + body == body;
    var sub := new OStream.Into(stream.buf, stream.state, size);
    err := EncodeMessage(sub, fields, slots);
    stream.bytesWritten := stream.bytesWritten + sub.bytesWritten;
    stream.state := sub.state;
    OverwriteTwice(stream.memory, stream.origin, stream.out, body);
    stream.out := stream.out + body;
    if sub.bytesWritten != size {
      err := SubmsgSizeChanged;
    }
  }

  method EncTaggedValue(stream: OStream, f: Field, v: Value) returns (err: Error)
    requires stream.Valid() && WellFormedField(f) && TypedValue(f, v) && |EncTagged(f, v)| < TWO32
    modifies stream, stream.buf
    ensures stream.Valid() && err != SubmsgSizeChanged && old(stream.out) <= stream.out
    ensures err == NoError <==> Encodable(f, v) && old(stream.Room(EncTagged(f, v)))
    ensures err == NoError ==> stream.out == old(stream.out) + EncTagged(f, v)
    decreases f, 2
  {
    err := stream.PutTag(WireType(f.kind), f.tag);
    if err == NoError {
      err := EncFieldValue(stream, f, v);
      Assoc(old(stream.out), EncTag(f.tag, WireType(f.kind)), EncValue(f, v));
    }
  }

  // ----- arrays -----

  ghost predicate AllEncodable(f: Field, vs: seq<Value>) {
    forall v | v in vs :: Encodable(f, v)
  }

  lemma {:induction false} EncPackedSplit(f: Field, vs: seq<Value>, i: nat)
    requires i < |vs|
    ensures EncPacked(f, vs[i..]) == EncValue(f, vs[i]) + EncPacked(f, vs[i + 1..])
    ensures AllEncodable(f, vs[i..]) <==> Encodable(f, vs[i]) && AllEncodable(f, vs[i + 1..])
  {
    assert vs[i..][1..] == vs[i + 1..];
    assert vs[i..] == [vs[i]] + vs[i + 1..];
  }

  lemma {:induction false} EncUnpackedSplit(f: Field, vs: seq<Value>, i: nat)
    requires i < |vs|
    ensures EncUnpacked(f, vs[i..]) == EncTagged(f, vs[i]) + EncUnpacked(f, vs[i + 1..])
    ensures AllEncodable(f, vs[i..]) <==> Encodable(f, vs[i]) && AllEncodable(f, vs[i + 1..])
  {
    assert vs[i..][1..] == vs[i + 1..];
    assert vs[i..] == [vs[i]] + vs[i + 1..];
  }

  lemma {:induction false} PackedFixedSize(f: Field, vs: seq<Value>)
    requires f.kind.Fixed32? || f.kind.Fixed64?
    requires forall v | v in vs :: TypedValue(f, v)
    ensures |EncPacked(f, vs)| == (if f.kind.Fixed32? then 4 else 8) * |vs|
    ensures AllEncodable(f, vs)
  {
    if vs != [] {
      assert vs[0] in vs;
      PackedFixedSize(f, vs[1..]);
    }
  }

  /** The loop over the entries of a packed array, on the sizing stream and on the real one. */
  method EncPackedEntries(stream: OStream, f: Field, vs: seq<Value>) returns (err: Error)
    requires stream.Valid() && WellFormedField(f) && Packable(f.kind)
    requires (forall v | v in vs :: TypedValue(f, v)) && |EncPacked(f, vs)| < TWO32
    modifies stream, stream.buf
    ensures stream.Valid() && err != SubmsgSizeChanged && old(stream.out) <= stream.out
    ensures err == NoError <==> AllEncodable(f, vs) && old(stream.Room(EncPacked(f, vs)))
    ensures err == NoError ==> stream.out == old(stream.out) + EncPacked(f, vs)
    decreases f, 4
  {
    ghost var done: seq<byte> := [];
    err := NoError;
    for i := 0 to |vs|
      invariant stream.Valid() && stream.out == old(stream.out) + done
      invariant stream.sizing || |stream.out| <= stream.maxSize
      invariant err == NoError && EncPacked(f, vs) == done + EncPacked(f, vs[i..])
      invariant AllEncodable(f, vs) <==> AllEncodable(f, vs[i..])
    {
      EncPackedSplit(f, vs, i);
      err := EncFieldValue(stream, f, vs[i]);
      if err != NoError {
        return;
      }
      Assoc(old(stream.out), done, EncValue(f, vs[i]));
      Assoc(done, EncValue(f, vs[i]), EncPacked(f, vs[i + 1..]));
      done := done + EncValue(f, vs[i]);
    }
  }

  method EncUnpackedEntries(stream: OStream, f: Field, vs: seq<Value>) returns (err: Error)
    requires stream.Valid() && WellFormedField(f)
    requires (forall v | v in vs :: TypedValue(f, v)) && |EncUnpacked(f, vs)| < TWO32
    modifies stream, stream.buf
    ensures stream.Valid() && err != SubmsgSizeChanged && old(stream.out) <= stream.out
    ensures err == NoError <==> AllEncodable(f, vs) && old(stream.Room(EncUnpacked(f, vs)))
    ensures err == NoError ==> stream.out == old(stream.out) + EncUnpacked(f, vs)
    decreases f, 4
  {
    ghost var done: seq<byte> := [];
    err := NoError;
    for i := 0 to |vs|
      invariant stream.Valid() && stream.out == old(stream.out) + done
      invariant stream.sizing || |stream.out| <= stream.maxSize
      invariant err == NoError && EncUnpacked(f, vs) == done + EncUnpacked(f, vs[i..])
      invariant AllEncodable(f, vs) <==> AllEncodable(f, vs[i..])
    {
      EncUnpackedSplit(f, vs, i);
      err := EncTaggedValue(stream, f, vs[i]);
      if err != NoError {
        return;
      }
      Assoc(old(stream.out), done, EncTagged(f, vs[i]));
      Assoc(done, EncTagged(f, vs[i]), EncUnpacked(f, vs[i + 1..]));
      done := done + EncTagged(f, vs[i]);
    }
  }

  /** Length and entries of a packed array; fixed-width sizes are computed, others measured. */
  method EncPackedBody(stream: OStream, f: Field, vs: seq<Value>) returns (err: Error)
    requires stream.Valid() && WellFormedField(f) && Packable(f.kind)
    requires (forall v | v in vs :: TypedValue(f, v)) && |WithLength(EncPacked(f, vs))| < TWO32
    modifies stream, stream.buf
    ensures stream.Valid() && err != SubmsgSizeChanged && old(stream.out) <= stream.out
    ensures err == NoError <==> AllEncodable(f, vs) && old(stream.Room(WithLength(EncPacked(f, vs))))
    ensures err == NoError ==> stream.out == old(stream.out) + WithLength(EncPacked(f, vs))
    decreases f, 5
  {
    ghost var body := EncPacked(f, vs);
    var size;
    if f.kind.Fixed32? || f.kind.Fixed64? {
      PackedFixedSize(f, vs);
      size := (if f.kind.Fixed32? then 4 else 8) * |vs|;
    } else {
      var sizer := new OStream.Sizing();
      err := EncPackedEntries(sizer, f, vs);
      if err != NoError {
        return;
      }
      size := sizer.bytesWritten;
    }
    err := stream.PutVarint(size);
    if err != NoError {
      return;
    }
    if stream.sizing {
      err := stream.Count(size, body);
    } else {
      err := EncPackedEntries(stream, f, vs);
    }
    Assoc(old(stream.out), EncodeVarint(|body|), body);
  }

  method EncodeArray(stream: OStream, f: Field, vs: seq<Value>) returns (err: Error)
    requires stream.Valid() && WellFormedField(f) && TypedSlot(f, Many(vs)) && |EncSlot(f, Many(vs))| < TWO32
    modifies stream, stream.buf
    ensures stream.Valid() && err != SubmsgSizeChanged && old(stream.out) <= stream.out
    ensures err == NoError <==> EncodableSlot(f, Many(vs)) && old(stream.Room(EncSlot(f, Many(vs))))
    ensures err == NoError ==> stream.out == old(stream.out) + EncSlot(f, Many(vs))
    decreases f, 6
  {
    if |vs| == 0 {
      return NoError;
    }
    if |vs| > f.rule.max {
      return ArraySizeExceeded;
    }
    if Packable(f.kind) {
      err := stream.PutTag(2, f.tag);
      if err == NoError {
        err := EncPackedBody(stream, f, vs);
        Assoc(old(stream.out), EncTag(f.tag, 2), WithLength(EncPacked(f, vs)));
      }
    } else {
      err := EncUnpackedEntries(stream, f, vs);
    }
  }

  // ----- fields and messages -----

  /** `encode_basic_field`. */
  method EncodeField(stream: OStream, f: Field, s: Slot) returns (err: Error)
    requires stream.Valid() && WellFormedField(f) && TypedSlot(f, s) && |EncSlot(f, s)| < TWO32
    modifies stream, stream.buf
    ensures stream.Valid() && err != SubmsgSizeChanged && old(stream.out) <= stream.out
    ensures err == NoError <==> EncodableSlot(f, s) && old(stream.Room(EncSlot(f, s)))
    ensures err == NoError ==> stream.out == old(stream.out) + EncSlot(f, s)
    decreases f, 7
  {
    match s {
      case One(v) =>
        var implicitHas := !f.rule.Singular? || !IsZeroValue(f, v);
        if implicitHas {
          err := EncTaggedValue(stream, f, v);
        } else {
          err := NoError;
        }
      case Opt(o) =>
        if o.Some? {
          err := EncTaggedValue(stream, f, o.value);
        } else {
          err := NoError;
        }
      case Many(vs) =>
        err := EncodeArray(stream, f, vs);
    }
  }

  lemma {:induction false} EncUpToGrows(fields: seq<Field>, slots: seq<Slot>, j: nat, k: nat)
    requires j <= k <= |fields| == |slots|
    ensures |EncUpTo(fields, slots, j)| <= |EncUpTo(fields, slots, k)|
    ensures j < k ==> |EncSlot(fields[j], slots[j])| <= |EncUpTo(fields, slots, k)|
    decreases k
  {
    if j < k { EncUpToGrows(fields, slots, j, k - 1); }
  }

  ghost predicate EncodableUpTo(fields: seq<Field>, slots: seq<Slot>, k: nat)
    requires k <= |fields| == |slots|
  {
    forall i | 0 <= i < k :: EncodableSlot(fields[i], slots[i])
  }

  method EncodeFieldAt(stream: OStream, fields: seq<Field>, slots: seq<Slot>, i: nat, ghost start: seq<byte>)
    returns (err: Error)
    requires stream.Valid() && WellFormed(fields) && TypedSlots(fields, slots) && i < |fields|
    requires |EncMsg(fields, slots)| < TWO32 && stream.out == start + EncUpTo(fields, slots, i)
    modifies stream, stream.buf
    ensures stream.Valid() && err != SubmsgSizeChanged && start <= stream.out
    ensures err == NoError <==>
      EncodableSlot(fields[i], slots[i])
      && (stream.sizing || |start| + |EncUpTo(fields, slots, i + 1)| <= stream.maxSize)
    ensures err == NoError ==> stream.out == start + EncUpTo(fields, slots, i + 1) && InRoom(stream, stream.out)
    decreases fields, 7
  {
    assert WellFormedField(fields[i]) && TypedSlot(fields[i], slots[i]);
    EncUpToGrows(fields, slots, i, |fields|);
    err := EncodeField(stream, fields[i], slots[i]);
    Assoc(start, EncUpTo(fields, slots, i), EncSlot(fields[i], slots[i]));
  }

  /** `pb_encode`, walking the table with the iterator. */
  method EncodeMessage(stream: OStream, fields: seq<Field>, slots: seq<Slot>) returns (err: Error)
    requires stream.Valid() && WellFormed(fields) && TypedSlots(fields, slots)
    requires |EncMsg(fields, slots)| < TWO32
    modifies stream, stream.buf
    ensures stream.Valid() && err != SubmsgSizeChanged && old(stream.out) <= stream.out
    ensures err == NoError <==> EncodableSlots(fields, slots) && old(stream.Room(EncMsg(fields, slots)))
    ensures err == NoError ==> stream.out == old(stream.out) + EncMsg(fields, slots)
    decreases fields, 9, 0
  {
    WellFormedTags(fields);
    assert |slots| == |fields| && InRoom(stream, stream.out);
    hide WellFormed, WellFormedField, TypedSlots, EncSlot, EncUpTo, EncMsg, EncodableSlot, EncodableSlots,
      EncodableUpTo;
    hide DataAt, SizeAt, RequiredBefore, OStream.Valid;
    ghost var start := stream.out;
    var iter := new FieldIter(fields, 0);
    var more := iter.Begin();
    err := NoError;
    ghost var k := 0;
    NothingEncoded(fields, slots);
    while more
      invariant k <= |fields| && more == (k < |fields|) && (more ==> iter.pos == k)
      invariant iter.Valid() && fresh(iter) && iter.start == fields
      invariant stream.Valid() && stream.out == start + EncUpTo(fields, slots, k) && InRoom(stream, stream.out)
      invariant err == NoError && EncodableUpTo(fields, slots, k)
      decreases |fields| - k
    {
      err := EncodeFieldAt(stream, fields, slots, iter.pos, start);
      EncodedSoFar(fields, slots, k);
      if err != NoError {
        return;
      }
      k := k + 1;
      more := iter.Next();
    }
    AllEncoded(fields, slots);
  }

  /** What a stream put out never exceeds its room. */
  ghost predicate InRoom(stream: OStream, out: seq<byte>) {
    stream.sizing || |out| <= stream.maxSize
  }

  lemma NothingEncoded(fields: seq<Field>, slots: seq<Slot>)
    requires |slots| == |fields|
    ensures EncUpTo(fields, slots, 0) == [] && EncodableUpTo(fields, slots, 0)
  {
  }

  /** One field more: if it is not encodable the message is not, and if it does not fit the message does not. */
  lemma EncodedSoFar(fields: seq<Field>, slots: seq<Slot>, k: nat)
    requires k < |fields| == |slots| && EncodableUpTo(fields, slots, k)
    ensures EncodableSlot(fields[k], slots[k]) ==> EncodableUpTo(fields, slots, k + 1)
    ensures !EncodableSlot(fields[k], slots[k]) ==> !EncodableSlots(fields, slots)
    ensures |EncUpTo(fields, slots, k + 1)| <= |EncMsg(fields, slots)|
  {
    hide EncodableSlot;
    EncUpToGrows(fields, slots, k + 1, |fields|);
  }

  lemma AllEncoded(fields: seq<Field>, slots: seq<Slot>)
    requires |slots| == |fields| && EncodableUpTo(fields, slots, |fields|)
    ensures EncodableSlots(fields, slots) && EncUpTo(fields, slots, |fields|) == EncMsg(fields, slots)
  {
    hide EncodableSlot;
  }

  /** `pb_get_encoded_size`. */
  method GetEncodedSize(fields: seq<Field>, slots: seq<Slot>) returns (ok: bool, size: nat)
    requires WellFormed(fields) && TypedSlots(fields, slots) && |EncMsg(fields, slots)| < TWO32
    ensures ok <==> EncodableSlots(fields, slots)
    ensures ok ==> size == |EncMsg(fields, slots)|
  {
    var stream := new OStream.Sizing();
    var err := EncodeMessage(stream, fields, slots);
    return err == NoError, stream.bytesWritten;
  }

  lemma OverwriteFront(m: seq<byte>, b: seq<byte>)
    requires |b| <= |m|
    ensures Overwrite(m, 0, b)[..|b|] == b && Overwrite(m, 0, b)[|b|..] == m[|b|..]
  {
  }

  /** Two-pass agreement: a message that sizes to n bytes is written exactly where n bytes of room are left. */
  method EncodeToBuffer(buf: array<byte>, fields: seq<Field>, slots: seq<Slot>) returns (ok: bool, written: nat)
    requires WellFormed(fields) && TypedSlots(fields, slots) && |EncMsg(fields, slots)| < TWO32
    modifies buf
    ensures ok <==> EncodableSlots(fields, slots) && |EncMsg(fields, slots)| <= buf.Length
    ensures ok ==> written == |EncMsg(fields, slots)| && buf[..written] == EncMsg(fields, slots)
    ensures ok ==> buf[written..] == old(buf[written..])
  {
    var stream := new OStream.Into(buf, 0, buf.Length);
    ghost var before := buf[..];
    var err := EncodeMessage(stream, fields, slots);
    ok, written := err == NoError, stream.bytesWritten;
    if ok {
      var b := EncMsg(fields, slots);
      assert stream.out == b by { assert [] + b == b; }
      OverwriteFront(before, b);
    }
  }

  /** Encode, then decode what was written: the message comes back unless an array or string does not fit. */
  method EncodeThenDecode(buf: array<byte>, fields: seq<Field>, slots: seq<Slot>)
    returns (encoded: bool, decoded: bool, result: seq<Slot>)
    requires WellFormed(fields) && TypedSlots(fields, slots) && |EncMsg(fields, slots)| < TWO32
    modifies buf
    ensures encoded <==> EncodableSlots(fields, slots) && |EncMsg(fields, slots)| <= buf.Length
    ensures encoded ==> (decoded <==> FitsSlots(fields, Defaults(fields), slots))
    ensures encoded && decoded ==> result == slots
  {
    var written;
    decoded, result := false, slots;
    encoded, written := EncodeToBuffer(buf, fields, slots);
    if encoded {
      var stream := new PbIStream.IStream(buf[..], 0, written);
      RoundTrip(fields, slots);
      assert stream.Contents() == buf[..written];
      decoded, result := PbDecoder.DecodeStream(stream, fields);
    }
  }
}
