/** What the decoder can produce: messages of the table's types, which the encoder takes and which stay the same. */
module PbSound {
  import opened Bytes
  import opened PbVarint
  import opened PbFields
  import opened PbMessage
  import opened PbDecode
  import PbRoundTrip

  /** Sizes a C structure can have: integer types, the header of a bytes array, the NUL of a string. */
  predicate Sized(f: Field)
    decreases f
  {
    match f.kind
    case Varint | UVarint | SVarint => IntegerSize(f.dataSize)
    case Bytes => BYTES_HEADER <= f.dataSize
    case Str => 0 < f.dataSize
    case Sub(fs) => AllSized(fs)
    case _ => true
  }

  predicate AllSized(fields: seq<Field>)
    decreases fields
  {
    forall f | f in fields :: Sized(f)
  }

  /** A value of its field's type; if the sizes are legal, also one that is encoded and fits when decoded. */
  predicate GoodValue(f: Field, v: Value, sized: bool) {
    TypedValue(f, v) && (sized ==> Encodable(f, v) && FitsValue(f, DefaultValue(f), v))
  }

  predicate GoodSlot(f: Field, s: Slot, sized: bool) {
    TypedSlot(f, s) && (sized ==> EncodableSlot(f, s) && FitsSlot(f, DefaultSlot(f), s))
  }

  predicate GoodSlots(fields: seq<Field>, slots: seq<Slot>, sized: bool) {
    && |slots| == |fields|
    && (forall i | 0 <= i < |fields| :: GoodSlot(fields[i], slots[i], sized))
    && AtMostOnePerUnion(fields, slots)
  }

  /** A submessage is a good value when its slots are. */
  lemma GoodMessage(f: Field, m: seq<Slot>, sized: bool)
    requires f.kind.Sub?
    ensures GoodValue(f, Msg(m), sized) <==> GoodSlots(f.kind.fields, m, sized)
  {
    var fs := f.kind.fields;
    if |m| == |fs| {
      MessageParts(f, m);
      if GoodSlots(fs, m, sized) {
        forall i | 0 <= i < |fs|
          ensures TypedSlot(fs[i], m[i])
          ensures sized ==> EncodableSlot(fs[i], m[i]) && FitsSlot(fs[i], DefaultSlot(fs[i]), m[i])
        {
          assert GoodSlot(fs[i], m[i], sized);
        }
      }
      if GoodValue(f, Msg(m), sized) {
        forall i | 0 <= i < |fs| ensures GoodSlot(fs[i], m[i], sized) { }
      }
    } else {
      assert !TypedValue(f, Msg(m));
    }
  }

  lemma MessageParts(f: Field, m: seq<Slot>)
    requires f.kind.Sub? && |m| == |f.kind.fields|
    ensures var fs := f.kind.fields;
            && (TypedValue(f, Msg(m))
                <==> AtMostOnePerUnion(fs, m) && forall i | 0 <= i < |fs| :: TypedSlot(fs[i], m[i]))
            && (Encodable(f, Msg(m)) <==> forall i | 0 <= i < |fs| :: EncodableSlot(fs[i], m[i]))
            && (FitsValue(f, DefaultValue(f), Msg(m))
                <==> forall i | 0 <= i < |fs| :: FitsSlot(fs[i], DefaultSlot(fs[i]), m[i]))
  {
    hide TypedSlot, EncodableSlot, FitsSlot, AtMostOnePerUnion;
    var fs := f.kind.fields;
    assert forall i | 0 <= i < |fs| :: Defaults(fs)[i] == DefaultSlot(fs[i]);
    if forall i | 0 <= i < |fs| :: FitsSlot(fs[i], DefaultSlot(fs[i]), m[i]) {
      assert forall i | 0 <= i < |fs| :: FitsSlot(fs[i], Defaults(fs)[i], m[i]);
    }
    if FitsValue(f, DefaultValue(f), Msg(m)) {
      forall i | 0 <= i < |fs| ensures FitsSlot(fs[i], DefaultSlot(fs[i]), m[i]) {
        assert FitsSlot(fs[i], Defaults(fs)[i], m[i]);
      }
    }
  }

  lemma {:induction false} DefaultGood(f: Field, sized: bool)
    requires WellFormedField(f) && (sized ==> Sized(f))
    ensures GoodValue(f, DefaultValue(f), sized) && GoodSlot(f, DefaultSlot(f), sized)
    decreases f
  {
    if f.kind.Sub? {
      var fs := f.kind.fields;
      DefaultsGood(fs, sized);
      GoodMessage(f, Defaults(fs), sized);
    }
  }

  lemma {:induction false} DefaultsGood(fields: seq<Field>, sized: bool)
    requires WellFormed(fields) && (sized ==> AllSized(fields))
    ensures GoodSlots(fields, Defaults(fields), sized)
    decreases fields
  {
    hide WellFormedField, GoodSlot;
    forall i | 0 <= i < |fields| ensures GoodSlot(fields[i], Defaults(fields)[i], sized) {
      DefaultGood(fields[i], sized);
    }
  }

  lemma {:induction false} FromLittleEndianBound(b: seq<byte>)
    ensures FromLittleEndian(b) < Pow2(8 * |b|)
  {
    if b != [] {
      FromLittleEndianBound(b[1..]);
      Pow2Add(8 * |b| - 8, 8);
      Pow2Constants();
    }
  }

  lemma NumberGood(f: Field, s: seq<byte>, cur: Value, sized: bool)
    requires Packable(f.kind) && DecodeValue(f, s, cur).Ok?
    ensures GoodValue(f, DecodeValue(f, s, cur).value, sized)
  {
    hide FromLittleEndian, DecodeVarint, TakeDelimited, Pow2;
    Pow2Constants();
    if f.kind.Fixed32? {
      FromLittleEndianBound(s[..4]);
    } else if f.kind.Fixed64? {
      FromLittleEndianBound(s[..8]);
    }
  }

  lemma BlobGood(f: Field, body: seq<byte>, sized: bool)
    requires f.dataSize <= PB_SIZE_MAX && (f.kind.Bytes? || f.kind.Str? || f.kind.FixedBytes?)
    requires AcceptBlob(f, body).Some?
    ensures GoodValue(f, Blob(AcceptBlob(f, body).value), sized)
  {
  }

  /** What a field decoder stores; a submessage is decoded over the one in place. */
  lemma {:induction false} ValueGood(f: Field, s: seq<byte>, cur: Value, sized: bool)
    requires WellFormedField(f) && (sized ==> Sized(f)) && GoodValue(f, cur, sized)
    requires DecodeValue(f, s, cur).Ok?
    ensures GoodValue(f, DecodeValue(f, s, cur).value, sized)
    decreases f, 0, 0
  {
    if Packable(f.kind) {
      NumberGood(f, s, cur, sized);
    } else if f.kind.Sub? {
      var fs, body := f.kind.fields, TakeDelimited(s).value;
      GoodMessage(f, cur.slots, sized);
      LoopGood(fs, body, cur.slots, {}, sized);
      GoodMessage(f, DecodeLoop(fs, body, cur.slots, {}).value.0, sized);
    } else {
      BlobGood(f, TakeDelimited(s).value, sized);
    }
  }

  lemma ValueAppended(f: Field, vs: seq<Value>, v: Value, sized: bool)
    requires f.rule.Repeated? && GoodSlot(f, Many(vs), sized) && GoodValue(f, v, sized) && |vs| < f.rule.max
    ensures GoodSlot(f, Many(vs + [v]), sized)
  {
    hide TypedValue, Encodable, FitsValue;
  }

  lemma {:induction false} PackedGood(f: Field, body: seq<byte>, vs: seq<Value>, sized: bool)
    requires f.rule.Repeated? && Packable(f.kind) && GoodSlot(f, Many(vs), sized)
    requires DecodePacked(f, body, vs, f.rule.max).Some?
    ensures GoodSlot(f, Many(DecodePacked(f, body, vs, f.rule.max).value), sized)
    decreases |body|
  {
    hide GoodValue, GoodSlot, DecodeValue;
    if body != [] {
      var r := DecodeValue(f, body, DefaultValue(f));
      NumberGood(f, body, DefaultValue(f), sized);
      ValueAppended(f, vs, r.value, sized);
      PackedGood(f, r.rest, vs + [r.value], sized);
    }
  }

  /** The value a field decoder starts from. */
  lemma InPlaceGood(f: Field, s: Slot, sized: bool)
    requires WellFormedField(f) && (sized ==> Sized(f)) && GoodSlot(f, s, sized) && !f.rule.Repeated?
    requires f.rule.Singular? ==> GoodValue(f, OrDefault(f, s), sized)
    ensures GoodValue(f, OrDefault(f, s), sized)
  {
    DefaultGood(f, sized);
  }

  /** A singular zero is the default, so it is good although it is not encoded. */
  lemma ZeroGood(f: Field, v: Value, sized: bool)
    requires WellFormedField(f) && (sized ==> Sized(f)) && TypedValue(f, v) && IsZeroValue(f, v)
    ensures GoodValue(f, v, sized)
  {
    PbRoundTrip.ZeroIsDefault(f, v);
    DefaultGood(f, sized);
  }

  lemma SingleGood(f: Field, v: Value, sized: bool)
    requires GoodValue(f, v, sized)
    ensures f.rule.Required? || f.rule.Singular? ==> GoodSlot(f, One(v), sized)
    ensures f.rule.Optional? || f.rule.OneOf? ==> GoodSlot(f, Opt(Some(v)), sized)
  {
    hide TypedValue, Encodable, FitsValue;
  }

  lemma {:induction false} SlotGood(f: Field, wire: nat, s: seq<byte>, cur: Slot, sized: bool)
    requires WellFormedField(f) && (sized ==> Sized(f)) && GoodSlot(f, cur, sized)
    requires DecodeSlot(f, wire, s, cur).Ok?
    ensures GoodSlot(f, DecodeSlot(f, wire, s, cur).value, sized)
    decreases f, 1, 0
  {
    DefaultGood(f, sized);
    if f.rule.Singular? && IsZeroValue(f, cur.v) { ZeroGood(f, cur.v, sized); }
    if f.rule.Repeated? {
      if wire == 2 && Packable(f.kind) {
        PackedGood(f, TakeDelimited(s).value, cur.vs, sized);
      } else {
        ValueGood(f, s, DefaultValue(f), sized);
        ValueAppended(f, cur.vs, DecodeValue(f, s, DefaultValue(f)).value, sized);
      }
    } else {
      var from := if f.rule.OneOf? then DefaultValue(f) else OrDefault(f, cur);
      InPlaceGood(f, cur, sized);
      ValueGood(f, s, from, sized);
      SingleGood(f, DecodeValue(f, s, from).value, sized);
    }
  }

  lemma StoreGood(fields: seq<Field>, slots: seq<Slot>, i: nat, s: Slot, sized: bool)
    requires i < |fields| && GoodSlots(fields, slots, sized) && GoodSlot(fields[i], s, sized)
    ensures GoodSlots(fields, Store(fields, slots, i, s), sized)
  {
    var stored := Store(fields, slots, i, s);
    forall j | 0 <= j < |fields| ensures GoodSlot(fields[j], stored[j], sized) {
      assert GoodSlot(fields[j], slots[j], sized);
    }
    hide GoodSlot;
    forall j, k | 0 <= j < k < |fields| && SameUnion(fields, j, k) ensures !IsSet(stored[j]) || !IsSet(stored[k]) {
      if fields[i].rule.OneOf? && j != i && k != i && !SameUnion(fields, i, j) {
        assert stored[j] == slots[j] && stored[k] == slots[k];
      }
    }
  }

  lemma {:induction false} LoopGood(fields: seq<Field>, s: seq<byte>, slots: seq<Slot>, seen: set<nat>, sized: bool)
    requires WellFormed(fields) && (sized ==> AllSized(fields)) && GoodSlots(fields, slots, sized)
    requires DecodeLoop(fields, s, slots, seen).Some?
    ensures GoodSlots(fields, DecodeLoop(fields, s, slots, seen).value.0, sized)
    decreases fields, 0, |s|
  {
    if s != [] {
      match DecodeStep(fields, s, slots, seen)
      case Stop =>
      case Next(rest, slots', seen') =>
        StepGood(fields, s, slots, seen, sized);
        hide DecodeStep, GoodSlots;
        LoopGood(fields, rest, slots', seen', sized);
    }
  }

  lemma {:induction false} StepGood(fields: seq<Field>, s: seq<byte>, slots: seq<Slot>, seen: set<nat>, sized: bool)
    requires WellFormed(fields) && (sized ==> AllSized(fields)) && GoodSlots(fields, slots, sized)
    requires s != [] && DecodeStep(fields, s, slots, seen).Next?
    ensures GoodSlots(fields, DecodeStep(fields, s, slots, seen).slots, sized)
    decreases fields, 0, |s|, 0
  {
    var t := DecodeTag(s);
    match FindFrom(fields, t.tag, 0)
    case None =>
    case Some(i) =>
      assert WellFormedField(fields[i]);
      hide GoodSlot, DecodeSlot, WellFormedField;
      SlotGood(fields[i], t.wire, t.rest, slots[i], sized);
      StoreGood(fields, slots, i, DecodeSlot(fields[i], t.wire, t.rest, slots[i]).value, sized);
  }

  /** Every accepted message has the types of its table. */
  lemma DecodedIsTyped(fields: seq<Field>, s: seq<byte>)
    requires WellFormed(fields) && Decode(fields, s).Some?
    ensures TypedSlots(fields, Decode(fields, s).value)
  {
    DefaultsGood(fields, false);
    LoopGood(fields, s, Defaults(fields), {}, false);
    var m := Decode(fields, s).value;
    assert forall i | 0 <= i < |fields| :: GoodSlot(fields[i], m[i], false);
  }

  /**
   * Normal form: with legal sizes, whatever was accepted can be encoded, and decoding that
   * encoding gives the same message again, however the bytes first received were written.
   */
  lemma NormalForm(fields: seq<Field>, s: seq<byte>)
    requires WellFormed(fields) && AllSized(fields) && Decode(fields, s).Some?
    ensures var m := Decode(fields, s).value;
            TypedSlots(fields, m) && EncodableSlots(fields, m) && FitsSlots(fields, Defaults(fields), m)
            && (|EncMsg(fields, m)| < TWO32 ==> Decode(fields, EncMsg(fields, m)) == Some(m))
  {
    var m := Decode(fields, s).value;
    DecodedIsTyped(fields, s);
    DefaultsGood(fields, true);
    LoopGood(fields, s, Defaults(fields), {}, true);
    assert forall i | 0 <= i < |fields| :: GoodSlot(fields[i], m[i], true);
    hide Decode, TypedSlot, EncodableSlot, FitsSlot;
    if |EncMsg(fields, m)| < TWO32 { PbRoundTrip.RoundTrip(fields, m); }
  }
}
