/** Decoding what the encoder wrote: merge semantics and, from the defaults, the round trip. */
module PbRoundTrip {
  import opened Bytes
  import opened PbVarint
  import opened PbFields
  import opened PbMessage
  import opened PbDecode

  // ----- leaves -----

  lemma TakePrefix(b: seq<byte>, y: seq<byte>)
    ensures Take(b + y, |b|) == Ok(b, y)
  {
    assert (b + y)[..|b|] == b && (b + y)[|b|..] == y;
  }

  lemma TakeDelimitedPrefix(b: seq<byte>, y: seq<byte>)
    requires |b| < TWO32
    ensures TakeDelimited(WithLength(b) + y) == Ok(b, y)
  {
    Assoc(EncodeVarint(|b|), b, y);
    DecodeEncodeVarint32(|b|, b + y);
    TakePrefix(b, y);
  }

  lemma DecodeEncTag(tag: nat, wire: nat, y: seq<byte>)
    requires 0 < tag <= PB_SIZE_MAX && wire < 8
    ensures DecodeTag(EncTag(tag, wire) + y) == TagRead(tag, wire, y)
  {
    DecodeEncodeVarint32(tag * 8 + wire, y);
  }

  lemma {:induction false} CStringOfNulFree(b: seq<byte>)
    requires 0 !in b
    ensures CString(b) == b
  {
    if b != [] { CStringOfNulFree(b[1..]); }
  }

  /** The 64-bit word an integer field is sent as, and its way back through the overflow checks. */
  lemma NarrowVarint(f: Field, n: int)
    requires IntegerSize(f.dataSize) && TypedValue(f, Num(n))
    requires f.kind.Varint? || f.kind.UVarint?
    ensures Narrow(f, n % TWO64) == Some(n)
  {
    if n < 0 { assert n % TWO64 == n + TWO64; }
    if f.kind.Varint? {
      if f.dataSize == 8 {
        assert Signed(n % TWO64, TWO63) == n;
      } else {
        assert Signed(n % TWO64, 0x8000_0000) == n by {
          assert n % TWO64 % TWO32 == if n < 0 then n + TWO32 else n;
        }
      }
    }
  }

  lemma NarrowZigZag(f: Field, n: int)
    requires IntegerSize(f.dataSize) && TypedValue(f, Num(n)) && f.kind.SVarint?
    ensures Narrow(f, ZigZag(n) % TWO64) == Some(n)
  {
    ZigZagBijection(n, 0);
    assert ZigZag(n) < TWO64;
    assert ZigZag(n) % TWO64 == ZigZag(n);
  }

  lemma AbsorbInteger(f: Field, n: int, a: Value, y: seq<byte>)
    requires f.kind.Varint? || f.kind.UVarint? || f.kind.SVarint?
    requires IntegerSize(f.dataSize) && TypedValue(f, Num(n))
    ensures DecodeValue(f, EncValue(f, Num(n)) + y, a) == Ok(Num(n), y)
  {
    if f.kind.SVarint? {
      NarrowZigZag(f, n);
      DecodeEncodeVarint(ZigZag(n) % TWO64, y);
    } else {
      NarrowVarint(f, n);
      DecodeEncodeVarint(n % TWO64, y);
    }
  }

  lemma Fixed32RoundTrip(n: nat)
    requires n < TWO32
    ensures FromLittleEndian(LittleEndian(n % TWO32, 4)) == n
  {
    hide LittleEndian, FromLittleEndian, Pow2;
    Pow2Constants();
    LittleEndianRoundTrip(n, 4);
  }

  lemma Fixed64RoundTrip(n: nat)
    requires n < TWO64
    ensures FromLittleEndian(LittleEndian(n % TWO64, 8)) == n
  {
    hide LittleEndian, FromLittleEndian, Pow2;
    Pow2Constants();
    LittleEndianRoundTrip(n, 8);
  }

  lemma AbsorbFixed(f: Field, n: int, a: Value, y: seq<byte>)
    requires (f.kind.Fixed32? || f.kind.Fixed64?) && TypedValue(f, Num(n))
    ensures DecodeValue(f, EncValue(f, Num(n)) + y, a) == Ok(Num(n), y)
  {
    hide LittleEndian, FromLittleEndian, DecodeVarint, TakeDelimited;
    if f.kind.Fixed32? {
      Fixed32RoundTrip(n);
      TakePrefix(LittleEndian(n % TWO32, 4), y);
    } else {
      Fixed64RoundTrip(n);
      TakePrefix(LittleEndian(n % TWO64, 8), y);
    }
  }

  lemma AbsorbBlob(f: Field, b: seq<byte>, a: Value, y: seq<byte>)
    requires f.kind.Bytes? || f.kind.Str? || f.kind.FixedBytes?
    requires TypedValue(f, Blob(b)) && Encodable(f, Blob(b)) && f.dataSize <= PB_SIZE_MAX
    ensures DecodeValue(f, EncValue(f, Blob(b)) + y, a)
         == if FitsValue(f, a, Blob(b)) then Ok(Blob(b), y) else Fail
  {
    TakeDelimitedPrefix(b, y);
    if f.kind.Str? { CStringOfNulFree(b); }
    if f.kind.FixedBytes? && b == [] { assert Zeros(0) == b; }
  }

  // ----- merging into defaults -----

  lemma {:induction false} DefaultTyped(f: Field)
    requires WellFormedField(f)
    ensures TypedValue(f, DefaultValue(f))
    decreases f
  {
    if f.kind.Sub? { DefaultsTyped(f.kind.fields); }
  }

  lemma {:induction false} DefaultsTyped(fields: seq<Field>)
    requires WellFormed(fields)
    ensures TypedSlots(fields, Defaults(fields))
    decreases fields
  {
    forall i | 0 <= i < |fields|
      ensures TypedSlot(fields[i], Defaults(fields)[i])
    {
      DefaultTyped(fields[i]);
    }
  }

  lemma {:induction false} ZeroIsDefault(f: Field, v: Value)
    requires TypedValue(f, v) && IsZeroValue(f, v)
    ensures v == DefaultValue(f)
    decreases f, 0
  {
    match f.kind
    case Sub(fs) =>
      forall i | 0 <= i < |fs|
        ensures v.slots[i] == Defaults(fs)[i]
      {
        assert TypedSlot(fs[i], v.slots[i]) && IsZeroSlot(fs[i], v.slots[i]);
        if fs[i].rule.Singular? { ZeroIsDefault(fs[i], v.slots[i].v); }
      }
      assert v.slots == Defaults(fs);
    case FixedBytes => assert v.b == Zeros(0);
    case _ =>
  }

  lemma {:induction false} MergeIntoDefault(f: Field, b: Value)
    requires TypedValue(f, b)
    ensures MergeValue(f, DefaultValue(f), b) == b
    decreases f, 0
  {
    if f.kind.Sub? {
      var fs := f.kind.fields;
      MergeIntoDefaults(fs, b.slots, |fs|);
    }
  }

  /** The first `k` fields come from `b`, the others still hold their defaults. */
  ghost predicate Reached(fields: seq<Field>, m: seq<Slot>, b: seq<Slot>, k: nat) {
    |m| == |b| == |fields|
    && forall i | 0 <= i < |fields| :: m[i] == if i < k then b[i] else DefaultSlot(fields[i])
  }

  lemma {:induction false} MergeIntoDefaultSlot(fields: seq<Field>, m: seq<Slot>, b: seq<Slot>, i: nat)
    requires i < |fields| && TypedSlots(fields, b) && Reached(fields, m, b, i)
    ensures Reached(fields, MergeSlot(fields, m, i, b[i]), b, i + 1)
    decreases fields, 0
  {
    var f, s := fields[i], b[i];
    assert TypedSlot(f, s) && m[i] == DefaultSlot(f);
    match s
    case One(v) =>
      MergeIntoDefault(f, v);
      if f.rule.Singular? && IsZeroValue(f, v) { ZeroIsDefault(f, v); }
    case Opt(o) =>
      if o.Some? {
        MergeIntoDefault(f, o.value);
        if f.rule.OneOf? { ClearedAlready(fields, m, b, i); }
      }
    case Many(vs) =>
      assert [] + vs == vs;
  }

  /** The other members of the union are unset in `b`, so clearing them changes nothing. */
  lemma ClearedAlready(fields: seq<Field>, m: seq<Slot>, b: seq<Slot>, i: nat)
    requires i < |fields| && TypedSlots(fields, b) && Reached(fields, m, b, i) && IsSet(b[i])
    ensures forall j | 0 <= j < |fields| && j != i :: ClearUnion(fields, m, i)[j] == m[j]
  {
    forall j | 0 <= j < |fields| && j != i && SameUnion(fields, i, j)
      ensures m[j] == Opt(None)
    {
      assert TypedSlot(fields[j], b[j]);
      assert if i < j then SameUnion(fields, i, j) else SameUnion(fields, j, i);
    }
  }

  lemma {:induction false} MergeIntoDefaults(fields: seq<Field>, b: seq<Slot>, k: nat)
    requires k <= |fields| && TypedSlots(fields, b)
    ensures Reached(fields, MergeUpTo(fields, Defaults(fields), b, k), b, k)
    decreases fields, 1, k
  {
    if k > 0 {
      MergeIntoDefaults(fields, b, k - 1);
      MergeIntoDefaultSlot(fields, MergeUpTo(fields, Defaults(fields), b, k - 1), b, k - 1);
    }
  }

  lemma MergeDefaults(fields: seq<Field>, b: seq<Slot>)
    requires TypedSlots(fields, b)
    ensures Merge(fields, Defaults(fields), b) == b
  {
    MergeIntoDefaults(fields, b, |fields|);
  }

  // ----- one decoder step over an encoded field -----

  lemma {:induction false} FindOwnTag(fields: seq<Field>, i: nat, j: nat)
    requires WellFormed(fields) && j <= i < |fields|
    ensures FindFrom(fields, fields[i].tag, j) == Some(i)
    decreases i - j
  {
    assert WellFormedField(fields[i]);
    if j < i { FindOwnTag(fields, i, j + 1); }
  }

  /** The decoder step that stores what the field decoder of field `i` made of its bytes. */
  function StepOf(fields: seq<Field>, slots: seq<Slot>, seen: set<nat>, i: nat, r: Parsed<Slot>): Step
    requires i < |fields| == |slots|
  {
    match r
    case Fail => Error
    case Ok(v, rest) => Next(rest, Store(fields, slots, i, v), seen + {i})
  }

  lemma FieldIsWellFormed(fields: seq<Field>, i: nat)
    requires WellFormed(fields) && i < |fields|
    ensures WellFormedField(fields[i])
  {
  }

  /** A step over bytes that begin with the tag of field `i`. */
  lemma TaggedStep(fields: seq<Field>, i: nat, wire: nat, s: seq<byte>, r: seq<byte>, slots: seq<Slot>, seen: set<nat>)
    requires WellFormed(fields) && i < |fields| == |slots| && DecodeTag(s) == TagRead(fields[i].tag, wire, r)
    ensures s != []
    ensures DecodeStep(fields, s, slots, seen)
         == StepOf(fields, slots, seen, i, DecodeSlot(fields[i], wire, r, slots[i]))
  {
    hide DecodeSlot;
    assert WellFormedField(fields[i]);
    FindOwnTag(fields, i, 0);
  }

  lemma LoopOfStep(fields: seq<Field>, s: seq<byte>, slots: seq<Slot>, seen: set<nat>)
    requires |slots| == |fields| && s != []
    ensures match DecodeStep(fields, s, slots, seen)
            case Stop => true
            case Error => DecodeLoop(fields, s, slots, seen) == None
            case Next(rest, slots', seen') =>
              DecodeLoop(fields, s, slots, seen) == DecodeLoop(fields, rest, slots', seen')
  {
    hide DecodeStep;
  }

  // ----- absorbing encoded values, fields and messages -----

  lemma {:induction false} AbsorbValue(f: Field, a: Value, b: Value, y: seq<byte>)
    requires WellFormedField(f) && TypedValue(f, a) && TypedValue(f, b) && Encodable(f, b)
    requires |EncValue(f, b)| < TWO32
    ensures DecodeValue(f, EncValue(f, b) + y, a)
         == if FitsValue(f, a, b) then Ok(MergeValue(f, a, b), y) else Fail
    decreases f, 0
  {
    match f.kind
    case Varint | UVarint | SVarint => AbsorbInteger(f, b.n, a, y);
    case Fixed32 | Fixed64 => AbsorbFixed(f, b.n, a, y);
    case Bytes | Str | FixedBytes => AbsorbBlob(f, b.b, a, y);
    case Sub(fs) =>
      var body := EncMsg(fs, b.slots);
      TakeDelimitedPrefix(body, y);
      AbsorbMessage(fs, a.slots, b.slots);
  }

  /** Array entries and union members are decoded over fresh defaults. */
  lemma {:induction false} AbsorbFresh(f: Field, b: Value, y: seq<byte>)
    requires WellFormedField(f) && TypedValue(f, b) && Encodable(f, b) && |EncValue(f, b)| < TWO32
    ensures DecodeValue(f, EncValue(f, b) + y, DefaultValue(f))
         == if FitsValue(f, DefaultValue(f), b) then Ok(b, y) else Fail
    decreases f, 1
  {
    DefaultTyped(f);
    AbsorbValue(f, DefaultValue(f), b, y);
    MergeIntoDefault(f, b);
  }

  lemma {:induction false} AbsorbPacked(f: Field, ws: seq<Value>, vs: seq<Value>, max: nat)
    requires WellFormedField(f) && Packable(f.kind)
    requires forall v | v in vs :: TypedValue(f, v) && Encodable(f, v)
    requires |EncPacked(f, vs)| < TWO32
    ensures DecodePacked(f, EncPacked(f, vs), ws, max)
         == if vs == [] || |ws| + |vs| <= max then Some(ws + vs) else None
    decreases f, 2, |vs|
  {
    if vs == [] {
      assert ws + vs == ws;
    } else {
      var rest := EncPacked(f, vs[1..]);
      AbsorbFresh(f, vs[0], rest);
      assert EncValue(f, vs[0]) + rest != [];
      if |ws| < max {
        AbsorbPacked(f, ws + [vs[0]], vs[1..], max);
        assert ws + [vs[0]] + vs[1..] == ws + vs;
      }
    }
  }

  predicate AllFit(f: Field, vs: seq<Value>) {
    forall v | v in vs :: FitsValue(f, DefaultValue(f), v)
  }

  lemma FirstFits(f: Field, vs: seq<Value>)
    requires vs != []
    ensures AllFit(f, vs) <==> FitsValue(f, DefaultValue(f), vs[0]) && AllFit(f, vs[1..])
    ensures |vs| == 1 ==> AllFit(f, vs[1..])
  {
    hide FitsValue;
    assert vs == [vs[0]] + vs[1..];
  }

  lemma {:induction false} AbsorbUnpacked(fields: seq<Field>, i: nat, slots: seq<Slot>, vs: seq<Value>,
                                          y: seq<byte>, seen: set<nat>)
    requires WellFormed(fields) && i < |fields| == |slots|
    requires fields[i].rule.Repeated? && slots[i].Many? && vs != []
    requires forall v | v in vs :: TypedValue(fields[i], v) && Encodable(fields[i], v)
    requires |EncUnpacked(fields[i], vs)| < TWO32
    ensures DecodeLoop(fields, EncUnpacked(fields[i], vs) + y, slots, seen)
         == if |slots[i].vs| + |vs| <= fields[i].rule.max && AllFit(fields[i], vs)
            then DecodeLoop(fields, y, slots[i := Many(slots[i].vs + vs)], seen + {i}) else None
    decreases fields[i], 3, |vs|
  {
    hide DecodeLoop, DecodeStep, FitsValue, TypedValue, Encodable, EncTagged, WellFormed, AllFit;
    var f, ws, v := fields[i], slots[i].vs, vs[0];
    var tail := EncUnpacked(f, vs[1..]) + y;
    Assoc(EncTagged(f, v), EncUnpacked(f, vs[1..]), y);
    EntryStep(fields, i, slots, v, tail, seen);
    LoopOfStep(fields, EncTagged(f, v) + tail, slots, seen);
    FirstFits(f, vs);
    if |vs| == 1 {
      assert vs == [v] && tail == y;
    } else if |ws| < f.rule.max && FitsValue(f, DefaultValue(f), v) {
      var slots' := slots[i := Many(ws + [v])];
      AbsorbUnpacked(fields, i, slots', vs[1..], y, seen + {i});
      assert ws + [v] + vs[1..] == ws + vs;
      assert slots'[i := Many(ws + vs)] == slots[i := Many(ws + vs)];
      assert seen + {i} + {i} == seen + {i};
    }
  }

  /** One entry of an array that is not packed. */
  lemma {:induction false} EntryStep(fields: seq<Field>, i: nat, slots: seq<Slot>, v: Value,
                                     y: seq<byte>, seen: set<nat>)
    requires WellFormed(fields) && i < |fields| == |slots|
    requires fields[i].rule.Repeated? && slots[i].Many?
    requires TypedValue(fields[i], v) && Encodable(fields[i], v) && |EncTagged(fields[i], v)| < TWO32
    ensures EncTagged(fields[i], v) + y != []
    ensures DecodeStep(fields, EncTagged(fields[i], v) + y, slots, seen)
         == if |slots[i].vs| < fields[i].rule.max && FitsValue(fields[i], DefaultValue(fields[i]), v)
            then Next(y, slots[i := Many(slots[i].vs + [v])], seen + {i}) else Error
    decreases fields[i], 2
  {
    hide WellFormed, DecodeStep, DecodeTag, EncTag;
    var f := fields[i];
    FieldIsWellFormed(fields, i);
    Assoc(EncTag(f.tag, WireType(f.kind)), EncValue(f, v), y);
    var wire, rest := WireType(f.kind), EncValue(f, v) + y;
    DecodeEncTag(f.tag, wire, rest);
    TaggedStep(fields, i, wire, EncTag(f.tag, wire) + rest, rest, slots, seen);
    AbsorbFresh(f, v, y);
  }

  ghost function SeenWith(seen: set<nat>, f: Field, b: Slot, i: nat): set<nat> {
    if EncSlot(f, b) == [] then seen else seen + {i}
  }

  lemma {:induction false} AbsorbSlot(fields: seq<Field>, i: nat, slots: seq<Slot>, b: Slot,
                                      y: seq<byte>, seen: set<nat>)
    requires WellFormed(fields) && i < |fields| == |slots|
    requires TypedSlot(fields[i], slots[i]) && TypedSlot(fields[i], b) && EncodableSlot(fields[i], b)
    requires |EncSlot(fields[i], b)| < TWO32
    ensures DecodeLoop(fields, EncSlot(fields[i], b) + y, slots, seen)
         == if FitsSlot(fields[i], slots[i], b)
            then DecodeLoop(fields, y, MergeSlot(fields, slots, i, b), SeenWith(seen, fields[i], b, i)) else None
    decreases fields[i], 4
  {
    var f := fields[i];
    if EncSlot(f, b) == [] {
      assert EncSlot(f, b) + y == y;
      AbsorbNothing(fields, i, slots, b);
    } else if !b.Many? {
      SingleStep(fields, i, slots, b, y, seen);
      LoopOfStep(fields, EncSlot(f, b) + y, slots, seen);
    } else if Packable(f.kind) {
      PackedStep(fields, i, slots, b.vs, y, seen);
      LoopOfStep(fields, EncSlot(f, b) + y, slots, seen);
    } else {
      AbsorbUnpacked(fields, i, slots, b.vs, y, seen);
    }
  }

  lemma {:induction false} PackedStep(fields: seq<Field>, i: nat, slots: seq<Slot>, vs: seq<Value>,
                                      y: seq<byte>, seen: set<nat>)
    requires WellFormed(fields) && i < |fields| == |slots|
    requires fields[i].rule.Repeated? && Packable(fields[i].kind) && slots[i].Many? && vs != []
    requires forall v | v in vs :: TypedValue(fields[i], v) && Encodable(fields[i], v)
    requires |EncSlot(fields[i], Many(vs))| < TWO32
    ensures EncSlot(fields[i], Many(vs)) + y != []
    ensures DecodeStep(fields, EncSlot(fields[i], Many(vs)) + y, slots, seen)
         == if |slots[i].vs| + |vs| <= fields[i].rule.max
            then Next(y, slots[i := Many(slots[i].vs + vs)], seen + {i}) else Error
    decreases fields[i], 3
  {
    hide WellFormed, DecodeStep, DecodeTag, EncTag;
    var f := fields[i];
    FieldIsWellFormed(fields, i);
    var body := EncPacked(f, vs);
    Assoc(EncTag(f.tag, 2), WithLength(body), y);
    var rest := WithLength(body) + y;
    DecodeEncTag(f.tag, 2, rest);
    TaggedStep(fields, i, 2, EncTag(f.tag, 2) + rest, rest, slots, seen);
    TakeDelimitedPrefix(body, y);
    AbsorbPacked(f, slots[i].vs, vs, f.rule.max);
  }

  /** A required, singular, optional or union field that is encoded. */
  lemma {:induction false} SingleStep(fields: seq<Field>, i: nat, slots: seq<Slot>, b: Slot,
                                      y: seq<byte>, seen: set<nat>)
    requires WellFormed(fields) && i < |fields| == |slots| && !b.Many?
    requires TypedSlot(fields[i], slots[i]) && TypedSlot(fields[i], b) && EncodableSlot(fields[i], b)
    requires EncSlot(fields[i], b) != [] && |EncSlot(fields[i], b)| < TWO32
    ensures DecodeStep(fields, EncSlot(fields[i], b) + y, slots, seen)
         == if FitsSlot(fields[i], slots[i], b) then Next(y, MergeSlot(fields, slots, i, b), seen + {i}) else Error
    decreases fields[i], 2
  {
    hide WellFormed, DecodeStep, DecodeTag, EncTag;
    var f := fields[i];
    FieldIsWellFormed(fields, i);
    var v := if b.One? then b.v else b.o.value;
    Assoc(EncTag(f.tag, WireType(f.kind)), EncValue(f, v), y);
    var wire, rest := WireType(f.kind), EncValue(f, v) + y;
    DecodeEncTag(f.tag, wire, rest);
    TaggedStep(fields, i, wire, EncTag(f.tag, wire) + rest, rest, slots, seen);
    if f.rule.OneOf? {
      AbsorbFresh(f, v, y);
    } else {
      DefaultTyped(f);
      AbsorbValue(f, OrDefault(f, slots[i]), v, y);
    }
  }

  /** Entries of an integer array that arrive one by one are taken like a packed array. */
  lemma PackedOrNot(fields: seq<Field>, i: nat, slots: seq<Slot>, vs: seq<Value>, y: seq<byte>, seen: set<nat>)
    requires WellFormed(fields) && i < |fields| == |slots|
    requires fields[i].rule.Repeated? && Packable(fields[i].kind) && slots[i].Many? && vs != []
    requires forall v | v in vs :: TypedValue(fields[i], v) && Encodable(fields[i], v)
    requires |EncUnpacked(fields[i], vs)| < TWO32 && |EncSlot(fields[i], Many(vs))| < TWO32
    ensures DecodeLoop(fields, EncUnpacked(fields[i], vs) + y, slots, seen)
         == DecodeLoop(fields, EncSlot(fields[i], Many(vs)) + y, slots, seen)
  {
    hide DecodeLoop, DecodeStep, TypedValue, Encodable, WellFormed, EncUnpacked, EncSlot, EncTag;
    AbsorbUnpacked(fields, i, slots, vs, y, seen);
    PackedStep(fields, i, slots, vs, y, seen);
    LoopOfStep(fields, EncSlot(fields[i], Many(vs)) + y, slots, seen);
  }

  lemma OnlyEmptyArrayOmitted(f: Field, vs: seq<Value>)
    ensures EncSlot(f, Many(vs)) == [] <==> vs == []
  {
    if vs != [] && !Packable(f.kind) {
      assert EncSlot(f, Many(vs)) == EncTagged(f, vs[0]) + EncUnpacked(f, vs[1..]);
    }
  }

  // ----- what is left out -----

  /** A number that is 0, no bytes, or a submessage of which nothing is put out. */
  predicate Nothing(f: Field, v: Value) {
    match v
    case Num(n) => n == 0
    case Blob(b) => b == []
    case Msg(slots) => f.kind.Sub? && EncMsg(f.kind.fields, slots) == []
  }

  lemma {:induction false} ZeroIsNothing(f: Field, v: Value)
    requires TypedValue(f, v)
    ensures IsZeroValue(f, v) <==> Nothing(f, v)
    decreases f, 0
  {
    hide EncUpTo, EncSlot;
    if f.kind.Sub? {
      var fs := f.kind.fields;
      forall i | 0 <= i < |fs| ensures IsZeroSlot(fs[i], v.slots[i]) <==> EncSlot(fs[i], v.slots[i]) == [] {
        ZeroIsOmitted(fs[i], v.slots[i]);
      }
      NothingUpTo(fs, v.slots, |fs|);
    }
  }

  lemma {:induction false} ZeroIsOmitted(f: Field, s: Slot)
    requires TypedSlot(f, s)
    ensures IsZeroSlot(f, s) <==> EncSlot(f, s) == []
    decreases f, 1
  {
    hide EncValue, EncUnpacked, EncPacked, IsZeroValue;
    match s
    case One(v) => if f.rule.Singular? { ZeroIsNothing(f, v); }
    case Opt(_) =>
    case Many(vs) => OnlyEmptyArrayOmitted(f, vs);
  }

  lemma {:induction false} NothingUpTo(fields: seq<Field>, slots: seq<Slot>, k: nat)
    requires k <= |fields| == |slots|
    ensures EncUpTo(fields, slots, k) == [] <==> forall i | 0 <= i < k :: EncSlot(fields[i], slots[i]) == []
    decreases k
  {
    hide EncSlot;
    if k > 0 { NothingUpTo(fields, slots, k - 1); }
  }

  /** A singular field is left out exactly when it holds nothing, whatever lies nested in it. */
  lemma SingularOmitted(f: Field, v: Value)
    requires f.rule.Singular? && TypedValue(f, v)
    ensures EncSlot(f, One(v)) == [] <==> Nothing(f, v)
  {
    hide Nothing, IsZeroValue, TypedValue;
    ZeroIsOmitted(f, One(v));
    ZeroIsNothing(f, v);
  }

  /** A slot that is not encoded does not change what it is merged into. */
  lemma AbsorbNothing(fields: seq<Field>, i: nat, slots: seq<Slot>, b: Slot)
    requires i < |fields| == |slots|
    requires TypedSlot(fields[i], slots[i]) && TypedSlot(fields[i], b)
    requires EncSlot(fields[i], b) == []
    ensures MergeSlot(fields, slots, i, b) == slots && FitsSlot(fields[i], slots[i], b)
  {
    if b.Many? {
      OnlyEmptyArrayOmitted(fields[i], b.vs);
      assert slots[i].vs + b.vs == slots[i].vs;
      assert slots[i := slots[i]] == slots;
    }
  }

  lemma {:induction false} MergeUntouched(fields: seq<Field>, a: seq<Slot>, b: seq<Slot>, k: nat, i: nat)
    requires k <= i < |fields| == |a| == |b|
    ensures var m := MergeUpTo(fields, a, b, k)[i];
      m == a[i] || (fields[i].rule.OneOf? && m == Opt(None))
    decreases k
  {
    if k > 0 { MergeUntouched(fields, a, b, k - 1, i); }
  }

  /** The positions among the first `k` whose field is encoded at all. */
  ghost function EncodedUpTo(fields: seq<Field>, b: seq<Slot>, k: nat): set<nat>
    requires k <= |fields| == |b|
  {
    set i: nat | i < k && EncSlot(fields[i], b[i]) != []
  }

  ghost predicate FitsUpTo(fields: seq<Field>, a: seq<Slot>, b: seq<Slot>, k: nat)
    requires k <= |fields| == |a| == |b|
  {
    forall i | 0 <= i < k :: FitsSlot(fields[i], a[i], b[i])
  }

  lemma {:induction false} AbsorbFields(fields: seq<Field>, a: seq<Slot>, b: seq<Slot>, k: nat,
                                        y: seq<byte>, seen: set<nat>)
    requires WellFormed(fields) && TypedSlots(fields, a) && TypedSlots(fields, b) && EncodableSlots(fields, b)
    requires k <= |fields| && |EncUpTo(fields, b, k)| < TWO32
    ensures DecodeLoop(fields, EncUpTo(fields, b, k) + y, a, seen)
         == if FitsUpTo(fields, a, b, k)
            then DecodeLoop(fields, y, MergeUpTo(fields, a, b, k), seen + EncodedUpTo(fields, b, k)) else None
    decreases fields, 5, k
  {
    hide DecodeStep, DecodeLoop, EncSlot, FitsSlot, MergeSlot, WellFormed, EncodableSlots, TypedSlot;
    if k == 0 {
      assert EncUpTo(fields, b, 0) + y == y;
      assert seen + EncodedUpTo(fields, b, 0) == seen;
    } else {
      var i := k - 1;
      var here := EncSlot(fields[i], b[i]);
      Assoc(EncUpTo(fields, b, i), here, y);
      AbsorbFields(fields, a, b, i, here + y, seen);
      if FitsUpTo(fields, a, b, i) {
        AbsorbField(fields, a, b, i, y, seen + EncodedUpTo(fields, b, i));
        assert SeenWith(seen + EncodedUpTo(fields, b, i), fields[i], b[i], i) == seen + EncodedUpTo(fields, b, k);
      }
    }
  }

  lemma {:induction false} AbsorbField(fields: seq<Field>, a: seq<Slot>, b: seq<Slot>, i: nat,
                                       y: seq<byte>, seen: set<nat>)
    requires WellFormed(fields) && TypedSlots(fields, a) && TypedSlots(fields, b) && EncodableSlots(fields, b)
    requires i < |fields| && |EncSlot(fields[i], b[i])| < TWO32
    ensures DecodeLoop(fields, EncSlot(fields[i], b[i]) + y, MergeUpTo(fields, a, b, i), seen)
         == if FitsSlot(fields[i], a[i], b[i])
            then DecodeLoop(fields, y, MergeUpTo(fields, a, b, i + 1), SeenWith(seen, fields[i], b[i], i)) else None
    decreases fields, 4
  {
    var m := MergeUpTo(fields, a, b, i);
    MergeUntouched(fields, a, b, i, i);
    assert TypedSlot(fields[i], a[i]) && TypedSlot(fields[i], b[i]);
    AbsorbSlot(fields, i, m, b[i], y, seen);
  }

  /** Decoding the encoding of `b` over `a` is the merge of the two, or fails when it does not fit. */
  lemma {:induction false} AbsorbMessage(fields: seq<Field>, a: seq<Slot>, b: seq<Slot>)
    requires WellFormed(fields) && TypedSlots(fields, a) && TypedSlots(fields, b) && EncodableSlots(fields, b)
    requires |EncMsg(fields, b)| < TWO32
    ensures DecodeNoInit(fields, EncMsg(fields, b), a)
         == if FitsSlots(fields, a, b) then Some(Merge(fields, a, b)) else None
    decreases fields, 6
  {
    var n := |fields|;
    assert EncMsg(fields, b) == EncUpTo(fields, b, n) + [];
    AbsorbFields(fields, a, b, n, [], {});
    AllRequiredEncoded(fields, b, {});
  }

  lemma AllRequiredEncoded(fields: seq<Field>, b: seq<Slot>, seen: set<nat>)
    requires TypedSlots(fields, b)
    ensures RequiredSeen(fields, seen + EncodedUpTo(fields, b, |fields|))
  {
    forall i | 0 <= i < |fields| && fields[i].rule.Required?
      ensures i in EncodedUpTo(fields, b, |fields|)
    {
      assert TypedSlot(fields[i], b[i]);
      assert EncSlot(fields[i], b[i]) == EncTagged(fields[i], b[i].v);
    }
  }

  // ----- main results -----

  /** Round trip: exactly the messages whose arrays and strings fit come back, and unchanged. */
  lemma RoundTrip(fields: seq<Field>, m: seq<Slot>)
    requires WellFormed(fields) && TypedSlots(fields, m) && EncodableSlots(fields, m)
    requires |EncMsg(fields, m)| < TWO32
    ensures Decode(fields, EncMsg(fields, m))
         == if FitsSlots(fields, Defaults(fields), m) then Some(m) else None
  {
    DefaultsTyped(fields);
    AbsorbMessage(fields, Defaults(fields), m);
    MergeDefaults(fields, m);
  }

  lemma FullString(f: Field, text: seq<byte>)
    requires f.rule.Required? && f.kind.Str? && f.dataSize == |text| <= PB_SIZE_MAX && 0 < f.tag <= PB_SIZE_MAX
    requires 0 !in text
    ensures var v := Blob(text);
            WellFormedField(f) && TypedSlot(f, One(v)) && EncodableSlot(f, One(v))
            && !FitsSlot(f, DefaultSlot(f), One(v)) && |EncSlot(f, One(v))| < TWO32
  {
    VarintAtMostTen(f.tag * 8 + 2);
    VarintAtMostTen(|text|);
    hide EncodeVarint;
    assert !FitsValue(f, DefaultValue(f), Blob(text));
    assert EncTagged(f, Blob(text)) == EncTag(f.tag, 2) + WithLength(text);
  }

  lemma SingleFieldText(f: Field, s: Slot)
    ensures EncMsg([f], [s]) == EncSlot(f, s)
  {
    hide EncSlot;
    assert EncUpTo([f], [s], 0) == [];
    assert EncUpTo([f], [s], 1) == EncUpTo([f], [s], 0) + EncSlot(f, s);
  }

  /** A string that fills its array to the last byte is encoded, and refused when decoded. */
  lemma FullStringIsRefused(tag: nat, text: seq<byte>)
    requires 0 < tag <= PB_SIZE_MAX && |text| <= PB_SIZE_MAX && 0 !in text
    ensures var fields := [Field(tag, Required, Str, 0, 0, |text|)];
            var m := [One(Blob(text))];
            WellFormed(fields) && TypedSlots(fields, m) && EncodableSlots(fields, m)
            && |EncMsg(fields, m)| < TWO32 && Decode(fields, EncMsg(fields, m)) == None
  {
    var f := Field(tag, Required, Str, 0, 0, |text|);
    var fields, m := [f], [One(Blob(text))];
    FullString(f, text);
    SingleFieldText(f, m[0]);
    hide EncodableSlot, EncSlot, FitsSlot, TypedSlot, WellFormedField, EncMsg, Decode;
    assert Defaults(fields)[0] == DefaultSlot(f);
    RoundTrip(fields, m);
  }

  /** Two encodings back to back decode to the merge of the messages. */
  lemma ConcatenationMerges(fields: seq<Field>, a: seq<Slot>, b: seq<Slot>)
    requires WellFormed(fields) && TypedSlots(fields, a) && TypedSlots(fields, b)
    requires EncodableSlots(fields, a) && EncodableSlots(fields, b)
    requires |EncMsg(fields, a)| < TWO32 && |EncMsg(fields, b)| < TWO32
    ensures Decode(fields, EncMsg(fields, a) + EncMsg(fields, b))
         == if FitsSlots(fields, Defaults(fields), a) && FitsSlots(fields, a, b)
            then Some(Merge(fields, a, b)) else None
  {
    var n, d := |fields|, Defaults(fields);
    var second := EncMsg(fields, b);
    DefaultsTyped(fields);
    AbsorbFields(fields, d, a, n, second, {});
    MergeDefaults(fields, a);
    if FitsSlots(fields, d, a) {
      var seen := {} + EncodedUpTo(fields, a, n);
      AbsorbFields(fields, a, b, n, [], seen);
      assert second + [] == second;
      AllRequiredEncoded(fields, b, seen);
    }
  }
}
