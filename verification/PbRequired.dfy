/** Which inputs the decoder refuses for want of a required field. */
module PbRequired {
  import opened Bytes
  import opened PbVarint
  import opened PbFields
  import opened PbMessage
  import opened PbDecode
  import opened PbRoundTrip
  import opened PbUnknown

  /** The decoder keeps track of the first 64 required fields of a table. */
  predicate Tracked(fields: seq<Field>, i: nat)
    requires i < |fields|
  {
    fields[i].rule.Required? && RequiredBefore(fields, i) < 64
  }

  ghost predicate TagAt(fields: seq<Field>, s: seq<byte>, p: nat, tag: nat, slots: seq<Slot>, seen: set<nat>)
    requires |slots| == |fields| && p < |s|
  {
    Boundary(fields, s, p, slots, seen) && DecodeTag(s[p..]).TagRead? && DecodeTag(s[p..]).tag == tag
  }

  /** Somewhere in `s` the decoder comes to a field of that tag. */
  ghost predicate TagStands(fields: seq<Field>, s: seq<byte>, tag: nat, slots: seq<Slot>, seen: set<nat>)
    requires |slots| == |fields|
  {
    exists p | 0 <= p < |s| :: TagAt(fields, s, p, tag, slots, seen)
  }

  lemma StepReadsTag(fields: seq<Field>, s: seq<byte>, slots: seq<Slot>, seen: set<nat>)
    requires |slots| == |fields| && DecodeStep(fields, s, slots, seen).Next?
    ensures DecodeTag(s).TagRead?
  {
    hide DecodeTag, DecodeSlot, SkipField;
  }

  lemma StandsHere(fields: seq<Field>, s: seq<byte>, tag: nat, slots: seq<Slot>, seen: set<nat>)
    requires |slots| == |fields| && s != [] && DecodeTag(s).TagRead? && DecodeTag(s).tag == tag
    ensures TagStands(fields, s, tag, slots, seen)
  {
    hide DecodeStep, DecodeTag;
    assert s[0..] == s;
    assert TagAt(fields, s, 0, tag, slots, seen);
  }

  /** A tag that stands behind the first step, stands in the whole. */
  lemma StandsLater(fields: seq<Field>, s: seq<byte>, tag: nat, slots: seq<Slot>, seen: set<nat>, r: Step)
    requires |slots| == |fields| && s != [] && DecodeStep(fields, s, slots, seen) == r && r.Next?
    requires TagStands(fields, r.rest, tag, r.slots, r.seen)
    ensures TagStands(fields, s, tag, slots, seen)
  {
    hide DecodeStep, DecodeTag;
    DecodeStepLocal(fields, s, slots, seen, []);
    var n := |s| - |r.rest|;
    var p :| 0 <= p < |r.rest| && TagAt(fields, r.rest, p, tag, r.slots, r.seen);
    assert s[p + n..] == r.rest[p..];
    assert TagAt(fields, s, p + n, tag, slots, seen);
  }

  /** A tag that stands anywhere is the first one, or stands behind the first step. */
  lemma StandsBehindFirst(fields: seq<Field>, s: seq<byte>, tag: nat, slots: seq<Slot>, seen: set<nat>, r: Step)
    requires |slots| == |fields| && s != [] && DecodeStep(fields, s, slots, seen) == r && r.Next?
    requires TagStands(fields, s, tag, slots, seen) && !(DecodeTag(s).TagRead? && DecodeTag(s).tag == tag)
    ensures TagStands(fields, r.rest, tag, r.slots, r.seen)
  {
    hide DecodeStep, DecodeTag;
    DecodeStepLocal(fields, s, slots, seen, []);
    var n := |s| - |r.rest|;
    var p :| 0 <= p < |s| && TagAt(fields, s, p, tag, slots, seen);
    assert s[0..] == s;
    assert n <= p && s[p..] == r.rest[p - n..];
    assert TagAt(fields, r.rest, p - n, tag, r.slots, r.seen);
  }

  /** The first step comes to the tag, or the others do. */
  lemma StandsHereOrLater(fields: seq<Field>, s: seq<byte>, tag: nat, slots: seq<Slot>, seen: set<nat>, r: Step)
    requires |slots| == |fields| && s != [] && DecodeStep(fields, s, slots, seen) == r && r.Next?
    ensures DecodeTag(s).TagRead?
    ensures TagStands(fields, s, tag, slots, seen)
            <==> DecodeTag(s).tag == tag || TagStands(fields, r.rest, tag, r.slots, r.seen)
  {
    hide DecodeStep, DecodeTag, TagStands;
    StepReadsTag(fields, s, slots, seen);
    if DecodeTag(s).tag == tag {
      StandsHere(fields, s, tag, slots, seen);
    } else if TagStands(fields, r.rest, tag, r.slots, r.seen) {
      StandsLater(fields, s, tag, slots, seen, r);
    } else if TagStands(fields, s, tag, slots, seen) {
      StandsBehindFirst(fields, s, tag, slots, seen, r);
    }
  }

  /** A step marks exactly the field whose tag it has read. */
  lemma StepMarks(fields: seq<Field>, s: seq<byte>, slots: seq<Slot>, seen: set<nat>, i: nat)
    requires WellFormed(fields) && i < |fields| == |slots| && DecodeStep(fields, s, slots, seen).Next?
    ensures DecodeTag(s).TagRead?
    ensures i in DecodeStep(fields, s, slots, seen).seen <==> i in seen || DecodeTag(s).tag == fields[i].tag
  {
    hide DecodeTag, DecodeSlot, SkipField, Store;
    FindOwnTag(fields, i, 0);
  }

  lemma NoTagAtStop(fields: seq<Field>, s: seq<byte>, slots: seq<Slot>, seen: set<nat>, tag: nat)
    requires |slots| == |fields| && DecodeStep(fields, s, slots, seen).Stop?
    ensures !TagStands(fields, s, tag, slots, seen)
  {
    hide DecodeTag, DecodeSlot, SkipField;
    assert s != [] ==> s[0..] == s;
  }

  /** After the loop a field is marked exactly if the decoder has come to its tag. */
  lemma {:induction false} MarkedIfTagStands(fields: seq<Field>, s: seq<byte>, slots: seq<Slot>, seen: set<nat>, i: nat)
    requires WellFormed(fields) && i < |fields| == |slots| && DecodeLoop(fields, s, slots, seen).Some?
    ensures i in DecodeLoop(fields, s, slots, seen).value.1
            <==> i in seen || TagStands(fields, s, fields[i].tag, slots, seen)
    decreases |s|
  {
    hide DecodeStep, DecodeTag, WellFormed;
    if s != [] {
      var r := DecodeStep(fields, s, slots, seen);
      if r.Next? {
        StepMarks(fields, s, slots, seen, i);
        StandsHereOrLater(fields, s, fields[i].tag, slots, seen, r);
        MarkedIfTagStands(fields, r.rest, r.slots, r.seen, i);
      } else {
        NoTagAtStop(fields, s, slots, seen, fields[i].tag);
      }
    }
  }

  /**
   * Over every input: it is accepted if and only if all its fields decode and, for each of the
   * first 64 required fields of the table, the decoder comes to its tag.
   */
  lemma AcceptedExactly(fields: seq<Field>, s: seq<byte>)
    requires WellFormed(fields)
    ensures Decode(fields, s).Some?
            <==> DecodeLoop(fields, s, Defaults(fields), {}).Some?
                 && forall i | 0 <= i < |fields| && Tracked(fields, i) ::
                      TagStands(fields, s, fields[i].tag, Defaults(fields), {})
  {
    hide DecodeLoop, TagStands, WellFormed, Defaults;
    if DecodeLoop(fields, s, Defaults(fields), {}).Some? {
      var seen := DecodeLoop(fields, s, Defaults(fields), {}).value.1;
      forall i | 0 <= i < |fields|
        ensures i in seen <==> TagStands(fields, s, fields[i].tag, Defaults(fields), {})
      {
        MarkedIfTagStands(fields, s, Defaults(fields), {}, i);
      }
    }
  }

  // ----- a message without one of its fields -----

  /** The encoding of the fields from `j` on, field `i` left out. */
  function EncExcept(fields: seq<Field>, m: seq<Slot>, j: nat, i: nat): seq<byte>
    requires j <= |fields| == |m|
    decreases |fields| - j
  {
    if j == |fields| then [] else (if j == i then [] else EncSlot(fields[j], m[j])) + EncExcept(fields, m, j + 1, i)
  }

  lemma {:induction false} ExceptBehind(fields: seq<Field>, m: seq<Slot>, j: nat, i: nat)
    requires i < j <= |fields| == |m|
    ensures EncExcept(fields, m, j, i) == EncFrom(fields, m, j, |fields|)
    decreases |fields| - j
  {
    if j < |fields| { ExceptBehind(fields, m, j + 1, i); }
  }

  lemma {:induction false} ExceptSplits(fields: seq<Field>, m: seq<Slot>, j: nat, i: nat)
    requires j <= i < |fields| == |m|
    ensures EncExcept(fields, m, j, i) == EncFrom(fields, m, j, i) + EncFrom(fields, m, i + 1, |fields|)
    decreases i - j
  {
    hide EncSlot;
    if j == i {
      ExceptBehind(fields, m, i + 1, i);
      assert [] + EncExcept(fields, m, i + 1, i) == EncExcept(fields, m, i + 1, i);
    } else {
      ExceptSplits(fields, m, j + 1, i);
      Assoc(EncSlot(fields[j], m[j]), EncFrom(fields, m, j + 1, i), EncFrom(fields, m, i + 1, |fields|));
    }
  }

  /** A message that can be encoded and fits, whatever stands in field `i`. */
  ghost predicate FitsExcept(fields: seq<Field>, m: seq<Slot>, i: nat) {
    |m| == |fields| && forall j | 0 <= j < |fields| && j != i ::
      EncodableSlot(fields[j], m[j]) && FitsSlot(fields[j], DefaultSlot(fields[j]), m[j])
  }

  lemma FitsAt(fields: seq<Field>, m: seq<Slot>, i: nat, j: nat)
    requires FitsExcept(fields, m, i) && j < |fields| && j != i
    ensures |m| == |fields|
    ensures EncodableSlot(fields[j], m[j]) && FitsSlot(fields[j], DefaultSlot(fields[j]), m[j])
  {
  }

  lemma NextReached(fields: seq<Field>, slots: seq<Slot>, c: seq<Slot>, j: nat, i: nat)
    requires j < |fields| && TypedSlots(fields, c) && Reached(fields, slots, c, j)
    ensures |slots| == |c| == |fields| && TypedSlot(fields[j], c[j]) && slots[j] == DefaultSlot(fields[j])
    ensures Reached(fields, MergeSlot(fields, slots, j, c[j]), c, j + 1)
    ensures c[j] == DefaultSlot(fields[j]) ==> Reached(fields, slots, c, j + 1)
  {
    MergeIntoDefaultSlot(fields, slots, c, j);
  }

  lemma VarintNotEmpty(v: nat)
    ensures EncodeVarint(v) != []
  {
  }

  lemma RequiredIsEncoded(f: Field, s: Slot)
    requires TypedSlot(f, s) && f.rule.Required?
    ensures EncSlot(f, s) != []
  {
    VarintNotEmpty(f.tag * 8 + WireType(f.kind));
    assert EncSlot(f, s) == EncTagged(f, s.v);
  }

  lemma DefaultSlotTyped(fields: seq<Field>, j: nat)
    requires WellFormed(fields) && j < |fields|
    ensures TypedSlot(fields[j], DefaultSlot(fields[j]))
  {
    FieldIsWellFormed(fields, j);
    DefaultTyped(fields[j]);
  }

  lemma AllReached(fields: seq<Field>, slots: seq<Slot>, c: seq<Slot>, seen: set<nat>)
    requires Reached(fields, slots, c, |fields|)
    ensures slots == c && |slots| == |fields| && DecodeLoop(fields, [], slots, seen) == Some((c, seen))
  {
  }

  /** Decoding all fields but `i`, which holds its default in `c`. */
  lemma {:induction false} AbsorbExcept(fields: seq<Field>, slots: seq<Slot>, c: seq<Slot>, j: nat, i: nat,
                                        seen: set<nat>)
    returns (all: set<nat>)
    requires WellFormed(fields) && TypedSlots(fields, c) && FitsExcept(fields, c, i) && i < |fields|
    requires j <= |fields| && c[i] == DefaultSlot(fields[i]) && Reached(fields, slots, c, j)
    requires |EncExcept(fields, c, j, i)| < TWO32
    ensures |slots| == |fields| && DecodeLoop(fields, EncExcept(fields, c, j, i), slots, seen) == Some((c, all))
    ensures seen <= all && (i in all <==> i in seen)
    ensures forall k | j <= k < |fields| && k != i && fields[k].rule.Required? :: k in all
    decreases |fields| - j
  {
    hide WellFormed, TypedSlots, EncSlot, FitsSlot, EncodableSlot, MergeSlot, DecodeLoop, DefaultSlot;
    if j == |fields| {
      AllReached(fields, slots, c, seen);
      all := seen;
    } else {
      NextReached(fields, slots, c, j, i);
      hide Reached;
      if j == i {
        assert [] + EncExcept(fields, c, j + 1, i) == EncExcept(fields, c, j + 1, i);
        all := AbsorbExcept(fields, slots, c, j + 1, i, seen);
      } else {
        DefaultSlotTyped(fields, j);
        FitsAt(fields, c, i, j);
        AbsorbSlot(fields, j, slots, c[j], EncExcept(fields, c, j + 1, i), seen);
        if fields[j].rule.Required? { RequiredIsEncoded(fields[j], c[j]); }
        all := AbsorbExcept(fields, MergeSlot(fields, slots, j, c[j]), c, j + 1, i, SeenWith(seen, fields[j], c[j], j));
      }
    }
  }

  lemma StartsReached(fields: seq<Field>, c: seq<Slot>)
    requires |c| == |fields|
    ensures Reached(fields, Defaults(fields), c, 0)
  {
  }

  lemma DefaultFits(fields: seq<Field>, m: seq<Slot>, i: nat)
    requires WellFormed(fields) && TypedSlots(fields, m) && EncodableSlots(fields, m) && i < |fields| == |m|
    requires FitsSlots(fields, Defaults(fields), m)
    ensures TypedSlots(fields, m[i := DefaultSlot(fields[i])])
    ensures FitsExcept(fields, m[i := DefaultSlot(fields[i])], i)
  {
    DefaultSlotTyped(fields, i);
    hide TypedSlot, EncodableSlot, FitsSlot, WellFormed, DefaultValue;
  }

  lemma {:induction false} ExceptIgnores(fields: seq<Field>, m: seq<Slot>, j: nat, i: nat, s: Slot)
    requires i < |fields| == |m| && j <= |fields|
    ensures EncExcept(fields, m[i := s], j, i) == EncExcept(fields, m, j, i)
    decreases |fields| - j
  {
    hide EncSlot;
    if j < |fields| { ExceptIgnores(fields, m, j + 1, i, s); }
  }

  /** The encoding of `m` without field `i`. */
  function Without(fields: seq<Field>, m: seq<Slot>, i: nat): seq<byte>
    requires i < |fields| == |m|
  {
    EncUpTo(fields, m, i) + EncFrom(fields, m, i + 1, |fields|)
  }

  lemma WithoutIsExcept(fields: seq<Field>, m: seq<Slot>, i: nat)
    requires i < |fields| == |m|
    ensures Without(fields, m, i) == EncExcept(fields, m, 0, i) && |Without(fields, m, i)| <= |EncMsg(fields, m)|
  {
    hide EncSlot;
    MessageSplits(fields, m, i);
    ExceptSplits(fields, m, 0, i);
  }

  /**
   * The encoding of a message that comes back, without field `i`: it is refused if that is one of the
   * first 64 required fields; otherwise the field keeps its default and nothing else changes.
   */
  lemma MissingField(fields: seq<Field>, m: seq<Slot>, i: nat)
    requires WellFormed(fields) && TypedSlots(fields, m) && EncodableSlots(fields, m)
    requires |EncMsg(fields, m)| < TWO32 && FitsSlots(fields, Defaults(fields), m)
    requires i < |fields| == |m|
    ensures Decode(fields, Without(fields, m, i))
         == if fields[i].rule.Required? && RequiredBefore(fields, i) < 64 then None
            else Some(m[i := DefaultSlot(fields[i])])
  {
    hide WellFormed, TypedSlots, EncodableSlots, FitsSlots, EncSlot, DecodeLoop, DefaultSlot;
    var c := m[i := DefaultSlot(fields[i])];
    DefaultFits(fields, m, i);
    WithoutIsExcept(fields, m, i);
    ExceptIgnores(fields, m, 0, i, DefaultSlot(fields[i]));
    StartsReached(fields, c);
    var all := AbsorbExcept(fields, Defaults(fields), c, 0, i, {});
    assert RequiredSeen(fields, all) <==> !(fields[i].rule.Required? && RequiredBefore(fields, i) < 64);
  }
}
