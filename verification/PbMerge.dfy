/** What the decoder's merge means field by field. */
module PbMerge {
  import opened Bytes
  import opened PbFields
  import opened PbMessage
  import opened PbRoundTrip

  /** Merging field `j` touches its own slot, and those that share its union. */
  lemma MergeSlotFrame(fields: seq<Field>, slots: seq<Slot>, j: nat, b: Slot, i: nat)
    requires i < |fields| == |slots| && j < |fields| && i != j
    ensures MergeSlot(fields, slots, j, b)[i]
         == if fields[j].rule.OneOf? && IsSet(b) && SameUnion(fields, j, i) then Opt(None) else slots[i]
  {
  }

  lemma {:induction false} MergeAtPlainField(fields: seq<Field>, a: seq<Slot>, b: seq<Slot>, k: nat, i: nat)
    requires i < k <= |fields| == |a| == |b| && !fields[i].rule.OneOf?
    ensures MergeUpTo(fields, a, b, k)[i] == MergeSlot(fields, MergeUpTo(fields, a, b, i), i, b[i])[i]
    ensures MergeUpTo(fields, a, b, i)[i] == a[i]
    decreases k
  {
    MergeUntouched(fields, a, b, i, i);
    if i < k - 1 {
      MergeAtPlainField(fields, a, b, k - 1, i);
      MergeSlotFrame(fields, MergeUpTo(fields, a, b, k - 1), k - 1, b[k - 1], i);
    }
  }

  /** Some member of the union of field `i`, among the first `k` fields, is set in `b`. */
  ghost predicate UnionSetIn(fields: seq<Field>, b: seq<Slot>, i: nat, k: nat)
    requires i < |fields| == |b| && k <= |fields|
  {
    exists j :: 0 <= j < k && SameUnion(fields, i, j) && IsSet(b[j])
  }

  lemma {:induction false} MergeAtUnionMember(fields: seq<Field>, a: seq<Slot>, b: seq<Slot>, k: nat, i: nat)
    requires i < |fields| == |a| && k <= |fields| && TypedSlots(fields, b) && fields[i].rule.OneOf?
    ensures MergeUpTo(fields, a, b, k)[i]
         == if i < k && IsSet(b[i]) then b[i]
            else if UnionSetIn(fields, b, i, k) then Opt(None) else a[i]
    decreases k
  {
    if k > 0 {
      var j := k - 1;
      MergeAtUnionMember(fields, a, b, j, i);
      assert TypedSlot(fields[j], b[j]);
      if j == i {
        assert IsSet(b[i]) ==> UnionSetIn(fields, b, i, k) by { assert SameUnion(fields, i, i); }
      } else {
        MergeSlotFrame(fields, MergeUpTo(fields, a, b, j), j, b[j], i);
        if SameUnion(fields, i, j) && IsSet(b[j]) {
          assert UnionSetIn(fields, b, i, k);
          assert !IsSet(b[i]) by {
            assert if i < j then SameUnion(fields, i, j) else SameUnion(fields, j, i);
          }
        }
      }
      assert UnionSetIn(fields, b, i, k) <==> UnionSetIn(fields, b, i, j) || (SameUnion(fields, i, j) && IsSet(b[j]));
    }
  }

  /** Last scalar wins, repeated fields append, plain submessages merge, union members are replaced. */
  lemma MergeFieldwise(fields: seq<Field>, a: seq<Slot>, b: seq<Slot>, i: nat)
    requires TypedSlots(fields, a) && TypedSlots(fields, b) && i < |fields|
    ensures TypedSlot(fields[i], a[i]) && TypedSlot(fields[i], b[i])
    ensures var f, m := fields[i], Merge(fields, a, b)[i];
      match f.rule
      case Required => m == One(MergeValue(f, a[i].v, b[i].v))
      case Singular => m == if IsZeroValue(f, b[i].v) then a[i] else One(MergeValue(f, a[i].v, b[i].v))
      case Optional =>
        m == if !IsSet(b[i]) then a[i]
             else if IsSet(a[i]) then Opt(Some(MergeValue(f, a[i].o.value, b[i].o.value))) else b[i]
      case Repeated(_) => m == Many(a[i].vs + b[i].vs)
      case OneOf =>
        m == if IsSet(b[i]) then b[i]
             else if UnionSetIn(fields, b, i, |fields|) then Opt(None) else a[i]
    ensures fields[i].kind.Sub? || (forall x, y :: MergeValue(fields[i], x, y) == y)
  {
    assert TypedSlot(fields[i], a[i]) && TypedSlot(fields[i], b[i]);
    if fields[i].rule.OneOf? {
      MergeAtUnionMember(fields, a, b, |fields|, i);
    } else {
      MergeAtPlainField(fields, a, b, |fields|, i);
      if IsSet(b[i]) { MergeIntoDefault(fields[i], b[i].o.value); }
    }
  }
}
