/** Field descriptor tables and the cyclic iterator that walks one over a structure. */
module PbFields {
  /** PB_SIZE_MAX with PB_FIELD_16BIT; also the data_offset that marks a further union member. */
  const PB_SIZE_MAX: nat := 65535

  /** The LTYPE of a descriptor; a submessage carries the table its `ptr` points to. */
  datatype Kind =
    | Varint | UVarint | SVarint | Fixed32 | Fixed64
    | Bytes | Str | Sub(fields: seq<Field>) | Extension | FixedBytes

  /** The HTYPE; `Singular` is HTYPE_OPTIONAL without a has_ field, `max` is array_size. */
  datatype Rule = Required | Optional | Singular | Repeated(max: nat) | OneOf

  datatype Field = Field(tag: nat, rule: Rule, kind: Kind,
                         dataOffset: nat, sizeOffset: int, dataSize: nat)

  /** PB_LAST_FIELD, the terminator of every table. */
  const LAST_FIELD: Field := Field(0, Required, Varint, 0, 0, 0)

  function FieldAt(fields: seq<Field>, pos: nat): Field {
    if pos < |fields| then fields[pos] else LAST_FIELD
  }

  /** Field `pos` is a second or later member of the union of the field before it. */
  predicate ContinuesUnion(fields: seq<Field>, pos: nat) {
    0 < pos < |fields| && fields[pos - 1].rule.OneOf? && fields[pos].rule.OneOf?
    && fields[pos].dataOffset == PB_SIZE_MAX
  }

  /** The first member of the union field `pos` belongs to. */
  function UnionStart(fields: seq<Field>, pos: nat): (start: nat)
    ensures start <= pos
  {
    if ContinuesUnion(fields, pos) then UnionStart(fields, pos - 1) else pos
  }

  predicate SameUnion(fields: seq<Field>, i: nat, j: nat)
    requires i < |fields| && j < |fields|
  {
    fields[i].rule.OneOf? && fields[j].rule.OneOf? && UnionStart(fields, i) == UnionStart(fields, j)
  }

  // ----- layout: where the field at a position keeps its data -----

  /** Bytes the whole field takes in the structure. */
  function Extent(f: Field): nat {
    if f.rule.Repeated? then f.dataSize * f.rule.max else f.dataSize
  }

  function DataAt(fields: seq<Field>, dest: int, pos: nat): int {
    if pos == 0 then dest + FieldAt(fields, 0).dataOffset
    else if ContinuesUnion(fields, pos) then DataAt(fields, dest, pos - 1)
    else DataAt(fields, dest, pos - 1) + Extent(FieldAt(fields, pos - 1)) + FieldAt(fields, pos).dataOffset
  }

  function SizeAt(fields: seq<Field>, dest: int, pos: nat): int {
    DataAt(fields, dest, pos) + FieldAt(fields, UnionStart(fields, pos)).sizeOffset
  }

  function RequiredBefore(fields: seq<Field>, pos: nat): (n: nat)
    ensures n <= pos
  {
    if pos == 0 then 0
    else RequiredBefore(fields, pos - 1) + if FieldAt(fields, pos - 1).rule.Required? then 1 else 0
  }

  lemma {:induction false} UnionStartShares(fields: seq<Field>, dest: int, pos: nat)
    ensures DataAt(fields, dest, pos) == DataAt(fields, dest, UnionStart(fields, pos))
    ensures SizeAt(fields, dest, pos) == SizeAt(fields, dest, UnionStart(fields, pos))
    ensures UnionStart(fields, UnionStart(fields, pos)) == UnionStart(fields, pos)
  {
    if ContinuesUnion(fields, pos) { UnionStartShares(fields, dest, pos - 1); }
  }

  /** All members of a union use one data slot and one which_ slot. */
  lemma {:induction false} UnionMembersShareSlot(fields: seq<Field>, dest: int, i: nat, j: nat)
    requires i < |fields| && j < |fields| && SameUnion(fields, i, j)
    ensures DataAt(fields, dest, i) == DataAt(fields, dest, j)
    ensures SizeAt(fields, dest, i) == SizeAt(fields, dest, j)
  {
    UnionStartShares(fields, dest, i);
    UnionStartShares(fields, dest, j);
  }

  lemma {:induction false} DataAscends(fields: seq<Field>, dest: int, i: nat, j: nat)
    requires i <= j
    ensures DataAt(fields, dest, i) <= DataAt(fields, dest, j)
  {
    if i < j { DataAscends(fields, dest, i, j - 1); }
  }

  /**
   * No field overlaps an earlier one, whatever unions lie between them, unless the one behind
   * the earlier field shares its union.
   */
  lemma {:induction false} FieldsDisjoint(fields: seq<Field>, dest: int, i: nat, j: nat)
    requires i < j < |fields| && !ContinuesUnion(fields, i + 1)
    ensures DataAt(fields, dest, i) + Extent(fields[i]) <= DataAt(fields, dest, j)
  {
    DataAscends(fields, dest, i + 1, j);
  }

  // ----- the iterator -----

  class FieldIter {
    const start: seq<Field>
    const destStruct: int
    var pos: nat
    var requiredFieldIndex: nat
    var pData: int
    var pSize: int

    /** Everything the iterator holds is a function of its position. */
    ghost predicate Valid()
      reads this
    {
      && (pos < |start| || pos == |start| == 0)
      && pData == DataAt(start, destStruct, pos)
      && pSize == SizeAt(start, destStruct, pos)
      && requiredFieldIndex == RequiredBefore(start, pos)
    }

    constructor (fields: seq<Field>, dest: int)
      ensures Valid() && start == fields && destStruct == dest && pos == 0
    {
      start := fields;
      destStruct := dest;
      pos := 0;
      requiredFieldIndex := 0;
      pData := dest + FieldAt(fields, 0).dataOffset;
      pSize := dest + FieldAt(fields, 0).dataOffset + FieldAt(fields, 0).sizeOffset;
    }

    method Begin() returns (nonEmpty: bool)
      modifies this
      ensures Valid() && pos == 0
      ensures nonEmpty <==> FieldAt(start, 0).tag != 0
    {
      pos := 0;
      requiredFieldIndex := 0;
      pData := destStruct + FieldAt(start, 0).dataOffset;
      pSize := pData + FieldAt(start, 0).sizeOffset;
      nonEmpty := FieldAt(start, 0).tag != 0;
    }

    method Next() returns (more: bool)
      requires Valid()
      requires forall f | f in start :: f.tag != 0
      modifies this
      ensures Valid()
      ensures more <==> old(pos) + 1 < |start|
      ensures pos == if more then old(pos) + 1 else 0
    {
      var prev := FieldAt(start, pos);
      if prev.tag == 0 {
        return false;
      }
      pos := pos + 1;
      var cur := FieldAt(start, pos);
      if cur.tag == 0 {
        var _ := Begin();
        return false;
      }
      var prevSize := prev.dataSize;
      if prev.rule.OneOf? && cur.rule.OneOf? && cur.dataOffset == PB_SIZE_MAX {
        return true;
      } else if prev.rule.Repeated? {
        prevSize := prevSize * prev.rule.max;
      }
      if prev.rule.Required? {
        requiredFieldIndex := requiredFieldIndex + 1;
      }
      pData := pData + prevSize + cur.dataOffset;
      pSize := pData + cur.sizeOffset;
      return true;
    }

    /** Scans cyclically from the current field; an empty table answers only for its terminator. */
    method Find(tag: nat) returns (found: bool)
      requires Valid()
      requires forall f | f in start :: f.tag != 0
      modifies this
      ensures Valid()
      ensures found <==> (exists i | 0 <= i < |start| :: Matches(start[i], tag)) || (start == [] && tag == 0)
      ensures found ==> Matches(FieldAt(start, pos), tag)
      ensures !found ==> pos == old(pos)
    {
      var first := pos;
      var n := |start|;
      ghost var steps := 0;
      while true
        invariant Valid()
        invariant 0 <= steps && (n > 0 ==> steps < n)
        invariant n == 0 ==> steps == 0
        invariant pos == (if first + steps < n || n == 0 then first + steps else first + steps - n)
        invariant forall i | first <= i < first + steps && i < n :: !Matches(start[i], tag)
        invariant forall i | 0 <= i < first + steps - n :: !Matches(start[i], tag)
        decreases n - steps
      {
        if Matches(FieldAt(start, pos), tag) {
          return true;
        }
        var _ := Next();
        if pos == first {
          return false;
        }
        steps := steps + 1;
      }
    }
  }

  /** The test `pb_field_iter_find` applies to each field. */
  predicate Matches(f: Field, tag: nat) {
    f.tag == tag && !f.kind.Extension?
  }
}
