/** Growing objects and arrays, and copying values with them. */
module JsonBuild {
  import opened Bytes
  import opened JsonString
  import opened JsonValue
  import opened JsonEquality

  function Larger(a: nat, b: nat): nat { if a > b then a else b }

  /** What a full array or object of capacity `c` is resized to. */
  function Doubled(c: nat): nat { Larger(2 * c, STARTING_CAPACITY) }

  /** The capacity at which doubling ends: it would next pass the limit. */
  function LastCapacity(c: nat, limit: nat): (last: nat)
    requires c <= limit
    ensures c <= last <= limit
    decreases limit - c
  {
    if Doubled(c) <= limit then LastCapacity(Doubled(c), limit) else c
  }

  /** There is a place free, or doubling makes one, exactly below the last capacity. */
  lemma RoomBelowLast(count: nat, capacity: nat, limit: nat)
    requires count <= capacity <= limit
    ensures count < capacity || Doubled(capacity) <= limit <==> count < LastCapacity(capacity, limit)
    ensures Doubled(capacity) <= limit ==> LastCapacity(Doubled(capacity), limit) == LastCapacity(capacity, limit)
  {
  }

  function MostItems(capacity: nat): nat
    requires capacity <= ARRAY_MAX_CAPACITY
  {
    LastCapacity(capacity, ARRAY_MAX_CAPACITY)
  }

  function MostMembers(capacity: nat): nat
    requires capacity <= OBJECT_MAX_CAPACITY
  {
    LastCapacity(capacity, OBJECT_MAX_CAPACITY)
  }

  /** What only ever grew holds as much as any can. */
  lemma GrowsToLimit()
    ensures MostItems(0) == ARRAY_MAX_CAPACITY == 122880 && MostMembers(0) == OBJECT_MAX_CAPACITY == 960
  {
    var a, o := ARRAY_MAX_CAPACITY, OBJECT_MAX_CAPACITY;
    assert LastCapacity(30720, a) == LastCapacity(61440, a) == LastCapacity(122880, a) == a;
    assert LastCapacity(1920, a) == LastCapacity(3840, a) == LastCapacity(7680, a) == LastCapacity(15360, a) == a;
    assert LastCapacity(120, a) == LastCapacity(240, a) == LastCapacity(480, a) == LastCapacity(960, a) == a;
    assert LastCapacity(0, a) == LastCapacity(15, a) == LastCapacity(30, a) == LastCapacity(60, a) == a;
    assert LastCapacity(120, o) == LastCapacity(240, o) == LastCapacity(480, o) == LastCapacity(960, o) == o;
    assert LastCapacity(0, o) == LastCapacity(15, o) == LastCapacity(30, o) == LastCapacity(60, o) == o;
  }

  /** An array trimmed to `n` items takes no further one if and only if doubling `n` passes the limit. */
  lemma TrimmedIsFull(n: nat, limit: nat)
    requires STARTING_CAPACITY <= limit && n <= limit
    ensures LastCapacity(n, limit) == n <==> 2 * n > limit
  {
  }

  /** An array trimmed to 61441 items refuses the next one, and one of 61440 does not. */
  lemma TrimmedArrayRefuses()
    ensures MostItems(61441) == 61441 && MostItems(61440) == ARRAY_MAX_CAPACITY
  {
    TrimmedIsFull(61441, ARRAY_MAX_CAPACITY);
    TrimmedIsFull(ARRAY_MAX_CAPACITY, ARRAY_MAX_CAPACITY);
  }

  /** `JSON_Array`. */
  class JsonArray {
    var items: array<Json>
    var count: nat

    predicate Valid()
      reads this
    {
      count <= items.Length <= ARRAY_MAX_CAPACITY
    }

    function Contents(): seq<Json>
      reads this, items
      requires Valid()
    {
      items[..count]
    }

    constructor ()
      ensures Valid() && Contents() == [] && fresh(items) && items.Length == 0
    {
      items := new Json[0];
      count := 0;
    }

    /**
     * `json_array_add`: fails exactly when the array holds as much as doubling its capacity can
     * give it, which stays the same whatever is added.
     */
    method Add(value: Json) returns (ok: bool)
      requires Valid()
      modifies this, items
      ensures Valid() && (items == old(items) || fresh(items))
      ensures ok == (|old(Contents())| < MostItems(old(items.Length)))
      ensures Contents() == if ok then old(Contents()) + [value] else old(Contents())
      ensures MostItems(items.Length) == MostItems(old(items.Length))
    {
      RoomBelowLast(count, items.Length, ARRAY_MAX_CAPACITY);
      hide LastCapacity;
      if count >= items.Length {
        var newCapacity := Doubled(items.Length);
        if newCapacity > ARRAY_MAX_CAPACITY { return false; }
        ok := Resize(newCapacity);
      }
      items[count] := value;
      count := count + 1;
      ok := true;
    }

    /** `json_array_resize`. */
    method Resize(newCapacity: nat) returns (ok: bool)
      requires Valid() && count <= newCapacity <= ARRAY_MAX_CAPACITY
      modifies this
      ensures Valid() && ok == (newCapacity > 0) && Contents() == old(Contents())
      ensures if ok then items.Length == newCapacity && fresh(items) else items == old(items)
    {
      if newCapacity == 0 { return false; }
      var newItems := new Json[newCapacity](_ => Null);
      forall i | 0 <= i < count { newItems[i] := items[i]; }
      items := newItems;
      ok := true;
    }
  }

  /** `JSON_Object`. */
  class JsonObject {
    var names: array<cstring>
    var values: array<Json>
    var count: nat

    predicate Valid()
      reads this
    {
      count <= names.Length == values.Length <= OBJECT_MAX_CAPACITY
    }

    function Contents(): (c: seq<Member>)
      reads this, names, values
      requires Valid()
      ensures |c| == count
    {
      seq(count, i requires 0 <= i < count reads this, names, values requires Valid() => Member(names[i], values[i]))
    }

    constructor ()
      ensures Valid() && Contents() == [] && fresh(names) && fresh(values) && names.Length == 0
    {
      names := new cstring[0];
      values := new Json[0];
      count := 0;
    }

    /** `json_object_get_value(object, name) != NULL`. */
    method Has(name: seq<byte>) returns (found: bool)
      requires Valid()
      ensures found == HasName(Contents(), name)
    {
      for i := 0 to count
        invariant forall k | 0 <= k < i :: Contents()[k].name != name
      {
        assert Contents()[i].name == names[i];
        if names[i] == name { return true; }
      }
      found := false;
    }

    /** `json_object_add`: fails for a name already there, or when doubling cannot give it a place. */
    method Add(name: cstring, value: Json) returns (ok: bool)
      requires Valid()
      modifies this, names, values
      ensures Valid() && (names == old(names) || fresh(names)) && (values == old(values) || fresh(values))
      ensures ok == (!HasName(old(Contents()), name) && |old(Contents())| < MostMembers(old(names.Length)))
      ensures Contents() == if ok then old(Contents()) + [Member(name, value)] else old(Contents())
      ensures MostMembers(names.Length) == MostMembers(old(names.Length))
    {
      hide HasName, MostMembers;
      var known := Has(name);
      if known { return false; }
      ok := MakeRoom();
      if ok { Store(name, value); }
    }

    /** The new member goes to the free place. */
    method Store(name: cstring, value: Json)
      requires Valid() && count < names.Length
      modifies this, names, values
      ensures Valid() && names == old(names) && values == old(values)
      ensures Contents() == old(Contents()) + [Member(name, value)]
    {
      names[count] := name;
      values[count] := value;
      count := count + 1;
    }

    /** A free place behind the last member, in a doubled object if need be. */
    method MakeRoom() returns (ok: bool)
      requires Valid()
      modifies this
      ensures Valid() && ok == (count < MostMembers(old(names.Length))) && (ok ==> count < names.Length)
      ensures (names == old(names) || fresh(names)) && (values == old(values) || fresh(values))
      ensures Contents() == old(Contents())
      ensures MostMembers(names.Length) == MostMembers(old(names.Length))
    {
      RoomBelowLast(count, names.Length, OBJECT_MAX_CAPACITY);
      hide LastCapacity;
      if count < names.Length { return true; }
      var newCapacity := Doubled(names.Length);
      if newCapacity > OBJECT_MAX_CAPACITY { return false; }
      ok := Resize(newCapacity);
    }

    /** `json_object_resize`. */
    method Resize(newCapacity: nat) returns (ok: bool)
      requires Valid() && count <= newCapacity <= OBJECT_MAX_CAPACITY
      modifies this
      ensures Valid() && ok == (newCapacity > 0) && Contents() == old(Contents())
      ensures if ok then names.Length == newCapacity && fresh(names) && fresh(values)
              else names == old(names) && values == old(values)
    {
      if newCapacity == 0 { return false; }
      var newNames, newValues := new cstring[newCapacity](_ => []), new Json[newCapacity](_ => Null);
      forall i | 0 <= i < count { newNames[i] := names[i]; }
      forall i | 0 <= i < count { newValues[i] := values[i]; }
      names, values := newNames, newValues;
      ok := true;
    }
  }

  // ---------- deep copies ----------

  lemma {:induction false} FindIsFirst(members: seq<Member>, name: seq<byte>, k: nat)
    requires Find(members, name).Some? && k < Find(members, name).value
    ensures members[k].name != name
  {
    if k > 0 { FindIsFirst(members[1..], name, k - 1); }
  }

  /** Looking a member up by its name finds the member itself, unless the name came before. */
  lemma FoundFirst(members: seq<Member>, i: nat)
    requires i < |members|
    ensures HasName(members, members[i].name)
    ensures var at := Find(members, members[i].name).value;
            if HasName(members[..i], members[i].name) then at < i else at == i
  {
    var name := members[i].name;
    assert HasName(members, name);
    var at := Find(members, name).value;
    if i < at { FindIsFirst(members, name, i); }
    if at < i { assert members[..i][at].name == name; }
    if HasName(members[..i], name) {
      var k :| 0 <= k < i && members[..i][k].name == name;
      if k < at { FindIsFirst(members, name, k); }
    }
  }

  predicate MembersProper(members: seq<Member>) {
    UniqueNames(members) && forall i | 0 <= i < |members| :: Proper(members[i].value)
  }

  lemma RepeatedName(members: seq<Member>, i: nat)
    requires i < |members| && MembersProper(members[..i]) && HasName(members[..i], members[i].name)
    ensures HasName(members, members[i].name) && !UniqueNames(members)
    ensures Proper(members[Find(members, members[i].name).value].value)
  {
    FoundFirst(members, i);
    var at := Find(members, members[i].name).value;
    assert members[..i][at] == members[at];
    hide Proper;
  }

  lemma OneMoreProper(a: seq<Member>, m: Member)
    requires MembersProper(a) && !HasName(a, m.name) && Proper(m.value)
    ensures MembersProper(a + [m])
  {
    hide Proper;
    var b := a + [m];
    forall i, j | 0 <= i < j < |b| ensures b[i].name != b[j].name {
      assert b[i] == a[i];
      if j < |a| { assert b[j] == a[j]; }
    }
  }

  lemma FreshName(members: seq<Member>, i: nat)
    requires i < |members| && MembersProper(members[..i]) && !HasName(members[..i], members[i].name)
    ensures Find(members, members[i].name) == Some(i)
    ensures Proper(members[i].value) ==> MembersProper(members[..i + 1])
    ensures members[..i] + [Member(members[i].name, members[i].value)] == members[..i + 1]
  {
    hide Proper, MembersProper, HasName;
    FoundFirst(members, i);
    assert members[..i] + [members[i]] == members[..i + 1];
    if Proper(members[i].value) { OneMoreProper(members[..i], members[i]); }
  }

  /** What the loop over an object's members needs to know about the next one. */
  lemma NextMember(members: seq<Member>, i: nat)
    requires i < |members| && MembersProper(members[..i])
    ensures HasName(members, members[i].name) && Find(members, members[i].name).value < |members|
    ensures var at := Find(members, members[i].name).value;
            if HasName(members[..i], members[i].name)
            then Proper(members[at].value) && !MembersProper(members)
            else at == i && (MembersProper(members) ==> Proper(members[i].value))
                 && (Proper(members[i].value) ==> MembersProper(members[..i + 1]))
                 && members[..i] + [Member(members[i].name, members[i].value)] == members[..i + 1]
  {
    hide Proper;
    FoundFirst(members, i);
    if HasName(members[..i], members[i].name) {
      RepeatedName(members, i);
    } else {
      FreshName(members, i);
    }
  }

  /**
   * `json_value_deep_copy`: succeeds exactly on values the library can hold, and then the copy
   * is the value itself, and equal to it in the sense of `json_value_equals`.
   */
  method DeepCopy(v: Json) returns (copy: Option<Json>)
    ensures copy == if Proper(v) then Some(v) else None
    ensures copy.Some? ==> Equals(v, copy.value)
    decreases v, 1
  {
    match v {
      case Null => copy := Some(Null);
      case Bool(on) => copy := Some(Bool(on));
      case Num(n) => copy := Some(Num(n));
      case Str(s) => copy := Some(Str(s));
      case Arr(items) => copy := CopyArray(v);
      case Obj(members) => copy := CopyObject(v);
    }
    if copy.Some? {
      ProperIsUnique(v);
      EqualsReflexive(v);
    }
  }

  method CopyArray(v: Json) returns (copy: Option<Json>)
    requires v.Arr?
    ensures copy == if Proper(v) then Some(v) else None
    decreases v, 0
  {
    var items := v.items;
    var result := new JsonArray();
    GrowsToLimit();
    hide LastCapacity;
    for i := 0 to |items|
      invariant fresh(result) && fresh(result.items) && result.Valid() && result.Contents() == items[..i]
      invariant MostItems(result.items.Length) == ARRAY_MAX_CAPACITY
      invariant i <= ARRAY_MAX_CAPACITY && forall k | 0 <= k < i :: Proper(items[k])
    {
      var item := DeepCopy(items[i]);
      if item.None? { return None; }
      var ok := result.Add(item.value);
      if !ok { return None; }
      assert items[..i] + [items[i]] == items[..i + 1];
    }
    assert items[..|items|] == items;
    copy := Some(Arr(result.Contents()));
  }

  method CopyObject(v: Json) returns (copy: Option<Json>)
    requires v.Obj?
    ensures copy == if Proper(v) then Some(v) else None
    decreases v, 0
  {
    var members := v.members;
    var result := new JsonObject();
    GrowsToLimit();
    hide LastCapacity;
    assert Proper(v) == (|members| <= OBJECT_MAX_CAPACITY && MembersProper(members));
    assert members[..0] == [] && MembersProper(members[..0]);
    hide Proper, MembersProper;
    for i := 0 to |members|
      invariant fresh(result) && fresh(result.names) && fresh(result.values)
      invariant result.Valid() && result.Contents() == members[..i]
      invariant MostMembers(result.names.Length) == OBJECT_MAX_CAPACITY
      invariant i <= OBJECT_MAX_CAPACITY && MembersProper(members[..i])
    {
      var key := members[i].name;
      NextMember(members, i);
      var at := Find(members, key);
      var value := DeepCopy(members[at.value].value);
      if value.None? { return None; }
      var ok := result.Add(key, value.value);
      if !ok { return None; }
    }
    assert members[..|members|] == members;
    copy := Some(Obj(result.Contents()));
  }

  lemma {:induction false} ProperIsUnique(v: Json)
    requires Proper(v)
    ensures Unique(v)
  {
    match v
    case Null =>
    case Bool(_) =>
    case Num(_) =>
    case Str(_) =>
    case Arr(items) =>
      forall i | 0 <= i < |items| ensures Unique(items[i]) { ProperIsUnique(items[i]); }
    case Obj(members) =>
      forall i | 0 <= i < |members| ensures Unique(members[i].value) { ProperIsUnique(members[i].value); }
  }
}
