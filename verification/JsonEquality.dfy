/** `json_value_equals` and `json_value_deep_copy`. */
module JsonEquality {
  import opened Bytes
  import opened JsonString
  import opened JsonValue

  /** `json_object_nget_value`: the first member of that name. */
  function Find(members: seq<Member>, name: seq<byte>): (r: Option<nat>)
    ensures r.Some? ==> r.value < |members| && members[r.value].name == name
    ensures r.None? <==> !HasName(members, name)
  {
    if members == [] then None
    else if members[0].name == name then Some(0)
    else
      var r := Find(members[1..], name);
      assert HasName(members, name) ==> HasName(members[1..], name);
      assert forall i | 0 <= i < |members[1..]| :: members[1..][i] == members[i + 1];
      match r case None => None case Some(i) => Some(i + 1)
  }

  /** `json_value_equals`: of two objects only the names of the first are looked up. */
  predicate Equals(a: Json, b: Json)
    decreases a
  {
    match a
    case Null => b.Null?
    case Bool(on) => b == a
    case Num(n) => b == a
    case Str(s) => b == a
    case Arr(items) =>
      b.Arr? && |items| == |b.items| && forall i | 0 <= i < |items| :: Equals(items[i], b.items[i])
    case Obj(members) =>
      b.Obj? && |members| == |b.members|
      && forall i | 0 <= i < |members| ::
        var mine, theirs := Find(members, members[i].name), Find(b.members, members[i].name);
        mine.Some? && theirs.Some? && Equals(members[mine.value].value, b.members[theirs.value].value)
  }

  /** Unique names at every depth, as `json_object_add` keeps them. */
  predicate Unique(v: Json) {
    match v
    case Null => true
    case Bool(_) => true
    case Num(_) => true
    case Str(_) => true
    case Arr(items) => forall i | 0 <= i < |items| :: Unique(items[i])
    case Obj(members) => UniqueNames(members) && forall i | 0 <= i < |members| :: Unique(members[i].value)
  }

  // ---------- what a value means when the order of members does not matter ----------

  datatype Canon =
    | CNull
    | CBool(on: bool)
    | CNum(n: int)
    | CStr(s: seq<byte>)
    | CArr(items: seq<Canon>)
    | CObj(members: map<seq<byte>, Canon>)

  function Canonical(v: Json): Canon
    decreases v, 1
  {
    match v
    case Null => CNull
    case Bool(on) => CBool(on)
    case Num(n) => CNum(n)
    case Str(s) => CStr(s)
    case Arr(items) => CArr(seq(|items|, i requires 0 <= i < |items| => Canonical(items[i])))
    case Obj(members) => CObj(Table(members))
  }

  function Table(members: seq<Member>): (t: map<seq<byte>, Canon>)
    decreases members, 0
  {
    if members == [] then map[]
    else Table(members[1..])[members[0].name := Canonical(members[0].value)]
  }

  lemma HasNameSplit(members: seq<Member>, name: seq<byte>)
    requires members != []
    ensures HasName(members, name) <==> members[0].name == name || HasName(members[1..], name)
  {
    var rest := members[1..];
    if HasName(rest, name) {
      var i :| 0 <= i < |rest| && rest[i].name == name;
      assert members[i + 1].name == name;
    }
    if HasName(members, name) && members[0].name != name {
      var i :| 0 <= i < |members| && members[i].name == name;
      assert rest[i - 1].name == name;
    }
  }

  lemma NotAgain(members: seq<Member>)
    requires members != [] && UniqueNames(members)
    ensures !HasName(members[1..], members[0].name)
  {
  }

  lemma {:induction false} TableHolds(members: seq<Member>)
    requires UniqueNames(members)
    ensures forall name :: name in Table(members) <==> HasName(members, name)
    ensures forall i | 0 <= i < |members| ::
              members[i].name in Table(members) && Table(members)[members[i].name] == Canonical(members[i].value)
    ensures |Table(members)| == |members|
  {
    if members != [] {
      var rest := members[1..];
      TableHolds(rest);
      forall name ensures HasName(members, name) <==> members[0].name == name || HasName(rest, name) {
        HasNameSplit(members, name);
      }
      hide Canonical, HasName;
      assert members[0].name !in Table(rest) by { NotAgain(members); }
      forall i | 0 <= i < |members|
        ensures members[i].name in Table(members) && Table(members)[members[i].name] == Canonical(members[i].value)
      {
        if i > 0 { assert rest[i - 1] == members[i]; }
      }
    }
  }

  lemma UniqueFind(members: seq<Member>, i: nat)
    requires UniqueNames(members) && i < |members|
    ensures Find(members, members[i].name) == Some(i)
  {
    assert HasName(members, members[i].name);
  }

  /** As many names, all of them found: then there are no others. */
  lemma SameNames(a: seq<Member>, b: seq<Member>)
    requires UniqueNames(a) && UniqueNames(b) && |a| == |b|
    requires forall i | 0 <= i < |a| :: HasName(b, a[i].name)
    ensures Table(a).Keys == Table(b).Keys
  {
    TableHolds(a);
    TableHolds(b);
    var ka, kb := Table(a).Keys, Table(b).Keys;
    forall name | name in ka ensures name in kb {
      assert HasName(a, name);
      var i :| 0 <= i < |a| && a[i].name == name;
    }
    Pigeonhole(ka, kb);
  }

  lemma Pigeonhole(x: set<seq<byte>>, y: set<seq<byte>>)
    requires x <= y && |x| == |y|
    ensures x == y
  {
    if x != y {
      var e :| e in y && e !in x;
      Subset(x, y - {e});
    }
  }

  lemma {:induction false} Subset(x: set<seq<byte>>, y: set<seq<byte>>)
    requires x <= y
    ensures |x| <= |y|
    decreases x
  {
    if x != {} {
      var e :| e in x;
      Subset(x - {e}, y - {e});
    }
  }

  /** Two values with unique names are equal to the library exactly when they mean the same. */
  lemma {:induction false} EqualsIsMeaning(a: Json, b: Json)
    requires Unique(a) && Unique(b)
    ensures Equals(a, b) <==> Canonical(a) == Canonical(b)
    decreases a
  {
    if a.Arr? && b.Arr? && |a.items| == |b.items| {
      forall i | 0 <= i < |a.items|
        ensures Equals(a.items[i], b.items[i]) <==> Canonical(a.items[i]) == Canonical(b.items[i])
      {
        EqualsIsMeaning(a.items[i], b.items[i]);
      }
      ArraysMean(a.items, b.items);
    } else if a.Arr? && b.Arr? {
      assert |Canonical(a).items| != |Canonical(b).items|;
    } else if a.Obj? && b.Obj? {
      ObjectsMean(a, b);
    }
  }

  lemma ArraysMean(a: seq<Json>, b: seq<Json>)
    requires |a| == |b|
    ensures Canonical(Arr(a)) == Canonical(Arr(b)) <==> forall i | 0 <= i < |a| :: Canonical(a[i]) == Canonical(b[i])
  {
    var x, y := Canonical(Arr(a)).items, Canonical(Arr(b)).items;
    assert |x| == |a| && |y| == |b|;
    assert forall i | 0 <= i < |a| :: x[i] == Canonical(a[i]) && y[i] == Canonical(b[i]);
    if forall i | 0 <= i < |a| :: Canonical(a[i]) == Canonical(b[i]) {
      assert x == y;
    }
  }

  /** Equality of objects with unique names, in terms of the values found. */
  lemma EqualObjects(a: Json, b: Json)
    requires a.Obj? && b.Obj? && UniqueNames(a.members)
    ensures Equals(a, b) <==>
            |a.members| == |b.members|
            && forall i | 0 <= i < |a.members| ::
              var theirs := Find(b.members, a.members[i].name);
              theirs.Some? && Equals(a.members[i].value, b.members[theirs.value].value)
  {
    forall i | 0 <= i < |a.members| ensures Find(a.members, a.members[i].name) == Some(i) { UniqueFind(a.members, i); }
  }

  lemma EqualThenSameTable(x: seq<Member>, y: seq<Member>)
    requires UniqueNames(x) && UniqueNames(y) && |x| == |y|
    requires forall i | 0 <= i < |x| ::
               var theirs := Find(y, x[i].name);
               theirs.Some? && Canonical(x[i].value) == Canonical(y[theirs.value].value)
    ensures Table(x) == Table(y)
  {
    hide Canonical, UniqueNames, Table;
    TableHolds(x);
    TableHolds(y);
    forall i | 0 <= i < |x| ensures HasName(y, x[i].name) { assert Find(y, x[i].name).Some?; }
    SameNames(x, y);
    forall name | name in Table(x) ensures Table(x)[name] == Table(y)[name] {
      assert HasName(x, name);
      var i :| 0 <= i < |x| && x[i].name == name;
      var j := Find(y, name).value;
      assert y[j].name == name;
    }
  }

  lemma SameTableThenFound(x: seq<Member>, y: seq<Member>, i: nat)
    requires UniqueNames(x) && UniqueNames(y) && Table(x) == Table(y) && i < |x|
    ensures |x| == |y|
    ensures var theirs := Find(y, x[i].name); theirs.Some? && Canonical(x[i].value) == Canonical(y[theirs.value].value)
  {
    hide Canonical, UniqueNames, Table;
    TableHolds(x);
    TableHolds(y);
    assert x[i].name in Table(x) && HasName(y, x[i].name);
    var j := Find(y, x[i].name).value;
    assert y[j].name == x[i].name;
  }

  lemma {:induction false} ObjectsMean(a: Json, b: Json)
    requires a.Obj? && b.Obj? && Unique(a) && Unique(b)
    ensures Equals(a, b) <==> Canonical(a) == Canonical(b)
    decreases a, 0
  {
    var x, y := a.members, b.members;
    EqualObjects(a, b);
    forall i, j | 0 <= i < |x| && 0 <= j < |y|
      ensures Equals(x[i].value, y[j].value) <==> Canonical(x[i].value) == Canonical(y[j].value)
    {
      EqualsIsMeaning(x[i].value, y[j].value);
    }
    assert Canonical(a) == Canonical(b) <==> Table(x) == Table(y);
    hide Canonical, Table, Unique, UniqueNames, Equals, Find;
    if Equals(a, b) {
      EqualThenSameTable(x, y);
    }
    if Table(x) == Table(y) {
      TableHolds(x);
      TableHolds(y);
      forall i | 0 <= i < |x|
        ensures var theirs := Find(y, x[i].name); theirs.Some? && Equals(x[i].value, y[theirs.value].value)
      {
        SameTableThenFound(x, y, i);
      }
    }
  }

  /** Equality is symmetric although it only walks the first object's names. */
  lemma {:induction false} EqualsSymmetric(a: Json, b: Json)
    requires Unique(a) && Unique(b)
    ensures Equals(a, b) == Equals(b, a)
  {
    EqualsIsMeaning(a, b);
    EqualsIsMeaning(b, a);
  }

  lemma {:induction false} EqualsReflexive(v: Json)
    requires Unique(v)
    ensures Equals(v, v)
  {
    EqualsIsMeaning(v, v);
  }

  lemma {:induction false} EqualsTransitive(a: Json, b: Json, c: Json)
    requires Unique(a) && Unique(b) && Unique(c) && Equals(a, b) && Equals(b, c)
    ensures Equals(a, c)
  {
    EqualsIsMeaning(a, b);
    EqualsIsMeaning(b, c);
    EqualsIsMeaning(a, c);
  }

  /** With a repeated name the walk misses a member of the second object. */
  lemma SymmetryNeedsUniqueNames()
    ensures exists a: Json, b: Json :: Equals(a, b) && !Equals(b, a)
  {
    var x: cstring, y: cstring := [0x78], [0x79];
    var a := Obj([Member(x, Null), Member(x, Null)]);
    var b := Obj([Member(x, Null), Member(y, Null)]);
    assert a.members[0].name == x && b.members[0].name == x;
    assert forall i | 0 <= i < 2 :: a.members[i].name == x;
    assert Find(a.members, x) == Some(0) && Find(b.members, x) == Some(0);
    assert Equals(a, b);
    assert b.members[1].name == y && !HasName(a.members, y);
    assert !Equals(b, a);
  }
}
