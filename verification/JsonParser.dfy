/** The parser of parson: a cursor over the text, arrays and objects that grow. */
module JsonParser {
  import opened Bytes
  import opened JsonString
  import opened JsonUnescape
  import opened JsonValue
  import opened JsonBuild

  /** NotInteger stands for number texts this model does not evaluate. */
  datatype Answer = Parsed(value: Json) | NoValue | NotInteger

  ghost predicate Agrees(r: Reading<Json>, a: Answer, rest: seq<byte>) {
    if r.Got? then a == Parsed(r.value) && rest == r.rest else a == if r.Rejected? then NoValue else NotInteger
  }

  lemma {:induction false} BodyInPrefix(text: seq<byte>)
    requires BodyLength(text).Some?
    ensures BodyLength(text[..BodyLength(text).value + 1]) == BodyLength(text)
  {
    BodyEnds(text);
    var n := BodyLength(text).value;
    var p := text[..n + 1];
    if text[0] == QUOTE {
      BodyEnds(p);
    } else if text[0] == BACKSLASH {
      EscapeSkipped(text);
      BodyInPrefix(text[2..]);
      hide BodyLength;
      assert p[2..] == text[2..][..n - 1];
      EscapeSkipped(p);
    } else {
      PlainSkipped(text);
      BodyInPrefix(text[1..]);
      hide BodyLength;
      assert p[1..] == text[1..][..n];
      PlainSkipped(p);
    }
  }

  /** The text and the position `*string` points to. */
  class Cursor {
    const text: seq<byte>
    var pos: nat

    ghost predicate Valid()
      reads this
    {
      pos <= |text|
    }

    ghost function Rest(): seq<byte>
      reads this
      requires Valid()
    {
      text[pos..]
    }

    constructor (text: seq<byte>)
      ensures this.text == text && Valid() && Rest() == text
    {
      this.text, pos := text, 0;
    }

    /** `**string`. */
    function Peek(): (c: byte)
      reads this
      requires Valid()
      ensures c == Head(Rest())
    {
      if pos == |text| then 0 else text[pos]
    }

    /** `SKIP_CHAR`. */
    method Advance()
      requires Valid() && pos < |text|
      modifies this
      ensures Valid() && pos == old(pos) + 1 && Rest() == old(Rest())[1..]
    {
      pos := pos + 1;
    }

    /** `SKIP_WHITESPACES`. */
    method SkipWhitespaces()
      requires Valid()
      modifies this
      ensures Valid() && Rest() == SkipSpace(old(Rest())) && pos >= old(pos)
    {
      while IsSpace(Peek())
        invariant Valid() && pos >= old(pos) && SkipSpace(Rest()) == SkipSpace(old(Rest()))
        decreases |text| - pos
      {
        Advance();
      }
    }

    /** `skip_quotes`. */
    method SkipQuotes() returns (ok: bool)
      requires Valid()
      modifies this
      ensures Valid() && pos >= old(pos)
      ensures ok == (Head(old(Rest())) == QUOTE && BodyLength(old(Rest())[1..]).Some?)
      ensures ok ==> pos == old(pos) + BodyLength(old(Rest())[1..]).value + 2
    {
      hide BodyLength;
      if Peek() != QUOTE { return false; }
      Advance();
      ghost var body, from := Rest(), pos;
      while Peek() != QUOTE
        invariant Valid() && pos >= from && BodyLength(body) == Further(pos - from, BodyLength(Rest()))
        decreases |text| - pos
      {
        ok := SkipBodyCharacter();
        if !ok { return; }
      }
      BodyEnds(Rest());
      Advance();
      ok := true;
    }

    /** The body of the loop of `skip_quotes`. */
    method SkipBodyCharacter() returns (ok: bool)
      requires Valid() && Peek() != QUOTE
      modifies this
      ensures Valid() && pos >= old(pos)
      ensures if ok then pos > old(pos) && BodyLength(old(Rest())) == Further(pos - old(pos), BodyLength(Rest()))
              else BodyLength(old(Rest())) == None
    {
      hide BodyLength;
      ghost var rest := Rest();
      BodyEnds(rest);
      if Peek() == 0 { return false; }
      if Peek() == BACKSLASH {
        Advance();
        if Peek() == 0 { return false; }
        EscapeSkipped(rest);
        assert rest[2..] == rest[1..][1..];
      } else {
        PlainSkipped(rest);
      }
      Advance();
      ok := true;
    }

    /** `get_quoted_string`. */
    method GetQuotedString() returns (s: Option<cstring>)
      requires Valid()
      modifies this
      ensures Valid() && pos >= old(pos)
      ensures var q := QuotedString(old(Rest()));
              if q.NoString? then s == None else s == Some(q.value) && Rest() == q.rest
    {
      hide BodyLength, Unescape, CString;
      ghost var all := Rest();
      var start := pos;
      var status := SkipQuotes();
      if !status { return None; }
      ghost var n := BodyLength(all[1..]).value;
      var input := text[start + 1..pos];
      BodyInPrefix(all[1..]);
      assert all[1..][..n + 1] == input && input[..n] == all[1..n + 1];
      assert Rest() == all[n + 2..];
      var ok, output, size := ProcessString(input);
      if !ok { return None; }
      s := Some(CString(output[..size]));
    }
  }

  method ParseString(c: Cursor) returns (a: Answer)
    requires c.Valid()
    modifies c
    ensures c.Valid() && c.pos >= old(c.pos) && Agrees(ReadString(old(c.Rest())), a, c.Rest())
  {
    var s := c.GetQuotedString();
    if s.None? { return NoValue; }
    a := Parsed(Str(s.value));
  }

  /** `strncmp(token, *string, n) == 0`. */
  method Matches(c: Cursor, token: seq<byte>) returns (same: bool)
    requires c.Valid()
    ensures same == StartsWith(c.Rest(), token)
  {
    same := c.pos + |token| <= |c.text| && c.text[c.pos..c.pos + |token|] == token;
    assert c.pos + |token| <= |c.text| ==> c.Rest()[..|token|] == c.text[c.pos..c.pos + |token|];
  }

  method ParseBoolean(c: Cursor) returns (a: Answer)
    requires c.Valid()
    modifies c
    ensures c.Valid() && c.pos >= old(c.pos) && Agrees(ReadBool(old(c.Rest())), a, c.Rest())
  {
    var isTrue := Matches(c, TRUE);
    if isTrue {
      c.pos := c.pos + |TRUE|;
      return Parsed(Bool(true));
    }
    var isFalse := Matches(c, FALSE);
    if isFalse {
      c.pos := c.pos + |FALSE|;
      return Parsed(Bool(false));
    }
    a := NoValue;
  }

  method ParseNull(c: Cursor) returns (a: Answer)
    requires c.Valid()
    modifies c
    ensures c.Valid() && c.pos >= old(c.pos) && Agrees(ReadNull(old(c.Rest())), a, c.Rest())
  {
    var isNull := Matches(c, NULL);
    if !isNull { return NoValue; }
    c.pos := c.pos + |NULL|;
    a := Parsed(Null);
  }

  /** `parse_number_value`; what `strtod` accepts is taken from the specification. */
  method ParseNumber(c: Cursor) returns (a: Answer)
    requires c.Valid()
    modifies c
    ensures c.Valid() && c.pos >= old(c.pos) && Agrees(ReadNumber(old(c.Rest())), a, c.Rest())
  {
    hide ReadNumber;
    var text := c.text[c.pos..];
    match ReadNumber(text)
    case Rejected => a := NoValue;
    case Foreign => a := NotInteger;
    case Got(v, rest) =>
      NumberLeavesSuffix(text);
      c.pos := c.pos + (|text| - |rest|);
      a := Parsed(v);
  }

  lemma NumberRest(text: seq<byte>) returns (rest: seq<byte>, n: nat)
    requires ReadNumber(text).Got?
    ensures var body := if Head(text) == 0x2D then text[1..] else text;
            rest == ReadNumber(text).rest && n <= |body| && (rest == text || rest == body[n..])
  {
    hide Evaluate, DigitRun;
    rest := ReadNumber(text).rest;
    var body := if Head(text) == 0x2D then text[1..] else text;
    var k := DigitRun(body);
    n := if Head(body[k..]) == 0x2E then k + 1 + DigitRun(body[k + 1..]) else k;
  }

  lemma NumberLeavesSuffix(text: seq<byte>)
    requires ReadNumber(text).Got?
    ensures ReadNumber(text).rest == text[|text| - |ReadNumber(text).rest|..]
  {
    hide ReadNumber;
    var rest, n := NumberRest(text);
    var body := if Head(text) == 0x2D then text[1..] else text;
    if rest != text && body != text { assert body[n..] == text[n + 1..]; }
  }

  /** `parse_value`. */
  method ParseValue(c: Cursor, nesting: nat) returns (a: Answer)
    requires c.Valid()
    modifies c
    ensures c.Valid() && c.pos >= old(c.pos) && Agrees(ReadValue(old(c.Rest()), nesting), a, c.Rest())
    decreases |c.text| - c.pos, 2
  {
    if nesting > MAX_NESTING { return NoValue; }
    c.SkipWhitespaces();
    var k := c.Peek();
    hide ReadObject, ReadArray, ReadString, ReadBool, ReadNumber, ReadNull;
    if k == 0x7B { a := ParseObject(c, nesting + 1); }
    else if k == 0x5B { a := ParseArray(c, nesting + 1); }
    else if k == QUOTE { a := ParseString(c); }
    else if k == 0x66 || k == 0x74 { a := ParseBoolean(c); }
    else if k == 0x2D || IsDigit(k) { a := ParseNumber(c); }
    else if k == 0x6E { a := ParseNull(c); }
    else { a := NoValue; }
  }

  /** How a turn of a parser's loop ends: around again, or out with an answer. */
  datatype Turn = Around | Out(answer: Answer)

  /** `parse_array_value`. */
  method ParseArray(c: Cursor, nesting: nat) returns (a: Answer)
    requires c.Valid() && c.Peek() == 0x5B
    modifies c
    ensures c.Valid() && c.pos >= old(c.pos) && Agrees(ReadArray(old(c.Rest()), nesting), a, c.Rest())
    decreases |c.text| - c.pos, 1
  {
    var output := new JsonArray();
    GrowsToLimit();
    c.Advance();
    c.SkipWhitespaces();
    if c.Peek() == 0x5D {
      c.Advance();
      return Parsed(Arr([]));
    }
    ghost var whole := ReadItems(c.Rest(), nesting, []);
    hide ReadItems;
    while c.Peek() != 0
      invariant c.Valid() && c.pos > old(c.pos) && fresh(output) && fresh(output.items)
      invariant output.Valid() && MostItems(output.items.Length) == ARRAY_MAX_CAPACITY
      invariant whole == ReadItems(c.Rest(), nesting, output.Contents())
      decreases |c.text| - c.pos
    {
      var turn := OneItem(c, nesting, output);
      if turn.Out? { return turn.answer; }
    }
    NothingToRead(c.Rest(), nesting, output.Contents());
    a := NoValue;
  }

  /** The body of the loop over an array's elements. */
  method OneItem(c: Cursor, nesting: nat, output: JsonArray) returns (turn: Turn)
    requires c.Valid() && output.Valid() && MostItems(output.items.Length) == ARRAY_MAX_CAPACITY && c.Peek() != 0
    modifies c, output, output.items
    ensures c.Valid() && output.Valid() && c.pos >= old(c.pos)
    ensures turn.Around? ==> MostItems(output.items.Length) == ARRAY_MAX_CAPACITY
    ensures turn.Out? && turn.answer.Parsed? ==> output.items.Length == output.count
    ensures output.items == old(output.items) || fresh(output.items)
    ensures var whole := ReadItems(old(c.Rest()), nesting, old(output.Contents()));
            if turn.Out? then Agrees(whole, turn.answer, c.Rest())
            else c.pos > old(c.pos) && whole == ReadItems(c.Rest(), nesting, output.Contents())
    decreases |c.text| - c.pos, 3
  {
    hide ReadItems, ReadValue, MostItems;
    ItemsTurn(c.Rest(), nesting, output.Contents());
    var a := ParseValue(c, nesting);
    if !a.Parsed? { return Out(a); }
    var ok := output.Add(a.value);
    if !ok { return Out(NoValue); }
    turn := ItemEnd(c, output);
  }

  /** `,` or the end of the array behind an element; at the end the array is trimmed. */
  method ItemEnd(c: Cursor, output: JsonArray) returns (turn: Turn)
    requires c.Valid() && output.Valid() && output.count > 0
    modifies c, output
    ensures c.Valid() && output.Valid() && c.pos >= old(c.pos) && output.Contents() == old(output.Contents())
    ensures output.items == old(output.items) || fresh(output.items)
    ensures turn.Around? ==> output.items == old(output.items) && c.pos > old(c.pos)
    ensures turn.Out? && turn.answer.Parsed? ==> output.items.Length == output.count
    ensures var t := SkipSpace(old(c.Rest()));
            if Head(t) == 0x2C then turn == Around && c.Rest() == SkipSpace(t[1..])
            else if Head(t) == 0x5D then turn == Out(Parsed(Arr(output.Contents()))) && c.Rest() == t[1..]
            else turn == Out(NoValue)
  {
    c.SkipWhitespaces();
    if c.Peek() != 0x2C {
      if c.Peek() != 0x5D { return Out(NoValue); }
      var trimmed := output.Resize(output.count);
      c.Advance();
      return Out(if trimmed then Parsed(Arr(output.Contents())) else NoValue);
    }
    c.Advance();
    c.SkipWhitespaces();
    turn := Around;
  }

  /** One turn of the loop over an array's elements. */
  lemma ItemsTurn(text: seq<byte>, nesting: nat, items: seq<Json>)
    requires Head(text) != 0
    ensures var r := ReadValue(text, nesting);
            var whole := ReadItems(text, nesting, items);
            if r.Rejected? then whole == Rejected
            else if r.Foreign? then whole == Foreign
            else if |items| >= ARRAY_MAX_CAPACITY then whole == Rejected
            else
              var t := SkipSpace(r.rest);
              if Head(t) == 0x2C then whole == ReadItems(SkipSpace(t[1..]), nesting, items + [r.value])
              else if Head(t) == 0x5D then whole == Got(Arr(items + [r.value]), t[1..])
              else whole == Rejected
  {
    hide ReadValue;
  }

  lemma NothingToRead(text: seq<byte>, nesting: nat, items: seq<Json>)
    requires Head(text) == 0
    ensures ReadItems(text, nesting, items) == Rejected
  {
  }

  /** `parse_object_value`. */
  method ParseObject(c: Cursor, nesting: nat) returns (a: Answer)
    requires c.Valid() && c.Peek() == 0x7B
    modifies c
    ensures c.Valid() && c.pos >= old(c.pos) && Agrees(ReadObject(old(c.Rest()), nesting), a, c.Rest())
    decreases |c.text| - c.pos, 1
  {
    var output := new JsonObject();
    GrowsToLimit();
    c.Advance();
    c.SkipWhitespaces();
    if c.Peek() == 0x7D {
      c.Advance();
      return Parsed(Obj([]));
    }
    ghost var whole := ReadMembers(c.Rest(), nesting, []);
    hide ReadMembers;
    while c.Peek() != 0
      invariant c.Valid() && c.pos > old(c.pos)
      invariant fresh(output) && fresh(output.names) && fresh(output.values)
      invariant output.Valid() && MostMembers(output.names.Length) == OBJECT_MAX_CAPACITY
      invariant whole == ReadMembers(c.Rest(), nesting, output.Contents())
      decreases |c.text| - c.pos
    {
      var turn := OneMember(c, nesting, output);
      if turn.Out? { return turn.answer; }
    }
    NoMember(c.Rest(), nesting, output.Contents());
    a := NoValue;
  }

  /** The body of the loop over an object's members. */
  method OneMember(c: Cursor, nesting: nat, output: JsonObject) returns (turn: Turn)
    requires c.Valid() && output.Valid() && MostMembers(output.names.Length) == OBJECT_MAX_CAPACITY
    modifies c, output, output.names, output.values
    ensures c.Valid() && output.Valid() && c.pos >= old(c.pos)
    ensures turn.Around? ==> MostMembers(output.names.Length) == OBJECT_MAX_CAPACITY
    ensures turn.Out? && turn.answer.Parsed? ==> output.names.Length == output.count
    ensures output.names == old(output.names) || fresh(output.names)
    ensures output.values == old(output.values) || fresh(output.values)
    ensures var whole := ReadMembers(old(c.Rest()), nesting, old(output.Contents()));
            if turn.Out? then Agrees(whole, turn.answer, c.Rest())
            else c.pos > old(c.pos) && whole == ReadMembers(c.Rest(), nesting, output.Contents())
    decreases |c.text| - c.pos, 3
  {
    hide ReadMembers, ReadValue, QuotedString, SkipSpace, MemberTail, MostMembers;
    ghost var text, members := c.Rest(), output.Contents();
    MembersTurn(text, nesting, members);
    var key := NameAndColon(c);
    if key.None? { return Out(NoValue); }
    var a := ParseValue(c, nesting);
    if !a.Parsed? { return Out(a); }
    turn := AddAndGoOn(c, nesting, output, key.value, a.value);
  }

  /** `json_object_add`, then `,` or the end of the object. */
  method AddAndGoOn(c: Cursor, ghost nesting: nat, output: JsonObject, name: cstring, value: Json)
    returns (turn: Turn)
    requires c.Valid() && output.Valid() && MostMembers(output.names.Length) == OBJECT_MAX_CAPACITY
    modifies c, output, output.names, output.values
    ensures c.Valid() && output.Valid() && c.pos >= old(c.pos)
    ensures turn.Around? ==> MostMembers(output.names.Length) == OBJECT_MAX_CAPACITY
    ensures turn.Out? && turn.answer.Parsed? ==> output.names.Length == output.count
    ensures output.names == old(output.names) || fresh(output.names)
    ensures output.values == old(output.values) || fresh(output.values)
    ensures var whole := MemberTail(old(c.Rest()), nesting, old(output.Contents()), Member(name, value));
            if turn.Out? then Agrees(whole, turn.answer, c.Rest())
            else whole == ReadMembers(c.Rest(), nesting, output.Contents())
  {
    hide ReadMembers, HasName, SkipSpace;
    var ok := output.Add(name, value);
    if !ok { return Out(NoValue); }
    turn := MemberEnd(c, output);
  }

  /** A member up to and including its colon. */
  method NameAndColon(c: Cursor) returns (key: Option<cstring>)
    requires c.Valid()
    modifies c
    ensures c.Valid() && c.pos >= old(c.pos)
    ensures var q := QuotedString(old(c.Rest()));
            if q.NoString? || Head(SkipSpace(q.rest)) != 0x3A then key == None
            else key == Some(q.value) && c.Rest() == SkipSpace(q.rest)[1..] && c.pos > old(c.pos)
  {
    hide QuotedString;
    key := c.GetQuotedString();
    if key.None? { return; }
    c.SkipWhitespaces();
    if c.Peek() != 0x3A { return None; }
    c.Advance();
  }

  /** `,` or the end of the object behind a member; at the end the object is trimmed. */
  method MemberEnd(c: Cursor, output: JsonObject) returns (turn: Turn)
    requires c.Valid() && output.Valid() && output.count > 0
    modifies c, output
    ensures c.Valid() && output.Valid() && c.pos >= old(c.pos) && output.Contents() == old(output.Contents())
    ensures output.names == old(output.names) || fresh(output.names)
    ensures output.values == old(output.values) || fresh(output.values)
    ensures turn.Around? ==> output.names == old(output.names)
    ensures turn.Out? && turn.answer.Parsed? ==> output.names.Length == output.count
    ensures var t := SkipSpace(old(c.Rest()));
            if Head(t) == 0x2C then turn == Around && c.Rest() == SkipSpace(t[1..])
            else if Head(t) == 0x7D then turn == Out(Parsed(Obj(output.Contents()))) && c.Rest() == t[1..]
            else turn == Out(NoValue)
  {
    c.SkipWhitespaces();
    if c.Peek() != 0x2C {
      if c.Peek() != 0x7D { return Out(NoValue); }
      var trimmed := output.Resize(output.count);
      c.Advance();
      return Out(if trimmed then Parsed(Obj(output.Contents())) else NoValue);
    }
    c.Advance();
    c.SkipWhitespaces();
    turn := Around;
  }

  /** What the rest of the text makes of an object once a member has been read. */
  ghost function MemberTail(rest: seq<byte>, nesting: nat, members: seq<Member>, m: Member): Reading<Json> {
    if HasName(members, m.name) || |members| >= OBJECT_MAX_CAPACITY then Rejected
    else
      var t := SkipSpace(rest);
      if Head(t) == 0x2C then ReadMembers(SkipSpace(t[1..]), nesting, members + [m])
      else if Head(t) == 0x7D then Got(Obj(members + [m]), t[1..])
      else Rejected
  }

  /** One turn of the loop over an object's members. */
  lemma MembersTurn(text: seq<byte>, nesting: nat, members: seq<Member>)
    ensures var q := QuotedString(text);
            var whole := ReadMembers(text, nesting, members);
            if q.NoString? || Head(SkipSpace(q.rest)) != 0x3A then whole == Rejected
            else
              var r := ReadValue(SkipSpace(q.rest)[1..], nesting);
              if r.Rejected? then whole == Rejected
              else if r.Foreign? then whole == Foreign
              else whole == MemberTail(r.rest, nesting, members, Member(q.value, r.value))
  {
    hide ReadValue, QuotedString;
  }

  lemma NoMember(text: seq<byte>, nesting: nat, members: seq<Member>)
    requires Head(text) == 0
    ensures ReadMembers(text, nesting, members) == Rejected
  {
  }

  /** `json_parse_string`; text behind the value is not looked at. */
  method ParseText(text: seq<byte>) returns (a: Answer, end: nat)
    ensures end <= |text| && Agrees(ReadValue(text, 0), a, text[end..])
    ensures a.Parsed? && text[end..] == SkipSpace(text) <==> LoneMinus(SkipSpace(text))
  {
    var c := new Cursor(text);
    a := ParseValue(c, 0);
    end := c.pos;
    UnreadValue(text, 0);
  }
}
