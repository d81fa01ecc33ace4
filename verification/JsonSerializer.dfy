/** `json_serialize_to_buffer_r`: one traversal that measures when it has no buffer, and writes when it has. */
module JsonSerializer {
  import opened Bytes
  import opened JsonString
  import opened JsonValue
  import opened JsonEquality

  /**
   * `text` was written at `at`: what stood before is kept, and behind it at most one byte, the
   * place of the terminating NUL, was touched.
   */
  ghost predicate Put(before: seq<byte>, after: seq<byte>, at: nat, text: seq<byte>) {
    |before| == |after| && at + |text| < |after|
    && after[..at + |text|] == before[..at] + text
    && after[at + |text| + 1..] == before[at + |text| + 1..]
  }

  lemma PutTwice(b0: seq<byte>, b1: seq<byte>, b2: seq<byte>, at: nat, x: seq<byte>, y: seq<byte>)
    requires Put(b0, b1, at, x) && Put(b1, b2, at + |x|, y)
    ensures Put(b0, b2, at, x + y)
  {
    Assoc(b0[..at], x, y);
    var end := at + |x| + |y|;
    assert b1[end + 1..] == b1[at + |x| + 1..][|y|..] == b0[at + |x| + 1..][|y|..] == b0[end + 1..];
  }

  lemma PutNothing(b: seq<byte>, at: nat)
    requires at < |b|
    ensures Put(b, b, at, [])
  {
  }

  /** The contents of a buffer that may be NULL. */
  ghost function Contents(buf: array?<byte>): seq<byte>
    reads buf
  {
    if buf == null then [] else buf[..]
  }

  /** Room for the text and its NUL, if there is a buffer at all. */
  ghost predicate Room(buf: array?<byte>, at: nat, text: seq<byte>) {
    buf != null ==> at + |text| < buf.Length
  }

  /** The outcome of every append: the length, and in a buffer the text. */
  ghost predicate Appended(buf: array?<byte>, before: seq<byte>, at: nat, text: seq<byte>, written: nat)
    reads buf
  {
    written == |text| && (buf != null ==> Put(before, Contents(buf), at, text))
  }

  /** `append_string`: `sprintf` writes the terminating NUL as well. */
  method AppendString(buf: array?<byte>, at: nat, s: seq<byte>) returns (written: nat)
    requires Room(buf, at, s)
    modifies if buf == null then {} else {buf}
    ensures Appended(buf, old(Contents(buf)), at, s, written) && (buf != null ==> buf[at + |s|] == 0)
  {
    written := |s|;
    if buf != null {
      ghost var before := buf[..];
      for i := 0 to |s|
        invariant buf[..at + i] == before[..at] + s[..i] && buf[at + i..] == before[at + i..]
      {
        buf[at + i] := s[i];
        assert buf[..at + i + 1] == buf[..at + i] + [s[i]];
        assert buf[at + i + 1..] == before[at + i + 1..];
      }
      assert s[..|s|] == s;
      buf[at + |s|] := 0;
      assert buf[..at + |s|] == before[..at] + s;
      assert buf[at + |s| + 1..] == before[at + |s| + 1..];
    }
  }

  /** `APPEND_STRING`: one more string, behind what is written already. */
  method NextString(buf: array?<byte>, at: nat, s: seq<byte>, written: nat, ghost before: seq<byte>,
                    ghost done: seq<byte>)
    returns (total: nat)
    requires Appended(buf, before, at, done, written) && Room(buf, at, done + s)
    modifies if buf == null then {} else {buf}
    ensures Appended(buf, before, at, done + s, total) && (buf != null ==> buf[at + total] == 0)
  {
    hide Put;
    ghost var now := Contents(buf);
    var n := AppendString(buf, at + written, s);
    Extend(buf, before, now, at, done, s, written, n);
    total := written + n;
  }

  lemma NothingAppended(buf: array?<byte>, at: nat)
    requires Room(buf, at, [])
    ensures Appended(buf, Contents(buf), at, [], 0)
  {
  }

  /** `append_indent`. */
  method AppendIndent(buf: array?<byte>, at: nat, level: nat) returns (written: nat)
    requires Room(buf, at, Pad(level))
    modifies if buf == null then {} else {buf}
    ensures Appended(buf, old(Contents(buf)), at, Pad(level), written)
  {
    ghost var before := Contents(buf);
    written := 0;
    NothingAppended(buf, at);
    hide Appended, Put, Contents;
    for i := 0 to level
      invariant Appended(buf, before, at, Pad(i), written)
    {
      PadGrows(i, level);
      written := NextString(buf, at, [0x20, 0x20, 0x20, 0x20], written, before, Pad(i));
    }
  }

  lemma {:induction false} PadGrows(i: nat, level: nat)
    requires i < level
    ensures Pad(i + 1) == Pad(i) + [0x20, 0x20, 0x20, 0x20] && |Pad(i + 1)| <= |Pad(level)|
  {
    PadLength(i);
    PadLength(i + 1);
    PadLength(level);
  }

  lemma {:induction false} PadLength(level: nat)
    ensures |Pad(level)| == 4 * level
  {
    if level > 0 { PadLength(level - 1); }
  }

  lemma StringStarts(s: seq<byte>)
    ensures var whole := [QUOTE] + EscapeAll(s);
            QuotedText(s) == whole + [QUOTE] && Halfway([QUOTE], EscapeAll(s[0..]), whole)
  {
    assert s[0..] == s;
  }

  /** `json_serialize_string`. */
  method SerializeString(s: cstring, buf: array?<byte>, at: nat) returns (written: nat)
    requires Room(buf, at, QuotedText(s))
    modifies if buf == null then {} else {buf}
    ensures Appended(buf, old(Contents(buf)), at, QuotedText(s), written)
    ensures buf != null ==> buf[at + written] == 0
  {
    hide EscapeAll, Escaped, Halfway, Put, Contents, Appended, QuotedText;
    ghost var before, whole, done := Contents(buf), [QUOTE] + EscapeAll(s), [QUOTE];
    StringStarts(s);
    written := AppendString(buf, at, [QUOTE]);
    for i := 0 to |s|
      invariant Halfway(done, EscapeAll(s[i..]), whole) && Appended(buf, before, at, done, written)
    {
      EscapeStep(s, i);
      Onward(done, Escaped(s[i]), EscapeAll(s[i + 1..]), whole);
      written := NextCharacter(s[i], buf, at, written, before, done);
      done := done + Escaped(s[i]);
    }
    AllEscaped(s, done, whole);
    written := NextString(buf, at, [QUOTE], written, before, done);
  }

  /** One character, behind what is written already. */
  method NextCharacter(c: byte, buf: array?<byte>, at: nat, written: nat, ghost before: seq<byte>,
                       ghost done: seq<byte>)
    returns (total: nat)
    requires Appended(buf, before, at, done, written) && Room(buf, at, done + Escaped(c))
    modifies if buf == null then {} else {buf}
    ensures Appended(buf, before, at, done + Escaped(c), total)
  {
    hide Put, Escaped;
    ghost var now := Contents(buf);
    var n := SerializeCharacter(c, buf, at + written);
    Extend(buf, before, now, at, done, Escaped(c), written, n);
    total := written + n;
  }

  lemma EscapeStep(s: seq<byte>, i: nat)
    requires i < |s|
    ensures EscapeAll(s[i..]) == Escaped(s[i]) + EscapeAll(s[i + 1..])
  {
    assert s[i..][1..] == s[i + 1..];
  }

  lemma AllEscaped(s: seq<byte>, done: seq<byte>, whole: seq<byte>)
    requires Halfway(done, EscapeAll(s[|s|..]), whole)
    ensures done == whole
  {
    assert done + [] == done;
  }

  /** The `switch` on one character: plain ones are stored without a NUL behind them. */
  method SerializeCharacter(c: byte, buf: array?<byte>, at: nat) returns (written: nat)
    requires Room(buf, at, Escaped(c))
    modifies if buf == null then {} else {buf}
    ensures Appended(buf, old(Contents(buf)), at, Escaped(c), written)
  {
    if c >= 0x20 && c != QUOTE && c != BACKSLASH && c != SLASH {
      written := 1;
      if buf != null {
        ghost var before := buf[..];
        buf[at] := c;
        assert buf[..at + 1] == before[..at] + [c];
      }
    } else {
      written := AppendString(buf, at, Escaped(c));
    }
  }

  // ---------- values ----------

  /** One more append behind what is written already. */
  lemma Extend(buf: array?<byte>, before: seq<byte>, now: seq<byte>, at: nat, done: seq<byte>, more: seq<byte>,
               written: nat, n: nat)
    requires written == |done| && (buf != null ==> Put(before, now, at, done))
    requires Appended(buf, now, at + written, more, n)
    ensures Appended(buf, before, at, done + more, written + n)
  {
    if buf != null { PutTwice(before, now, buf[..], at, done, more); }
  }

  method AppendIf(buf: array?<byte>, at: nat, wanted: bool, s: seq<byte>) returns (written: nat)
    requires Room(buf, at, if wanted then s else [])
    modifies if buf == null then {} else {buf}
    ensures Appended(buf, old(Contents(buf)), at, if wanted then s else [], written)
  {
    if wanted {
      written := AppendString(buf, at, s);
    } else {
      written := 0;
      if buf != null { PutNothing(buf[..], at); }
    }
  }

  /** The indentation of a line; nothing in compact form. */
  method AppendLayout(buf: array?<byte>, at: nat, pretty: bool, level: nat) returns (written: nat)
    requires Room(buf, at, Indent(pretty, level))
    modifies if buf == null then {} else {buf}
    ensures Appended(buf, old(Contents(buf)), at, Indent(pretty, level), written)
  {
    if pretty {
      written := AppendIndent(buf, at, level);
    } else {
      written := 0;
      if buf != null { PutNothing(buf[..], at); }
    }
  }

  function Opening(open: byte, some: bool, pretty: bool): seq<byte> { [open] + Newline(some && pretty) }

  function Closing(close: byte, some: bool, pretty: bool, level: nat): seq<byte> {
    Indent(some && pretty, level) + [close]
  }

  /** The bracket that opens a value, and the line end behind it. */
  method AppendOpen(buf: array?<byte>, at: nat, open: byte, some: bool, pretty: bool) returns (written: nat)
    requires Room(buf, at, Opening(open, some, pretty))
    modifies if buf == null then {} else {buf}
    ensures Appended(buf, old(Contents(buf)), at, Opening(open, some, pretty), written)
  {
    var newline := some && pretty;
    ghost var before := Contents(buf);
    written := AppendString(buf, at, [open]);
    ghost var now := Contents(buf);
    var n := AppendIf(buf, at + written, newline, [0x0A]);
    Extend(buf, before, now, at, [open], Newline(newline), written, n);
    written := written + n;
  }

  /** The indentation and the bracket that close a value. */
  method AppendClose(buf: array?<byte>, at: nat, close: byte, some: bool, pretty: bool, level: nat)
    returns (written: nat)
    requires Room(buf, at, Closing(close, some, pretty, level))
    modifies if buf == null then {} else {buf}
    ensures Appended(buf, old(Contents(buf)), at, Closing(close, some, pretty, level), written)
    ensures buf != null ==> buf[at + written] == 0
  {
    var indented := some && pretty;
    ghost var before := Contents(buf);
    written := AppendLayout(buf, at, indented, level);
    ghost var now := Contents(buf);
    var n := AppendString(buf, at + written, [close]);
    Extend(buf, before, now, at, Indent(indented, level), [close], written, n);
    written := written + n;
  }

  /** `,` and the line end behind an element. */
  method AppendEnd(buf: array?<byte>, at: nat, more: bool, pretty: bool) returns (written: nat)
    requires Room(buf, at, Comma(more) + Newline(pretty))
    modifies if buf == null then {} else {buf}
    ensures Appended(buf, old(Contents(buf)), at, Comma(more) + Newline(pretty), written)
  {
    ghost var before := Contents(buf);
    written := AppendIf(buf, at, more, [0x2C]);
    ghost var now := Contents(buf);
    var n := AppendIf(buf, at + written, pretty, [0x0A]);
    Extend(buf, before, now, at, Comma(more), Newline(pretty), written, n);
    written := written + n;
  }

  function ItemText(v: Json, more: bool, level: nat, pretty: bool): seq<byte> {
    Indent(pretty, level) + Text(v, level, pretty) + (Comma(more) + Newline(pretty))
  }

  function NameText(m: Member, level: nat, pretty: bool): seq<byte> {
    Indent(pretty, level) + QuotedText(m.name) + Colon(pretty)
  }

  function MemberLine(m: Member, more: bool, level: nat, pretty: bool): seq<byte> {
    NameText(m, level, pretty) + Text(m.value, level, pretty) + (Comma(more) + Newline(pretty))
  }

  /** A text written so far, and what is still to come. */
  ghost predicate Halfway(done: seq<byte>, left: seq<byte>, whole: seq<byte>) {
    done + left == whole
  }

  lemma Onward(done: seq<byte>, next: seq<byte>, after: seq<byte>, whole: seq<byte>)
    requires Halfway(done, next + after, whole)
    ensures Halfway(done + next, after, whole) && |done + next| <= |whole|
  {
    Assoc(done, next, after);
    assert |done + (next + after)| == |done| + |next| + |after|;
  }

  lemma RoomWithin(buf: array?<byte>, at: nat, part: seq<byte>, whole: seq<byte>)
    requires Room(buf, at, whole) && |part| <= |whole|
    ensures Room(buf, at, part)
  {
  }

  lemma AtTheEnd(done: seq<byte>, next: seq<byte>, whole: seq<byte>)
    requires Halfway(done, next, whole)
    ensures done + next == whole
  {
  }

  /** The elements from `i` on, and the end of the array. */
  ghost function ItemsLeft(items: seq<Json>, i: nat, level: nat, pretty: bool, close: seq<byte>): seq<byte>
    requires i <= |items|
  {
    Items(items[i..], level, pretty) + close
  }

  ghost function MembersLeft(members: seq<Member>, i: nat, level: nat, pretty: bool, close: seq<byte>): seq<byte>
    requires i <= |members|
  {
    Members(members[i..], level, pretty) + close
  }

  lemma ItemsStep(items: seq<Json>, i: nat, level: nat, pretty: bool, close: seq<byte>)
    requires i < |items|
    ensures ItemsLeft(items, i, level, pretty, close)
            == ItemText(items[i], i + 1 < |items|, level, pretty) + ItemsLeft(items, i + 1, level, pretty, close)
  {
    var rest := items[i..];
    assert rest[0] == items[i] && rest[1..] == items[i + 1..];
    var a, b := Indent(pretty, level), Text(items[i], level, pretty);
    var c, d, e := Comma(i + 1 < |items|), Newline(pretty), Items(items[i + 1..], level, pretty);
    assert Items(rest, level, pretty) == a + b + c + d + e;
    hide Text, Items, Indent, Comma, Newline;
    Assoc(a + b, c, d);
    Assoc(a + b + c + d, e, close);
  }

  lemma MembersStep(members: seq<Member>, i: nat, level: nat, pretty: bool, close: seq<byte>)
    requires i < |members|
    ensures MembersLeft(members, i, level, pretty, close)
            == MemberLine(members[i], i + 1 < |members|, level, pretty)
               + MembersLeft(members, i + 1, level, pretty, close)
  {
    var rest := members[i..];
    assert rest[0] == members[i] && rest[1..] == members[i + 1..];
    var n, b := NameText(members[i], level, pretty), Text(members[i].value, level, pretty);
    var c, d, e := Comma(i + 1 < |members|), Newline(pretty), Members(members[i + 1..], level, pretty);
    assert Members(rest, level, pretty) == n + b + c + d + e;
    hide Text, Members, NameText, Comma, Newline;
    Assoc(n + b, c, d);
    Assoc(n + b + c + d, e, close);
  }

  lemma ArrayLayout(v: Json, level: nat, pretty: bool)
    requires v.Arr?
    ensures var some, n := |v.items| > 0, |v.items|;
            var open, close := Opening(0x5B, some, pretty), Closing(0x5D, some, pretty, level);
            Halfway(open, ItemsLeft(v.items, 0, level + 1, pretty, close), Text(v, level, pretty))
            && |open| <= |Text(v, level, pretty)| && ItemsLeft(v.items, n, level + 1, pretty, close) == close
  {
    assert v.items[0..] == v.items && v.items[|v.items|..] == [];
    if v.items != [] {
      var a, b, c := Opening(0x5B, true, pretty), Items(v.items, level + 1, pretty), Indent(pretty, level);
      Assoc(b, c, [0x5D]);
      Assoc(a, b + c, [0x5D]);
      Assoc(a, b, c);
    }
  }

  lemma ObjectLayout(v: Json, level: nat, pretty: bool)
    requires v.Obj?
    ensures var some, n := |v.members| > 0, |v.members|;
            var open, close := Opening(0x7B, some, pretty), Closing(0x7D, some, pretty, level);
            Halfway(open, MembersLeft(v.members, 0, level + 1, pretty, close), Text(v, level, pretty))
            && |open| <= |Text(v, level, pretty)| && MembersLeft(v.members, n, level + 1, pretty, close) == close
  {
    assert v.members[0..] == v.members && v.members[|v.members|..] == [];
    if v.members != [] {
      var a, b, c := Opening(0x7B, true, pretty), Members(v.members, level + 1, pretty), Indent(pretty, level);
      Assoc(b, c, [0x7D]);
      Assoc(a, b + c, [0x7D]);
      Assoc(a, b, c);
    }
  }

  lemma NumberFormats(n: whole)
    ensures NumberText(n) == if -0x8000_0000 <= n < 0x8000_0000 then Decimal(n)
                             else if 0 <= n < 0x1_0000_0000 then Digits(n) else Decimal(n) + FRACTION
  {
    hide Digits, Significant;
    assert Decimal(n) + [] == Decimal(n);
  }

  /** The three formats of a number: as an `int`, as an `unsigned int`, or with a fraction. */
  method SerializeNumber(n: whole, buf: array?<byte>, at: nat) returns (written: nat)
    requires Room(buf, at, NumberText(n))
    modifies if buf == null then {} else {buf}
    ensures Appended(buf, old(Contents(buf)), at, NumberText(n), written)
    ensures buf != null ==> buf[at + written] == 0
  {
    hide Put, Digits, Decimal, NumberText, IsDouble, Contents;
    NumberFormats(n);
    if -0x8000_0000 <= n < 0x8000_0000 {
      written := AppendString(buf, at, Decimal(n));
    } else if 0 <= n < 0x1_0000_0000 {
      written := AppendString(buf, at, Digits(n));
    } else {
      written := AppendString(buf, at, Decimal(n) + FRACTION);
    }
  }

  /** `json_serialize_to_buffer_r`. */
  method Serialize(v: Json, buf: array?<byte>, at: nat, level: nat, pretty: bool) returns (written: nat)
    requires Room(buf, at, Text(v, level, pretty)) && Unique(v)
    modifies if buf == null then {} else {buf}
    ensures Appended(buf, old(Contents(buf)), at, Text(v, level, pretty), written)
    ensures buf != null ==> buf[at + written] == 0
    decreases v, 2
  {
    match v
    case Null => written := AppendString(buf, at, NULL);
    case Bool(on) => written := AppendString(buf, at, if on then TRUE else FALSE);
    case Num(n) => written := SerializeNumber(n, buf, at);
    case Str(s) => written := SerializeString(s, buf, at);
    case Arr(items) => written := SerializeArray(v, buf, at, level, pretty);
    case Obj(members) => written := SerializeObject(v, buf, at, level, pretty);
  }

  method SerializeArray(v: Json, buf: array?<byte>, at: nat, level: nat, pretty: bool) returns (written: nat)
    requires v.Arr? && Unique(v) && Room(buf, at, Text(v, level, pretty))
    modifies if buf == null then {} else {buf}
    ensures Appended(buf, old(Contents(buf)), at, Text(v, level, pretty), written)
    ensures buf != null ==> buf[at + written] == 0
    decreases v, 1
  {
    var some := |v.items| > 0;
    ghost var before, done := Contents(buf), Opening(0x5B, some, pretty);
    ghost var close := Closing(0x5D, some, pretty, level);
    ghost var whole := Text(v, level, pretty);
    ArrayLayout(v, level, pretty);
    RoomWithin(buf, at, done, whole);
    hide *;
    written := AppendOpen(buf, at, 0x5B, some, pretty);
    written, done := SerializeItems(v.items, buf, at, level + 1, pretty, written, before, done, close, whole);
    AtTheEnd(done, close, whole);
    written := Close(buf, at, 0x5D, some, pretty, level, written, before, done);
  }

  /** The loop over an array's elements. */
  method SerializeItems(items: seq<Json>, buf: array?<byte>, at: nat, level: nat, pretty: bool, written: nat,
                        ghost before: seq<byte>, ghost start: seq<byte>, ghost close: seq<byte>,
                        ghost whole: seq<byte>)
    returns (total: nat, ghost done: seq<byte>)
    requires Appended(buf, before, at, start, written) && Room(buf, at, whole)
    requires forall i | 0 <= i < |items| :: Unique(items[i])
    requires Halfway(start, ItemsLeft(items, 0, level, pretty, close), whole)
    modifies if buf == null then {} else {buf}
    ensures Appended(buf, before, at, done, total)
    ensures Halfway(done, ItemsLeft(items, |items|, level, pretty, close), whole)
    decreases items, 5
  {
    total, done := written, start;
    hide *;
    for i := 0 to |items|
      invariant Appended(buf, before, at, done, total)
      invariant Halfway(done, ItemsLeft(items, i, level, pretty, close), whole)
    {
      ghost var piece := ItemText(items[i], i + 1 < |items|, level, pretty);
      ItemsStep(items, i, level, pretty, close);
      Onward(done, piece, ItemsLeft(items, i + 1, level, pretty, close), whole);
      RoomWithin(buf, at, done + piece, whole);
      total := NextItem(items[i], i + 1 < |items|, buf, at, level, pretty, total, before, done);
      done := done + piece;
    }
  }

  /** The closing bracket, behind what is written already. */
  method Close(buf: array?<byte>, at: nat, close: byte, some: bool, pretty: bool, level: nat, written: nat,
               ghost before: seq<byte>, ghost done: seq<byte>)
    returns (total: nat)
    requires Appended(buf, before, at, done, written) && Room(buf, at, done + Closing(close, some, pretty, level))
    modifies if buf == null then {} else {buf}
    ensures Appended(buf, before, at, done + Closing(close, some, pretty, level), total)
    ensures buf != null ==> buf[at + total] == 0
  {
    hide Put, Closing;
    ghost var now := Contents(buf);
    var n := AppendClose(buf, at + written, close, some, pretty, level);
    Extend(buf, before, now, at, done, Closing(close, some, pretty, level), written, n);
    total := written + n;
  }

  /** One element, behind what is written already. */
  method NextItem(v: Json, more: bool, buf: array?<byte>, at: nat, level: nat, pretty: bool, written: nat,
                  ghost before: seq<byte>, ghost done: seq<byte>)
    returns (total: nat)
    requires Appended(buf, before, at, done, written) && Unique(v)
    requires Room(buf, at, done + ItemText(v, more, level, pretty))
    modifies if buf == null then {} else {buf}
    ensures Appended(buf, before, at, done + ItemText(v, more, level, pretty), total)
    decreases v, 4
  {
    hide Put, ItemText;
    ghost var now := Contents(buf);
    var n := SerializeItem(v, more, buf, at + written, level, pretty);
    Extend(buf, before, now, at, done, ItemText(v, more, level, pretty), written, n);
    total := written + n;
  }

  /** One member, behind what is written already. */
  method NextMember(m: Member, more: bool, buf: array?<byte>, at: nat, level: nat, pretty: bool, written: nat,
                    ghost before: seq<byte>, ghost done: seq<byte>)
    returns (total: nat)
    requires Appended(buf, before, at, done, written) && Room(buf, at, done + MemberLine(m, more, level, pretty))
    requires Unique(m.value)
    modifies if buf == null then {} else {buf}
    ensures Appended(buf, before, at, done + MemberLine(m, more, level, pretty), total)
    decreases m, 4
  {
    hide Put, MemberLine;
    ghost var now := Contents(buf);
    var n := SerializeMember(m, more, buf, at + written, level, pretty);
    Extend(buf, before, now, at, done, MemberLine(m, more, level, pretty), written, n);
    total := written + n;
  }

  method SerializeItem(v: Json, more: bool, buf: array?<byte>, at: nat, level: nat, pretty: bool)
    returns (written: nat)
    requires Room(buf, at, ItemText(v, more, level, pretty)) && Unique(v)
    modifies if buf == null then {} else {buf}
    ensures Appended(buf, old(Contents(buf)), at, ItemText(v, more, level, pretty), written)
    decreases v, 3
  {
    hide Text, Indent, Comma, Newline, Put, Contents;
    ghost var before, a, b := Contents(buf), Indent(pretty, level), Text(v, level, pretty);
    written := AppendLayout(buf, at, pretty, level);
    ghost var now := Contents(buf);
    var n := Serialize(v, buf, at + written, level, pretty);
    Extend(buf, before, now, at, a, b, written, n);
    written := written + n;
    now := Contents(buf);
    n := AppendEnd(buf, at + written, more, pretty);
    Extend(buf, before, now, at, a + b, Comma(more) + Newline(pretty), written, n);
    written := written + n;
  }

  method SerializeObject(v: Json, buf: array?<byte>, at: nat, level: nat, pretty: bool) returns (written: nat)
    requires v.Obj? && Unique(v) && Room(buf, at, Text(v, level, pretty))
    modifies if buf == null then {} else {buf}
    ensures Appended(buf, old(Contents(buf)), at, Text(v, level, pretty), written)
    ensures buf != null ==> buf[at + written] == 0
    decreases v, 1
  {
    var some := |v.members| > 0;
    ghost var before, done := Contents(buf), Opening(0x7B, some, pretty);
    ghost var close := Closing(0x7D, some, pretty, level);
    ghost var whole := Text(v, level, pretty);
    ObjectLayout(v, level, pretty);
    RoomWithin(buf, at, done, whole);
    hide *;
    written := AppendOpen(buf, at, 0x7B, some, pretty);
    written, done := SerializeMembers(v.members, buf, at, level + 1, pretty, written, before, done, close, whole);
    AtTheEnd(done, close, whole);
    written := Close(buf, at, 0x7D, some, pretty, level, written, before, done);
  }

  /** The loop over an object's members. */
  method SerializeMembers(members: seq<Member>, buf: array?<byte>, at: nat, level: nat, pretty: bool, written: nat,
                          ghost before: seq<byte>, ghost start: seq<byte>, ghost close: seq<byte>,
                          ghost whole: seq<byte>)
    returns (total: nat, ghost done: seq<byte>)
    requires Appended(buf, before, at, start, written) && Room(buf, at, whole)
    requires UniqueNames(members) && forall i | 0 <= i < |members| :: Unique(members[i].value)
    requires Halfway(start, MembersLeft(members, 0, level, pretty, close), whole)
    modifies if buf == null then {} else {buf}
    ensures Appended(buf, before, at, done, total)
    ensures Halfway(done, MembersLeft(members, |members|, level, pretty, close), whole)
    decreases members, 5
  {
    total, done := written, start;
    hide *;
    for i := 0 to |members|
      invariant Appended(buf, before, at, done, total)
      invariant Halfway(done, MembersLeft(members, i, level, pretty, close), whole)
    {
      ghost var piece := MemberLine(members[i], i + 1 < |members|, level, pretty);
      MembersStep(members, i, level, pretty, close);
      Onward(done, piece, MembersLeft(members, i + 1, level, pretty, close), whole);
      RoomWithin(buf, at, done + piece, whole);
      var key := members[i].name;
      UniqueFind(members, i);
      var value := members[Find(members, key).value].value;
      assert Member(key, value) == members[i];
      total := NextMember(Member(key, value), i + 1 < |members|, buf, at, level, pretty, total, before, done);
      done := done + piece;
    }
  }

  method SerializeName(m: Member, buf: array?<byte>, at: nat, level: nat, pretty: bool) returns (written: nat)
    requires Room(buf, at, NameText(m, level, pretty))
    modifies if buf == null then {} else {buf}
    ensures Appended(buf, old(Contents(buf)), at, NameText(m, level, pretty), written)
  {
    hide QuotedText, Indent, Colon, Put, Contents;
    ghost var before, a, b := Contents(buf), Indent(pretty, level), QuotedText(m.name);
    written := AppendLayout(buf, at, pretty, level);
    ghost var now := Contents(buf);
    var n := SerializeString(m.name, buf, at + written);
    Extend(buf, before, now, at, a, b, written, n);
    written := written + n;
    now := Contents(buf);
    n := AppendColon(buf, at + written, pretty);
    Extend(buf, before, now, at, a + b, Colon(pretty), written, n);
    written := written + n;
  }

  method AppendColon(buf: array?<byte>, at: nat, pretty: bool) returns (written: nat)
    requires Room(buf, at, Colon(pretty))
    modifies if buf == null then {} else {buf}
    ensures Appended(buf, old(Contents(buf)), at, Colon(pretty), written)
  {
    ghost var before := Contents(buf);
    written := AppendString(buf, at, [0x3A]);
    ghost var now := Contents(buf);
    var n := AppendIf(buf, at + written, pretty, [0x20]);
    Extend(buf, before, now, at, [0x3A], if pretty then [0x20] else [], written, n);
    assert [0x3A] + (if pretty then [0x20] else []) == Colon(pretty);
    written := written + n;
  }

  method SerializeMember(m: Member, more: bool, buf: array?<byte>, at: nat, level: nat, pretty: bool)
    returns (written: nat)
    requires Room(buf, at, MemberLine(m, more, level, pretty)) && Unique(m.value)
    modifies if buf == null then {} else {buf}
    ensures Appended(buf, old(Contents(buf)), at, MemberLine(m, more, level, pretty), written)
    decreases m, 3
  {
    hide Text, NameText, Comma, Newline, Put, Contents;
    ghost var before, a, b := Contents(buf), NameText(m, level, pretty), Text(m.value, level, pretty);
    written := SerializeName(m, buf, at, level, pretty);
    ghost var now := Contents(buf);
    var n := Serialize(m.value, buf, at + written, level, pretty);
    Extend(buf, before, now, at, a, b, written, n);
    written := written + n;
    now := Contents(buf);
    n := AppendEnd(buf, at + written, more, pretty);
    Extend(buf, before, now, at, a + b, Comma(more) + Newline(pretty), written, n);
    written := written + n;
  }

  // ---------- the interface ----------

  /** `json_serialization_size` and `json_serialization_size_pretty`: the pass without a buffer. */
  method SerializationSize(v: Json, pretty: bool) returns (size: nat)
    requires Unique(v)
    ensures size == |Text(v, 0, pretty)| + 1
  {
    var res := Serialize(v, null, 0, 0, pretty);
    size := res + 1;
  }

  /**
   * `json_serialize_to_buffer`: succeeds exactly when the buffer has the size reported, then
   * holds the text and its NUL, and keeps every byte behind them.
   */
  method SerializeToBuffer(v: Json, buf: array<byte>, pretty: bool) returns (ok: bool)
    requires Unique(v)
    modifies buf
    ensures ok == (buf.Length >= |Text(v, 0, pretty)| + 1)
    ensures ok ==> buf[..|Text(v, 0, pretty)|] == Text(v, 0, pretty) && buf[|Text(v, 0, pretty)|] == 0
                   && buf[|Text(v, 0, pretty)| + 1..] == old(buf[|Text(v, 0, pretty)| + 1..])
    ensures !ok ==> buf[..] == old(buf[..])
  {
    var needed := SerializationSize(v, pretty);
    if buf.Length < needed { return false; }
    ghost var before, text := buf[..], Text(v, 0, pretty);
    var written := Serialize(v, buf, 0, 0, pretty);
    assert before[..0] + text == text;
    assert buf[..][..written] == buf[..written] && buf[..][written + 1..] == buf[written + 1..];
    assert before[written + 1..] == old(buf[written + 1..]);
    ok := true;
  }

  /** `json_serialize_to_string`: a buffer of exactly the size reported is enough. */
  method SerializeToString(v: Json, pretty: bool) returns (buf: array<byte>)
    requires Unique(v)
    ensures fresh(buf) && buf[..] == Text(v, 0, pretty) + [0]
  {
    var size := SerializationSize(v, pretty);
    buf := new byte[size];
    var ok := SerializeToBuffer(v, buf, pretty);
    assert buf[..] == buf[..size - 1] + [buf[size - 1]];
  }
}
