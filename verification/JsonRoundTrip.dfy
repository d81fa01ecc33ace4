/** Whatever the serializer writes, the parser reads back. */
module JsonRoundTrip {
  import opened Bytes
  import opened JsonString
  import opened JsonValue
  import opened JsonSyntax

  // ---------- numbers ----------

  lemma {:induction false} DigitsAreDigits(n: nat)
    ensures forall i | 0 <= i < |Digits(n)| :: IsDigit(Digits(n)[i])
    ensures n > 0 ==> Digits(n)[0] != 0x30
    ensures n == 0 ==> Digits(n) == [0x30]
    ensures ValueOf(Digits(n)) == n
  {
    if n < 10 {
      assert Digits(n)[..0] == [];
    } else {
      DigitsAreDigits(n / 10);
      var head := Digits(n / 10);
      assert Digits(n)[..|Digits(n)| - 1] == head;
    }
  }

  /** The numeral that is printed for a number. */
  function NumeralOf(n: whole): (x: Syntax)
    ensures x.Number?
  {
    Number(n < 0, Digits(Magnitude(n)), Fraction(n) != [], if Fraction(n) == [] then [] else Fraction(n)[1..])
  }

  lemma NumeralGrammatical(n: whole)
    ensures Grammatical(NumeralOf(n)) && Meaning(NumeralOf(n)) == Num(n)
  {
    DigitsAreDigits(Magnitude(n));
    hide Digits, ValueOf, Significant;
    assert Magnitude(Magnitude(n)) == Magnitude(n) && IsDouble(n);
  }

  lemma FractionText(n: whole, tail: seq<byte>)
    ensures Fraction(n) + tail
         == if Fraction(n) == [] then tail else [0x2E] + (Fraction(n)[1..] + tail)
  {
    assert Fraction(n) != [] ==> Fraction(n) == [0x2E] + Fraction(n)[1..];
  }

  lemma NumeralText(n: whole, tail: seq<byte>)
    ensures NumberText(n) + tail == Put(NumeralOf(n), tail)
  {
    hide Digits, Significant;
    var digits := Digits(Magnitude(n));
    Assoc(Decimal(n), Fraction(n), tail);
    if n < 0 { Assoc([0x2D], digits, Fraction(n) + tail); }
    FractionText(n, tail);
  }

  /** What may follow a number without changing it. */
  predicate EndsNumber(tail: seq<byte>) {
    var c := Head(tail);
    !IsDigit(c) && c !in {0x2E, 0x45, 0x65, 0x58, 0x78}
  }

  /** Whatever prints an integer, `strtod` reads it back. */
  lemma NumberRoundTrip(n: whole, tail: seq<byte>)
    requires EndsNumber(tail)
    ensures ReadNumber(NumberText(n) + tail) == Got(Num(n), tail)
  {
    hide ReadNumber, NumberText, Put, Numeral, Digits, Meaning;
    NumeralGrammatical(n);
    NumeralText(n, tail);
    NumberRead(NumeralOf(n), tail);
  }

  // ---------- strings ----------

  lemma EscapedIsBody(s: cstring)
    ensures StringBody(EscapeAll(s)) && StringOf(EscapeAll(s)) == s
  {
    hide Closed, Unescape, EscapeAll, CString, BodyLength;
    var text := EscapeAll(s) + ([QUOTE] + []);
    EscapedDelimited(s, []);
    BodyIsClosed(text);
    assert text[..|EscapeAll(s)|] == EscapeAll(s);
    UnescapeEscape(s);
    CStringWhole(s);
  }

  lemma EscapedText(s: cstring, tail: seq<byte>)
    ensures QuotedText(s) + tail == PutQuoted(EscapeAll(s), tail)
  {
    hide EscapeAll;
    Assoc([QUOTE] + EscapeAll(s), [QUOTE], tail);
    Assoc([QUOTE], EscapeAll(s), [QUOTE] + tail);
  }

  // ---------- the serializer's own layout ----------

  /** A new line with four spaces a level, or nothing at all. */
  function Line(pretty: bool, level: nat): (s: seq<byte>)
    ensures Gap(s)
  {
    if pretty then [0x0A] + seq(4 * level, _ => 0x20) else []
  }

  lemma {:induction false} LineIs(pretty: bool, level: nat)
    ensures Newline(pretty) + Indent(pretty, level) == Line(pretty, level)
  {
    if pretty { PadIs(level); }
  }

  lemma {:induction false} PadIs(level: nat)
    ensures Pad(level) == seq(4 * level, _ => 0x20)
  {
    if level > 0 { PadIs(level - 1); }
  }

  /** A value as the serializer lays it out: lines and four spaces a level, or nothing at all. */
  function Laid(v: Json, level: nat, pretty: bool): Syntax
    decreases v, 0
  {
    match v
    case Null => Word(v)
    case Bool(_) => Word(v)
    case Num(n) => NumeralOf(n)
    case Str(s) => Quoted(EscapeAll(s))
    case Arr(items) => Array([], LaidItems(items, level + 1, pretty, Line(pretty, level)))
    case Obj(members) => Object([], LaidMembers(members, level + 1, pretty, Line(pretty, level)))
  }

  function LaidItems(items: seq<Json>, level: nat, pretty: bool, end: seq<byte>): (laid: seq<Item>)
    ensures |laid| == |items|
    decreases items, 1
  {
    if items == [] then []
    else
      var before, after := Line(pretty, level), if |items| == 1 then end else [];
      [Item(before, Laid(items[0], level, pretty), after)] + LaidItems(items[1..], level, pretty, end)
  }

  function LaidMembers(members: seq<Member>, level: nat, pretty: bool, end: seq<byte>): (laid: seq<Pair>)
    ensures |laid| == |members|
    decreases members, 1
  {
    if members == [] then []
    else [LaidMember(members[0], level, pretty, if |members| == 1 then end else [])]
         + LaidMembers(members[1..], level, pretty, end)
  }

  function LaidMember(m: Member, level: nat, pretty: bool, after: seq<byte>): Pair
    decreases m, 0
  {
    Pair(Line(pretty, level), EscapeAll(m.name), [], if pretty then [0x20] else [],
         Laid(m.value, level, pretty), after)
  }

  lemma SmallGaps()
    ensures Gap([]) && Gap([0x20])
  {
  }

  /** The layout is grammatical, and means the value. */
  lemma {:induction false} LaidMeans(v: Json, level: nat, pretty: bool)
    ensures Grammatical(Laid(v, level, pretty)) && Meaning(Laid(v, level, pretty)) == v
    decreases v, 0
  {
    hide GrammaticalItem, GrammaticalPair, NumeralOf, EscapeAll, StringBody, StringOf, LaidItems, LaidMembers, Line;
    SmallGaps();
    match v
    case Null =>
    case Bool(_) =>
    case Num(n) => NumeralGrammatical(n);
    case Str(s) => EscapedIsBody(s);
    case Arr(items) => ItemsMean(items, level + 1, pretty, Line(pretty, level));
    case Obj(members) => MembersMean(members, level + 1, pretty, Line(pretty, level));
  }

  lemma {:induction false} ItemsMean(items: seq<Json>, level: nat, pretty: bool, end: seq<byte>)
    requires Gap(end)
    ensures var laid := LaidItems(items, level, pretty, end);
            Meanings(laid) == items && forall i | 0 <= i < |laid| :: GrammaticalItem(laid[i])
    decreases items, 1
  {
    hide Grammatical, Laid, Meaning, Line, Gap;
    if items != [] {
      SmallGaps();
      LaidMeans(items[0], level, pretty);
      ItemsMean(items[1..], level, pretty, end);
      assert items == [items[0]] + items[1..];
    }
  }

  lemma {:induction false} MembersMean(members: seq<Member>, level: nat, pretty: bool, end: seq<byte>)
    requires Gap(end)
    ensures var laid := LaidMembers(members, level, pretty, end);
            MemberMeanings(laid) == members && forall i | 0 <= i < |laid| :: GrammaticalPair(laid[i])
    decreases members, 1
  {
    hide Grammatical, Laid, Meaning, Line, Gap, StringBody, StringOf, EscapeAll;
    if members != [] {
      var m := members[0];
      SmallGaps();
      EscapedIsBody(m.name);
      LaidMeans(m.value, level, pretty);
      MembersMean(members[1..], level, pretty, end);
      assert members == [Member(m.name, m.value)] + members[1..];
    }
  }

  lemma Regroup(a: seq<byte>, b: seq<byte>, c: seq<byte>, d: seq<byte>, e: seq<byte>, f: seq<byte>)
    ensures a + b + c + d + e + f == a + (b + (c + (d + (e + f))))
  {
    Assoc(a + b + c + d, e, f);
    Assoc(a + b + c, d, e + f);
    Assoc(a + b, c, d + (e + f));
    Assoc(a, b, c + (d + (e + f)));
  }

  lemma LeafText(v: Json, level: nat, pretty: bool, tail: seq<byte>)
    requires !v.Arr? && !v.Obj?
    ensures Text(v, level, pretty) + tail == Put(Laid(v, level, pretty), tail)
  {
    hide QuotedText, PutQuoted, NumberText, NumeralOf, EscapeAll;
    if v.Num? { NumeralText(v.n, tail); }
    if v.Str? { EscapedText(v.s, tail); }
  }

  /** The text of a value spells its layout. */
  lemma {:induction false} LaidText(v: Json, level: nat, pretty: bool, tail: seq<byte>)
    ensures Text(v, level, pretty) + tail == Put(Laid(v, level, pretty), tail)
    decreases v, 1
  {
    hide Text, Put;
    match v
    case Null => LeafText(v, level, pretty, tail);
    case Bool(_) => LeafText(v, level, pretty, tail);
    case Num(_) => LeafText(v, level, pretty, tail);
    case Str(_) => LeafText(v, level, pretty, tail);
    case Arr(items) => ArrayText(v, level, pretty, tail);
    case Obj(members) => ObjectText(v, level, pretty, tail);
  }

  lemma {:induction false} ArrayText(v: Json, level: nat, pretty: bool, tail: seq<byte>)
    requires v.Arr?
    ensures Text(v, level, pretty) + tail == Put(Laid(v, level, pretty), tail)
    decreases v, 0
  {
    hide Items, PutItems, LaidItems, Newline, Indent, Line;
    var close, end := [0x5D] + tail, Line(pretty, level);
    var inner := Items(v.items, level + 1, pretty);
    var laid := LaidItems(v.items, level + 1, pretty, end);
    if v.items == [] {
      NoItems(close);
      assert laid == [] && [] + close == close;
    } else {
      Regroup([0x5B], Newline(pretty), inner, Indent(pretty, level), [0x5D], tail);
      ItemsText(v.items, level + 1, pretty, level, close);
      assert [] + PutItems(laid, close) == PutItems(laid, close);
    }
  }

  /** Elements, from the line break in front of the first to the bracket. */
  lemma {:induction false} ItemsText(items: seq<Json>, level: nat, pretty: bool, outer: nat, close: seq<byte>)
    requires items != []
    ensures Newline(pretty) + (Items(items, level, pretty) + (Indent(pretty, outer) + close))
         == PutItems(LaidItems(items, level, pretty, Line(pretty, outer)), close)
    decreases items, 2
  {
    hide Text, Laid, Newline, Indent, Put, Line;
    LineIs(pretty, level);
    LineIs(pretty, outer);
    var n, i, o := Newline(pretty), Indent(pretty, level), Indent(pretty, outer);
    var t, r := Text(items[0], level, pretty), Items(items[1..], level, pretty);
    var x, more := Laid(items[0], level, pretty), LaidItems(items[1..], level, pretty, n + o);
    Regroup(i, t, Comma(|items| > 1), n, r, o + close);
    Assoc(n, i, t + (Comma(|items| > 1) + (n + (r + (o + close)))));
    if |items| == 1 {
      LaidText(items[0], level, pretty, n + o + close);
      Assoc(n, o, close);
      assert r == [] && [] + (n + (r + (o + close))) == n + (o + close);
      PutMoreStarts(more, close);
    } else {
      LaidText(items[0], level, pretty, [] + ([0x2C] + PutItems(more, close)));
      ItemsText(items[1..], level, pretty, outer, close);
      PutMoreStarts(more, close);
      assert [] + ([0x2C] + PutItems(more, close)) == [0x2C] + PutItems(more, close);
    }
  }

  lemma {:induction false} ObjectText(v: Json, level: nat, pretty: bool, tail: seq<byte>)
    requires v.Obj?
    ensures Text(v, level, pretty) + tail == Put(Laid(v, level, pretty), tail)
    decreases v, 0
  {
    hide Members, PutPairs, LaidMembers, Newline, Indent, Line;
    var close, end := [0x7D] + tail, Line(pretty, level);
    var inner := Members(v.members, level + 1, pretty);
    var laid := LaidMembers(v.members, level + 1, pretty, end);
    if v.members == [] {
      NoPairs(close);
      assert laid == [] && [] + close == close;
    } else {
      Regroup([0x7B], Newline(pretty), inner, Indent(pretty, level), [0x7D], tail);
      MembersText(v.members, level + 1, pretty, level, close);
      assert [] + PutPairs(laid, close) == PutPairs(laid, close);
    }
  }

  /** A name, its colon and its value, in front of whatever follows. */
  lemma NamedText(m: Member, level: nat, pretty: bool, behind: seq<byte>)
    ensures QuotedText(m.name) + (Colon(pretty) + behind)
         == PutQuoted(EscapeAll(m.name), [] + ([0x3A] + ((if pretty then [0x20] else []) + behind)))
  {
    EscapedText(m.name, Colon(pretty) + behind);
    assert Colon(pretty) == [0x3A] + if pretty then [0x20] else [];
    Assoc([0x3A], if pretty then [0x20] else [], behind);
    var rest := [0x3A] + ((if pretty then [0x20] else []) + behind);
    assert [] + rest == rest;
  }

  /** Members, from the line break in front of the first to the brace. */
  lemma {:induction false} MembersText(members: seq<Member>, level: nat, pretty: bool, outer: nat, close: seq<byte>)
    requires members != []
    ensures Newline(pretty) + (Members(members, level, pretty) + (Indent(pretty, outer) + close))
         == PutPairs(LaidMembers(members, level, pretty, Line(pretty, outer)), close)
    decreases members, 2
  {
    hide Text, Laid, Newline, Indent, Put, QuotedText, PutQuoted, Colon, EscapeAll, Line;
    LineIs(pretty, level);
    LineIs(pretty, outer);
    var n, i, o := Newline(pretty), Indent(pretty, level), Indent(pretty, outer);
    var m, c := members[0], Comma(|members| > 1);
    var q, k, t := QuotedText(m.name), Colon(pretty), Text(m.value, level, pretty);
    var r := Members(members[1..], level, pretty);
    var x, more := Laid(m.value, level, pretty), LaidMembers(members[1..], level, pretty, n + o);
    var behind := c + (n + (r + (o + close)));
    Regroup(i + q, k, t, c, n + r, o + close);
    Assoc(i + q + k + t + c, n, r);
    Assoc(n, r, o + close);
    Assoc(i, q, k + (t + behind));
    Assoc(n, i, q + (k + (t + behind)));
    NamedText(m, level, pretty, t + behind);
    if |members| == 1 {
      LaidText(m.value, level, pretty, behind);
      Assoc(n, o, close);
      assert r == [] && behind == n + (o + close);
      PutMorePairsStarts(more, close);
    } else {
      LaidText(m.value, level, pretty, behind);
      MembersText(members[1..], level, pretty, outer, close);
      PutMorePairsStarts(more, close);
      assert [] + behind == behind;
    }
  }

  /** A written value is read back, with its tail untouched, exactly when the library can hold it at that depth. */
  lemma ValueRead(v: Json, level: nat, pretty: bool, nesting: nat, tail: seq<byte>)
    requires EndsNumber(tail)
    ensures ReadValue(Text(v, level, pretty) + tail, nesting) == Expected(v, nesting, tail)
  {
    hide Text, Laid, Put, Grammatical, Meaning, ReadValue, Expected;
    LaidMeans(v, level, pretty);
    LaidText(v, level, pretty, tail);
    var text := Put(Laid(v, level, pretty), tail);
    JsonSyntax.ValueRead(Laid(v, level, pretty), [], nesting, tail);
    assert [] + text == text;
  }

  /**
   * The parser reads back every value the serializer wrote, compact or pretty, and takes the whole text, exactly
   * when names are unique, sizes within the capacities, and no leaf lies deeper than 19.
   */
  lemma RoundTrip(v: Json, pretty: bool)
    ensures ReadValue(Text(v, 0, pretty), 0) == if Proper(v) && Shallow(v, 0) then Got(v, []) else Rejected
  {
    assert Text(v, 0, pretty) + [] == Text(v, 0, pretty);
    ValueRead(v, 0, pretty, 0, []);
  }
}
