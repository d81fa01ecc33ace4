/** What the parser accepts is grammatical: together with the reading, exactly the grammar. */
module JsonGrammar {
  import opened Bytes
  import opened JsonString
  import opened JsonValue
  import opened JsonSyntax

  // ---------- white space ----------

  lemma SpaceJoins(c: byte, gap: seq<byte>)
    requires IsSpace(c) && Gap(gap)
    ensures Gap([c] + gap)
  {
  }

  lemma EmptyGap()
    ensures Gap([])
  {
  }

  /** What is skipped is a gap. */
  lemma {:induction false} SkippedGap(text: seq<byte>) returns (gap: seq<byte>)
    ensures Gap(gap) && text == gap + SkipSpace(text)
  {
    hide Gap;
    if IsSpace(Head(text)) {
      var rest := SkippedGap(text[1..]);
      gap := [text[0]] + rest;
      SpaceJoins(text[0], rest);
      Assoc([text[0]], rest, SkipSpace(text));
      assert text == [text[0]] + text[1..];
    } else {
      gap := [];
      EmptyGap();
    }
  }

  lemma GapsJoin(a: seq<byte>, b: seq<byte>)
    requires Gap(a) && Gap(b)
    ensures Gap(a + b)
  {
  }

  // ---------- numbers ----------

  lemma {:induction false} RunStops(text: seq<byte>)
    ensures var k := DigitRun(text); AllDigits(text[..k]) && !IsDigit(Head(text[k..]))
  {
    if text != [] && IsDigit(text[0]) {
      RunStops(text[1..]);
      assert text[1..][DigitRun(text[1..])..] == text[DigitRun(text)..];
    } else {
      assert text[0..] == text;
    }
  }

  /** The numeral that stands behind the sign. */
  function NumeralOf(minus: bool, body: seq<byte>): (x: Syntax)
    ensures x.Number?
  {
    var k := DigitRun(body);
    if Head(body[k..]) == 0x2E then Number(minus, body[..k], true, body[k + 1..][..DigitRun(body[k + 1..])])
    else Number(minus, body[..k], false, [])
  }

  lemma EvaluatedIsNumeral(minus: bool, digits: seq<byte>, point: bool, fraction: seq<byte>, rest: seq<byte>)
    requires AllDigits(digits) && AllDigits(fraction) && Evaluate(minus, digits, point, fraction, rest).Got?
    requires (fraction != [] ==> point) && (digits == [] ==> minus && fraction != []) && !IsDigit(Head(rest))
    requires !point ==> Head(rest) != 0x2E
    ensures var x := Number(minus, digits, point, fraction);
            Grammatical(x) && Delimited(x, rest)
            && Evaluate(minus, digits, point, fraction, rest) == Got(Meaning(x), rest)
  {
    hide Significant, ValueOf;
    ZeroIsZeros(fraction);
    if digits != [] { OneZero(digits); }
  }

  /** Where digits start, there are some in front of the point or behind it. */
  lemma DigitsThere(body: seq<byte>)
    requires StartsDigits(body)
    ensures var k := DigitRun(body); k > 0 || (Head(body[k..]) == 0x2E && DigitRun(body[k + 1..]) > 0)
  {
    assert body[0..] == body;
  }

  lemma PointSplit(body: seq<byte>, k: nat)
    requires k == DigitRun(body) && Head(body[k..]) == 0x2E
    ensures k < |body| && AllDigits(body[..k])
    ensures var behind := body[k + 1..];
            var j := DigitRun(behind);
            && AllDigits(behind[..j]) && body[k + 1 + j..] == behind[j..] && !IsDigit(Head(behind[j..]))
            && body == PutDigits(body[..k], true, behind[..j], behind[j..])
  {
    hide DigitRun;
    RunStops(body);
    var behind := body[k + 1..];
    var j := DigitRun(behind);
    RunStops(behind);
    assert body == body[..k] + ([0x2E] + (behind[..j] + behind[j..]));
  }

  lemma NoPointSplit(body: seq<byte>, k: nat)
    requires k == DigitRun(body)
    ensures AllDigits(body[..k]) && !IsDigit(Head(body[k..])) && body == PutDigits(body[..k], false, [], body[k..])
  {
    hide DigitRun;
    RunStops(body);
  }

  lemma NoDigits(body: seq<byte>)
    requires SpellsInfinity(body)
    ensures DigitRun(body) == 0 && Head(body[0..]) != 0x2E
  {
    assert body[0..] == body;
  }

  lemma StartsNumeral(text: seq<byte>)
    requires (Head(text) == 0x2D || IsDigit(Head(text))) && ReadNumber(text).Got? && !LoneMinus(text)
    ensures StartsDigits(if Head(text) == 0x2D then text[1..] else text)
  {
    hide Evaluate;
    var body := if Head(text) == 0x2D then text[1..] else text;
    if SpellsInfinity(body) { NoDigits(body); }
  }

  lemma DigitFirst(text: seq<byte>, body: seq<byte>, k: nat)
    requires k == DigitRun(body) && IsDigit(Head(text)) && body == text
    ensures k > 0
  {
  }

  /** The text behind the sign. */
  function Unsigned(text: seq<byte>): seq<byte> {
    if Head(text) == 0x2D then text[1..] else text
  }

  lemma UnsignedPut(text: seq<byte>, x: Syntax, tail: seq<byte>)
    requires x.Number? && x.minus == (Head(text) == 0x2D)
    requires Unsigned(text) == PutDigits(x.digits, x.point, x.fraction, tail)
    ensures text == Put(x, tail)
  {
    hide PutDigits;
  }

  lemma PointNumeral(text: seq<byte>, k: nat)
    requires ReadNumber(text).Got? && k == DigitRun(Unsigned(text)) && Head(Unsigned(text)[k..]) == 0x2E
    requires k == 0 ==> Head(text) == 0x2D && DigitRun(Unsigned(text)[1..]) > 0
    ensures var x, r := NumeralOf(Head(text) == 0x2D, Unsigned(text)), ReadNumber(text);
            Grammatical(x) && Delimited(x, r.rest) && r.value == Meaning(x) && text == Put(x, r.rest)
  {
    hide ReadNumber, Evaluate, Grammatical, Delimited, Meaning, DigitRun, PutDigits, Put;
    var minus, body := Head(text) == 0x2D, Unsigned(text);
    var behind := body[k + 1..];
    var j := DigitRun(behind);
    PointSplit(body, k);
    BodyTaken(text, minus, body, k, j);
    EvaluatedIsNumeral(minus, body[..k], true, behind[..j], behind[j..]);
    UnsignedPut(text, Number(minus, body[..k], true, behind[..j]), behind[j..]);
  }

  lemma PlainNumeral(text: seq<byte>, k: nat)
    requires ReadNumber(text).Got? && k == DigitRun(Unsigned(text)) && Head(Unsigned(text)[k..]) != 0x2E && k > 0
    ensures var x, r := NumeralOf(Head(text) == 0x2D, Unsigned(text)), ReadNumber(text);
            Grammatical(x) && Delimited(x, r.rest) && r.value == Meaning(x) && text == Put(x, r.rest)
  {
    hide ReadNumber, Evaluate, Grammatical, Delimited, Meaning, DigitRun, PutDigits, Put;
    var minus, body := Head(text) == 0x2D, Unsigned(text);
    NoPointSplit(body, k);
    BodyTaken(text, minus, body, k, 0);
    EvaluatedIsNumeral(minus, body[..k], false, [], body[k..]);
    UnsignedPut(text, Number(minus, body[..k], false, []), body[k..]);
  }

  /** An accepted number that takes text off is a numeral. */
  lemma NumberIsNumeral(text: seq<byte>)
    requires (Head(text) == 0x2D || IsDigit(Head(text))) && ReadNumber(text).Got? && !LoneMinus(text)
    ensures var x, r := NumeralOf(Head(text) == 0x2D, Unsigned(text)), ReadNumber(text);
            Grammatical(x) && Delimited(x, r.rest) && r.value == Meaning(x) && text == Put(x, r.rest)
  {
    hide ReadNumber, Grammatical, Delimited, Meaning, StartsDigits, LoneMinus, DigitRun, Put, NumeralOf;
    var body := Unsigned(text);
    var k := DigitRun(body);
    StartsNumeral(text);
    DigitsThere(body);
    if Head(text) != 0x2D { DigitFirst(text, body, k); }
    if Head(body[k..]) == 0x2E { PointNumeral(text, k); } else { PlainNumeral(text, k); }
  }

  // ---------- strings ----------

  /** A string that was read is the body between two quotes. */
  lemma StringIsQuoted(text: seq<byte>) returns (body: seq<byte>)
    requires QuotedString(text).String?
    ensures var q := QuotedString(text);
            StringBody(body) && StringOf(body) == q.value && text == PutQuoted(body, q.rest)
  {
    hide BodyLength, Closed, Unescape, CString;
    var n := BodyLength(text[1..]).value;
    body := text[1..n + 1];
    BodyIsClosed(text[1..]);
    assert text[1..][..n] == body && text[1..][n] == text[n + 1];
    assert text == [0x22] + (body + ([0x22] + text[n + 2..]));
  }

  // ---------- values ----------

  /** The text is a gap, a grammatical value of that meaning, and the rest. */
  ghost predicate Spelled(text: seq<byte>, gap: seq<byte>, x: Syntax, v: Json, rest: seq<byte>) {
    Gap(gap) && Grammatical(x) && Delimited(x, rest) && Meaning(x) == v && text == gap + Put(x, rest)
  }

  lemma UnreadWithin(text: seq<byte>, nesting: nat)
    requires LoneMinus(SkipSpace(text)) && ReadValue(text, nesting).Got?
    ensures ReadValue(text, nesting).rest == SkipSpace(text)
  {
    hide ReadNumber, ReadString, ReadObject, ReadArray, ReadBool, ReadNull, LoneMinus, SkipSpace;
    UnreadValue(text, nesting);
  }

  lemma MinusStays(text: seq<byte>, nesting: nat)
    requires LoneMinus(SkipSpace(text)) && ReadValue(text, nesting).Got?
    ensures Head(SkipSpace(ReadValue(text, nesting).rest)) == 0x2D
  {
    hide ReadValue;
    UnreadWithin(text, nesting);
    NothingToSkip(SkipSpace(text));
  }

  /** An element that was read is no lone minus sign: that would be neither separator nor bracket. */
  lemma ItemNotLone(text: seq<byte>, nesting: nat, acc: seq<Json>)
    requires ReadItems(text, nesting, acc).Got?
    ensures ReadValue(text, nesting).Got? && !LoneMinus(SkipSpace(text))
  {
    hide ReadValue, LoneMinus;
    if LoneMinus(SkipSpace(text)) { MinusStays(text, nesting); }
  }

  lemma ItemParts(text: seq<byte>, nesting: nat, acc: seq<Json>)
    requires ReadItems(text, nesting, acc).Got?
    ensures ReadValue(text, nesting).Got?
    ensures var r := ReadValue(text, nesting);
            var t := SkipSpace(r.rest);
            t != [] && t[0] in {0x2C, 0x5D}
            && ReadItems(text, nesting, acc)
               == if t[0] == 0x2C then ReadItems(SkipSpace(t[1..]), nesting, acc + [r.value])
                  else Got(Arr(acc + [r.value]), t[1..])
    ensures |ReadValue(text, nesting).rest| <= |text|
  {
    hide ReadValue, SkipSpace;
  }

  /** Elements with a gap in front of the first. */
  function Widened(gap: seq<byte>, items: seq<Item>): seq<Item>
    requires items != []
  {
    [items[0].(before := gap + items[0].before)] + items[1..]
  }

  lemma WidenedPut(gap: seq<byte>, items: seq<Item>, close: seq<byte>)
    requires Gap(gap) && items != [] && forall i | 0 <= i < |items| :: GrammaticalItem(items[i])
    ensures var w := Widened(gap, items);
            && w != [] && (forall i | 0 <= i < |w| :: GrammaticalItem(w[i]))
            && PutItems(w, close) == gap + PutItems(items, close) && Meanings(w) == Meanings(items)
  {
    hide Put, PutMoreItems, Grammatical, Meaning;
    GapsJoin(gap, items[0].before);
    Assoc(gap, items[0].before, Put(items[0].value, items[0].after + PutMoreItems(items[1..], close)));
  }

  lemma OneMore(first: Item, rest: seq<Item>, close: seq<byte>)
    ensures Meanings([first] + rest) == [Meaning(first.value)] + Meanings(rest)
    ensures PutItems([first] + rest, close)
         == first.before + Put(first.value, first.after + PutMoreItems(rest, close))
  {
    hide Put, PutMoreItems, Meaning;
    assert ([first] + rest)[1..] == rest;
  }

  lemma {:induction false} ItemsAreSyntax(text: seq<byte>, nesting: nat, acc: seq<Json>) returns (items: seq<Item>)
    requires ReadItems(text, nesting, acc).Got?
    ensures var r := ReadItems(text, nesting, acc);
            && items != [] && (forall i | 0 <= i < |items| :: GrammaticalItem(items[i]))
            && text == PutItems(items, [0x5D] + r.rest) && r.value == Arr(acc + Meanings(items))
    decreases |text|, 2
  {
    hide ReadItems, ReadValue, SkipSpace, LoneMinus, Grammatical, Meaning, Put, PutItems, PutMoreItems, Delimited,
      Meanings, Widened;
    ItemParts(text, nesting, acc);
    ItemNotLone(text, nesting, acc);
    var r := ReadValue(text, nesting);
    var gap, x := ValueIsSyntax(text, nesting);
    var after := SkippedGap(r.rest);
    var t := SkipSpace(r.rest);
    var first := Item(gap, x, after);
    var close := [0x5D] + ReadItems(text, nesting, acc).rest;
    if t[0] == 0x5D {
      assert t == [0x5D] + t[1..];
      items := [first];
      OneMore(first, [], close);
      PutMoreStarts([], close);
      NoneSound(nesting);
      assert [first] + [] == [first] && [Meaning(x)] + [] == [Meaning(x)];
    } else {
      var next := SkippedGap(t[1..]);
      var rest := ItemsAreSyntax(SkipSpace(t[1..]), nesting, acc + [r.value]);
      var wide := Widened(next, rest);
      WidenedPut(next, rest, close);
      assert t == [0x2C] + PutItems(wide, close);
      items := [first] + wide;
      OneMore(first, wide, close);
      PutMoreStarts(wide, close);
      Assoc3(acc, r.value, Meanings(rest));
    }
  }

  // ---------- members ----------

  /** What a member that was read consists of, and what comes behind it. */
  lemma MemberParts(text: seq<byte>, nesting: nat, acc: seq<Member>)
    requires ReadMembers(text, nesting, acc).Got?
    ensures var q := QuotedString(text);
            q.String? && var u := SkipSpace(q.rest);
            u != [] && u[0] == 0x3A && |u| < |text| && ReadValue(u[1..], nesting).Got?
            && var r := ReadValue(u[1..], nesting);
               var t, m := SkipSpace(r.rest), Member(q.value, r.value);
               t != [] && t[0] in {0x2C, 0x7D} && |t| <= |text|
               && ReadMembers(text, nesting, acc)
                  == if t[0] == 0x2C then ReadMembers(SkipSpace(t[1..]), nesting, acc + [m])
                     else Got(Obj(acc + [m]), t[1..])
  {
    hide ReadValue, SkipSpace, QuotedString, HasName;
  }

  lemma MemberNotLone(text: seq<byte>, nesting: nat, acc: seq<Member>)
    requires ReadMembers(text, nesting, acc).Got?
    ensures QuotedString(text).String? && SkipSpace(QuotedString(text).rest) != []
    ensures !LoneMinus(SkipSpace(SkipSpace(QuotedString(text).rest)[1..]))
  {
    hide ReadValue, LoneMinus, ReadMembers, SkipSpace, QuotedString;
    MemberParts(text, nesting, acc);
    var value := SkipSpace(QuotedString(text).rest)[1..];
    if LoneMinus(SkipSpace(value)) { MinusStays(value, nesting); }
  }

  function WidenedPairs(gap: seq<byte>, pairs: seq<Pair>): seq<Pair>
    requires pairs != []
  {
    [pairs[0].(before := gap + pairs[0].before)] + pairs[1..]
  }

  lemma WidenedPairsPut(gap: seq<byte>, pairs: seq<Pair>, close: seq<byte>)
    requires Gap(gap) && pairs != [] && forall i | 0 <= i < |pairs| :: GrammaticalPair(pairs[i])
    ensures var w := WidenedPairs(gap, pairs);
            && w != [] && (forall i | 0 <= i < |w| :: GrammaticalPair(w[i]))
            && PutPairs(w, close) == gap + PutPairs(pairs, close) && MemberMeanings(w) == MemberMeanings(pairs)
  {
    hide Put, PutPairs, PutMorePairs, Grammatical, Meaning, PutQuoted, StringBody, StringOf;
    var w := WidenedPairs(gap, pairs);
    GapsJoin(gap, pairs[0].before);
    PairsFromName(pairs, close);
    PairsFromName(w, close);
    assert w[1..] == pairs[1..];
    Assoc(gap, pairs[0].before, FromName(pairs, close));
  }

  lemma OneMorePair(first: Pair, rest: seq<Pair>, close: seq<byte>)
    ensures MemberMeanings([first] + rest) == [MemberOf(first)] + MemberMeanings(rest)
    ensures PutPairs([first] + rest, close)
         == first.before + PutQuoted(first.name, first.beforeColon + ([0x3A] + (first.beforeValue
              + Put(first.value, first.after + PutMorePairs(rest, close)))))
  {
    hide Put, PutMorePairs, PutQuoted, MemberOf;
    assert ([first] + rest)[1..] == rest;
  }

  /** A name, its colon and its value, as they are spelled. */
  lemma {:induction false} FirstPair(text: seq<byte>, nesting: nat, acc: seq<Member>)
    returns (pair: Pair, t: seq<byte>)
    requires ReadMembers(text, nesting, acc).Got?
    ensures GrammaticalPair(pair) && t != [] && |t| <= |text| && pair.before == []
    ensures ReadMembers(text, nesting, acc)
         == if t[0] == 0x2C then ReadMembers(SkipSpace(t[1..]), nesting, acc + [MemberOf(pair)])
            else Got(Obj(acc + [MemberOf(pair)]), t[1..])
    ensures t[0] in {0x2C, 0x7D}
    ensures text == PutQuoted(pair.name, pair.beforeColon + ([0x3A] + (pair.beforeValue
                      + Put(pair.value, pair.after + t))))
    decreases |text|, 2
  {
    hide ReadMembers, ReadValue, SkipSpace, LoneMinus, Grammatical, Meaning, Put, Delimited, QuotedString,
      PutQuoted, StringBody, StringOf;
    MemberParts(text, nesting, acc);
    MemberNotLone(text, nesting, acc);
    var q := QuotedString(text);
    var name := StringIsQuoted(text);
    var beforeColon := SkippedGap(q.rest);
    var u := SkipSpace(q.rest);
    var r := ReadValue(u[1..], nesting);
    var beforeValue, x := ValueIsSyntax(u[1..], nesting);
    var after := SkippedGap(r.rest);
    t := SkipSpace(r.rest);
    pair := Pair([], name, beforeColon, beforeValue, x, after);
    assert u == [0x3A] + u[1..];
  }

  lemma NoGap(a: seq<byte>, b: seq<byte>)
    ensures a == [] + b ==> a == b
  {
  }

  lemma {:induction false} MembersAreSyntax(text: seq<byte>, nesting: nat, acc: seq<Member>)
    returns (pairs: seq<Pair>)
    requires ReadMembers(text, nesting, acc).Got?
    ensures var r := ReadMembers(text, nesting, acc);
            && pairs != [] && (forall i | 0 <= i < |pairs| :: GrammaticalPair(pairs[i]))
            && text == PutPairs(pairs, [0x7D] + r.rest) && r.value == Obj(acc + MemberMeanings(pairs))
    decreases |text|, 3
  {
    hide ReadMembers, ReadValue, SkipSpace, GrammaticalPair, MemberOf, Put, PutPairs, PutMorePairs, QuotedString,
      PutQuoted, MemberMeanings, WidenedPairs;
    var first, t := FirstPair(text, nesting, acc);
    var close := [0x7D] + ReadMembers(text, nesting, acc).rest;
    var m := MemberOf(first);
    if t[0] == 0x7D {
      assert t == [0x7D] + t[1..];
      pairs := [first];
      OneMorePair(first, [], close);
      PutMorePairsStarts([], close);
      NoneMemberSound(nesting);
      NoGap(PutPairs([first] + [], close), text);
      assert [first] + [] == [first] && [m] + [] == [m];
    } else {
      var next := SkippedGap(t[1..]);
      var rest := MembersAreSyntax(SkipSpace(t[1..]), nesting, acc + [m]);
      var wide := WidenedPairs(next, rest);
      WidenedPairsPut(next, rest, close);
      assert t == [0x2C] + PutPairs(wide, close);
      pairs := [first] + wide;
      OneMorePair(first, wide, close);
      PutMorePairsStarts(wide, close);
      NoGap(PutPairs([first] + wide, close), text);
      Assoc3(acc, m, MemberMeanings(rest));
    }
  }

  // ---------- the grammar ----------

  lemma ArrayIsSyntax(text: seq<byte>, nesting: nat) returns (x: Syntax)
    requires Head(text) == 0x5B && ReadArray(text, nesting).Got?
    ensures Grammatical(x) && x.Array? && Meaning(x) == ReadArray(text, nesting).value
    ensures text == Put(x, ReadArray(text, nesting).rest)
    decreases |text|, 0
  {
    hide ReadItems, SkipSpace, GrammaticalItem, PutItems, Meanings;
    var gap := SkippedGap(text[1..]);
    var t, rest := SkipSpace(text[1..]), ReadArray(text, nesting).rest;
    assert text == [0x5B] + (gap + t);
    if Head(t) == 0x5D {
      x := Array(gap, []);
      NoItems([0x5D] + rest);
      NoneSound(nesting);
      assert t == [0x5D] + rest;
    } else {
      var items := ItemsAreSyntax(t, nesting, []);
      x := Array(gap, items);
      assert [] + Meanings(items) == Meanings(items);
    }
  }

  lemma ObjectIsSyntax(text: seq<byte>, nesting: nat) returns (x: Syntax)
    requires Head(text) == 0x7B && ReadObject(text, nesting).Got?
    ensures Grammatical(x) && x.Object? && Meaning(x) == ReadObject(text, nesting).value
    ensures text == Put(x, ReadObject(text, nesting).rest)
    decreases |text|, 0
  {
    hide ReadMembers, SkipSpace, GrammaticalPair, PutPairs, MemberMeanings;
    var gap := SkippedGap(text[1..]);
    var t, rest := SkipSpace(text[1..]), ReadObject(text, nesting).rest;
    assert text == [0x7B] + (gap + t);
    if Head(t) == 0x7D {
      x := Object(gap, []);
      NoPairs([0x7D] + rest);
      NoneMemberSound(nesting);
      assert t == [0x7D] + rest;
    } else {
      var pairs := MembersAreSyntax(t, nesting, []);
      x := Object(gap, pairs);
      assert [] + MemberMeanings(pairs) == MemberMeanings(pairs);
    }
  }

  lemma WordIsSyntax(text: seq<byte>)
    ensures ReadBool(text).Got? ==>
              var r := ReadBool(text); r.value.Bool? && text == Spelling(r.value) + r.rest
    ensures ReadNull(text).Got? ==>
              var r := ReadNull(text); r.value.Null? && text == Spelling(r.value) + r.rest
  {
  }

  /** Which reader a value is left to. */
  lemma Dispatched(text: seq<byte>, nesting: nat)
    requires ReadValue(text, nesting).Got?
    ensures var t, r := SkipSpace(text), ReadValue(text, nesting);
            var c := Head(t);
            if c == 0x7B then r == ReadObject(t, nesting + 1)
            else if c == 0x5B then r == ReadArray(t, nesting + 1)
            else if c == QUOTE then r == ReadString(t)
            else if c == 0x66 || c == 0x74 then r == ReadBool(t)
            else if c == 0x2D || IsDigit(c) then r == ReadNumber(t)
            else c == 0x6E && r == ReadNull(t)
  {
    hide ReadObject, ReadArray, ReadString, ReadBool, ReadNumber, ReadNull, SkipSpace;
  }

  /** Every accepted value but the lone minus sign is grammatical, and means what was returned. */
  lemma {:induction false} ValueIsSyntax(text: seq<byte>, nesting: nat) returns (gap: seq<byte>, x: Syntax)
    requires ReadValue(text, nesting).Got? && !LoneMinus(SkipSpace(text))
    ensures var r := ReadValue(text, nesting); Spelled(text, gap, x, r.value, r.rest)
    decreases |text|, 1
  {
    hide ReadObject, ReadArray, ReadBool, ReadNumber, ReadNull, SkipSpace, ReadValue, QuotedString, LoneMinus,
      PutItems, PutPairs, PutQuoted, PutDigits, Numeral, StringBody, StringOf, Meanings, MemberMeanings, NumberOf,
      GrammaticalItem, GrammaticalPair, NumeralOf, Spelling;
    gap := SkippedGap(text);
    var t := SkipSpace(text);
    var c := Head(t);
    Dispatched(text, nesting);
    if c == 0x7B {
      x := ObjectIsSyntax(t, nesting + 1);
    } else if c == 0x5B {
      x := ArrayIsSyntax(t, nesting + 1);
    } else if c == QUOTE {
      var body := StringIsQuoted(t);
      x := Quoted(body);
    } else if c == 0x66 || c == 0x74 || c == 0x6E {
      WordIsSyntax(t);
      x := Word(ReadValue(text, nesting).value);
    } else {
      x := NumeralOf(c == 0x2D, Unsigned(t));
      NumberIsNumeral(t);
    }
  }

  lemma SpelledRead(text: seq<byte>, gap: seq<byte>, x: Syntax, v: Json, rest: seq<byte>, nesting: nat)
    requires Spelled(text, gap, x, v, rest)
    ensures ReadValue(text, nesting) == if Sound(v, nesting) then Got(v, rest) else Rejected
  {
    hide ReadValue, Grammatical, Delimited, Meaning, Put, Sound;
    ValueRead(x, gap, nesting, rest);
  }

  lemma LoneMinusRead(text: seq<byte>, nesting: nat)
    requires LoneMinus(SkipSpace(text))
    ensures ReadValue(text, nesting) == if nesting <= 19 then Got(Num(0), SkipSpace(text)) else Rejected
  {
    hide ReadNumber, ReadString, ReadObject, ReadArray, ReadBool, ReadNull, LoneMinus, SkipSpace;
    if nesting <= 19 { UnreadValue(text, nesting); }
  }

  /**
   * For every text: a value is read exactly if the text spells it, with any white space between the tokens, and
   * the library can hold it at that depth. A lone minus sign, read as 0 and left unread, is the only exception.
   */
  lemma AcceptedExactly(text: seq<byte>, nesting: nat, v: Json, rest: seq<byte>)
    ensures ReadValue(text, nesting) == Got(v, rest)
            <==> if LoneMinus(SkipSpace(text)) then nesting <= 19 && v == Num(0) && rest == SkipSpace(text)
                 else Sound(v, nesting) && exists gap, x :: Spelled(text, gap, x, v, rest)
  {
    hide ReadValue, LoneMinus, SkipSpace, Spelled, Sound;
    if LoneMinus(SkipSpace(text)) {
      LoneMinusRead(text, nesting);
    } else if ReadValue(text, nesting) == Got(v, rest) {
      var gap, x := ValueIsSyntax(text, nesting);
      SpelledRead(text, gap, x, v, rest, nesting);
    } else if exists gap, x :: Spelled(text, gap, x, v, rest) {
      var gap, x :| Spelled(text, gap, x, v, rest);
      SpelledRead(text, gap, x, v, rest, nesting);
    }
  }
}
