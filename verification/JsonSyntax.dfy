/** The grammar the parser accepts, with all white space that may stand between tokens. */
module JsonSyntax {
  import opened Bytes
  import opened JsonString
  import opened JsonValue

  /** White space between tokens: tab, line feed, vertical tab, form feed, carriage return and space. */
  predicate Gap(s: seq<byte>) {
    forall i | 0 <= i < |s| :: s[i] in {0x09, 0x0A, 0x0B, 0x0C, 0x0D, 0x20}
  }

  /** A value as it is spelled: its tokens and the gaps around them. */
  datatype Syntax =
    | Word(v: Json)
    | Number(minus: bool, digits: seq<byte>, point: bool, fraction: seq<byte>)
    | Quoted(body: seq<byte>)
    | Array(gap: seq<byte>, items: seq<Item>)
    | Object(gap: seq<byte>, pairs: seq<Pair>)

  datatype Item = Item(before: seq<byte>, value: Syntax, after: seq<byte>)

  datatype Pair = Pair(before: seq<byte>, name: seq<byte>, beforeColon: seq<byte>,
                       beforeValue: seq<byte>, value: Syntax, after: seq<byte>)

  // ---------- spelling ----------

  function PutQuoted(body: seq<byte>, tail: seq<byte>): seq<byte> {
    [0x22] + (body + ([0x22] + tail))
  }

  function PutDigits(digits: seq<byte>, point: bool, fraction: seq<byte>, tail: seq<byte>): seq<byte> {
    digits + if point then [0x2E] + (fraction + tail) else tail
  }

  /** `null`, `true` or `false`. */
  function Spelling(v: Json): seq<byte> {
    if v == Bool(true) then [0x74, 0x72, 0x75, 0x65]
    else if v == Bool(false) then [0x66, 0x61, 0x6C, 0x73, 0x65] else [0x6E, 0x75, 0x6C, 0x6C]
  }

  /** The text of a value in front of `tail`. */
  function Put(x: Syntax, tail: seq<byte>): seq<byte>
    decreases x, 0
  {
    match x
    case Word(v) => Spelling(v) + tail
    case Number(minus, digits, point, fraction) =>
      if minus then [0x2D] + PutDigits(digits, point, fraction, tail) else PutDigits(digits, point, fraction, tail)
    case Quoted(body) => PutQuoted(body, tail)
    case Array(gap, items) => [0x5B] + (gap + PutItems(items, [0x5D] + tail))
    case Object(gap, pairs) => [0x7B] + (gap + PutPairs(pairs, [0x7D] + tail))
  }

  /** Elements with commas between them. */
  function PutItems(items: seq<Item>, close: seq<byte>): seq<byte>
    decreases items, 0
  {
    if items == [] then close
    else items[0].before + Put(items[0].value, items[0].after + PutMoreItems(items[1..], close))
  }

  function PutMoreItems(items: seq<Item>, close: seq<byte>): seq<byte>
    decreases items, 1
  {
    if items == [] then close else [0x2C] + PutItems(items, close)
  }

  /** Members, each a name, a colon and a value. */
  function PutPairs(pairs: seq<Pair>, close: seq<byte>): seq<byte>
    decreases pairs, 0
  {
    if pairs == [] then close
    else
      var p := pairs[0];
      p.before + PutQuoted(p.name, p.beforeColon + ([0x3A] + (p.beforeValue +
        Put(p.value, p.after + PutMorePairs(pairs[1..], close)))))
  }

  function PutMorePairs(pairs: seq<Pair>, close: seq<byte>): seq<byte>
    decreases pairs, 1
  {
    if pairs == [] then close else [0x2C] + PutPairs(pairs, close)
  }

  lemma PutMoreStarts(items: seq<Item>, close: seq<byte>)
    ensures items == [] ==> PutMoreItems(items, close) == close
    ensures items != [] ==> PutMoreItems(items, close) == [0x2C] + PutItems(items, close)
  {
    hide PutItems;
  }

  lemma PutMorePairsStarts(pairs: seq<Pair>, close: seq<byte>)
    ensures pairs == [] ==> PutMorePairs(pairs, close) == close
    ensures pairs != [] ==> PutMorePairs(pairs, close) == [0x2C] + PutPairs(pairs, close)
  {
    hide PutPairs;
  }

  // ---------- what is grammatical ----------

  /** Every quote in a string body is escaped, no backslash stands alone at its end, and it has no NUL. */
  predicate Closed(body: seq<byte>) {
    body == [] ||
    if body[0] == 0x5C then |body| >= 2 && body[1] != 0 && Closed(body[2..])
    else body[0] !in {0, 0x22} && Closed(body[1..])
  }

  predicate StringBody(body: seq<byte>) {
    Closed(body) && Unescape(body).Some?
  }

  /** Digits without a leading zero, and perhaps a point and zeros. */
  predicate Numeral(minus: bool, digits: seq<byte>, point: bool, fraction: seq<byte>) {
    && (forall i | 0 <= i < |digits| :: 0x30 <= digits[i] <= 0x39)
    && (forall i | 0 <= i < |fraction| :: fraction[i] == 0x30)
    && (|digits| > 1 ==> digits[0] != 0x30) && (digits == [] ==> minus && fraction != [])
    && (fraction != [] ==> point) && IsDouble(ValueOf(digits))
  }

  predicate Grammatical(x: Syntax)
    decreases x
  {
    match x
    case Word(v) => v.Null? || v.Bool?
    case Number(minus, digits, point, fraction) => Numeral(minus, digits, point, fraction)
    case Quoted(body) => StringBody(body)
    case Array(gap, items) => Gap(gap) && forall i | 0 <= i < |items| :: GrammaticalItem(items[i])
    case Object(gap, pairs) => Gap(gap) && forall i | 0 <= i < |pairs| :: GrammaticalPair(pairs[i])
  }

  predicate GrammaticalItem(i: Item)
    decreases i
  {
    Gap(i.before) && Gap(i.after) && Grammatical(i.value)
  }

  predicate GrammaticalPair(p: Pair)
    decreases p
  {
    && Gap(p.before) && StringBody(p.name) && Gap(p.beforeColon)
    && Gap(p.beforeValue) && Gap(p.after) && Grammatical(p.value)
  }

  /** What may follow a value: behind a number, nothing that would belong to it. */
  predicate Delimited(x: Syntax, tail: seq<byte>) {
    x.Number? ==>
      && !(0x30 <= Head(tail) <= 0x39) && Head(tail) !in {0x45, 0x65}
      && (!x.point ==> Head(tail) != 0x2E)
      && (!x.point && x.digits == [0x30] ==> Head(tail) !in {0x58, 0x78})
  }

  // ---------- what it means ----------

  function StringOf(body: seq<byte>): cstring {
    match Unescape(body) case None => [] case Some(s) => CString(s)
  }

  function NumberOf(minus: bool, digits: seq<byte>): (v: Json)
    ensures v.Num? || v.Null?
  {
    if AllDigits(digits) && IsDouble(ValueOf(digits)) then
      Num(if minus then -(ValueOf(digits) as int) else ValueOf(digits))
    else Null
  }

  function Meaning(x: Syntax): Json
    decreases x
  {
    match x
    case Word(v) => v
    case Number(minus, digits, _, _) => NumberOf(minus, digits)
    case Quoted(body) => Str(StringOf(body))
    case Array(_, items) => Arr(Meanings(items))
    case Object(_, pairs) => Obj(MemberMeanings(pairs))
  }

  function Meanings(items: seq<Item>): (vs: seq<Json>)
    ensures |vs| == |items|
    decreases items
  {
    if items == [] then [] else [Meaning(items[0].value)] + Meanings(items[1..])
  }

  function MemberMeanings(pairs: seq<Pair>): (ms: seq<Member>)
    ensures |ms| == |pairs|
    decreases pairs
  {
    if pairs == [] then [] else [MemberOf(pairs[0])] + MemberMeanings(pairs[1..])
  }

  function MemberOf(p: Pair): Member
    decreases p
  {
    Member(StringOf(p.name), Meaning(p.value))
  }

  // ---------- white space ----------

  lemma {:induction false} GapSkipped(gap: seq<byte>, text: seq<byte>)
    requires Gap(gap)
    ensures SkipSpace(gap + text) == SkipSpace(text)
  {
    if gap == [] {
      assert gap + text == text;
    } else {
      assert (gap + text)[1..] == gap[1..] + text;
      GapSkipped(gap[1..], text);
    }
  }

  lemma NothingToSkip(text: seq<byte>)
    requires !IsSpace(Head(text))
    ensures SkipSpace(text) == text
  {
  }

  /** A token behind a gap. */
  lemma TokenNext(gap: seq<byte>, c: byte, rest: seq<byte>)
    requires Gap(gap) && !IsSpace(c)
    ensures SkipSpace(gap + ([c] + rest)) == [c] + rest && ([c] + rest)[0] == c && ([c] + rest)[1..] == rest
  {
    GapSkipped(gap, [c] + rest);
    NothingToSkip([c] + rest);
  }

  // ---------- numbers ----------

  lemma {:induction false} RunOf(digits: seq<byte>, tail: seq<byte>)
    requires AllDigits(digits) && !IsDigit(Head(tail))
    ensures DigitRun(digits + tail) == |digits|
  {
    if digits == [] {
      assert digits + tail == tail;
    } else {
      RunOf(digits[1..], tail);
      assert (digits + tail)[1..] == digits[1..] + tail;
    }
  }

  lemma {:induction false} ZerosAreZero(digits: seq<byte>)
    requires forall i | 0 <= i < |digits| :: digits[i] == 0x30
    ensures ValueOf(digits) == 0
  {
    if digits != [] { ZerosAreZero(digits[..|digits| - 1]); }
  }

  lemma {:induction false} ZeroIsZeros(digits: seq<byte>)
    requires AllDigits(digits) && ValueOf(digits) == 0
    ensures forall i | 0 <= i < |digits| :: digits[i] == 0x30
  {
    if digits != [] { ZeroIsZeros(digits[..|digits| - 1]); }
  }

  lemma OneZero(digits: seq<byte>)
    requires AllDigits(digits) && digits != [] && (|digits| > 1 ==> digits[0] != 0x30)
    ensures ValueOf(digits) == 0 <==> digits == [0x30]
  {
    if ValueOf(digits) == 0 { ZeroIsZeros(digits); }
    if digits == [0x30] { ZerosAreZero(digits); }
  }

  /** Digits in front of a point or of something else, taken apart again. */
  lemma DigitsTaken(digits: seq<byte>, point: bool, fraction: seq<byte>, tail: seq<byte>)
    requires AllDigits(digits) && AllDigits(fraction) && !IsDigit(Head(tail)) && (!point ==> Head(tail) != 0x2E)
    ensures var body, k := PutDigits(digits, point, fraction, tail), |digits|;
            && DigitRun(body) == k <= |body| && body[..k] == digits && (Head(body[k..]) == 0x2E <==> point)
            && (if point then |body| > k && DigitRun(body[k + 1..]) == |fraction| && body[k + 1..] == fraction + tail
                else body[k..] == tail)
  {
    var more := if point then [0x2E] + (fraction + tail) else tail;
    var body := digits + more;
    RunOf(digits, more);
    RunOf(fraction, tail);
    assert body[|digits|..] == more && body[..|digits|] == digits;
    if point { assert body[|digits| + 1..] == more[1..] == fraction + tail; }
  }

  lemma Parts(a: seq<byte>, b: seq<byte>)
    ensures (a + b)[..|a|] == a && (a + b)[|a|..] == b
  {
  }

  lemma Evaluated(x: Syntax, tail: seq<byte>)
    requires x.Number? && Numeral(x.minus, x.digits, x.point, x.fraction) && Delimited(x, tail)
    ensures AllDigits(x.digits) && AllDigits(x.fraction) && ValueOf(x.fraction) == 0
    ensures Evaluate(x.minus, x.digits, x.point, x.fraction, tail) == Got(Meaning(x), tail)
  {
    hide ValueOf, Significant;
    ZerosAreZero(x.fraction);
    if x.digits != [] { OneZero(x.digits); }
  }

  lemma SignSplit(text: seq<byte>, minus: bool, body: seq<byte>)
    requires Head(body) != 0x2D && text == if minus then [0x2D] + body else body
    ensures (Head(text) == 0x2D <==> minus) && (if minus then text[1..] else text) == body
  {
  }

  /** Behind the sign: digits, a point, digits. */
  lemma BodyTaken(text: seq<byte>, minus: bool, body: seq<byte>, k: nat, j: nat)
    requires (Head(text) == 0x2D <==> minus) && (if minus then text[1..] else text) == body
    requires k <= |body| && DigitRun(body) == k && k + j > 0
    requires if Head(body[k..]) == 0x2E then DigitRun(body[k + 1..]) == j else j == 0
    ensures ReadNumber(text)
         == if Head(body[k..]) == 0x2E
            then Evaluate(minus, body[..k], true, body[k + 1..][..j], body[k + 1 + j..])
            else Evaluate(minus, body[..k], false, [], body[k..])
  {
    hide Evaluate, DigitRun, SpellsInfinity;
  }

  /** A numeral is read as its number, up to whatever delimits it. */
  lemma NumberRead(x: Syntax, tail: seq<byte>)
    requires x.Number? && Numeral(x.minus, x.digits, x.point, x.fraction) && Delimited(x, tail)
    ensures var text := Put(x, tail);
            (Head(text) == 0x2D || IsDigit(Head(text))) && ReadNumber(text) == Got(Meaning(x), tail)
  {
    hide Evaluate, DigitRun, Meaning, ValueOf, IsDouble, ReadNumber;
    var body := PutDigits(x.digits, x.point, x.fraction, tail);
    Evaluated(x, tail);
    DigitsTaken(x.digits, x.point, x.fraction, tail);
    Parts(x.fraction, tail);
    assert Head(body) == if x.digits != [] then x.digits[0] else 0x2E;
    var j := if x.point then |x.fraction| else 0;
    assert x.point ==> body[|x.digits| + 1 + j..] == body[|x.digits| + 1..][j..];
    SignSplit(Put(x, tail), x.minus, body);
    BodyTaken(Put(x, tail), x.minus, body, |x.digits|, j);
  }

  // ---------- strings ----------

  lemma {:induction false} BodyDelimited(body: seq<byte>, tail: seq<byte>)
    requires Closed(body)
    ensures BodyLength(body + ([0x22] + tail)) == Some(|body|)
  {
    var s := body + ([0x22] + tail);
    if body == [] {
      assert s == [0x22] + tail;
    } else if body[0] == 0x5C {
      assert s[1..][0] == body[1] && s[2..] == body[2..] + ([0x22] + tail);
      BodyDelimited(body[2..], tail);
    } else {
      assert s[1..] == body[1..] + ([0x22] + tail);
      BodyDelimited(body[1..], tail);
    }
  }

  lemma {:induction false} BodyIsClosed(text: seq<byte>)
    requires BodyLength(text).Some?
    ensures Closed(text[..BodyLength(text).value])
  {
    if text[0] == QUOTE {
    } else if text[0] == BACKSLASH {
      BodyIsClosed(text[2..]);
      assert text[1..][0] == text[1];
      assert text[..BodyLength(text).value][2..] == text[2..][..BodyLength(text[2..]).value];
    } else {
      BodyIsClosed(text[1..]);
      assert text[..BodyLength(text).value][1..] == text[1..][..BodyLength(text[1..]).value];
    }
  }

  /** A string body between its quotes is read as what it stands for. */
  lemma QuotedRead(body: seq<byte>, tail: seq<byte>)
    requires StringBody(body)
    ensures Head(PutQuoted(body, tail)) == QUOTE
    ensures QuotedString(PutQuoted(body, tail)) == String(StringOf(body), tail)
  {
    hide BodyLength, Closed, Unescape, CString;
    var inner := body + ([0x22] + tail);
    var text := [0x22] + inner;
    BodyDelimited(body, tail);
    assert text[1..] == inner && text[1..|body| + 1] == body && text[|body| + 2..] == tail;
  }

  // ---------- values ----------

  /** A value comes back with its tail untouched, or is refused. */
  function Expected(v: Json, nesting: nat, tail: seq<byte>): Reading<Json> {
    if Sound(v, nesting) then Got(v, tail) else Rejected
  }

  /** What a value's text begins with. */
  predicate Solid(text: seq<byte>) {
    var c := Head(text);
    !IsSpace(c) && c != 0 && c !in {0x2C, 0x5D, 0x7D}
  }

  lemma StartsSolid(x: Syntax, tail: seq<byte>)
    requires Grammatical(x)
    ensures Solid(Put(x, tail)) && SkipSpace(Put(x, tail)) == Put(x, tail)
  {
    hide PutItems, PutPairs, IsDouble;
  }

  /** What stands behind a value inside brackets does not belong to it. */
  lemma BehindDelimits(x: Syntax, after: seq<byte>, rest: seq<byte>)
    requires Gap(after) && Head(rest) in {0x2C, 0x5D, 0x7D}
    ensures Delimited(x, after + rest)
  {
    assert after == [] ==> after + rest == rest;
  }

  /** The text of elements, their first gap skipped. */
  function FromFirst(items: seq<Item>, close: seq<byte>): seq<byte>
    requires items != []
  {
    Put(items[0].value, items[0].after + PutMoreItems(items[1..], close))
  }

  lemma GapBeforeFirst(gap: seq<byte>, items: seq<Item>, close: seq<byte>)
    requires Gap(gap) && items != [] && GrammaticalItem(items[0])
    ensures SkipSpace(gap + PutItems(items, close)) == FromFirst(items, close) && Solid(FromFirst(items, close))
  {
    hide Put, SkipSpace, PutMoreItems, Grammatical;
    var first := FromFirst(items, close);
    StartsSolid(items[0].value, items[0].after + PutMoreItems(items[1..], close));
    GapSkipped(gap, PutItems(items, close));
    GapSkipped(items[0].before, first);
  }

  predicate AllSound(vs: seq<Json>, nesting: nat) {
    forall i | 0 <= i < |vs| :: Sound(vs[i], nesting)
  }

  lemma FirstSound(v: Json, vs: seq<Json>, nesting: nat)
    ensures AllSound([v] + vs, nesting) <==> Sound(v, nesting) && AllSound(vs, nesting)
  {
    hide Sound;
    assert ([v] + vs)[0] == v && forall i | 0 <= i < |vs| :: ([v] + vs)[i + 1] == vs[i];
  }

  lemma ArraySound(vs: seq<Json>, nesting: nat)
    requires nesting <= MAX_NESTING
    ensures Sound(Arr(vs), nesting) <==> |vs| <= ARRAY_MAX_CAPACITY && AllSound(vs, nesting + 1)
  {
  }

  lemma ItemRefused(text: seq<byte>, nesting: nat, acc: seq<Json>)
    requires Head(text) != 0 && ReadValue(text, nesting) == Rejected
    ensures ReadItems(text, nesting, acc) == Rejected
  {
  }

  lemma ItemTooMany(text: seq<byte>, nesting: nat, acc: seq<Json>)
    requires Head(text) != 0 && ReadValue(text, nesting).Got? && |acc| >= ARRAY_MAX_CAPACITY
    ensures ReadItems(text, nesting, acc) == Rejected
  {
  }

  lemma ItemThenMore(text: seq<byte>, nesting: nat, acc: seq<Json>, v: Json, behind: seq<byte>, more: seq<byte>)
    requires Head(text) != 0 && ReadValue(text, nesting) == Got(v, behind) && |acc| < ARRAY_MAX_CAPACITY
    requires SkipSpace(behind) == [0x2C] + more
    ensures ReadItems(text, nesting, acc) == ReadItems(SkipSpace(more), nesting, acc + [v])
  {
    assert ([0x2C] + more)[1..] == more;
  }

  lemma ItemThenEnd(text: seq<byte>, nesting: nat, acc: seq<Json>, v: Json, behind: seq<byte>, tail: seq<byte>)
    requires Head(text) != 0 && ReadValue(text, nesting) == Got(v, behind) && |acc| < ARRAY_MAX_CAPACITY
    requires SkipSpace(behind) == [0x5D] + tail
    ensures ReadItems(text, nesting, acc) == Got(Arr(acc + [v]), tail)
  {
    assert ([0x5D] + tail)[1..] == tail;
  }

  /** The first element is read, and its separator or the bracket found. */
  lemma {:induction false} FirstItemRead(items: seq<Item>, nesting: nat, tail: seq<byte>)
    requires items != [] && GrammaticalItem(items[0]) && (|items| > 1 ==> GrammaticalItem(items[1]))
    ensures var close := [0x5D] + tail;
            var behind := items[0].after + PutMoreItems(items[1..], close);
            && Head(FromFirst(items, close)) != 0
            && ReadValue(FromFirst(items, close), nesting) == Expected(Meaning(items[0].value), nesting, behind)
            && SkipSpace(behind) == (if |items| == 1 then close else [0x2C] + PutItems(items[1..], close))
    decreases items, 0
  {
    hide Put, PutItems, SkipSpace, ReadValue, Grammatical, Meaning, Expected, Delimited;
    var close, x, after := [0x5D] + tail, items[0].value, items[0].after;
    var rest := PutMoreItems(items[1..], close);
    StartsSolid(x, after + rest);
    BehindDelimits(x, after, rest);
    ValueRead(x, [], nesting, after + rest);
    assert [] + Put(x, after + rest) == Put(x, after + rest);
    TokenNext(after, 0x5D, tail);
    TokenNext(after, 0x2C, PutItems(items[1..], close));
  }

  lemma NoneSound(nesting: nat)
    ensures AllSound([], nesting) && Meanings([]) == []
  {
  }

  lemma Assoc3<T>(acc: seq<T>, v: T, rest: seq<T>)
    ensures acc + [v] + rest == acc + ([v] + rest)
  {
  }

  lemma {:induction false} ItemsRead(items: seq<Item>, nesting: nat, acc: seq<Json>, tail: seq<byte>)
    requires items != [] && forall i | 0 <= i < |items| :: GrammaticalItem(items[i])
    ensures ReadItems(FromFirst(items, [0x5D] + tail), nesting, acc)
         == if |acc| + |items| <= ARRAY_MAX_CAPACITY && AllSound(Meanings(items), nesting)
            then Got(Arr(acc + Meanings(items)), tail) else Rejected
    decreases items, 1
  {
    hide FromFirst, PutItems, PutMoreItems, SkipSpace, ReadItems, ReadValue, GrammaticalItem, Meaning, Sound, AllSound;
    var close, v, rest := [0x5D] + tail, Meaning(items[0].value), items[1..];
    var text, behind := FromFirst(items, close), items[0].after + PutMoreItems(rest, close);
    FirstItemRead(items, nesting, tail);
    FirstSound(v, Meanings(rest), nesting);
    if !Sound(v, nesting) {
      ItemRefused(text, nesting, acc);
    } else if |acc| >= ARRAY_MAX_CAPACITY {
      ItemTooMany(text, nesting, acc);
    } else if rest == [] {
      NoneSound(nesting);
      ItemThenEnd(text, nesting, acc, v, behind, tail);
      assert [v] + Meanings(rest) == [v];
    } else {
      ItemThenMore(text, nesting, acc, v, behind, PutItems(rest, close));
      GapBeforeFirst([], rest, close);
      assert [] + PutItems(rest, close) == PutItems(rest, close);
      ItemsRead(rest, nesting, acc + [v], tail);
      Assoc3(acc, v, Meanings(rest));
    }
  }

  lemma NoItems(close: seq<byte>)
    ensures PutItems([], close) == close
  {
  }

  lemma {:induction false} ArrayRead(x: Syntax, nesting: nat, tail: seq<byte>)
    requires x.Array? && Grammatical(x) && nesting <= MAX_NESTING
    ensures Head(Put(x, tail)) == 0x5B && ReadArray(Put(x, tail), nesting + 1) == Expected(Meaning(x), nesting, tail)
    decreases x, 0
  {
    hide ReadItems, SkipSpace, GrammaticalItem, PutItems, FromFirst, AllSound, Sound;
    var close := [0x5D] + tail;
    var text := Put(x, tail);
    assert text[1..] == x.gap + PutItems(x.items, close);
    ArraySound(Meanings(x.items), nesting);
    if x.items == [] {
      NoneSound(nesting + 1);
      NoItems(close);
      TokenNext(x.gap, 0x5D, tail);
    } else {
      GapBeforeFirst(x.gap, x.items, close);
      ItemsRead(x.items, nesting + 1, [], tail);
      assert [] + Meanings(x.items) == Meanings(x.items);
    }
  }

  // ---------- members ----------

  function BehindName(pairs: seq<Pair>, close: seq<byte>): seq<byte>
    requires pairs != []
  {
    var p := pairs[0];
    p.beforeColon + ([0x3A] + (p.beforeValue + Put(p.value, p.after + PutMorePairs(pairs[1..], close))))
  }

  /** The text of members, their first gap skipped. */
  function FromName(pairs: seq<Pair>, close: seq<byte>): seq<byte>
    requires pairs != []
  {
    PutQuoted(pairs[0].name, BehindName(pairs, close))
  }

  lemma PairsFromName(pairs: seq<Pair>, close: seq<byte>)
    requires pairs != []
    ensures PutPairs(pairs, close) == pairs[0].before + FromName(pairs, close)
  {
    hide Put, PutMorePairs, PutQuoted;
  }

  lemma GapBeforeName(gap: seq<byte>, pairs: seq<Pair>, close: seq<byte>)
    requires Gap(gap) && pairs != [] && GrammaticalPair(pairs[0])
    ensures SkipSpace(gap + PutPairs(pairs, close)) == FromName(pairs, close) && Head(FromName(pairs, close)) == 0x22
  {
    hide Put, SkipSpace, PutMorePairs, Grammatical, BehindName;
    var first := FromName(pairs, close);
    PairsFromName(pairs, close);
    GapSkipped(gap, PutPairs(pairs, close));
    GapSkipped(pairs[0].before, first);
    NothingToSkip(first);
  }

  predicate MembersSound(ms: seq<Member>, nesting: nat) {
    forall i | 0 <= i < |ms| :: Sound(ms[i].value, nesting)
  }

  lemma FirstMemberSound(m: Member, ms: seq<Member>, nesting: nat)
    ensures MembersSound([m] + ms, nesting) <==> Sound(m.value, nesting) && MembersSound(ms, nesting)
  {
    hide Sound;
    assert ([m] + ms)[0] == m && forall i | 0 <= i < |ms| :: ([m] + ms)[i + 1] == ms[i];
  }

  lemma ObjectSound(ms: seq<Member>, nesting: nat)
    requires nesting <= MAX_NESTING
    ensures Sound(Obj(ms), nesting)
            <==> |ms| <= OBJECT_MAX_CAPACITY && UniqueNames(ms) && MembersSound(ms, nesting + 1)
  {
  }

  /** A name joins unique ones if and only if it is new. */
  lemma NewName(acc: seq<Member>, m: Member, rest: seq<Member>)
    requires UniqueNames(acc)
    ensures HasName(acc, m.name) ==> !UniqueNames(acc + ([m] + rest))
    ensures !HasName(acc, m.name) ==> UniqueNames(acc + [m])
  {
    var all := acc + ([m] + rest);
    assert all[|acc|] == m && forall i | 0 <= i < |acc| :: all[i] == acc[i];
  }

  /** The text begins with a name, a colon, and behind it a value. */
  ghost predicate NameRead(text: seq<byte>, name: cstring, value: seq<byte>) {
    QuotedString(text).String? && QuotedString(text).value == name
    && SkipSpace(QuotedString(text).rest) == [0x3A] + value
  }

  lemma MemberRefused(text: seq<byte>, nesting: nat, acc: seq<Member>, name: cstring, value: seq<byte>)
    requires NameRead(text, name, value) && ReadValue(value, nesting) == Rejected
    ensures ReadMembers(text, nesting, acc) == Rejected
  {
    hide QuotedString, SkipSpace, ReadValue;
    assert ([0x3A] + value)[1..] == value;
  }

  lemma MemberNotAdded(text: seq<byte>, nesting: nat, acc: seq<Member>, name: cstring, value: seq<byte>)
    requires NameRead(text, name, value) && ReadValue(value, nesting).Got?
    requires HasName(acc, name) || |acc| >= OBJECT_MAX_CAPACITY
    ensures ReadMembers(text, nesting, acc) == Rejected
  {
    hide QuotedString, SkipSpace, ReadValue, HasName;
    assert ([0x3A] + value)[1..] == value;
  }

  lemma MemberThenMore(text: seq<byte>, nesting: nat, acc: seq<Member>, m: Member, value: seq<byte>,
                       behind: seq<byte>, more: seq<byte>)
    requires NameRead(text, m.name, value) && ReadValue(value, nesting) == Got(m.value, behind)
    requires !HasName(acc, m.name) && |acc| < OBJECT_MAX_CAPACITY && SkipSpace(behind) == [0x2C] + more
    ensures ReadMembers(text, nesting, acc) == ReadMembers(SkipSpace(more), nesting, acc + [m])
  {
    hide QuotedString, SkipSpace, ReadValue, HasName;
    assert ([0x3A] + value)[1..] == value && ([0x2C] + more)[1..] == more;
    assert m == Member(m.name, m.value);
  }

  lemma MemberThenEnd(text: seq<byte>, nesting: nat, acc: seq<Member>, m: Member, value: seq<byte>,
                      behind: seq<byte>, tail: seq<byte>)
    requires NameRead(text, m.name, value) && ReadValue(value, nesting) == Got(m.value, behind)
    requires !HasName(acc, m.name) && |acc| < OBJECT_MAX_CAPACITY && SkipSpace(behind) == [0x7D] + tail
    ensures ReadMembers(text, nesting, acc) == Got(Obj(acc + [m]), tail)
  {
    hide QuotedString, SkipSpace, ReadValue, HasName;
    assert ([0x3A] + value)[1..] == value && ([0x7D] + tail)[1..] == tail;
    assert m == Member(m.name, m.value);
  }

  /** The first member is read, and its separator or the brace found. */
  lemma {:induction false} FirstPairRead(pairs: seq<Pair>, nesting: nat, tail: seq<byte>)
    requires pairs != [] && GrammaticalPair(pairs[0])
    ensures var close, p := [0x7D] + tail, pairs[0];
            var behind := p.after + PutMorePairs(pairs[1..], close);
            var value := p.beforeValue + Put(p.value, behind);
            && NameRead(FromName(pairs, close), StringOf(p.name), value)
            && ReadValue(value, nesting) == Expected(Meaning(p.value), nesting, behind)
            && SkipSpace(behind) == (if |pairs| == 1 then close else [0x2C] + PutPairs(pairs[1..], close))
    decreases pairs, 0
  {
    hide Put, PutPairs, SkipSpace, ReadValue, Grammatical, Meaning, Expected, Delimited, QuotedString, PutQuoted,
      StringBody, StringOf;
    var close, p := [0x7D] + tail, pairs[0];
    var rest := PutMorePairs(pairs[1..], close);
    var value := p.beforeValue + Put(p.value, p.after + rest);
    QuotedRead(p.name, p.beforeColon + ([0x3A] + value));
    TokenNext(p.beforeColon, 0x3A, value);
    BehindDelimits(p.value, p.after, rest);
    ValueRead(p.value, p.beforeValue, nesting, p.after + rest);
    TokenNext(p.after, 0x7D, tail);
    TokenNext(p.after, 0x2C, PutPairs(pairs[1..], close));
  }

  lemma NoneMemberSound(nesting: nat)
    ensures MembersSound([], nesting) && MemberMeanings([]) == [] && UniqueNames([])
  {
  }

  lemma {:induction false} PairsRead(pairs: seq<Pair>, nesting: nat, acc: seq<Member>, tail: seq<byte>)
    requires pairs != [] && (forall i | 0 <= i < |pairs| :: GrammaticalPair(pairs[i])) && UniqueNames(acc)
    ensures var ms := MemberMeanings(pairs);
            ReadMembers(FromName(pairs, [0x7D] + tail), nesting, acc)
            == if |acc| + |ms| <= OBJECT_MAX_CAPACITY && UniqueNames(acc + ms) && MembersSound(ms, nesting)
               then Got(Obj(acc + ms), tail) else Rejected
    decreases pairs, 1
  {
    hide FromName, PutPairs, PutMorePairs, SkipSpace, ReadMembers, ReadValue, GrammaticalPair, Meaning, Sound,
      MembersSound, UniqueNames, HasName, NameRead, Put;
    var close, p, rest := [0x7D] + tail, pairs[0], pairs[1..];
    var m, ms := MemberOf(p), MemberMeanings(rest);
    var text, behind := FromName(pairs, close), p.after + PutMorePairs(rest, close);
    var value := p.beforeValue + Put(p.value, behind);
    FirstPairRead(pairs, nesting, tail);
    FirstMemberSound(m, ms, nesting);
    NewName(acc, m, ms);
    if !Sound(m.value, nesting) {
      MemberRefused(text, nesting, acc, m.name, value);
    } else if HasName(acc, m.name) || |acc| >= OBJECT_MAX_CAPACITY {
      MemberNotAdded(text, nesting, acc, m.name, value);
    } else if rest == [] {
      NoneMemberSound(nesting);
      MemberThenEnd(text, nesting, acc, m, value, behind, tail);
      assert [m] + ms == [m];
    } else {
      MemberThenMore(text, nesting, acc, m, value, behind, PutPairs(rest, close));
      GapBeforeName([], rest, close);
      assert [] + PutPairs(rest, close) == PutPairs(rest, close);
      PairsRead(rest, nesting, acc + [m], tail);
      Assoc3(acc, m, ms);
    }
  }

  lemma NoPairs(close: seq<byte>)
    ensures PutPairs([], close) == close
  {
  }

  lemma {:induction false} ObjectRead(x: Syntax, nesting: nat, tail: seq<byte>)
    requires x.Object? && Grammatical(x) && nesting <= MAX_NESTING
    ensures Head(Put(x, tail)) == 0x7B && ReadObject(Put(x, tail), nesting + 1) == Expected(Meaning(x), nesting, tail)
    decreases x, 0
  {
    hide ReadMembers, SkipSpace, GrammaticalPair, PutPairs, FromName, MembersSound, Sound, UniqueNames;
    var close := [0x7D] + tail;
    var text := Put(x, tail);
    assert text[1..] == x.gap + PutPairs(x.pairs, close);
    ObjectSound(MemberMeanings(x.pairs), nesting);
    NoneMemberSound(nesting + 1);
    if x.pairs == [] {
      NoPairs(close);
      TokenNext(x.gap, 0x7D, tail);
    } else {
      GapBeforeName(x.gap, x.pairs, close);
      PairsRead(x.pairs, nesting + 1, [], tail);
      assert [] + MemberMeanings(x.pairs) == MemberMeanings(x.pairs);
    }
  }

  lemma SkippingReads(text: seq<byte>, t: seq<byte>, nesting: nat)
    requires SkipSpace(text) == SkipSpace(t)
    ensures ReadValue(text, nesting) == ReadValue(t, nesting)
  {
    hide ReadObject, ReadArray, ReadString, ReadBool, ReadNumber, ReadNull, SkipSpace;
  }

  lemma WordRead(v: Json, tail: seq<byte>)
    requires v.Null? || v.Bool?
    ensures var text := Spelling(v) + tail;
            if v.Null? then Head(text) == 0x6E && ReadNull(text) == Got(v, tail)
            else Head(text) in {0x66, 0x74} && ReadBool(text) == Got(v, tail)
  {
    Parts(Spelling(v), tail);
  }

  /** A value that is neither an array nor an object. */
  lemma LeafRead(x: Syntax, nesting: nat, tail: seq<byte>)
    requires !x.Array? && !x.Object? && Grammatical(x) && Delimited(x, tail) && nesting <= MAX_NESTING
    requires SkipSpace(Put(x, tail)) == Put(x, tail)
    ensures ReadValue(Put(x, tail), nesting) == Expected(Meaning(x), nesting, tail)
  {
    hide ReadNumber, ReadBool, ReadNull, QuotedString, SkipSpace, Numeral, StringBody, PutQuoted, NumberOf, PutDigits,
      Spelling;
    match x
    case Word(v) => WordRead(v, tail);
    case Number(_, _, _, _) => NumberRead(x, tail);
    case Quoted(body) => QuotedRead(body, tail);
  }

  /**
   * A grammatical value is read, whatever its layout: it comes back with its tail untouched if and only if
   * its names are unique, its sizes within the capacities and its depth within the nesting.
   */
  lemma {:induction false} ValueRead(x: Syntax, gap: seq<byte>, nesting: nat, tail: seq<byte>)
    requires Grammatical(x) && Gap(gap) && Delimited(x, tail)
    ensures ReadValue(gap + Put(x, tail), nesting) == Expected(Meaning(x), nesting, tail)
    decreases x, 1
  {
    hide Put, ReadObject, ReadArray, SkipSpace, Grammatical, Meaning, Delimited;
    var text := Put(x, tail);
    GapSkipped(gap, text);
    StartsSolid(x, tail);
    SkippingReads(gap + text, text, nesting);
    if nesting > MAX_NESTING {
    } else if x.Array? {
      ArrayRead(x, nesting, tail);
    } else if x.Object? {
      ObjectRead(x, nesting, tail);
    } else {
      LeafRead(x, nesting, tail);
    }
  }
}
