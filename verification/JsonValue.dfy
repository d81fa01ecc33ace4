/** JSON values, their text, and the parser as a function of the text that remains. */
module JsonValue {
  import opened Bytes
  import opened JsonString

  const MAX_NESTING: nat := 19
  const STARTING_CAPACITY: nat := 15
  const OBJECT_MAX_CAPACITY: nat := 960
  const ARRAY_MAX_CAPACITY: nat := 122880

  const TWO53: int := 0x20_0000_0000_0000

  /** An odd part below 2 to the power 53, and at most `shift` factors of two. */
  predicate Significant(n: nat, shift: nat)
    decreases n, shift
  {
    n < TWO53 || (n % 2 == 0 && shift > 0 && Significant(n / 2, shift - 1))
  }

  function Magnitude(n: int): nat { if n < 0 then -n else n }

  /** The integers a finite `double` holds. */
  predicate IsDouble(n: int) { Significant(Magnitude(n), 971) }

  type whole = n: int | IsDouble(n)

  datatype Json =
    | Null
    | Bool(on: bool)
    | Num(n: whole)
    | Str(s: cstring)
    | Arr(items: seq<Json>)
    | Obj(members: seq<Member>)

  datatype Member = Member(name: cstring, value: Json)

  // ---------- numbers ----------

  function Digits(n: nat): (s: seq<byte>)
    ensures |s| > 0
  {
    if n < 10 then [0x30 + n] else Digits(n / 10) + [0x30 + n % 10]
  }

  /** `%d` and `%u`. */
  function Decimal(n: int): seq<byte> {
    if n < 0 then [0x2D] + Digits(-n) else Digits(n)
  }

  /** `.000000`, which `%f` puts behind an integer. */
  const FRACTION: seq<byte> := [0x2E, 0x30, 0x30, 0x30, 0x30, 0x30, 0x30]

  function Fraction(n: whole): seq<byte> {
    if -0x8000_0000 <= n < 0x1_0000_0000 then [] else FRACTION
  }

  /** What an `int` or an `unsigned int` holds is written by `%d` or `%u`, any other number by `%f`. */
  function NumberText(n: whole): seq<byte> {
    Decimal(n) + Fraction(n)
  }

  predicate IsDigit(b: byte) { 0x30 <= b <= 0x39 }

  /** Up to 2 to the power 53 every integer is a double, and the next one is not. */
  lemma DoubleLimit(n: int)
    ensures -0x20_0000_0000_0000 <= n <= 0x20_0000_0000_0000 ==> IsDouble(n)
    ensures !IsDouble(0x20_0000_0000_0001)
  {
    if Magnitude(n) == 0x20_0000_0000_0000 { assert Significant(0x10_0000_0000_0000, 970); }
  }

  function DigitRun(text: seq<byte>): (n: nat)
    ensures n <= |text| && forall i | 0 <= i < n :: IsDigit(text[i])
  {
    if text == [] || !IsDigit(text[0]) then 0 else 1 + DigitRun(text[1..])
  }

  function DigitValue(b: byte): nat
    requires IsDigit(b)
  {
    b - 0x30
  }

  function ValueOf(digits: seq<byte>): nat
    requires forall i | 0 <= i < |digits| :: IsDigit(digits[i])
  {
    if digits == [] then 0 else ValueOf(digits[..|digits| - 1]) * 10 + DigitValue(digits[|digits| - 1])
  }

  /** Behind the digits of an integer that neither 32-bit type holds stand a point and six zeros. */
  lemma NumberForms(n: whole)
    ensures NumberText(n)
         == Decimal(n) + if -2147483648 <= n <= 4294967295 then [] else [0x2E] + seq(6, _ => 0x30)
  {
    assert FRACTION == [0x2E] + seq(6, _ => 0x30);
  }

  // ---------- writing ----------

  function Pad(level: nat): (s: seq<byte>)
    ensures forall i | 0 <= i < |s| :: s[i] == 0x20
  {
    if level == 0 then [] else [0x20, 0x20, 0x20, 0x20] + Pad(level - 1)
  }

  function Indent(pretty: bool, level: nat): seq<byte> {
    if pretty then Pad(level) else []
  }

  function Newline(pretty: bool): seq<byte> {
    if pretty then [0x0A] else []
  }

  function Colon(pretty: bool): seq<byte> {
    if pretty then [0x3A, 0x20] else [0x3A]
  }

  function Comma(more: bool): seq<byte> {
    if more then [0x2C] else []
  }

  const TRUE: seq<byte> := [0x74, 0x72, 0x75, 0x65]
  const FALSE: seq<byte> := [0x66, 0x61, 0x6C, 0x73, 0x65]
  const NULL: seq<byte> := [0x6E, 0x75, 0x6C, 0x6C]

  /** The text of a value at an indentation level. */
  function Text(v: Json, level: nat, pretty: bool): seq<byte>
    decreases v, 1
  {
    match v
    case Null => NULL
    case Bool(on) => if on then TRUE else FALSE
    case Num(n) => NumberText(n)
    case Str(s) => QuotedText(s)
    case Arr(items) =>
      if items == [] then [0x5B, 0x5D]
      else [0x5B] + Newline(pretty) + Items(items, level + 1, pretty) + Indent(pretty, level) + [0x5D]
    case Obj(members) =>
      if members == [] then [0x7B, 0x7D]
      else [0x7B] + Newline(pretty) + Members(members, level + 1, pretty) + Indent(pretty, level) + [0x7D]
  }

  function Items(items: seq<Json>, level: nat, pretty: bool): seq<byte>
    decreases items, 0
  {
    if items == [] then []
    else
      Indent(pretty, level) + Text(items[0], level, pretty) + Comma(|items| > 1) + Newline(pretty)
      + Items(items[1..], level, pretty)
  }

  function Members(members: seq<Member>, level: nat, pretty: bool): seq<byte>
    decreases members, 0
  {
    if members == [] then []
    else
      Indent(pretty, level) + QuotedText(members[0].name) + Colon(pretty) + Text(members[0].value, level, pretty)
      + Comma(|members| > 1) + Newline(pretty) + Members(members[1..], level, pretty)
  }

  // ---------- reading ----------

  /** Foreign: a number text that is not a plain integer, which this model does not evaluate. */
  datatype Reading<+T> = Got(value: T, rest: seq<byte>) | Rejected | Foreign

  predicate IsSpace(b: byte) { b == 0x20 || 0x09 <= b <= 0x0D }

  function SkipSpace(text: seq<byte>): (t: seq<byte>)
    ensures |t| <= |text| && !IsSpace(Head(t))
  {
    if IsSpace(Head(text)) then SkipSpace(text[1..]) else text
  }

  predicate StartsWith(text: seq<byte>, token: seq<byte>) { token <= text }

  predicate StartsWord(text: seq<byte>, word: seq<byte>)
    requires |word| == 3
  {
    |text| >= 3 && forall i | 0 <= i < 3 :: text[i] == word[i] || text[i] as int == word[i] as int - 0x20
  }

  /** `strtod` takes INF and NAN in any case. */
  predicate SpellsInfinity(text: seq<byte>) {
    StartsWord(text, [0x69, 0x6E, 0x66]) || StartsWord(text, [0x6E, 0x61, 0x6E])
  }

  /** A digit, or a point and a digit. */
  predicate StartsDigits(text: seq<byte>) {
    IsDigit(Head(text)) || (Head(text) == 0x2E && IsDigit(Head(text[1..])))
  }

  /** A minus sign that `strtod` finds no number behind. */
  predicate LoneMinus(text: seq<byte>) {
    Head(text) == 0x2D && !StartsDigits(text[1..]) && !SpellsInfinity(text[1..])
  }

  predicate AllDigits(s: seq<byte>) {
    forall i | 0 <= i < |s| :: IsDigit(s[i])
  }

  /** A number of which `strtod` took digits, a fraction behind a point, and left `rest`. */
  function Evaluate(negative: bool, digits: seq<byte>, point: bool, fraction: seq<byte>, rest: seq<byte>)
    : (r: Reading<Json>)
    requires AllDigits(digits) && AllDigits(fraction)
    ensures r.Got? ==> r.rest == rest
  {
    if |digits| > 1 && digits[0] == 0x30 then Rejected
    else
      var n: int := ValueOf(digits);
      if ValueOf(fraction) != 0 || !IsDouble(n) then Foreign
      else if Head(rest) in {0x45, 0x65} || (!point && n == 0 && Head(rest) in {0x58, 0x78}) then Foreign
      else Got(Num(if negative then -n else n), rest)
  }

  /**
   * `parse_number_value` with `strtod` on integer texts, which may have a fraction of zeros. Where
   * `strtod` finds no number it answers 0 and takes nothing.
   */
  function ReadNumber(text: seq<byte>): (r: Reading<Json>)
    ensures r.Got? ==> |r.rest| <= |text|
  {
    var negative := Head(text) == 0x2D;
    var body := if negative then text[1..] else text;
    var k := DigitRun(body);
    var point := Head(body[k..]) == 0x2E;
    var j := if point then DigitRun(body[k + 1..]) else 0;
    if k + j == 0 then
      if SpellsInfinity(body) then Foreign else Got(Num(0), text)
    else if point then Evaluate(negative, body[..k], true, body[k + 1..][..j], body[k + 1 + j..])
    else Evaluate(negative, body[..k], false, [], body[k..])
  }

  function ReadString(text: seq<byte>): (r: Reading<Json>)
    ensures r.Got? ==> |r.rest| < |text|
  {
    match QuotedString(text)
    case NoString => Rejected
    case String(s, rest) => Got(Str(s), rest)
  }

  function ReadBool(text: seq<byte>): (r: Reading<Json>)
    ensures r.Got? ==> |r.rest| < |text|
  {
    if StartsWith(text, TRUE) then Got(Bool(true), text[4..])
    else if StartsWith(text, FALSE) then Got(Bool(false), text[5..])
    else Rejected
  }

  function ReadNull(text: seq<byte>): (r: Reading<Json>)
    ensures r.Got? ==> |r.rest| < |text|
  {
    if StartsWith(text, NULL) then Got(Null, text[4..]) else Rejected
  }

  predicate HasName(members: seq<Member>, name: seq<byte>) {
    exists i | 0 <= i < |members| :: members[i].name == name
  }

  /** `parse_value`. */
  function ReadValue(text: seq<byte>, nesting: nat): (r: Reading<Json>)
    ensures r.Got? ==> |r.rest| <= |text|
    decreases |text|, 1
  {
    if nesting > MAX_NESTING then Rejected
    else
      var t := SkipSpace(text);
      var c := Head(t);
      if c == 0x7B then ReadObject(t, nesting + 1)
      else if c == 0x5B then ReadArray(t, nesting + 1)
      else if c == QUOTE then ReadString(t)
      else if c == 0x66 || c == 0x74 then ReadBool(t)
      else if c == 0x2D || IsDigit(c) then ReadNumber(t)
      else if c == 0x6E then ReadNull(t)
      else Rejected
  }

  /** `parse_array_value`. */
  function ReadArray(text: seq<byte>, nesting: nat): (r: Reading<Json>)
    requires Head(text) == 0x5B
    ensures r.Got? ==> |r.rest| < |text|
    decreases |text|, 0
  {
    var t := SkipSpace(text[1..]);
    if Head(t) == 0x5D then Got(Arr([]), t[1..]) else ReadItems(t, nesting, [])
  }

  function ReadItems(text: seq<byte>, nesting: nat, items: seq<Json>): (r: Reading<Json>)
    ensures r.Got? ==> |r.rest| <= |text|
    decreases |text|, 2
  {
    if Head(text) == 0 then Rejected
    else
      match ReadValue(text, nesting)
      case Rejected => Rejected
      case Foreign => Foreign
      case Got(v, rest) =>
        if |items| >= ARRAY_MAX_CAPACITY then Rejected
        else
          var t := SkipSpace(rest);
          if Head(t) == 0x2C then ReadItems(SkipSpace(t[1..]), nesting, items + [v])
          else if Head(t) == 0x5D then Got(Arr(items + [v]), t[1..])
          else Rejected
  }

  /** `parse_object_value`: names must be new, in the sense of `json_object_add`. */
  function ReadObject(text: seq<byte>, nesting: nat): (r: Reading<Json>)
    requires Head(text) == 0x7B
    ensures r.Got? ==> |r.rest| < |text|
    decreases |text|, 0
  {
    var t := SkipSpace(text[1..]);
    if Head(t) == 0x7D then Got(Obj([]), t[1..]) else ReadMembers(t, nesting, [])
  }

  function ReadMembers(text: seq<byte>, nesting: nat, members: seq<Member>): (r: Reading<Json>)
    ensures r.Got? ==> |r.rest| <= |text|
    decreases |text|, 2
  {
    match QuotedString(text)
    case NoString => Rejected
    case String(name, behind) =>
      var u := SkipSpace(behind);
      if Head(u) != 0x3A then Rejected
      else
        match ReadValue(u[1..], nesting)
        case Rejected => Rejected
        case Foreign => Foreign
        case Got(v, rest) =>
          if HasName(members, name) || |members| >= OBJECT_MAX_CAPACITY then Rejected
          else
            var t := SkipSpace(rest);
            if Head(t) == 0x2C then ReadMembers(SkipSpace(t[1..]), nesting, members + [Member(name, v)])
            else if Head(t) == 0x7D then Got(Obj(members + [Member(name, v)]), t[1..])
            else Rejected
  }

  // ---------- numbers that are not read ----------

  /** An accepted number takes text off the front if and only if digits stand there. */
  lemma NumberConsumes(text: seq<byte>)
    requires Head(text) == 0x2D || IsDigit(Head(text))
    requires ReadNumber(text).Got?
    ensures |ReadNumber(text).rest| < |text|
            <==> StartsDigits(if Head(text) == 0x2D then text[1..] else text)
    ensures ReadNumber(text).rest == text <==> LoneMinus(text)
  {
    hide Evaluate;
    var body := if Head(text) == 0x2D then text[1..] else text;
    assert body[0..] == body;
    assert Head(body) == 0x2E ==> body[0 + 1..] == body[1..];
  }

  lemma LoneMinusIsZero(text: seq<byte>)
    ensures LoneMinus(text) ==> ReadNumber(text) == Got(Num(0), text)
  {
    assert text != [] ==> text[1..][0..] == text[1..];
  }

  /** A value is accepted with nothing of its text read if and only if it is a lone minus sign. */
  lemma UnreadValue(text: seq<byte>, nesting: nat)
    requires nesting <= MAX_NESTING
    ensures var t, r := SkipSpace(text), ReadValue(text, nesting);
            (r.Got? && r.rest == t <==> LoneMinus(t)) && (LoneMinus(t) ==> r == Got(Num(0), t))
  {
    hide ReadNumber, ReadString, ReadObject, ReadArray, ReadBool, ReadNull;
    var t := SkipSpace(text);
    if Head(t) == 0x2D || IsDigit(Head(t)) {
      if ReadNumber(t).Got? { NumberConsumes(t); }
      LoneMinusIsZero(t);
    }
  }

  /** The text `-` is accepted, and all of it is left. */
  lemma MinusIsAccepted()
    ensures ReadValue([0x2D], 0) == Got(Num(0), [0x2D])
  {
    UnreadValue([0x2D], 0);
  }

  /** What stays unread there is neither a separator nor a bracket, so an array is refused. */
  lemma LoneMinusInArray(text: seq<byte>, nesting: nat, items: seq<Json>)
    requires LoneMinus(text)
    ensures ReadItems(text, nesting, items) == Rejected
  {
    hide ReadNumber;
    if nesting <= MAX_NESTING { UnreadValue(text, nesting); }
  }

  /** And so is an object. */
  lemma LoneMinusInObject(text: seq<byte>, nesting: nat, members: seq<Member>)
    requires QuotedString(text).String?
    requires var u := SkipSpace(QuotedString(text).rest); Head(u) == 0x3A && LoneMinus(SkipSpace(u[1..]))
    ensures ReadMembers(text, nesting, members) == Rejected
  {
    hide ReadNumber, QuotedString, HasName;
    if nesting <= MAX_NESTING { UnreadValue(SkipSpace(QuotedString(text).rest)[1..], nesting); }
  }

  // ---------- values the library can hold ----------

  predicate UniqueNames(members: seq<Member>) {
    forall i, j | 0 <= i < j < |members| :: members[i].name != members[j].name
  }

  /** What the library can hold: unique names and sizes within the capacities, at every depth. */
  predicate Proper(v: Json) {
    match v
    case Null => true
    case Bool(_) => true
    case Num(_) => true
    case Str(_) => true
    case Arr(items) => |items| <= ARRAY_MAX_CAPACITY && forall i | 0 <= i < |items| :: Proper(items[i])
    case Obj(members) =>
      |members| <= OBJECT_MAX_CAPACITY && UniqueNames(members)
      && forall i | 0 <= i < |members| :: Proper(members[i].value)
  }

  /** No leaf lies deeper than the parser descends, starting at `nesting`. */
  predicate Shallow(v: Json, nesting: nat) {
    nesting <= MAX_NESTING &&
    match v
    case Null => true
    case Bool(_) => true
    case Num(_) => true
    case Str(_) => true
    case Arr(items) => forall i | 0 <= i < |items| :: Shallow(items[i], nesting + 1)
    case Obj(members) => forall i | 0 <= i < |members| :: Shallow(members[i].value, nesting + 1)
  }

  predicate Sound(v: Json, nesting: nat) { Proper(v) && Shallow(v, nesting) }
}
