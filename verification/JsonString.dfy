/** JSON strings: finding the closing quote, resolving escapes, and writing them. */
module JsonString {
  import opened Bytes

  const QUOTE: byte := 0x22
  const BACKSLASH: byte := 0x5C
  const SLASH: byte := 0x2F

  /** The character under the cursor; behind the end stands the terminating NUL. */
  function Head(text: seq<byte>): byte {
    if text == [] then 0 else text[0]
  }

  predicate NulFree(s: seq<byte>) { 0 !in s }

  /** What a `char *` holds, its terminating NUL left out. */
  type cstring = s: seq<byte> | NulFree(s)

  // ---------- UTF-8 ----------

  predicate IsCont(b: byte) { 0x80 <= b < 0xC0 }

  /** `num_bytes_in_utf8_sequence`. */
  function SequenceLength(c: byte): nat {
    if c == 0xC0 || c == 0xC1 || c > 0xF4 || IsCont(c) then 0
    else if c < 0x80 then 1
    else if c < 0xE0 then 2
    else if c < 0xF0 then 3
    else 4
  }

  /** `(cp << 6) | (b & 0x3F)`. */
  function Joined(cp: nat, b: byte): nat { cp * 64 + b % 64 }

  /** The code point bits of a sequence whose length and continuation bytes are right. */
  function CodePoint(s: seq<byte>): Option<nat> {
    var n := SequenceLength(Head(s));
    if n == 1 then Some(Head(s))
    else if n == 2 && |s| >= 2 && IsCont(s[1]) then Some(Joined(s[0] % 32, s[1]))
    else if n == 3 && |s| >= 3 && IsCont(s[1]) && IsCont(s[2]) then Some(Joined(Joined(s[0] % 16, s[1]), s[2]))
    else if n == 4 && |s| >= 4 && IsCont(s[1]) && IsCont(s[2]) && IsCont(s[3])
    then Some(Joined(Joined(Joined(s[0] % 8, s[1]), s[2]), s[3]))
    else None
  }

  predicate IsSurrogate(cp: nat) { 0xD800 <= cp <= 0xDFFF }

  /** `verify_utf8_sequence`: the code point of a sequence at the front, if it is acceptable. */
  function VerifyUtf8(s: seq<byte>): Option<nat> {
    var n := SequenceLength(Head(s));
    match CodePoint(s)
    case None => None
    case Some(cp) =>
      if (cp < 0x80 && n > 1) || (cp < 0x800 && n > 2) || (cp < 0x10000 && n > 3) then None
      else if cp > 0x10FFFF || IsSurrogate(cp) then None
      else Some(cp)
  }

  /** The bytes `parse_utf_16` writes for a code point. */
  function Utf8(cp: nat): (s: seq<byte>)
    requires cp <= 0x10FFFF && !IsSurrogate(cp)
    ensures 1 <= |s| <= 4
  {
    if cp < 0x80 then [cp]
    else if cp < 0x800 then [0xC0 + cp / 64, 0x80 + cp % 64]
    else if cp < 0x10000 then [0xE0 + cp / 0x1000, 0x80 + cp / 64 % 64, 0x80 + cp % 64]
    else [0xF0 + cp / 0x40000, 0x80 + cp / 0x1000 % 64, 0x80 + cp / 64 % 64, 0x80 + cp % 64]
  }

  /** What an escape becomes is UTF-8 that the library's own check reads as the same code point. */
  lemma Utf8Verifies(cp: nat, tail: seq<byte>)
    requires cp <= 0x10FFFF && !IsSurrogate(cp)
    ensures VerifyUtf8(Utf8(cp) + tail) == Some(cp)
    ensures SequenceLength((Utf8(cp) + tail)[0]) == |Utf8(cp)|
  {
    hide VerifyUtf8, SequenceLength;
    var s := Utf8(cp) + tail;
    if cp < 0x80 {
      OneByte(s);
    } else if cp < 0x800 {
      assert s[0] == 0xC0 + cp / 64 && s[1] == 0x80 + cp % 64;
      TwoBytes(cp, s);
    } else if cp < 0x10000 {
      assert s[0] == 0xE0 + cp / 0x1000 && s[1] == 0x80 + cp / 64 % 64 && s[2] == 0x80 + cp % 64;
      ThreeBytes(cp, s);
    } else {
      assert s[0] == 0xF0 + cp / 0x40000 && s[1] == 0x80 + cp / 0x1000 % 64;
      assert s[2] == 0x80 + cp / 64 % 64 && s[3] == 0x80 + cp % 64;
      FourBytes(cp, s);
    }
  }

  lemma OneByte(s: seq<byte>)
    requires s != [] && s[0] < 0x80
    ensures SequenceLength(s[0]) == 1 && VerifyUtf8(s) == Some(s[0])
  {
  }

  lemma TwoBytes(cp: nat, s: seq<byte>)
    requires 0x80 <= cp < 0x800 && |s| >= 2 && s[0] == 0xC0 + cp / 64 && s[1] == 0x80 + cp % 64
    ensures SequenceLength(s[0]) == 2 && VerifyUtf8(s) == Some(cp)
  {
    var top := cp / 64;
    assert 2 <= top < 32 && s[0] % 32 == top;
    Last(cp);
    hide Joined;
    assert Joined(top, s[1]) == cp;
  }

  lemma ThreeBytes(cp: nat, s: seq<byte>)
    requires 0x800 <= cp < 0x10000 && !IsSurrogate(cp) && |s| >= 3
    requires s[0] == 0xE0 + cp / 0x1000 && s[1] == 0x80 + cp / 64 % 64 && s[2] == 0x80 + cp % 64
    ensures SequenceLength(s[0]) == 3 && VerifyUtf8(s) == Some(cp)
  {
    var top := cp / 0x1000;
    assert 0 <= top < 16 && s[0] % 16 == top && cp / 64 / 64 == top;
    Last(cp);
    Last(cp / 64);
    hide Joined;
    assert Joined(Joined(top, s[1]), s[2]) == cp;
  }

  lemma FourBytes(cp: nat, s: seq<byte>)
    requires 0x10000 <= cp <= 0x10FFFF && |s| >= 4
    requires s[0] == 0xF0 + cp / 0x40000 && s[1] == 0x80 + cp / 0x1000 % 64
    requires s[2] == 0x80 + cp / 64 % 64 && s[3] == 0x80 + cp % 64
    ensures SequenceLength(s[0]) == 4 && VerifyUtf8(s) == Some(cp)
  {
    var top := cp / 0x40000;
    assert 0 <= top < 5 && s[0] % 8 == top && cp / 0x1000 / 64 == top && cp / 64 / 64 == cp / 0x1000;
    Last(cp);
    Last(cp / 64);
    Last(cp / 0x1000);
    hide Joined;
    assert Joined(Joined(Joined(top, s[1]), s[2]), s[3]) == cp;
  }

  lemma Last(cp: nat)
    ensures Joined(cp / 64, 0x80 + cp % 64) == cp
  {
  }

  lemma JoinedParts(cp: nat, b: byte)
    requires IsCont(b)
    ensures Joined(cp, b) / 64 == cp && 0x80 + Joined(cp, b) % 64 == b
  {
  }

  lemma OneByteForm(a: byte)
    requires a < 0x80
    ensures Utf8(a) == [a]
  {
  }

  lemma TwoByteForm(a: byte, b: byte)
    requires 0xC2 <= a < 0xE0 && IsCont(b)
    ensures var cp := Joined(a % 32, b); 0x80 <= cp < 0x800 && Utf8(cp) == [a, b]
  {
    JoinedParts(a % 32, b);
  }

  lemma ThreeByteForm(a: byte, b: byte, c: byte)
    requires 0xE0 <= a < 0xF0 && IsCont(b) && IsCont(c)
    ensures var cp := Joined(Joined(a % 16, b), c);
            cp < 0x10000 && (0x800 <= cp && !IsSurrogate(cp) ==> Utf8(cp) == [a, b, c])
  {
    var q := Joined(a % 16, b);
    var cp := Joined(q, c);
    JoinedParts(a % 16, b);
    JoinedParts(q, c);
    Quotient4096(cp);
    hide Joined, IsCont;
    assert cp / 0x1000 == a % 16 && 0xE0 + a % 16 == a;
    assert 0x80 + q % 64 == b && 0x80 + cp % 64 == c && cp / 64 == q;
    assert 0x800 <= cp < 0x10000 && !IsSurrogate(cp) ==> Utf8(cp) == [a, b, c];
  }

  lemma FourByteForm(a: byte, b: byte, c: byte, d: byte)
    requires 0xF0 <= a <= 0xF4 && IsCont(b) && IsCont(c) && IsCont(d)
    ensures var cp := Joined(Joined(Joined(a % 8, b), c), d);
            0x10000 <= cp <= 0x10FFFF ==> Utf8(cp) == [a, b, c, d]
  {
    var p := Joined(a % 8, b);
    var q := Joined(p, c);
    JoinedParts(a % 8, b);
    JoinedParts(p, c);
    JoinedParts(q, d);
    Quotient4096(Joined(q, d));
    hide Joined;
  }

  lemma Quotient4096(cp: nat)
    ensures cp / 0x1000 == cp / 64 / 64 && cp / 0x40000 == cp / 64 / 64 / 64
  {
  }

  /** What the check accepts is the UTF-8 of the code point it answers: no longer form, no surrogate. */
  lemma VerifiedIsUtf8(s: seq<byte>)
    requires s != [] && VerifyUtf8(s).Some?
    ensures var cp := VerifyUtf8(s).value; cp <= 0x10FFFF && !IsSurrogate(cp) && Utf8(cp) <= s
  {
    hide Utf8, Joined;
    var n := SequenceLength(s[0]);
    if n == 1 {
      OneByteForm(s[0]);
    } else if n == 2 {
      TwoByteForm(s[0], s[1]);
      assert s[..2] == [s[0], s[1]];
    } else if n == 3 {
      ThreeByteForm(s[0], s[1], s[2]);
      assert s[..3] == [s[0], s[1], s[2]];
    } else {
      FourByteForm(s[0], s[1], s[2], s[3]);
      assert s[..4] == [s[0], s[1], s[2], s[3]];
    }
  }

  // ---------- escapes ----------

  predicate IsHex(b: byte) {
    0x30 <= b <= 0x39 || 0x41 <= b <= 0x46 || 0x61 <= b <= 0x66
  }

  function HexDigit(b: byte): nat
    requires IsHex(b)
    ensures HexDigit(b) < 16
  {
    if b <= 0x39 then b - 0x30 else if b <= 0x46 then b - 0x37 else b - 0x57
  }

  /** Digits and letters of either case. */
  lemma HexDigitRead(b: byte, d: nat)
    requires d < 16
    ensures IsHex(b) && HexDigit(b) == d
            <==> b as int == "0123456789abcdef"[d] as int || b as int == "0123456789ABCDEF"[d] as int
  {
  }

  /** Four hex digits at the front. */
  function Hex4(s: seq<byte>): (r: Option<nat>)
    ensures r.Some? ==> |s| >= 4 && r.value < 0x10000
  {
    if |s| >= 4 && IsHex(s[0]) && IsHex(s[1]) && IsHex(s[2]) && IsHex(s[3])
    then Some(((HexDigit(s[0]) * 16 + HexDigit(s[1])) * 16 + HexDigit(s[2])) * 16 + HexDigit(s[3]))
    else None
  }

  /** The code point a surrogate pair stands for (RFC 4627, section 2.5). */
  function Combine(lead: nat, trail: nat): (cp: nat)
    requires 0xD800 <= lead <= 0xDBFF && 0xDC00 <= trail <= 0xDFFF
    ensures 0x10000 <= cp <= 0x10FFFF
  {
    (lead - 0xD800) * 0x400 + (trail - 0xDC00) + 0x10000
  }

  /** Every code point outside the basic plane is spelled by one surrogate pair. */
  lemma PairsSpellAll(cp: nat)
    requires 0x10000 <= cp <= 0x10FFFF
    ensures var lead, trail := 0xD800 + (cp - 0x10000) / 0x400, 0xDC00 + (cp - 0x10000) % 0x400;
            lead <= 0xDBFF && trail <= 0xDFFF && Combine(lead, trail) == cp
  {
  }

  lemma PairsDistinct(lead: nat, trail: nat)
    requires 0xD800 <= lead <= 0xDBFF && 0xDC00 <= trail <= 0xDFFF
    ensures var cp := Combine(lead, trail);
            lead == 0xD800 + (cp - 0x10000) / 0x400 && trail == 0xDC00 + (cp - 0x10000) % 0x400
  {
  }

  datatype Escape = Escape(cp: nat, length: nat)

  /** `parse_utf_16` behind `\u`: the code point and how many characters spell it. */
  function UnicodeEscape(s: seq<byte>): (r: Option<Escape>)
    ensures r.Some? ==> r.value.cp <= 0x10FFFF && !IsSurrogate(r.value.cp)
    ensures r.Some? ==> r.value.length == (if r.value.cp < 0x10000 then 4 else 10) && r.value.length <= |s|
  {
    match Hex4(s)
    case None => None
    case Some(cp) =>
      if !IsSurrogate(cp) then Some(Escape(cp, 4))
      else if cp > 0xDBFF then None
      else if |s| < 6 || s[4] != BACKSLASH || s[5] != 0x75 then None
      else
        match Hex4(s[6..])
        case None => None
        case Some(trail) =>
          if trail < 0xDC00 || trail > 0xDFFF then None else Some(Escape(Combine(cp, trail), 10))
  }

  /** The character a two-character escape stands for. */
  function Simple(c: byte): (r: Option<byte>)
    ensures r.Some? ==> c < 0x80 && r.value < 0x80
  {
    if c == QUOTE || c == BACKSLASH || c == SLASH then Some(c)
    else if c == 0x62 then Some(8)
    else if c == 0x66 then Some(12)
    else if c == 0x6E then Some(10)
    else if c == 0x72 then Some(13)
    else if c == 0x74 then Some(9)
    else None
  }

  /** `process_string`: the bytes a string body stands for. */
  function Unescape(s: seq<byte>): (r: Option<seq<byte>>)
    ensures r.Some? ==> |r.value| <= |s|
  {
    if s == [] then Some([])
    else if s[0] == BACKSLASH then
      if |s| == 1 then None
      else if s[1] == 0x75 then
        match UnicodeEscape(s[2..])
        case None => None
        case Some(e) => Prepend(Utf8(e.cp), Unescape(s[2 + e.length..]))
      else
        match Simple(s[1])
        case None => None
        case Some(c) => Prepend([c], Unescape(s[2..]))
    else if s[0] < 0x20 then None
    else Prepend([s[0]], Unescape(s[1..]))
  }

  function Prepend(a: seq<byte>, r: Option<seq<byte>>): Option<seq<byte>> {
    match r case None => None case Some(b) => Some(a + b)
  }

  /** `skip_quotes` behind the opening quote: how many characters come before the closing one. */
  function BodyLength(text: seq<byte>): (r: Option<nat>)
    ensures r.Some? ==> r.value < |text| && text[r.value] == QUOTE
  {
    if Head(text) == 0 then None
    else if text[0] == QUOTE then Some(0)
    else if text[0] == BACKSLASH then
      if Head(text[1..]) == 0 then None else Further(2, BodyLength(text[2..]))
    else Further(1, BodyLength(text[1..]))
  }

  function Further(n: nat, r: Option<nat>): Option<nat> {
    match r case None => None case Some(k) => Some(n + k)
  }

  /** A C string ends at its first NUL, and `\u0000` can put one inside. */
  function CString(s: seq<byte>): (r: cstring)
    ensures r <= s
  {
    if s == [] || s[0] == 0 then [] else [s[0]] + CString(s[1..])
  }

  datatype Quoted = NoString | String(value: cstring, rest: seq<byte>)

  /** `get_quoted_string`. */
  function QuotedString(text: seq<byte>): (r: Quoted)
    ensures r.String? ==> |r.rest| + 2 <= |text|
  {
    if Head(text) != QUOTE then NoString
    else
      match BodyLength(text[1..])
      case None => NoString
      case Some(n) =>
        match Unescape(text[1..n + 1])
        case None => NoString
        case Some(s) => String(CString(s), text[n + 2..])
  }

  // ---------- writing ----------

  function HexChar(d: nat): byte
    requires d < 16
  {
    if d < 10 then 0x30 + d else 0x57 + d
  }

  /** `json_serialize_string` on one character. */
  function Escaped(c: byte): (s: seq<byte>)
    ensures 1 <= |s| <= 6
  {
    if c == QUOTE || c == BACKSLASH || c == SLASH then [BACKSLASH, c]
    else if c == 8 then [BACKSLASH, 0x62]
    else if c == 12 then [BACKSLASH, 0x66]
    else if c == 10 then [BACKSLASH, 0x6E]
    else if c == 13 then [BACKSLASH, 0x72]
    else if c == 9 then [BACKSLASH, 0x74]
    else if c < 0x20 then [BACKSLASH, 0x75, 0x30, 0x30, HexChar(c / 16), HexChar(c % 16)]
    else [c]
  }

  function EscapeAll(s: seq<byte>): seq<byte> {
    if s == [] then [] else Escaped(s[0]) + EscapeAll(s[1..])
  }

  function QuotedText(s: seq<byte>): seq<byte> {
    [QUOTE] + EscapeAll(s) + [QUOTE]
  }

  // ---------- round trip ----------

  lemma EscapedUnescapes(c: byte, rest: seq<byte>)
    ensures Unescape(Escaped(c) + rest) == Prepend([c], Unescape(rest))
  {
    var s := Escaped(c) + rest;
    if c == QUOTE || c == BACKSLASH || c == SLASH || c in {8, 9, 10, 12, 13} {
      assert s[0] == BACKSLASH && s[2..] == rest;
    } else if c < 0x20 {
      assert s[0] == BACKSLASH && s[1] == 0x75;
      var t := s[2..];
      assert t[0] == 0x30 && t[1] == 0x30 && t[2] == HexChar(c / 16) && t[3] == HexChar(c % 16);
      assert Hex4(t) == Some(c);
      assert s[6..] == rest;
    } else {
      assert s[1..] == rest;
    }
  }

  lemma {:induction false} UnescapeEscape(s: seq<byte>)
    ensures Unescape(EscapeAll(s)) == Some(s)
  {
    if s != [] {
      UnescapeEscape(s[1..]);
      EscapedUnescapes(s[0], EscapeAll(s[1..]));
      assert [s[0]] + s[1..] == s;
    }
  }

  lemma PlainSkipped(s: seq<byte>)
    requires s != [] && s[0] != 0 && s[0] != QUOTE && s[0] != BACKSLASH
    ensures BodyLength(s) == Further(1, BodyLength(s[1..]))
  {
  }

  lemma BodyEnds(s: seq<byte>)
    ensures Head(s) == QUOTE ==> BodyLength(s) == Some(0)
    ensures Head(s) == 0 || (s[0] == BACKSLASH && Head(s[1..]) == 0) ==> BodyLength(s) == None
  {
  }

  lemma EscapeSkipped(s: seq<byte>)
    requires |s| >= 2 && s[0] == BACKSLASH && s[1] != 0
    ensures BodyLength(s) == Further(2, BodyLength(s[2..]))
  {
    assert s[1..][0] == s[1];
  }

  lemma FourSkipped(s: seq<byte>)
    requires |s| >= 4 && forall i | 0 <= i < 4 :: IsHex(s[i])
    ensures BodyLength(s) == Further(4, BodyLength(s[4..]))
  {
    hide BodyLength;
    assert s[1..][1..] == s[2..] && s[2..][1..] == s[3..] && s[3..][1..] == s[4..];
    PlainSkipped(s);
    PlainSkipped(s[1..]);
    PlainSkipped(s[2..]);
    PlainSkipped(s[3..]);
  }

  lemma EscapedSkipped(c: byte, rest: seq<byte>)
    ensures BodyLength(Escaped(c) + rest) == Further(|Escaped(c)|, BodyLength(rest))
  {
    hide BodyLength;
    var s := Escaped(c) + rest;
    if c == QUOTE || c == BACKSLASH || c == SLASH || c in {8, 9, 10, 12, 13} {
      assert s[0] == BACKSLASH && s[1] != 0 && s[2..] == rest;
      EscapeSkipped(s);
    } else if c < 0x20 {
      assert s[0] == BACKSLASH && s[1] == 0x75;
      EscapeSkipped(s);
      FourSkipped(s[2..]);
      assert s[2..][4..] == rest;
    } else {
      assert s[0] == c && s[1..] == rest;
      PlainSkipped(s);
    }
  }

  lemma {:induction false} EscapedDelimited(s: seq<byte>, tail: seq<byte>)
    ensures BodyLength(EscapeAll(s) + ([QUOTE] + tail)) == Some(|EscapeAll(s)|)
  {
    if s == [] {
      assert EscapeAll(s) + ([QUOTE] + tail) == [QUOTE] + tail;
    } else {
      var more := EscapeAll(s[1..]);
      EscapedDelimited(s[1..], tail);
      EscapedSkipped(s[0], more + ([QUOTE] + tail));
      Assoc(Escaped(s[0]), more, [QUOTE] + tail);
    }
  }

  lemma {:induction false} CStringWhole(s: seq<byte>)
    ensures CString(s) == s <==> NulFree(s)
  {
    if s != [] {
      CStringWhole(s[1..]);
      assert s == [s[0]] + s[1..];
    }
  }

  /** A string, quoted and escaped, is read back, and exactly its text is consumed. */
  lemma QuotedRoundTrip(s: cstring, tail: seq<byte>)
    ensures QuotedString(QuotedText(s) + tail) == String(s, tail)
  {
    var body := EscapeAll(s);
    var text := QuotedText(s) + tail;
    Assoc([QUOTE] + body, [QUOTE], tail);
    Assoc([QUOTE], body, [QUOTE] + tail);
    assert text[1..] == body + ([QUOTE] + tail);
    EscapedDelimited(s, tail);
    assert text[1..|body| + 1] == body && text[|body| + 2..] == tail;
    UnescapeEscape(s);
    CStringWhole(s);
  }

  // ---------- what an escaped NUL loses ----------

  /** Whether one of the escapes of a body spells the NUL character. */
  predicate SpellsNul(body: seq<byte>) {
    if body == [] then false
    else if body[0] == BACKSLASH && Head(body[1..]) == 0x75 then
      match UnicodeEscape(body[2..])
      case None => false
      case Some(e) => e.cp == 0 || SpellsNul(body[2 + e.length..])
    else if body[0] == BACKSLASH then |body| > 1 && SpellsNul(body[2..])
    else SpellsNul(body[1..])
  }

  lemma OnlyNulHasNul(cp: nat)
    requires cp <= 0x10FFFF && !IsSurrogate(cp)
    ensures NulFree(Utf8(cp)) <==> cp != 0
  {
    if cp == 0 { assert Utf8(cp)[0] == 0; }
  }

  lemma {:induction false} NulIsSpelled(body: seq<byte>)
    requires Unescape(body).Some?
    ensures NulFree(Unescape(body).value) <==> !SpellsNul(body)
  {
    hide Utf8, UnicodeEscape;
    if body == [] {
    } else if body[0] == BACKSLASH {
      if body[1] == 0x75 {
        var e := UnicodeEscape(body[2..]).value;
        OnlyNulHasNul(e.cp);
        NulIsSpelled(body[2 + e.length..]);
      } else {
        NulIsSpelled(body[2..]);
      }
    } else {
      NulIsSpelled(body[1..]);
    }
  }

  /**
   * A quoted body that decodes comes back up to the first NUL it spells: whole if and only if
   * no escape in it spells one.
   */
  lemma DecodedWhole(body: seq<byte>, tail: seq<byte>)
    requires Unescape(body).Some? && BodyLength(body + ([QUOTE] + tail)) == Some(|body|)
    ensures var q := QuotedString([QUOTE] + (body + ([QUOTE] + tail)));
            q == String(CString(Unescape(body).value), tail)
            && (q.value == Unescape(body).value <==> !SpellsNul(body))
  {
    hide Unescape, BodyLength, SpellsNul, CString;
    var inner := body + ([QUOTE] + tail);
    var text := [QUOTE] + inner;
    assert text[1..] == inner && text[1..|body| + 1] == body && text[|body| + 2..] == tail;
    NulIsSpelled(body);
    CStringWhole(Unescape(body).value);
  }

  /** The body `\u0000` decodes to a NUL, of which the C string keeps nothing. */
  lemma EscapedNulIsLost(tail: seq<byte>)
    ensures var body: seq<byte> := [BACKSLASH, 0x75, 0x30, 0x30, 0x30, 0x30];
            Unescape(body) == Some([0]) && QuotedString([QUOTE] + (body + ([QUOTE] + tail))) == String([], tail)
  {
    assert EscapeAll([0]) == Escaped(0) + EscapeAll([]) == [BACKSLASH, 0x75, 0x30, 0x30, 0x30, 0x30];
    UnescapeEscape([0]);
    EscapedDelimited([0], tail);
    DecodedWhole(EscapeAll([0]), tail);
  }

  // ---------- decoded strings are well-formed ----------

  /** `is_valid_utf8`. */
  predicate ValidUtf8(s: seq<byte>) {
    s == [] ||
    (VerifyUtf8(s).Some? && SequenceLength(s[0]) <= |s| && 0 < SequenceLength(s[0])
     && ValidUtf8(s[SequenceLength(s[0])..]))
  }

  lemma Utf8Prepended(cp: nat, s: seq<byte>)
    requires cp <= 0x10FFFF && !IsSurrogate(cp) && ValidUtf8(s)
    ensures ValidUtf8(Utf8(cp) + s)
  {
    Utf8Verifies(cp, s);
    assert (Utf8(cp) + s)[|Utf8(cp)|..] == s;
    hide VerifyUtf8, Utf8, SequenceLength;
  }

  lemma AsciiPrepended(c: byte, s: seq<byte>)
    requires c < 0x80 && ValidUtf8(s)
    ensures ValidUtf8([c] + s)
  {
    Utf8Prepended(c, s);
    assert Utf8(c) == [c];
  }

  lemma AsciiRemoved(s: seq<byte>)
    requires s != [] && s[0] < 0x80 && ValidUtf8(s)
    ensures ValidUtf8(s[1..])
  {
  }

  lemma {:induction false} AsciisRemoved(s: seq<byte>, n: nat)
    requires n <= |s| && ValidUtf8(s) && forall i | 0 <= i < n :: s[i] < 0x80
    ensures ValidUtf8(s[n..])
  {
    if n == 0 {
      assert s[0..] == s;
    } else {
      AsciiRemoved(s);
      AsciisRemoved(s[1..], n - 1);
      assert s[1..][n - 1..] == s[n..];
    }
  }

  /** Bytes from 0x80 upward are copied as they are. */
  lemma {:induction false} HighCopied(s: seq<byte>, n: nat)
    requires n <= |s| && forall i | 0 <= i < n :: s[i] >= 0x80
    ensures Unescape(s) == Prepend(s[..n], Unescape(s[n..]))
  {
    if n == 0 {
      assert s[0..] == s;
      if Unescape(s).Some? { assert s[..0] + Unescape(s).value == Unescape(s).value; }
    } else {
      HighCopied(s[1..], n - 1);
      assert s[1..][n - 1..] == s[n..] && [s[0]] + s[1..][..n - 1] == s[..n];
      if Unescape(s[n..]).Some? {
        Assoc([s[0]], s[1..][..n - 1], Unescape(s[n..]).value);
      }
    }
  }

  lemma SequenceStays(a: seq<byte>, b: seq<byte>, tail: seq<byte>)
    requires a != [] && VerifyUtf8(a + tail).Some? && SequenceLength(a[0]) == |a|
    ensures VerifyUtf8(a + b).Some? && SequenceLength((a + b)[0]) == |a|
  {
    var s, t := a + tail, a + b;
    assert s[0] == t[0] && (|a| > 1 ==> s[1] == t[1]) && (|a| > 2 ==> s[2] == t[2]) && (|a| > 3 ==> s[3] == t[3]);
    hide Joined, SequenceLength;
  }

  lemma HexIsAscii(s: seq<byte>)
    requires UnicodeEscape(s).Some?
    ensures forall i | 0 <= i < UnicodeEscape(s).value.length :: s[i] < 0x80
  {
    if UnicodeEscape(s).value.length == 10 {
      assert s[6..][0] == s[6] && s[6..][1] == s[7] && s[6..][2] == s[8] && s[6..][3] == s[9];
    }
  }

  lemma SequenceIsHigh(s: seq<byte>)
    requires s != [] && s[0] >= 0x80 && VerifyUtf8(s).Some?
    ensures forall i | 0 <= i < SequenceLength(s[0]) :: i < |s| && s[i] >= 0x80
  {
  }

  /** A string body in valid UTF-8 decodes to valid UTF-8, escapes and surrogate pairs included. */
  lemma {:induction false} DecodedIsUtf8(s: seq<byte>)
    requires ValidUtf8(s) && Unescape(s).Some?
    ensures ValidUtf8(Unescape(s).value)
  {
    hide Utf8, UnicodeEscape, VerifyUtf8, Simple, SequenceLength;
    if s == [] {
    } else if s[0] == BACKSLASH {
      if s[1] == 0x75 {
        var e := UnicodeEscape(s[2..]).value;
        HexIsAscii(s[2..]);
        forall i | 0 <= i < 2 + e.length ensures s[i] < 0x80 {
          if i >= 2 { assert s[i] == s[2..][i - 2]; }
        }
        AsciisRemoved(s, 2 + e.length);
        DecodedIsUtf8(s[2 + e.length..]);
        Utf8Prepended(e.cp, Unescape(s[2 + e.length..]).value);
      } else {
        AsciisRemoved(s, 2);
        DecodedIsUtf8(s[2..]);
        AsciiPrepended(Simple(s[1]).value, Unescape(s[2..]).value);
      }
    } else if s[0] < 0x80 {
      AsciiRemoved(s);
      DecodedIsUtf8(s[1..]);
      AsciiPrepended(s[0], Unescape(s[1..]).value);
    } else {
      var n := SequenceLength(s[0]);
      SequenceIsHigh(s);
      HighCopied(s, n);
      DecodedIsUtf8(s[n..]);
      var a, b := s[..n], Unescape(s[n..]).value;
      assert s == a + s[n..];
      SequenceStays(a, b, s[n..]);
      assert (a + b)[n..] == b;
    }
  }
}
