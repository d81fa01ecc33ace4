/** `process_string` and `parse_utf_16`: escapes resolved from one buffer into another. */
module JsonUnescape {
  import opened Bytes
  import opened JsonString

  /** A string body together with its closing quote, as `skip_quotes` delimits it. */
  ghost predicate Delimited(input: seq<byte>) {
    BodyLength(input) == Some(|input| - 1)
  }

  /** `is_utf16_hex`: stops at the first character that is not a hex digit. */
  method IsUtf16Hex(input: seq<byte>, at: nat) returns (hex: bool)
    requires at < |input| && input[|input| - 1] == QUOTE
    ensures hex <==> Hex4(input[at..|input| - 1]).Some?
    ensures hex ==> at + 4 < |input| && Hex4(input[at..|input| - 1]) == Hex4(input[at..at + 4])
  {
    hex := IsHex(input[at]) && IsHex(input[at + 1]) && IsHex(input[at + 2]) && IsHex(input[at + 3]);
    ghost var body := input[at..|input| - 1];
    assert |body| >= 4 ==> body[0] == input[at] && body[1] == input[at + 1] && body[2] == input[at + 2]
                           && body[3] == input[at + 3];
    assert hex ==> |body| >= 4;
    if hex {
      ghost var four := input[at..at + 4];
      assert four[0] == body[0] && four[1] == body[1] && four[2] == body[2] && four[3] == body[3];
    }
  }

  /**
   * The second half of a surrogate pair, `at` on the character behind the first: 0 when it is
   * not there.
   */
  method Trail(input: seq<byte>, at: nat, ghost rest: seq<byte>) returns (trail: nat)
    requires 5 <= at < |input| && input[|input| - 1] == QUOTE && rest == input[at - 4..|input| - 1]
    ensures if |rest| < 6 || rest[4] != BACKSLASH || rest[5] != 0x75 || Hex4(rest[6..]).None?
            then trail == 0 else trail == Hex4(rest[6..]).value
    ensures trail != 0 ==> at + 6 < |input|
  {
    trail := 0;
    assert |rest| >= 5 ==> rest[4] == input[at];
    assert |rest| >= 6 ==> rest[5] == input[at + 1] && rest[6..] == input[at + 2..|input| - 1];
    hide Hex4;
    if input[at] == BACKSLASH && input[at + 1] == 0x75 {
      var hex := IsUtf16Hex(input, at + 2);
      if hex {
        trail := Hex4(input[at + 2..at + 6]).value;
      }
    }
  }

  /**
   * `parse_utf_16`, `at` on the `u` of an escape. Afterwards both positions stand on the last
   * character read and written. No character behind the closing quote is looked at.
   */
  method ParseUtf16(input: seq<byte>, at: nat, output: array<byte>, out: nat)
    returns (ok: bool, lastRead: nat, lastWritten: nat)
    requires at < |input| - 1 && input[|input| - 1] == QUOTE
    requires out < at && |input| <= output.Length
    modifies output
    ensures var e := UnicodeEscape(input[at + 1..|input| - 1]);
            ok == e.Some?
            && (ok ==> lastRead == at + e.value.length && lastWritten + 1 == out + |Utf8(e.value.cp)|
                       && lastWritten < output.Length && lastWritten < lastRead < |input| - 1
                       && output[..lastWritten + 1] == old(output[..out]) + Utf8(e.value.cp))
  {
    ghost var rest := input[at + 1..|input| - 1];
    lastRead, lastWritten := at + 1, out;
    hide Hex4, Utf8;
    ok := IsUtf16Hex(input, lastRead);
    if !ok { return; }
    var cp := Hex4(input[lastRead..lastRead + 4]).value;
    if IsSurrogate(cp) {
      if cp > 0xDBFF { ok := false; return; }
      var lead := cp;
      lastRead := lastRead + 4;
      var trail := Trail(input, lastRead, rest);
      if trail < 0xDC00 || trail > 0xDFFF { ok := false; return; }
      lastRead := lastRead + 2;
      cp := Combine(lead, trail);
    }
    assert UnicodeEscape(rest) == Some(Escape(cp, if cp < 0x10000 then 4 else 10));
    hide UnicodeEscape;
    Utf8Short(cp);
    lastRead := lastRead + 3;
    lastWritten := WriteUtf8(cp, output, out);
  }

  lemma Utf8Short(cp: nat)
    requires cp <= 0x10FFFF && !IsSurrogate(cp)
    ensures |Utf8(cp)| <= if cp < 0x10000 then 3 else 4
  {
  }

  /** The four branches that lay out a code point; returns the last position written. */
  method WriteUtf8(cp: nat, output: array<byte>, out: nat) returns (last: nat)
    requires cp <= 0x10FFFF && !IsSurrogate(cp) && out + |Utf8(cp)| <= output.Length
    modifies output
    ensures last + 1 == out + |Utf8(cp)| && output[..last + 1] == old(output[..out]) + Utf8(cp)
  {
    ghost var head := output[..out];
    if cp < 0x80 {
      last := Put(output, out, cp);
    } else if cp < 0x800 {
      last := Put(output, out, 0xC0 + cp / 64);
      last := Put(output, last, 0x80 + cp % 64);
      Assoc(head, [0xC0 + cp / 64], [0x80 + cp % 64]);
    } else if cp < 0x10000 {
      last := PutThree(output, out, 0xE0 + cp / 0x1000, 0x80 + cp / 64 % 64, 0x80 + cp % 64);
    } else {
      last := PutFour(output, out, 0xF0 + cp / 0x40000, 0x80 + cp / 0x1000 % 64, 0x80 + cp / 64 % 64, 0x80 + cp % 64);
    }
    last := last - 1;
  }

  method PutThree(output: array<byte>, at: nat, a: byte, b: byte, c: byte) returns (next: nat)
    requires at + 3 <= output.Length
    modifies output
    ensures next == at + 3 && output[..next] == old(output[..at]) + [a, b, c]
  {
    ghost var head := output[..at];
    next := Put(output, at, a);
    next := Put(output, next, b);
    next := Put(output, next, c);
    ThreePut(head, a, b, c);
  }

  method PutFour(output: array<byte>, at: nat, a: byte, b: byte, c: byte, d: byte) returns (next: nat)
    requires at + 4 <= output.Length
    modifies output
    ensures next == at + 4 && output[..next] == old(output[..at]) + [a, b, c, d]
  {
    ghost var head := output[..at];
    next := Put(output, at, a);
    next := Put(output, next, b);
    next := Put(output, next, c);
    next := Put(output, next, d);
    FourPut(head, a, b, c, d);
  }

  /** `*processed_ptr++ = b`. */
  method Put(output: array<byte>, at: nat, b: byte) returns (next: nat)
    requires at < output.Length
    modifies output
    ensures next == at + 1 && output[..next] == old(output[..at]) + [b]
  {
    output[at] := b;
    next := at + 1;
    assert output[..next] == output[..at] + [output[at]];
  }

  lemma ThreePut(head: seq<byte>, a: byte, b: byte, c: byte)
    ensures head + [a] + [b] + [c] == head + [a, b, c]
  {
  }

  lemma FourPut(head: seq<byte>, a: byte, b: byte, c: byte, d: byte)
    ensures head + [a] + [b] + [c] + [d] == head + [a, b, c, d]
  {
  }

  // ---------- one turn of the loop, on what is left of the body ----------

  lemma PrependNothing(r: Option<seq<byte>>)
    ensures Prepend([], r) == r
  {
    if r.Some? { assert [] + r.value == r.value; }
  }

  lemma PrependTwice(a: seq<byte>, b: seq<byte>, r: Option<seq<byte>>)
    ensures Prepend(a, Prepend(b, r)) == Prepend(a + b, r)
  {
    if r.Some? { Assoc(a, b, r.value); }
  }

  lemma UnicodeStep(rest: seq<byte>, done: seq<byte>)
    requires |rest| >= 2 && rest[0] == BACKSLASH && rest[1] == 0x75
    ensures var e := UnicodeEscape(rest[2..]);
            Prepend(done, Unescape(rest)) == if e.None? then None
              else Prepend(done + Utf8(e.value.cp), Unescape(rest[2 + e.value.length..]))
  {
    var e := UnicodeEscape(rest[2..]);
    if e.Some? { PrependTwice(done, Utf8(e.value.cp), Unescape(rest[2 + e.value.length..])); }
  }

  lemma SimpleStep(rest: seq<byte>, done: seq<byte>)
    requires |rest| >= 2 && rest[0] == BACKSLASH && rest[1] != 0x75
    ensures var c := Simple(rest[1]);
            Prepend(done, Unescape(rest)) == if c.None? then None
              else Prepend(done + [c.value], Unescape(rest[2..]))
  {
    if Simple(rest[1]).Some? { PrependTwice(done, [Simple(rest[1]).value], Unescape(rest[2..])); }
  }

  lemma PlainStep(rest: seq<byte>, done: seq<byte>)
    requires rest != [] && rest[0] != BACKSLASH
    ensures Prepend(done, Unescape(rest)) == if rest[0] < 0x20 then None
              else Prepend(done + [rest[0]], Unescape(rest[1..]))
  {
    PrependTwice(done, [rest[0]], Unescape(rest[1..]));
  }

  lemma Finished(done: seq<byte>)
    ensures Prepend(done, Unescape([])) == Some(done)
  {
    assert done + [] == done;
  }

  lemma NotAtNul(input: seq<byte>, at: nat)
    requires at < |input| && Delimited(input[at..])
    ensures input[at] != 0
  {
  }

  /** Between here and the closing quote. */
  lemma Ahead(input: seq<byte>, at: nat)
    requires at + 1 < |input| && Delimited(input[at..])
    ensures if input[at] == BACKSLASH then at + 2 < |input| && Delimited(input[at + 2..])
            else Delimited(input[at + 1..])
  {
    var t := input[at..];
    assert t[1..] == input[at + 1..];
    if input[at] == BACKSLASH {
      assert |t| >= 2 && t[1..][0] == t[1] == input[at + 1];
      assert t[2..] == input[at + 2..];
    }
  }

  lemma {:induction false} PlainsAhead(input: seq<byte>, at: nat, n: nat)
    requires at + n < |input| && Delimited(input[at..]) && forall i | at <= i < at + n :: IsHex(input[i])
    ensures Delimited(input[at + n..])
    decreases n
  {
    if n > 0 {
      Ahead(input, at);
      PlainsAhead(input, at + 1, n - 1);
    }
  }

  /** Where the hex digits of an escape stand. */
  lemma EscapeDigits(s: seq<byte>)
    requires UnicodeEscape(s).Some?
    ensures var n := UnicodeEscape(s).value.length;
            4 <= n <= |s| && (n == 4 || n == 10) && IsHex(s[0]) && IsHex(s[1]) && IsHex(s[2]) && IsHex(s[3])
            && (n == 10 ==> s[4] == BACKSLASH && IsHex(s[6]) && IsHex(s[7]) && IsHex(s[8]) && IsHex(s[9]))
  {
    if UnicodeEscape(s).value.length == 10 {
      var more := s[6..];
      assert more[0] == s[6] && more[1] == s[7] && more[2] == s[8] && more[3] == s[9];
    }
  }

  lemma AfterUnicode(input: seq<byte>, at: nat)
    requires at + 2 < |input| && Delimited(input[at..]) && input[at] == BACKSLASH && input[at + 1] == 0x75
    requires UnicodeEscape(input[at + 2..|input| - 1]).Some?
    ensures Delimited(input[at + 2 + UnicodeEscape(input[at + 2..|input| - 1]).value.length..])
  {
    hide Delimited, UnicodeEscape, IsHex;
    var rest := input[at + 2..|input| - 1];
    EscapeDigits(rest);
    forall i | 0 <= i < |rest| ensures rest[i] == input[at + 2 + i] { }
    Ahead(input, at);
    PlainsAhead(input, at + 2, 4);
    if UnicodeEscape(rest).value.length == 10 {
      Ahead(input, at + 6);
      PlainsAhead(input, at + 8, 4);
    }
  }

  /** What the body from `at` up to the closing quote stands for. */
  ghost function Left(input: seq<byte>, at: nat): Option<seq<byte>>
    requires at < |input|
  {
    Unescape(input[at..|input| - 1])
  }

  /** Both positions one character further, `done` and what is left still the same string. */
  ghost predicate Stepped(input: seq<byte>, at: nat, before: seq<byte>, lastRead: nat, after: seq<byte>) {
    at <= lastRead < |input| - 1 && |after| <= lastRead + 1 && Delimited(input[lastRead + 1..])
    && Prepend(before, Left(input, at)) == Prepend(after, Left(input, lastRead + 1))
  }

  /** The `switch` of `process_string`, `at` on the character behind the backslash. */
  method Escaped(input: seq<byte>, at: nat, output: array<byte>, out: nat)
    returns (ok: bool, lastRead: nat, lastWritten: nat)
    requires 0 < at < |input| - 1 && out < at && output.Length == |input|
    requires input[at - 1] == BACKSLASH && input[|input| - 1] == QUOTE && Delimited(input[at - 1..])
    modifies output
    ensures if !ok then Prepend(old(output[..out]), Left(input, at - 1)) == None
            else lastWritten < output.Length
                 && Stepped(input, at - 1, old(output[..out]), lastRead, output[..lastWritten + 1])
  {
    hide Left, Stepped;
    if input[at] == 0x75 {
      ok, lastRead, lastWritten := EscapedUnicode(input, at, output, out);
    } else {
      lastRead, lastWritten := at, out;
      var c := Simple(input[at]);
      ok := c.Some?;
      SimpleStepped(input, at, output[..out]);
      if ok {
        var _ := Put(output, out, c.value);
      }
    }
  }

  lemma SimpleStepped(input: seq<byte>, at: nat, done: seq<byte>)
    requires 0 < at < |input| - 1 && |done| < at && input[at - 1] == BACKSLASH && input[at] != 0x75
    requires Delimited(input[at - 1..])
    ensures var c := Simple(input[at]);
            if c.None? then Prepend(done, Left(input, at - 1)) == None
            else Stepped(input, at - 1, done, at, done + [c.value])
  {
    var rest := input[at - 1..|input| - 1];
    SimpleStep(rest, done);
    Ahead(input, at - 1);
    assert rest[2..] == input[at + 1..|input| - 1];
    hide Unescape, Simple, Delimited, Prepend;
  }

  method EscapedUnicode(input: seq<byte>, at: nat, output: array<byte>, out: nat)
    returns (ok: bool, lastRead: nat, lastWritten: nat)
    requires 0 < at < |input| - 1 && out < at && output.Length == |input|
    requires input[at - 1] == BACKSLASH && input[at] == 0x75 && input[|input| - 1] == QUOTE
    requires Delimited(input[at - 1..])
    modifies output
    ensures if !ok then Prepend(old(output[..out]), Left(input, at - 1)) == None
            else lastWritten < output.Length
                 && Stepped(input, at - 1, old(output[..out]), lastRead, output[..lastWritten + 1])
  {
    ghost var done := output[..out];
    hide Left, Stepped, Unescape, UnicodeEscape, Utf8, Delimited;
    ok, lastRead, lastWritten := ParseUtf16(input, at, output, out);
    UnicodeStepped(input, at, done);
  }

  lemma UnicodeStepped(input: seq<byte>, at: nat, done: seq<byte>)
    requires 0 < at < |input| - 1 && |done| < at && input[at - 1] == BACKSLASH && input[at] == 0x75
    requires Delimited(input[at - 1..])
    ensures var e := UnicodeEscape(input[at + 1..|input| - 1]);
            if e.None? then Prepend(done, Left(input, at - 1)) == None
            else Stepped(input, at - 1, done, at + e.value.length, done + Utf8(e.value.cp))
  {
    hide Unescape, UnicodeEscape, Delimited, Prepend;
    var rest := input[at - 1..|input| - 1];
    assert rest[2..] == input[at + 1..|input| - 1];
    UnicodeStep(rest, done);
    var e := UnicodeEscape(rest[2..]);
    if e.Some? {
      AfterUnicode(input, at - 1);
      assert rest[2 + e.value.length..] == input[at + e.value.length + 1..|input| - 1];
    }
  }

  /** The body of the loop. */
  method OneCharacter(input: seq<byte>, at: nat, output: array<byte>, out: nat)
    returns (ok: bool, lastRead: nat, lastWritten: nat)
    requires at < |input| - 1 && out <= at && output.Length == |input|
    requires input[|input| - 1] == QUOTE && Delimited(input[at..])
    modifies output
    ensures if !ok then Prepend(old(output[..out]), Left(input, at)) == None
            else lastWritten < output.Length
                 && Stepped(input, at, old(output[..out]), lastRead, output[..lastWritten + 1])
  {
    ghost var rest, done := input[at..|input| - 1], output[..out];
    lastRead, lastWritten := at, out;
    Ahead(input, at);
    hide Unescape, BodyLength, Prepend, Delimited;
    if input[at] == BACKSLASH {
      lastRead := lastRead + 1;
      ok, lastRead, lastWritten := Escaped(input, lastRead, output, out);
    } else if input[at] < 0x20 {
      PlainStep(rest, done);
      ok := false;
    } else {
      PlainStep(rest, done);
      output[out] := input[at];
      ok := true;
      assert output[..out + 1] == done + [input[at]] && rest[1..] == input[at + 1..|input| - 1];
    }
  }

  /**
   * `process_string` on a body and its closing quote. The output buffer is as long as the
   * input, the write position never passes the read position, and every index read is within
   * the input: never behind the closing quote.
   */
  method ProcessString(input: seq<byte>) returns (ok: bool, output: array<byte>, size: nat)
    requires |input| > 0 && Delimited(input)
    ensures fresh(output) && output.Length == |input|
    ensures ok == Unescape(input[..|input| - 1]).Some?
    ensures ok ==> size < output.Length && output[..size] == Unescape(input[..|input| - 1]).value && output[size] == 0
  {
    var len := |input| - 1;
    output := new byte[|input|];
    var inPos: nat, outPos: nat := 0, 0;
    ok, size := true, 0;
    ghost var whole := Left(input, 0);
    assert output[..0] == [] && input[0..len] == input[..len] && input[0..] == input && input[len] == QUOTE;
    PrependNothing(whole);
    hide Unescape, BodyLength, Prepend, Delimited, Left;
    while input[inPos] != 0 && inPos < len
      invariant outPos <= inPos <= len
      invariant Delimited(input[inPos..]) && whole == Prepend(output[..outPos], Left(input, inPos))
      decreases len - inPos
    {
      ok, inPos, outPos := OneCharacter(input, inPos, output, outPos);
      if !ok { return; }
      outPos := outPos + 1;
      inPos := inPos + 1;
    }
    NotAtNul(input, inPos);
    NothingLeft(input, output[..outPos]);
    output[outPos] := 0;
    size := outPos;
  }

  lemma NothingLeft(input: seq<byte>, done: seq<byte>)
    requires |input| > 0
    ensures Prepend(done, Left(input, |input| - 1)) == Some(done)
  {
    assert input[|input| - 1..|input| - 1] == [];
    Finished(done);
  }
}
