/** Base 128 varints, zig-zag and little-endian integers of the wire format. */
module PbVarint {
  import opened Bytes

  // ----- encoding -----

  function EncodeVarint(v: nat): (b: seq<byte>)
    ensures |b| >= 1
  {
    if v < 128 then [v] else [v % 128 + 128] + EncodeVarint(v / 128)
  }

  function ZigZag(n: int): (z: nat)
  {
    if n < 0 then -2 * n - 1 else 2 * n
  }

  function UnZigZag(z: nat): int
  {
    if z % 2 == 1 then -(z / 2) - 1 else z / 2
  }

  /** The `n` low bytes of `v`, least significant first. */
  function LittleEndian(v: nat, n: nat): (b: seq<byte>)
    ensures |b| == n
  {
    if n == 0 then [] else [v % 256] + LittleEndian(v / 256, n - 1)
  }

  function FromLittleEndian(b: seq<byte>): nat
  {
    if b == [] then 0 else b[0] + 256 * FromLittleEndian(b[1..])
  }

  // ----- decoding -----

  function ShiftLeft(x: nat, n: nat): nat {
    if n == 0 then x else 2 * ShiftLeft(x, n - 1)
  }

  /** `(uint64_t)(byte & 0x7F) << bitpos`. */
  function ShiftIn64(b: byte, bitpos: nat): nat {
    ShiftLeft(b % 128, bitpos) % 0x1_0000_0000_0000_0000
  }

  /** `(uint32_t)(byte & 0x7F) << bitpos`. */
  function ShiftIn32(b: byte, bitpos: nat): nat {
    ShiftLeft(b % 128, bitpos) % 0x1_0000_0000
  }

  function DecodeVarintFrom(s: seq<byte>, bitpos: nat, acc: nat): (r: Parsed<nat>)
    ensures r.Ok? ==> |r.rest| < |s|
    decreases |s|
  {
    if bitpos >= 64 || s == [] then Fail
    else
      var acc' := acc + ShiftIn64(s[0], bitpos);
      if s[0] >= 128 then DecodeVarintFrom(s[1..], bitpos + 7, acc') else Ok(acc', s[1..])
  }

  function DecodeVarint(s: seq<byte>): (r: Parsed<nat>)
    ensures r.Ok? ==> |r.rest| < |s|
  {
    DecodeVarintFrom(s, 0, 0)
  }

  /** The bytes after the first one of a 32-bit varint; `acc` holds the bits read so far. */
  function DecodeVarint32From(s: seq<byte>, bitpos: nat, acc: nat): (r: Parsed<nat>)
    ensures r.Ok? ==> |r.rest| < |s|
    decreases |s|
  {
    if s == [] then Fail
    else
      var b := s[0];
      var signExtension := if bitpos < 63 then 0xFF else 0x01;
      if bitpos >= 32 && b % 128 != 0 && (acc < 0x8000_0000 || b != signExtension) then Fail
      else
        var acc' := if bitpos >= 32 then acc else acc + ShiftIn32(b, bitpos);
        if b >= 128 then DecodeVarint32From(s[1..], bitpos + 7, acc')
        else if bitpos == 28 && b / 16 % 8 != 0 then Fail
        else Ok(acc', s[1..])
  }

  function DecodeVarint32(s: seq<byte>): (r: Parsed<nat>)
    ensures r.Ok? ==> |r.rest| < |s|
  {
    if s == [] then Fail
    else if s[0] < 128 then Ok(s[0], s[1..])
    else DecodeVarint32From(s[1..], 7, s[0] % 128)
  }

  // ----- 64-bit round trip -----

  lemma {:induction false} ShiftLeftIsProduct(x: nat, n: nat)
    ensures ShiftLeft(x, n) == x * Pow2(n)
  {
    if n > 0 { ShiftLeftIsProduct(x, n - 1); }
  }

  lemma ShiftInExact(b: byte, bitpos: nat)
    requires (b % 128) * Pow2(bitpos) < TWO64
    ensures ShiftIn64(b, bitpos) == (b % 128) * Pow2(bitpos)
  {
    ShiftLeftIsProduct(b % 128, bitpos);
    Small((b % 128) * Pow2(bitpos), TWO64);
  }

  lemma Small(x: nat, m: nat)
    requires x < m
    ensures x % m == x
  {
  }

  /** `v` written at `bitpos` splits into its low seven bits and the rest one group higher. */
  lemma {:induction false} SplitGroup(v: nat, bitpos: nat)
    ensures v * Pow2(bitpos) == (v % 128) * Pow2(bitpos) + (v / 128) * Pow2(bitpos + 7)
    ensures (v % 128) * Pow2(bitpos) <= v * Pow2(bitpos)
  {
    var p := Pow2(bitpos);
    Pow2Add(bitpos, 7);
    assert Pow2(7) == 128 by { Pow2Constants(); }
    calc {
      v * p;
      (v % 128 + 128 * (v / 128)) * p;
      (v % 128) * p + (128 * (v / 128)) * p;
      (v % 128) * p + (v / 128) * (p * 128);
    }
    assert (v % 128) * p <= v * p by { MulMono(v % 128, v, p); }
  }

  lemma MulMono(x: nat, y: nat, p: nat)
    requires x <= y
    ensures x * p <= y * p
  {
  }

  /** The first byte of an encoding, and what is left behind it. */
  lemma EncodeVarintHead(v: nat, y: seq<byte>)
    ensures var s := EncodeVarint(v) + y;
      && s[0] % 128 == v % 128
      && (v < 128 ==> s[0] == v && s[1..] == y)
      && (v >= 128 ==> s[0] == v % 128 + 128 && s[1..] == EncodeVarint(v / 128) + y)
  {
    var s := EncodeVarint(v) + y;
    if v < 128 {
      assert s[1..] == y;
    } else {
      assert s[1..] == EncodeVarint(v / 128) + y;
    }
  }

  /** More groups follow only while there is room for them. */
  lemma {:induction false} GroupBelow64(q: nat, bitpos: nat)
    requires q > 0 && q * Pow2(bitpos) < TWO64
    ensures bitpos < 64
  {
    if bitpos >= 64 {
      Pow2Constants();
      Pow2Monotone(64, bitpos);
      MulMono(1, q, Pow2(bitpos));
    }
  }

  lemma {:induction false} DecodeEncodeVarintFrom(v: nat, bitpos: nat, acc: nat, y: seq<byte>)
    requires v * Pow2(bitpos) < TWO64 && bitpos < 64
    ensures DecodeVarintFrom(EncodeVarint(v) + y, bitpos, acc) == Ok(acc + v * Pow2(bitpos), y)
  {
    hide EncodeVarint, ShiftIn64, Pow2;
    var s := EncodeVarint(v) + y;
    EncodeVarintHead(v, y);
    SplitGroup(v, bitpos);
    ShiftInExact(s[0], bitpos);
    if v >= 128 {
      var q := v / 128;
      GroupBelow64(q, bitpos + 7);
      DecodeEncodeVarintFrom(q, bitpos + 7, acc + ShiftIn64(s[0], bitpos), y);
    }
  }

  /** Every 64-bit value is read back exactly, whatever follows it. */
  lemma {:induction false} DecodeEncodeVarint(v: nat, y: seq<byte>)
    requires v < TWO64
    ensures DecodeVarint(EncodeVarint(v) + y) == Ok(v, y)
  {
    DecodeEncodeVarintFrom(v, 0, 0, y);
  }

  /** A byte with its top bit clear stands where the decoder still reads. */
  ghost predicate EndsBelow(s: seq<byte>, n: int) {
    exists i :: 0 <= i < |s| && i < n && s[i] < 128
  }

  lemma {:induction false} VarintEnds(s: seq<byte>, bitpos: nat, acc: nat)
    requires bitpos % 7 == 0 && bitpos <= 70
    ensures DecodeVarintFrom(s, bitpos, acc).Ok? <==> EndsBelow(s, 10 - bitpos / 7)
    decreases |s|
  {
    hide ShiftIn64;
    if s != [] && bitpos < 64 && s[0] >= 128 {
      VarintEnds(s[1..], bitpos + 7, acc + ShiftIn64(s[0], bitpos));
      EndsLater(s, 10 - bitpos / 7);
    }
  }

  lemma EndsLater(s: seq<byte>, n: int)
    requires s != [] && s[0] >= 128
    ensures EndsBelow(s, n) <==> EndsBelow(s[1..], n - 1)
  {
    if EndsBelow(s, n) {
      var i :| 0 <= i < |s| && i < n && s[i] < 128;
      assert s[1..][i - 1] == s[i];
    }
    if EndsBelow(s[1..], n - 1) {
      var i :| 0 <= i < |s| - 1 && i < n - 1 && s[1..][i] < 128;
      assert s[i + 1] == s[1..][i];
    }
  }

  /** A varint is read exactly if one of the first ten bytes ends it: an eleventh is refused. */
  lemma AtMostTenRead(s: seq<byte>)
    ensures DecodeVarint(s).Ok? <==> exists i :: 0 <= i < |s| && i < 10 && s[i] < 128
  {
    hide DecodeVarintFrom;
    VarintEnds(s, 0, 0);
  }

  /** `n` groups of seven bits hold exactly the values below 2^(7n). */
  lemma {:induction false} VarintLength(v: nat, n: nat)
    requires n >= 1
    ensures |EncodeVarint(v)| <= n <==> v < Pow2(7 * n)
  {
    Pow2Constants();
    if n > 1 {
      Pow2Add(7 * (n - 1), 7);
      var p := Pow2(7 * (n - 1));
      assert Pow2(7 * n) == p * 128;
      if v >= 128 {
        VarintLength(v / 128, n - 1);
        assert v / 128 < p <==> v < p * 128;
      } else {
        MulMono(1, p, 128);
      }
    } else if v >= 128 {
      assert |EncodeVarint(v)| >= 2;
    }
  }

  lemma VarintAtMostTen(v: nat)
    requires v < TWO64
    ensures 1 <= |EncodeVarint(v)| <= 10
  {
    Pow2Constants();
    Pow2Monotone(64, 70);
    VarintLength(v, 10);
  }

  // ----- the 32-bit decoder on 64-bit values -----

  /** A seven-bit group a sign extension may hold above bit 35. */
  predicate PadGroup(g: nat) {
    g == 0 || g == 127
  }

  /** Bits 35..63 of a value the 32-bit decoder takes for a sign-extended negative number. */
  predicate SignPadding(w: nat) {
    w / 0x1000_0000 == 1
    && PadGroup(w % 128) && PadGroup(w / 128 % 128)
    && PadGroup(w / 0x4000 % 128) && PadGroup(w / 0x20_0000 % 128)
  }

  /** Exactly the 64-bit values whose encoding the 32-bit decoder accepts. */
  predicate Accepts32(v: nat) {
    v < TWO32 || (v % TWO32 >= 0x8000_0000 && SignPadding(v / 0x8_0000_0000))
  }

  predicate TailAccepted(w: nat, bitpos: nat, acc: nat)
    requires w > 0 && 35 <= bitpos
    decreases w
  {
    if w < 128 then bitpos == 63 && w == 1 && acc >= 0x8000_0000
    else (w % 128 == 0 || (acc >= 0x8000_0000 && w % 128 == 127)) && TailAccepted(w / 128, bitpos + 7, acc)
  }

  lemma {:induction false} DecodeTail32(w: nat, bitpos: nat, limit: nat, acc: nat, y: seq<byte>)
    requires 0 < w < limit
    requires (bitpos == 35 && limit == 0x2000_0000) || (bitpos == 42 && limit == 0x40_0000)
          || (bitpos == 49 && limit == 0x8000) || (bitpos == 56 && limit == 0x100) || (bitpos == 63 && limit == 2)
    ensures DecodeVarint32From(EncodeVarint(w) + y, bitpos, acc)
         == if TailAccepted(w, bitpos, acc) then Ok(acc, y) else Fail
    decreases w
  {
    EncodeVarintHead(w, y);
    if w >= 128 {
      DecodeTail32(w / 128, bitpos + 7, limit / 128, acc, y);
    }
  }

  /** A byte from bit 35 on that the overflow test lets pass. */
  predicate Padding(w: nat, acc: nat) {
    w % 128 == 0 || (acc >= 0x8000_0000 && w % 128 == 127)
  }

  lemma TailIsSignPadding(w: nat, acc: nat)
    requires 0 < w < 0x2000_0000
    ensures TailAccepted(w, 35, acc) <==> SignPadding(w) && acc >= 0x8000_0000
  {
    if w >= 128 {
      var w1 := w / 128;
      assert TailAccepted(w, 35, acc) <==> Padding(w, acc) && TailAccepted(w1, 42, acc);
      if w1 >= 128 {
        var w2 := w1 / 128;
        assert w2 == w / 0x4000;
        assert TailAccepted(w1, 42, acc) <==> Padding(w1, acc) && TailAccepted(w2, 49, acc);
        if w2 >= 128 {
          var w3 := w2 / 128;
          assert w3 == w / 0x20_0000;
          assert TailAccepted(w2, 49, acc) <==> Padding(w2, acc) && TailAccepted(w3, 56, acc);
          if w3 >= 128 {
            assert w3 / 128 == w / 0x1000_0000 == 1;
            assert TailAccepted(w3, 56, acc) <==> Padding(w3, acc) && TailAccepted(1, 63, acc);
          }
        }
      }
    }
  }

  /** One byte below bit 35; `p` is `2^bitpos`. */
  lemma DecodeStep32(w: nat, bitpos: nat, p: nat, acc: nat, y: seq<byte>)
    requires bitpos < 32 && p == Pow2(bitpos) && w > 0
    ensures DecodeVarint32From(EncodeVarint(w) + y, bitpos, acc)
         == if w >= 128 then DecodeVarint32From(EncodeVarint(w / 128) + y, bitpos + 7, acc + ((w % 128) * p) % TWO32)
            else if bitpos == 28 && w / 16 % 8 != 0 then Fail
            else Ok(acc + (w * p) % TWO32, y)
  {
    hide EncodeVarint, ShiftLeft, Pow2;
    EncodeVarintHead(w, y);
    ShiftLeftIsProduct(w % 128, bitpos);
  }

  function Answer32(v: nat, y: seq<byte>): Parsed<nat> {
    if Accepts32(v) then Ok(v % TWO32, y) else Fail
  }

  /** The decoder's answer by where the value ends: in 32 bits, in the byte at bit 28, or later. */
  predicate IsAnswer32(r: Parsed<nat>, v: nat, y: seq<byte>) {
    if v < TWO32 then r == Ok(v, y)
    else if v < 0x8_0000_0000 then r == Fail
    else r == if TailAccepted(v / 0x8_0000_0000, 35, v % TWO32) then Ok(v % TWO32, y) else Fail
  }

  lemma Answer32IsAnswer(v: nat, y: seq<byte>)
    requires v < TWO64
    ensures IsAnswer32(Answer32(v, y), v, y)
  {
    if 0x8_0000_0000 <= v {
      TailIsSignPadding(v / 0x8_0000_0000, v % TWO32);
    }
  }

  lemma Regroup(v: nat, w: nat, p: nat, acc: nat)
    requires p == 0x80 || p == 0x4000 || p == 0x20_0000
    requires acc < p && v == acc + w * p
    ensures v == acc + (w % 128) * p + (w / 128) * (p * 128)
    ensures acc + (w % 128) * p < p * 128 <= TWO32
    ensures ((w % 128) * p) % TWO32 == (w % 128) * p
    ensures w < 128 ==> v < TWO32 && (w * p) % TWO32 == w * p
  {
  }

  lemma Regroup28(v: nat, w: nat, acc: nat)
    requires acc < 0x1000_0000 && v == acc + w * 0x1000_0000
    ensures acc + ((w % 128) * 0x1000_0000) % TWO32 == v % TWO32
    ensures w / 128 == v / 0x8_0000_0000
    ensures w / 16 % 8 != 0 && w < 128 ==> TWO32 <= v < 0x8_0000_0000
    ensures w / 16 % 8 == 0 && w < 128 ==> v < TWO32
  {
    assert w % 128 == 16 * (w / 16 % 8) + w % 16;
  }

  lemma DecodeFromBit28(r: Parsed<nat>, v: nat, w: nat, acc: nat, y: seq<byte>)
    requires IsAnswer32(r, v, y)
    requires w > 0 && acc < 0x1000_0000 && v == acc + w * 0x1000_0000 < TWO64
    ensures DecodeVarint32From(EncodeVarint(w) + y, 28, acc) == r
  {
    hide Pow2, EncodeVarint, DecodeVarint32From;
    Pow2Constants();
    DecodeStep32(w, 28, 0x1000_0000, acc, y);
    Regroup28(v, w, acc);
    if w >= 128 {
      DecodeTail32(w / 128, 35, 0x2000_0000, v % TWO32, y);
    }
  }

  lemma SevenBitPowers()
    ensures Pow2(7) == 0x80 && Pow2(14) == 0x4000 && Pow2(21) == 0x20_0000
  {
    Pow2Constants();
    Pow2Add(7, 7);
    Pow2Add(7, 14);
  }

  /** The decoder from a middle byte on: `acc` holds the bits below `2^bitpos`, `w` the others. */
  lemma {:induction false} DecodeLow32(r: Parsed<nat>, v: nat, w: nat, bitpos: nat, p: nat, acc: nat, y: seq<byte>)
    requires IsAnswer32(r, v, y)
    requires (bitpos == 7 && p == 0x80) || (bitpos == 14 && p == 0x4000) || (bitpos == 21 && p == 0x20_0000)
    requires w > 0 && acc < p && v == acc + w * p < TWO64
    ensures DecodeVarint32From(EncodeVarint(w) + y, bitpos, acc) == r
    decreases w
  {
    hide Pow2, EncodeVarint, DecodeVarint32From;
    SevenBitPowers();
    DecodeStep32(w, bitpos, p, acc, y);
    Regroup(v, w, p, acc);
    if w >= 128 {
      var acc' := acc + (w % 128) * p;
      if bitpos == 21 {
        DecodeFromBit28(r, v, w / 128, acc', y);
      } else {
        DecodeLow32(r, v, w / 128, bitpos + 7, p * 128, acc', y);
      }
    }
  }

  /** The 32-bit decoder, on the encoding of any 64-bit value. */
  lemma DecodeVarint32Exact(v: nat, y: seq<byte>)
    requires v < TWO64
    ensures DecodeVarint32(EncodeVarint(v) + y) == Answer32(v, y)
  {
    EncodeVarintHead(v, y);
    Answer32IsAnswer(v, y);
    if v >= 128 {
      DecodeLow32(Answer32(v, y), v, v / 128, 7, 128, v % 128, y);
    }
  }

  lemma NotSignPadded(v: nat)
    requires TWO32 <= v < TWO63
    ensures !Accepts32(v)
  {
    assert v / 0x8_0000_0000 / 0x1000_0000 == 0;
  }

  lemma Answer32Value(v: nat, y: seq<byte>)
    requires v < TWO63
    ensures Answer32(v, y) == if v < TWO32 then Ok(v, y) else Fail
  {
    if v >= TWO32 { NotSignPadded(v); }
  }

  lemma SignPadded(v: nat)
    requires TWO64 - 0x8000_0000 <= v < TWO64
    ensures Accepts32(v) && v % TWO32 == v - (TWO64 - TWO32)
  {
    assert v / 0x8_0000_0000 == 0x1FFF_FFFF;
  }

  /** Values of 32 bits are read back; larger ones are refused. */
  lemma DecodeEncodeVarint32(v: nat, y: seq<byte>)
    requires v < TWO63
    ensures DecodeVarint32(EncodeVarint(v) + y) == if v < TWO32 then Ok(v, y) else Fail
  {
    DecodeVarint32Exact(v, y);
    Answer32Value(v, y);
  }

  /** A negative number sign-extended to 64 bits is read back in two's complement. */
  lemma DecodeNegativeVarint32(x: int, y: seq<byte>)
    requires -0x8000_0000 <= x < 0
    ensures DecodeVarint32(EncodeVarint(TWO64 + x) + y) == Ok(TWO32 + x, y)
  {
    DecodeVarint32Exact(TWO64 + x, y);
    SignPadded(TWO64 + x);
  }

  // ----- zig-zag -----

  lemma ZigZagBijection(n: int, z: nat)
    ensures -(TWO63 as int) <= n < TWO63 <==> ZigZag(n) < TWO64
    ensures UnZigZag(ZigZag(n)) == n
    ensures ZigZag(UnZigZag(z)) == z
  {
  }

  // ----- fixed-width integers -----

  lemma DivideBelow(v: nat, p: nat)
    requires v < p * 256
    ensures v / 256 < p
  {
  }

  lemma {:induction false} LittleEndianRoundTrip(v: nat, n: nat)
    requires v < Pow2(8 * n)
    ensures FromLittleEndian(LittleEndian(v, n)) == v
  {
    if n > 0 {
      assert Pow2(8 * n) == Pow2(8 * (n - 1)) * 256 by {
        Pow2Add(8 * (n - 1), 8);
        Pow2Constants();
      }
      DivideBelow(v, Pow2(8 * (n - 1)));
      LittleEndianRoundTrip(v / 256, n - 1);
      assert LittleEndian(v, n)[1..] == LittleEndian(v / 256, n - 1);
    }
  }
}
