/** SHA-1 as FIPS 180-4 defines it: sections 4.1.1, 4.2.1, 5.1.1, 5.3.1 and 6.1.2. */
module Sha1Spec {

  type bytes = seq<bv8>

  function Rotl(x: bv32, n: nat): bv32
    requires 0 < n < 32
  {
    (x << n) | (x >> (32 - n))
  }

  // Addition modulo 2^32 and the bitwise operations, as functions a proof can hide.

  function Add(x: bv32, y: bv32): bv32 { x + y }

  function And(x: bv32, y: bv32): bv32 { x & y }

  function Or(x: bv32, y: bv32): bv32 { x | y }

  function Xor(x: bv32, y: bv32): bv32 { x ^ y }

  function Not(x: bv32): bv32 { !x }

  function Or3(x: bv32, y: bv32, z: bv32): bv32 { x | y | z }

  function Xor3(x: bv32, y: bv32, z: bv32): bv32 { x ^ y ^ z }

  function Ch(x: bv32, y: bv32, z: bv32): bv32 { Xor(And(x, y), And(Not(x), z)) }

  function Parity(x: bv32, y: bv32, z: bv32): bv32 { Xor3(x, y, z) }

  function Maj(x: bv32, y: bv32, z: bv32): bv32 { Xor3(And(x, y), And(x, z), And(y, z)) }

  function F(t: nat, x: bv32, y: bv32, z: bv32): bv32
    requires t < 80
  {
    if t < 20 then Ch(x, y, z) else if t < 40 then Parity(x, y, z) else if t < 60 then Maj(x, y, z) else Parity(x, y, z)
  }

  function K(t: nat): bv32
    requires t < 80
  {
    if t < 20 then 0x5a827999 else if t < 40 then 0x6ed9eba1 else if t < 60 then 0x8f1bbcdc else 0xca62c1d6
  }

  datatype Chain = Chain(a: bv32, b: bv32, c: bv32, d: bv32, e: bv32)

  const H0: Chain := Chain(0x67452301, 0xefcdab89, 0x98badcfe, 0x10325476, 0xc3d2e1f0)

  /** The constants are the square roots of 2, 3, 5 and 10, as fractions of which 30 bits are kept. */
  lemma ConstantsAreRoots(t: nat)
    requires t < 80
    ensures var n := [2, 3, 5, 10][t / 20];
            var k, scale := K(t) as int, 0x1000_0000_0000_0000;
            k * k <= n * scale < (k + 1) * (k + 1)
  {
  }

  /** Four bytes as a word, the first one highest. */
  function Word(b: bytes, i: nat): bv32
    requires i + 4 <= |b|
  {
    ((b[i] as bv32) << 24) | ((b[i + 1] as bv32) << 16) | ((b[i + 2] as bv32) << 8) | (b[i + 3] as bv32)
  }

  function WordBytes(x: bv32): (b: bytes)
    ensures |b| == 4
  {
    [((x >> 24) & 255) as bv8, ((x >> 16) & 255) as bv8, ((x >> 8) & 255) as bv8, (x & 255) as bv8]
  }

  /** The message schedule. */
  function W(block: bytes, t: nat): bv32
    requires |block| == 64 && t < 80
  {
    if t < 16 then Word(block, 4 * t)
    else Rotl(Xor(Xor(Xor(W(block, t - 3), W(block, t - 8)), W(block, t - 14)), W(block, t - 16)), 1)
  }

  /** T and the moves; the standard adds K before W, which makes no difference. */
  function Step(v: Chain, f: bv32, k: bv32, w: bv32): Chain {
    Chain(Add(Add(Add(Add(Rotl(v.a, 5), f), v.e), w), k), v.a, Rotl(v.b, 30), v.c, v.d)
  }

  /** The working variables after `t` rounds. */
  function Rounds(h: Chain, block: bytes, t: nat): Chain
    requires |block| == 64 && t <= 80
  {
    if t == 0 then h
    else
      var v := Rounds(h, block, t - 1);
      Step(v, F(t - 1, v.b, v.c, v.d), K(t - 1), W(block, t - 1))
  }

  function Sum(h: Chain, v: Chain): Chain {
    Chain(Add(h.a, v.a), Add(h.b, v.b), Add(h.c, v.c), Add(h.d, v.d), Add(h.e, v.e))
  }

  function Compress(h: Chain, block: bytes): Chain
    requires |block| == 64
  {
    Sum(h, Rounds(h, block, 80))
  }

  /** The chaining value after all whole blocks of a message, counted from its end. */
  function Fold(m: bytes): Chain {
    if |m| < 64 then H0 else Compress(Fold(m[..|m| - 64]), m[|m| - 64..])
  }

  function Zeros(n: nat): (b: bytes)
    ensures |b| == n
  {
    seq(n, _ => 0)
  }

  /** The length of a message in bits, as 64 bits: a message is shorter than 2^32 bytes. */
  function BitLength(n: nat): bv64
    requires n < 0x1_0000_0000
  {
    ((n as bv32) as bv64) << 3
  }

  function LengthBytes(n: nat): (b: bytes)
    requires n < 0x1_0000_0000
    ensures |b| == 8
  {
    var l := BitLength(n);
    WordBytes((l >> 32) as bv32) + WordBytes((l & 0xFFFF_FFFF) as bv32)
  }

  function ZeroCount(n: nat): nat { (119 - n % 64) % 64 }

  /** Section 5.1.1: a one bit, the fewest zeros that leave room, and the length. */
  function Padded(m: bytes): bytes
    requires |m| < 0x1_0000_0000
  {
    m + [0x80] + Zeros(ZeroCount(|m|)) + LengthBytes(|m|)
  }

  /** The padding fills whole blocks, and no shorter one would. */
  lemma PaddingFits(m: bytes, k: nat)
    requires |m| < 0x1_0000_0000
    ensures |Padded(m)| % 64 == 0
    ensures (|m| + 1 + k + 8) % 64 == 0 ==> k >= ZeroCount(|m|)
  {
    ZerosFit(|m|, k);
    hide ZeroCount;
  }

  lemma ZerosFit(n: nat, k: nat)
    ensures (n + 9 + ZeroCount(n)) % 64 == 0
    ensures (n + 9 + k) % 64 == 0 ==> k >= ZeroCount(n)
  {
    var r, q := n % 64, n / 64;
    assert n == 64 * q + r;
    assert (n + 9 + ZeroCount(n)) == 64 * q + (r + 9 + ZeroCount(n));
    assert r + 9 + ZeroCount(n) == 64 || r + 9 + ZeroCount(n) == 128;
  }

  function Digest(m: bytes): (d: bytes)
    requires |m| < 0x1_0000_0000
    ensures |d| == 20
  {
    var h := Fold(Padded(m));
    WordBytes(h.a) + WordBytes(h.b) + WordBytes(h.c) + WordBytes(h.d) + WordBytes(h.e)
  }
}
