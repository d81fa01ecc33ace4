/** `sha1.c`: a block buffer that is filled piece by piece and compressed in place. */
module Sha1 {
  import opened Sha1Spec

  // ---------- the C macros ----------

  function F0(x: bv32, y: bv32, z: bv32): bv32 { Or(And(x, y), And(Not(x), z)) }

  function F1(x: bv32, y: bv32, z: bv32): bv32 { Xor3(x, y, z) }

  function F2(x: bv32, y: bv32, z: bv32): bv32 { Or3(And(x, y), And(x, z), And(y, z)) }

  function F3(x: bv32, y: bv32, z: bv32): bv32 { Xor3(x, y, z) }

  /** `ROL( a , 5 ) + F( b , c , d ) + e + w[x] + K`. */
  function Temp(a: bv32, f: bv32, e: bv32, w: bv32, k: bv32): bv32 {
    Add(Add(Add(Add(Rotl(a, 5), f), e), w), k)
  }

  lemma OrOfDisjoint(p: bv32, q: bv32)
    requires And(p, q) == 0
    ensures Or(p, q) == Xor(p, q)
  {
    DisjointBits(p, q);
  }

  lemma DisjointBits(p: bv32, q: bv32)
    requires p & q == 0
    ensures p | q == p ^ q
  {
  }

  lemma ChoiceDisjoint(x: bv32, y: bv32, z: bv32)
    ensures And(And(x, y), And(Not(x), z)) == 0
  {
  }

  lemma OrOfThree(p: bv32, q: bv32, r: bv32)
    requires And(p, q) == And(q, r) == And(p, r)
    ensures Or3(p, q, r) == Xor3(p, q, r)
  {
    ThreeOverlap(p, q, r);
  }

  lemma ThreeOverlap(p: bv32, q: bv32, r: bv32)
    requires p & q == q & r && p & q == p & r
    ensures p | q | r == p ^ q ^ r
  {
  }

  lemma MajorityOverlap(x: bv32, y: bv32, z: bv32)
    ensures And(And(x, y), And(x, z)) == And(And(x, z), And(y, z)) == And(And(x, y), And(y, z))
  {
  }

  /** The code's disjunctions are the standard's exclusive ones. */
  lemma SameChoice(x: bv32, y: bv32, z: bv32)
    ensures F0(x, y, z) == Ch(x, y, z)
  {
    hide And, Or, Xor, Not, Or3, Xor3;
    ChoiceDisjoint(x, y, z);
    OrOfDisjoint(And(x, y), And(Not(x), z));
  }

  lemma SameMajority(x: bv32, y: bv32, z: bv32)
    ensures F2(x, y, z) == Maj(x, y, z)
  {
    hide And, Or, Xor, Not, Or3, Xor3;
    MajorityOverlap(x, y, z);
    OrOfThree(And(x, y), And(x, z), And(y, z));
  }

  class Sha1State {
    const buf: array<bv8>
    const s: array<bv32>
    var buflen: nat
    var msglen: nat

    /** Everything put into the buffer so far, padding included. */
    ghost var fed: bytes
    ghost var blocks: nat

    ghost predicate Shape()
      reads this
    {
      buf.Length == 64 && s.Length == 5 && buflen <= 64 && |fed| == 64 * blocks + buflen
    }

    ghost function Chaining(): Chain
      reads s
      requires s.Length == 5
    {
      Chain(s[0], s[1], s[2], s[3], s[4])
    }

    /** The buffer holds what is not compressed yet, the chaining words what is. */
    ghost predicate Holds()
      reads this, buf, s
    {
      Shape() && buf[..buflen] == fed[64 * blocks..] && Chaining() == Fold(fed[..64 * blocks])
    }

    /** Between calls: less than a block waits, and the length counted is that of the blocks. */
    ghost predicate Valid()
      reads this, buf, s
    {
      Holds() && buflen < 64 && msglen == 64 * blocks
    }

    /** `sha1_init`. */
    constructor ()
      ensures Valid() && fed == [] && fresh(buf) && fresh(s)
    {
      buf := new bv8[64](_ => 0);
      s := new bv32[5](i => if i == 0 then 0x67452301 else if i == 1 then 0xefcdab89 else if i == 2 then 0x98badcfe
                            else if i == 3 then 0x10325476 else 0xc3d2e1f0);
      buflen, msglen := 0, 0;
      fed, blocks := [], 0;
    }

    /** `md->buf[md->buflen++] = b`. */
    method Push(b: bv8)
      requires Holds() && buflen < 64
      modifies this`buflen, this`fed, buf
      ensures Holds() && buflen == old(buflen) + 1 && fed == old(fed) + [b]
    {
      buf[buflen] := b;
      buflen := buflen + 1;
      fed := fed + [b];
      assert fed[..64 * blocks] == old(fed)[..64 * blocks];
      assert fed[64 * blocks..] == old(fed)[64 * blocks..] + [b];
    }

    /** The first two loops of `sha1_compress`: the schedule is filled. */
    method Schedule() returns (w: array<bv32>)
      requires buf.Length == 64
      ensures fresh(w) && w.Length == 80 && forall t | 0 <= t < 80 :: w[t] == W(buf[..], t)
    {
      w := new bv32[80];
      ghost var block := buf[..];
      hide Word, Rotl, Xor;
      for x := 0 to 16
        invariant forall t | 0 <= t < x :: w[t] == W(block, t)
      {
        w[x] := Word(buf[..], 4 * x);
      }
      for x := 16 to 80
        invariant forall t | 0 <= t < x :: w[t] == W(block, t)
      {
        w[x] := Rotl(Xor(Xor(Xor(w[x - 3], w[x - 8]), w[x - 14]), w[x - 16]), 1);
      }
    }

    /** The remaining loops of `sha1_compress`: four times twenty rounds. */
    method EightyRounds(w: array<bv32>, ghost block: bytes) returns (v: Chain)
      requires s.Length == 5 && w.Length == 80 && |block| == 64 && forall t | 0 <= t < 80 :: w[t] == W(block, t)
      ensures v == Rounds(Chaining(), block, 80)
    {
      var a, b, c, d, e := s[0], s[1], s[2], s[3], s[4];
      ghost var h := Chaining();
      Start(h, block);
      hide Rotl, F0, F1, F2, F3, W, Rounds, Temp;
      for x := 0 to 20
        invariant Chain(a, b, c, d, e) == Rounds(h, block, x)
      {
        OneRound(h, block, x, F0(b, c, d), 0x5a827999);
        var temp := Temp(a, F0(b, c, d), e, w[x], 0x5a827999);
        e := d;
        d := c;
        c := Rotl(b, 30);
        b := a;
        a := temp;
      }
      for x := 20 to 40
        invariant Chain(a, b, c, d, e) == Rounds(h, block, x)
      {
        OneRound(h, block, x, F1(b, c, d), 0x6ed9eba1);
        var temp := Temp(a, F1(b, c, d), e, w[x], 0x6ed9eba1);
        e := d;
        d := c;
        c := Rotl(b, 30);
        b := a;
        a := temp;
      }
      for x := 40 to 60
        invariant Chain(a, b, c, d, e) == Rounds(h, block, x)
      {
        OneRound(h, block, x, F2(b, c, d), 0x8f1bbcdc);
        var temp := Temp(a, F2(b, c, d), e, w[x], 0x8f1bbcdc);
        e := d;
        d := c;
        c := Rotl(b, 30);
        b := a;
        a := temp;
      }
      for x := 60 to 80
        invariant Chain(a, b, c, d, e) == Rounds(h, block, x)
      {
        OneRound(h, block, x, F3(b, c, d), 0xca62c1d6);
        var temp := Temp(a, F3(b, c, d), e, w[x], 0xca62c1d6);
        e := d;
        d := c;
        c := Rotl(b, 30);
        b := a;
        a := temp;
      }
      v := Chain(a, b, c, d, e);
    }

    /** `sha1_compress`: one step of the standard, on whatever the 64 bytes of the buffer are. */
    method Compress()
      requires buf.Length == 64 && s.Length == 5
      modifies s
      ensures Chaining() == Sha1Spec.Compress(old(Chaining()), buf[..])
    {
      var w := Schedule();
      var v := EightyRounds(w, buf[..]);
      AddTo(v);
    }

    /** `md->s[0] += a` and so on. */
    method AddTo(v: Chain)
      requires s.Length == 5
      modifies s
      ensures Chaining() == Sum(old(Chaining()), v)
    {
      hide Add;
      s[0] := Add(s[0], v.a);
      s[1] := Add(s[1], v.b);
      s[2] := Add(s[2], v.c);
      s[3] := Add(s[3], v.d);
      s[4] := Add(s[4], v.e);
    }

    /** A full buffer is compressed and starts over. */
    method NextBlock()
      requires Holds() && buflen == 64
      modifies this`buflen, this`blocks, s
      ensures Holds() && buflen == 0 && blocks == old(blocks) + 1
    {
      assert buf[..64] == buf[..];
      Compress();
      WholeBlock(fed, blocks, buf[..]);
      hide Sha1Spec.Compress, Fold;
      buflen := 0;
      blocks := blocks + 1;
      assert buf[..0] == [] && fed[64 * blocks..] == [];
    }

    /** The inner loop of `sha1_copy`. */
    method Fill(data: bytes, at: nat, x: nat)
      requires Holds() && buflen + x <= 64 && at + x <= |data|
      modifies this`buflen, this`fed, buf
      ensures Holds() && buflen == old(buflen) + x && fed == old(fed) + data[at..at + x]
    {
      assert fed == old(fed) + data[at..at];
      hide Fold;
      for y := 0 to x
        invariant Holds() && buflen == old(buflen) + y && fed == old(fed) + data[at..at + y]
      {
        Push(data[at + y]);
        OneByteMore(old(fed), data, at, at + y);
      }
    }

    /** One turn of `sha1_copy`: fill the buffer as far as it goes, compress it when full. */
    method Chunk(data: bytes, at: nat) returns (x: nat)
      requires Valid() && at < |data|
      modifies this, buf, s
      ensures Valid() && 0 < x <= |data| - at && fed == old(fed) + data[at..at + x]
    {
      x := if 64 - buflen < |data| - at then 64 - buflen else |data| - at;
      Fill(data, at, x);
      if buflen == 64 {
        NextBlock();
        msglen := msglen + 64;
      }
    }

    /** `sha1_copy`: any amount of data, absorbed behind what was absorbed before. */
    method Copy(data: bytes)
      requires Valid() && |fed| + |data| < 0x1_0000_0000
      modifies this, buf, s
      ensures Valid() && fed == old(fed) + data
    {
      var at: nat := 0;
      assert fed == old(fed) + data[..0];
      hide Holds, Valid;
      while at < |data|
        invariant Valid() && at <= |data| && fed == old(fed) + data[..at]
      {
        var x := Chunk(data, at);
        Joined(old(fed), data, at, at + x);
        at := at + x;
      }
      assert data[..at] == data;
    }

    /** `STORE32B`. */
    method Store32(x: bv32, dst: array<bv8>, at: nat)
      requires at + 4 <= dst.Length
      modifies dst
      ensures dst[..at] == old(dst[..at]) && dst[at..at + 4] == WordBytes(x) && dst[at + 4..] == old(dst[at + 4..])
    {
      var b := WordBytes(x);
      hide WordBytes;
      dst[at], dst[at + 1], dst[at + 2], dst[at + 3] := b[0], b[1], b[2], b[3];
      assert dst[at..at + 4] == b;
    }

    /** `md->buf[ md->buflen++ ] = 0x00` until `to` bytes stand in the buffer. */
    method FillZeros(to: nat)
      requires Holds() && buflen <= to <= 64
      modifies this`buflen, this`fed, buf
      ensures Holds() && buflen == to && fed == old(fed) + Zeros(to - old(buflen))
    {
      ghost var n := 0;
      assert fed == old(fed) + Zeros(0);
      hide Fold;
      while buflen < to
        invariant Holds() && buflen <= to && n == buflen - old(buflen) && fed == old(fed) + Zeros(n)
      {
        Push(0x00);
        assert Zeros(n) + [0] == Zeros(n + 1);
        assert old(fed) + Zeros(n) + [0] == old(fed) + (Zeros(n) + [0]);
        n := n + 1;
      }
    }

    /** The padding of `sha1_finish` up to the length, with the block it may fill on the way. */
    method PadToLength()
      requires Holds() && buflen < 64 && |fed| < 0x1_0000_0000
      modifies this`buflen, this`fed, this`blocks, buf, s
      ensures Holds() && buflen == 56 && fed == old(fed) + [0x80] + Zeros(ZeroCount(|old(fed)|))
    {
      ghost var m, waiting := fed, buflen;
      hide Fold;
      Push(0x80);
      if buflen > 56 {
        FillZeros(64);
        NextBlock();
        ghost var k := 63 - waiting;
        FillZeros(56);
        TwoRuns(m + [0x80], k, 56);
        CountZeros(blocks - 1, waiting, k + 56);
      } else {
        FillZeros(56);
        CountZeros(blocks, waiting, 55 - waiting);
      }
    }

    /** The two words of the length, and the last block. */
    method LastBlock(l1: bv32, l2: bv32, ghost m: bytes)
      requires Holds() && buflen == 56 && |m| < 0x1_0000_0000
      requires fed == m + [0x80] + Zeros(ZeroCount(|m|)) && LengthBytes(|m|) == WordBytes(l2) + WordBytes(l1)
      modifies buf, s
      ensures Chaining() == Fold(Padded(m))
    {
      hide WordBytes, Fold, Padded, LengthBytes, ZeroCount, Zeros, Sha1Spec.Compress;
      ghost var tail := buf[..56];
      Store32(l2, buf, 56);
      assert buf[..60] == tail + WordBytes(l2);
      Store32(l1, buf, 60);
      assert buf[..] == buf[..60] + buf[60..64];
      LastFold(m, fed, blocks, tail, l1, l2);
      Compress();
    }

    /** `sha1_finish`: the digest of everything absorbed. */
    method Finish(dst: array<bv8>)
      requires Valid() && |fed| < 0x1_0000_0000 && dst.Length == 20 && dst != buf
      modifies this, buf, s, dst
      ensures dst[..] == Digest(old(fed))
    {
      ghost var m := fed;
      hide Fold, Padded, LengthBytes, WordBytes, ZeroCount, Stored, LengthHigh, LengthLow;
      msglen := msglen + buflen;
      var l2, l1 := LengthHigh(msglen), LengthLow(msglen);
      LengthInBits(msglen);
      PadToLength();
      LastBlock(l1, l2, m);
      StoreDigest(dst);
      FiveWords(dst[..], Chaining());
      DigestIs(m);
    }

    /** The last loop of `sha1_finish`. */
    method StoreDigest(dst: array<bv8>)
      requires s.Length == 5 && dst.Length == 20
      modifies dst
      ensures forall j | 0 <= j < 5 :: Stored(dst[..], Chaining(), j)
    {
      hide WordBytes;
      for i := 0 to 5
        invariant forall j | 0 <= j < i :: Stored(dst[..], Chaining(), j)
      {
        ghost var before := dst[..];
        Store32(s[i], dst, 4 * i);
        forall j | 0 <= j < i ensures Stored(dst[..], Chaining(), j) {
          assert Stored(before, Chaining(), j);
          assert dst[..4 * i] == before[..4 * i];
          assert dst[..][4 * j..4 * j + 4] == dst[..4 * i][4 * j..4 * j + 4] == before[4 * j..4 * j + 4];
        }
        assert dst[..][4 * i..4 * i + 4] == dst[4 * i..4 * i + 4];
      }
    }
  }

  function Nth(h: Chain, j: nat): bv32
    requires j < 5
  {
    if j == 0 then h.a else if j == 1 then h.b else if j == 2 then h.c else if j == 3 then h.d else h.e
  }

  ghost predicate Stored(d: bytes, h: Chain, j: nat)
    requires |d| == 20 && j < 5
  {
    d[4 * j..4 * j + 4] == WordBytes(Nth(h, j))
  }

  lemma FiveWords(d: bytes, h: Chain)
    requires |d| == 20 && forall j | 0 <= j < 5 :: Stored(d, h, j)
    ensures d == WordBytes(h.a) + WordBytes(h.b) + WordBytes(h.c) + WordBytes(h.d) + WordBytes(h.e)
  {
    assert Stored(d, h, 0) && Stored(d, h, 1) && Stored(d, h, 2) && Stored(d, h, 3) && Stored(d, h, 4);
    hide WordBytes;
    assert d == d[0..4] + d[4..8] + d[8..12] + d[12..16] + d[16..20];
  }

  lemma DigestIs(m: bytes)
    requires |m| < 0x1_0000_0000
    ensures var h := Fold(Padded(m));
            Digest(m) == WordBytes(h.a) + WordBytes(h.b) + WordBytes(h.c) + WordBytes(h.d) + WordBytes(h.e)
  {
  }

  /** `md->msglen >> 29`. */
  function LengthHigh(n: nat): bv32
    requires n < 0x1_0000_0000
  {
    (n as bv32) >> 29
  }

  /** `( md->msglen << 3 ) & 0xFFFFFFFF`. */
  function LengthLow(n: nat): bv32
    requires n < 0x1_0000_0000
  {
    ((n as bv32) << 3) & 0xFFFF_FFFF
  }

  lemma LengthBits(x: bv32)
    ensures (((x as bv64) << 3) >> 32) as bv32 == x >> 29
    ensures (((x as bv64) << 3) & 0xFFFF_FFFF) as bv32 == (x << 3) & 0xFFFF_FFFF
  {
  }

  /** The two words of `sha1_finish` are the 64-bit length in bits. */
  lemma LengthInBits(n: nat)
    requires n < 0x1_0000_0000
    ensures LengthBytes(n) == WordBytes(LengthHigh(n)) + WordBytes(LengthLow(n))
  {
    hide WordBytes;
    LengthBits(n as bv32);
  }

  lemma TwoRuns(p: bytes, a: nat, b: nat)
    ensures p + Zeros(a) + Zeros(b) == p + Zeros(a + b)
  {
  }

  lemma CountZeros(blocks: nat, waiting: nat, k: nat)
    requires waiting < 64 && k == if waiting + 1 > 56 then 119 - waiting else 55 - waiting
    ensures ZeroCount(64 * blocks + waiting) == k
  {
    assert (64 * blocks + waiting) % 64 == waiting;
  }

  lemma LastFold(m: bytes, fed: bytes, blocks: nat, tail: bytes, l1: bv32, l2: bv32)
    requires |m| < 0x1_0000_0000 && fed == m + [0x80] + Zeros(ZeroCount(|m|))
    requires |fed| == 64 * blocks + 56 && tail == fed[64 * blocks..]
    requires LengthBytes(|m|) == WordBytes(l2) + WordBytes(l1)
    ensures Fold(Padded(m)) == Sha1Spec.Compress(Fold(fed[..64 * blocks]), tail + WordBytes(l2) + WordBytes(l1))
  {
    var last := LengthBytes(|m|);
    var p := Padded(m);
    assert p == fed + last;
    hide WordBytes, LengthBytes, ZeroCount, Padded, Fold, Sha1Spec.Compress;
    assert |p| == 64 * blocks + 64;
    FoldLast(p, blocks);
    assert p[..64 * blocks] == fed[..64 * blocks];
    assert p[64 * blocks..] == tail + last;
    assert tail + WordBytes(l2) + WordBytes(l1) == tail + last;
  }

  lemma FoldLast(p: bytes, blocks: nat)
    requires |p| == 64 * blocks + 64
    ensures Fold(p) == Sha1Spec.Compress(Fold(p[..64 * blocks]), p[64 * blocks..])
  {
  }

  lemma OneByteMore(fed: bytes, data: bytes, from: nat, to: nat)
    requires from <= to < |data|
    ensures fed + data[from..to] + [data[to]] == fed + data[from..to + 1]
  {
  }

  lemma Joined(fed: bytes, data: bytes, at: nat, to: nat)
    requires at <= to <= |data|
    ensures fed + data[..at] + data[at..to] == fed + data[..to]
  {
  }

  lemma Start(h: Chain, block: bytes)
    requires |block| == 64
    ensures Rounds(h, block, 0) == h
  {
  }

  /** The function and the constant the code uses in round `x`. */
  predicate UsedIn(x: nat, v: Chain, f: bv32, k: bv32) {
    if x < 20 then f == F0(v.b, v.c, v.d) && k == 0x5a827999
    else if x < 40 then f == F1(v.b, v.c, v.d) && k == 0x6ed9eba1
    else if x < 60 then f == F2(v.b, v.c, v.d) && k == 0x8f1bbcdc
    else f == F3(v.b, v.c, v.d) && k == 0xca62c1d6
  }

  /** One round of the code is one round of the standard. */
  lemma OneRound(h: Chain, block: bytes, x: nat, f: bv32, k: bv32)
    requires |block| == 64 && x < 80 && UsedIn(x, Rounds(h, block, x), f, k)
    ensures var v := Rounds(h, block, x);
            Rounds(h, block, x + 1)
            == Chain(Temp(v.a, f, v.e, W(block, x), k), v.a, Rotl(v.b, 30), v.c, v.d)
  {
    var v := Rounds(h, block, x);
    SameChoice(v.b, v.c, v.d);
    SameMajority(v.b, v.c, v.d);
    hide Rotl, W, Add, And, Or, Xor, Not, Or3, Xor3;
    assert f == F(x, v.b, v.c, v.d) && k == K(x);
  }

  lemma WholeBlock(fed: bytes, blocks: nat, block: bytes)
    requires |fed| == 64 * blocks + 64 && |block| == 64 && block == fed[64 * blocks..]
    ensures Fold(fed[..64 * (blocks + 1)]) == Sha1Spec.Compress(Fold(fed[..64 * blocks]), block)
  {
    var m := fed[..64 * (blocks + 1)];
    assert m == fed && m[..|m| - 64] == fed[..64 * blocks] && m[|m| - 64..] == block;
    hide Sha1Spec.Compress;
  }

  /** `sha1_memory`. */
  method Sha1Memory(data: bytes, dst: array<bv8>)
    requires |data| < 0x1_0000_0000 && dst.Length == 20
    modifies dst
    ensures dst[..] == Digest(data)
  {
    var md := new Sha1State();
    md.Copy(data);
    assert [] + data == data;
    md.Finish(dst);
  }

  function Concatenated(parts: seq<bytes>): bytes {
    if parts == [] then [] else Concatenated(parts[..|parts| - 1]) + parts[|parts| - 1]
  }

  /** However a message is cut into pieces, the digest is that of the whole. */
  method Sha1Stream(parts: seq<bytes>, dst: array<bv8>)
    requires |Concatenated(parts)| < 0x1_0000_0000 && dst.Length == 20
    modifies dst
    ensures dst[..] == Digest(Concatenated(parts))
  {
    var md := new Sha1State();
    for i := 0 to |parts|
      invariant fresh(md) && fresh(md.buf) && fresh(md.s) && md.Valid() && md.fed == Concatenated(parts[..i])
      invariant |Concatenated(parts)| < 0x1_0000_0000
    {
      PartsGrow(parts, i);
      md.Copy(parts[i]);
    }
    assert parts[..|parts|] == parts;
    md.Finish(dst);
  }

  lemma {:induction false} PartsGrow(parts: seq<bytes>, i: nat)
    requires i < |parts|
    ensures Concatenated(parts[..i + 1]) == Concatenated(parts[..i]) + parts[i]
    ensures |Concatenated(parts[..i + 1])| <= |Concatenated(parts)|
    decreases |parts|
  {
    assert parts[..i + 1][..i] == parts[..i];
    if i + 1 < |parts| {
      var front := parts[..|parts| - 1];
      PartsGrow(front, i);
      assert front[..i + 1] == parts[..i + 1];
    } else {
      assert parts[..i + 1] == parts;
    }
  }
}
