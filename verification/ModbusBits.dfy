/** Sixteen-bit words and coils packed eight to a byte. */
module ModbusBits {
  import opened Bytes

  type word = x: int | 0 <= x < 0x1_0000

  function High(w: word): byte { w / 256 }

  function Low(w: word): byte { w % 256 }

  function MakeWord(hi: byte, lo: byte): word { hi * 256 + lo }

  /** Bit `i` of a byte. */
  predicate BitOf(b: nat, i: nat) {
    if i == 0 then b % 2 == 1 else BitOf(b / 2, i - 1)
  }

  function Bit(on: bool): nat { if on then 1 else 0 }

  /** The number whose bits are `bits`, the first one lowest. */
  function PackByte(bits: seq<bool>): (b: nat)
    ensures b < Pow2(|bits|)
  {
    if bits == [] then 0 else Bit(bits[0]) + 2 * PackByte(bits[1..])
  }

  lemma PackByteFits(bits: seq<bool>)
    requires |bits| <= 8
    ensures PackByte(bits) < 256
  {
    Pow2Below32();
    Pow2Monotone(|bits|, 8);
  }

  function PackedLength(n: nat): (k: nat)
    ensures n <= 8 * k < n + 8
  {
    n / 8 + if n % 8 == 0 then 0 else 1
  }

  function PackBits(bits: seq<bool>): (b: seq<byte>)
    ensures |b| == PackedLength(|bits|)
  {
    if bits == [] then []
    else
      PackByteFits(if |bits| <= 8 then bits else bits[..8]);
      if |bits| <= 8 then [PackByte(bits)] else [PackByte(bits[..8])] + PackBits(bits[8..])
  }

  /** The first `n` bits of packed bytes. */
  function UnpackBits(b: seq<byte>, n: nat): (bits: seq<bool>)
    requires PackedLength(n) <= |b|
    ensures |bits| == n
  {
    seq(n, k requires 0 <= k < n => BitOf(b[k / 8], k % 8))
  }

  lemma {:induction false} BitOfPackByte(bits: seq<bool>, i: nat)
    requires i < |bits|
    ensures BitOf(PackByte(bits), i) == bits[i]
  {
    var b := PackByte(bits);
    assert b / 2 == PackByte(bits[1..]) && b % 2 == Bit(bits[0]);
    if i > 0 { BitOfPackByte(bits[1..], i - 1); }
  }

  lemma {:induction false} BitOfPackBits(bits: seq<bool>, k: nat)
    requires k < |bits|
    ensures BitOf(PackBits(bits)[k / 8], k % 8) == bits[k]
  {
    if |bits| <= 8 {
      BitOfPackByte(bits, k);
      assert k < 8 && k / 8 == 0;
    } else if k < 8 {
      BitOfPackByte(bits[..8], k);
    } else {
      BitOfPackBits(bits[8..], k - 8);
      assert (k - 8) / 8 == k / 8 - 1 && (k - 8) % 8 == k % 8;
    }
  }

  /** Coils survive packing, and bits behind the last coil do not matter. */
  lemma UnpackPack(bits: seq<bool>, tail: seq<byte>)
    ensures UnpackBits(PackBits(bits) + tail, |bits|) == bits
  {
    forall k | 0 <= k < |bits|
      ensures UnpackBits(PackBits(bits) + tail, |bits|)[k] == bits[k]
    {
      BitOfPackBits(bits, k);
    }
  }

  function Weight(on: bool, k: nat): nat { if on then Pow2(k) else 0 }

  lemma {:induction false} PackByteSnoc(bits: seq<bool>, on: bool)
    ensures PackByte(bits + [on]) == PackByte(bits) + Weight(on, |bits|)
  {
    if bits == [] {
    } else {
      assert (bits + [on])[1..] == bits[1..] + [on];
      PackByteSnoc(bits[1..], on);
      assert Pow2(|bits|) == 2 * Pow2(|bits| - 1);
    }
  }

  lemma {:induction false} PackBitsGroup(bits: seq<bool>, group: seq<bool>)
    requires |bits| % 8 == 0 && 0 < |group| <= 8
    ensures PackByte(group) < 256
    ensures PackBits(bits + group) == PackBits(bits) + [PackByte(group)]
  {
    PackByteFits(group);
    hide PackByte;
    if bits == [] {
      assert bits + group == group;
    } else {
      assert |bits| >= 8;
      assert (bits + group)[..8] == bits[..8] && (bits + group)[8..] == bits[8..] + group;
      PackBitsGroup(bits[8..], group);
      if |bits| == 8 { assert bits[..8] == bits && bits[8..] == []; }
    }
  }

  /** Registers, high byte first. */
  function PackWords(ws: seq<word>): (b: seq<byte>)
    ensures |b| == 2 * |ws|
  {
    if ws == [] then [] else PackWords(ws[..|ws| - 1]) + [High(ws[|ws| - 1]), Low(ws[|ws| - 1])]
  }

  function UnpackWords(b: seq<byte>, n: nat): (ws: seq<word>)
    requires 2 * n <= |b|
    ensures |ws| == n
  {
    seq(n, k requires 0 <= k < n => MakeWord(b[2 * k], b[2 * k + 1]))
  }

  lemma {:induction false} WordOfPackWords(ws: seq<word>, k: nat)
    requires k < |ws|
    ensures MakeWord(PackWords(ws)[2 * k], PackWords(ws)[2 * k + 1]) == ws[k]
  {
    if k < |ws| - 1 { WordOfPackWords(ws[..|ws| - 1], k); }
  }

  lemma TwiceInside(b: seq<byte>, tail: seq<byte>, k: nat)
    requires 2 * k + 1 < |b|
    ensures (b + tail)[2 * k] == b[2 * k] && (b + tail)[2 * k + 1] == b[2 * k + 1]
  {
  }

  lemma WordAt(b: seq<byte>, n: nat, k: nat)
    requires 2 * n <= |b| && k < n
    ensures UnpackWords(b, n)[k] == MakeWord(b[2 * k], b[2 * k + 1])
  {
  }

  lemma UnpackPackWords(ws: seq<word>, tail: seq<byte>)
    ensures UnpackWords(PackWords(ws) + tail, |ws|) == ws
  {
    var b := PackWords(ws);
    hide PackWords, MakeWord, UnpackWords;
    forall k | 0 <= k < |ws|
      ensures UnpackWords(b + tail, |ws|)[k] == ws[k]
    {
      WordOfPackWords(ws, k);
      TwiceInside(b, tail, k);
      WordAt(b + tail, |ws|, k);
    }
  }

  /** Bit by bit: the data where the and mask has a one, the or mask elsewhere. */
  function MaskedBits(data: byte, andMask: byte, orMask: byte): (bits: seq<bool>)
    ensures |bits| == 8
  {
    seq(8, i requires 0 <= i < 8 => if BitOf(andMask, i) then BitOf(data, i) else BitOf(orMask, i))
  }

  function MaskByte(data: byte, andMask: byte, orMask: byte): byte {
    PackByteFits(MaskedBits(data, andMask, orMask));
    PackByte(MaskedBits(data, andMask, orMask))
  }

  /** `(data & and) | (or & ~and)`, on both bytes of a register. */
  function MaskWord(data: word, andMask: word, orMask: word): word {
    MakeWord(MaskByte(High(data), High(andMask), High(orMask)), MaskByte(Low(data), Low(andMask), Low(orMask)))
  }

  // ---------- bit vectors ----------

  predicate Has(v: bv8, bit: bv8) { v & bit != 0 }

  /** The bits of a vector, the lowest first. */
  function BitsOf(v: bv8): (bits: seq<bool>)
    ensures |bits| == 8
  {
    [Has(v, 1), Has(v, 2), Has(v, 4), Has(v, 8), Has(v, 16), Has(v, 32), Has(v, 64), Has(v, 128)]
  }

  /** The byte that has the bits of `v`. */
  function ByteFrom(v: bv8): byte {
    PackByteFits(BitsOf(v));
    PackByte(BitsOf(v))
  }

  function Lit(on: bool, bit: bv8): bv8 { if on then bit else 0 }

  /** The vector that has the bits of `b`. */
  function VectorOf(b: byte): bv8 {
    Lit(BitOf(b, 0), 1) | Lit(BitOf(b, 1), 2) | Lit(BitOf(b, 2), 4) | Lit(BitOf(b, 3), 8)
    | Lit(BitOf(b, 4), 16) | Lit(BitOf(b, 5), 32) | Lit(BitOf(b, 6), 64) | Lit(BitOf(b, 7), 128)
  }

  lemma BitOfByteFrom(v: bv8, i: nat)
    requires i < 8
    ensures BitOf(ByteFrom(v), i) == BitsOf(v)[i]
  {
    BitOfPackByte(BitsOf(v), i);
  }

  lemma VectorOfByteFrom(v: bv8)
    ensures VectorOf(ByteFrom(v)) == v
  {
    forall i | 0 <= i < 8 ensures BitOf(ByteFrom(v), i) == BitsOf(v)[i] { BitOfByteFrom(v, i); }
    hide BitOf, ByteFrom;
  }

  lemma BitsOfVectorOf(b: byte, i: nat)
    requires i < 8
    ensures BitsOf(VectorOf(b))[i] == BitOf(b, i)
  {
    hide BitOf;
  }
}
