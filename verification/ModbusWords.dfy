/** The bit operations of the C code on single bytes, in terms of arithmetic. */
module ModbusWords {
  import opened Bytes
  import opened ModbusBits

  function Shifted(on: bool, shift: nat): bv8
    requires shift < 8
  {
    if on then (1 as bv8) << shift else 0
  }

  function Ored(one: bv8, shift: nat, on: bool): bv8
    requires shift < 8
  {
    one | Shifted(on, shift)
  }

  function Value(v: bv8): byte { v as int }

  /** `one_byte |= bit << shift`, when the bits from `shift` upward are still clear. */
  lemma OrAdds(one: bv8, shift: nat, on: bool)
    requires shift < 8 && Value(one) < Pow2(shift)
    ensures Value(Ored(one, shift, on)) == Value(one) + Weight(on, shift)
  {
    hide Ored, Value;
    SmallPowers();
    hide Pow2;
    if on {
      if shift == 0 { Or0(one); } else if shift == 1 { Or1(one); } else if shift == 2 { Or2(one); }
      else if shift == 3 { Or3(one); } else if shift == 4 { Or4(one); } else if shift == 5 { Or5(one); }
      else if shift == 6 { Or6(one); } else { Or7(one); }
    } else {
      OrZero(one, shift);
    }
  }

  lemma SmallPowers()
    ensures Pow2(0) == 1 && Pow2(1) == 2 && Pow2(2) == 4 && Pow2(3) == 8 && Pow2(4) == 16 && Pow2(5) == 32
    ensures Pow2(6) == 64 && Pow2(7) == 128 && Pow2(8) == 256
  {
    assert Pow2(1) == 2 * Pow2(0);
    assert Pow2(2) == 2 * Pow2(1);
    assert Pow2(3) == 2 * Pow2(2);
    assert Pow2(4) == 2 * Pow2(3);
    assert Pow2(5) == 2 * Pow2(4);
    assert Pow2(6) == 2 * Pow2(5);
    assert Pow2(7) == 2 * Pow2(6);
    assert Pow2(8) == 2 * Pow2(7);
  }

  lemma OrZero(v: bv8, shift: nat)
    requires shift < 8
    ensures Ored(v, shift, false) == v
  {
  }

  lemma Or0(v: bv8)
    requires Value(v) < 1
    ensures Value(Ored(v, 0, true)) == Value(v) + 1
  {
  }

  lemma Or1(v: bv8)
    requires Value(v) < 2
    ensures Value(Ored(v, 1, true)) == Value(v) + 2
  {
  }

  lemma Or2(v: bv8)
    requires Value(v) < 4
    ensures Value(Ored(v, 2, true)) == Value(v) + 4
  {
  }

  lemma Or3(v: bv8)
    requires Value(v) < 8
    ensures Value(Ored(v, 3, true)) == Value(v) + 8
  {
  }

  lemma Or4(v: bv8)
    requires Value(v) < 16
    ensures Value(Ored(v, 4, true)) == Value(v) + 16
  {
  }

  lemma Or5(v: bv8)
    requires Value(v) < 32
    ensures Value(Ored(v, 5, true)) == Value(v) + 32
  {
  }

  lemma Or6(v: bv8)
    requires Value(v) < 64
    ensures Value(Ored(v, 6, true)) == Value(v) + 64
  {
  }

  lemma Or7(v: bv8)
    requires Value(v) < 128
    ensures Value(Ored(v, 7, true)) == Value(v) + 128
  {
  }

  predicate TestBit(b: byte, shift: nat)
    requires shift < 8
  {
    (b as bv8) & ((1 as bv8) << shift) != 0
  }

  /** `tab_byte[k] & (1 << shift)` looks at the bit its arithmetic weight says. */
  lemma {:induction false} TestBitIs(b: byte, shift: nat)
    requires shift < 8
    ensures TestBit(b, shift) <==> BitOf(b, shift)
  {
    var v := b as bv8;
    ThereAndBack(b);
    if shift == 0 {
      LowestBit(v);
      assert v & ((1 as bv8) << 0) == v & 1;
    } else {
      HalfOf(v);
      TestShifted(v, shift);
      HalfThere(b);
      TestBitIs(b / 2, shift - 1);
    }
  }

  lemma ThereAndBack(a: byte)
    ensures (a as bv8) as int == a
  {
    if a < 16 { } else if a < 32 { } else if a < 64 { } else if a < 128 { } else if a < 192 { } else if a < 224 { }
  }

  lemma LowestBit(v: bv8)
    ensures v & 1 != 0 <==> (v as int) % 2 == 1
  {
  }

  lemma HalfOf(v: bv8)
    ensures (v >> 1) as int == (v as int) / 2
  {
  }

  lemma HalfThere(b: byte)
    ensures (b / 2) as bv8 == (b as bv8) >> 1
  {
    var v := b as bv8;
    ThereAndBack(b);
    HalfOf(v);
    BackAndThere(v >> 1);
  }

  lemma TestShifted(v: bv8, shift: nat)
    requires 0 < shift < 8
    ensures v & ((1 as bv8) << shift) != 0 <==> (v >> 1) & ((1 as bv8) << (shift - 1)) != 0
  {
    if shift == 1 { } else if shift == 2 { } else if shift == 3 { } else if shift == 4 { }
    else if shift == 5 { } else if shift == 6 { }
  }

  // ---------- casts ----------

  /** The cast of a byte to a bit vector keeps its bits. */
  lemma VectorIsCast(b: byte)
    ensures VectorOf(b) == b as bv8
  {
    var v := b as bv8;
    forall i: nat | i < 8 ensures TestBit(b, i) <==> BitOf(b, i) { TestBitIs(b, i); }
    hide BitOf;
    assert v == Lit(TestBit(b, 0), 1) | Lit(TestBit(b, 1), 2) | Lit(TestBit(b, 2), 4) | Lit(TestBit(b, 3), 8)
      | Lit(TestBit(b, 4), 16) | Lit(TestBit(b, 5), 32) | Lit(TestBit(b, 6), 64) | Lit(TestBit(b, 7), 128);
  }

  /** And so does the cast back. */
  lemma ByteIsCast(v: bv8)
    ensures ByteFrom(v) == v as int
  {
    VectorOfByteFrom(v);
    VectorIsCast(ByteFrom(v));
    ThereAndBack(ByteFrom(v));
  }

  // ---------- words ----------

  function Joined(hi: bv8, lo: bv8): bv16 {
    ((hi as bv16) << 8) | (lo as bv16)
  }

  /** A register as 16 bits: its two bytes side by side. */
  function Vector16(w: word): bv16 { Joined(VectorOf(High(w)), VectorOf(Low(w))) }

  function Word16(v: bv16): word {
    MakeWord(ByteFrom((v >> 8) as bv8), ByteFrom((v & 0xFF) as bv8))
  }

  function Masked(data: bv16, andMask: bv16, orMask: bv16): bv16 {
    (data & andMask) | (orMask & !andMask)
  }

  function Masked8(data: bv8, andMask: bv8, orMask: bv8): bv8 {
    (data & andMask) | (orMask & !andMask)
  }

  lemma MaskedHalves(d1: bv8, d0: bv8, a1: bv8, a0: bv8, o1: bv8, o0: bv8)
    ensures var m := Masked(Joined(d1, d0), Joined(a1, a0), Joined(o1, o0));
            (m >> 8) as bv8 == Masked8(d1, a1, o1) && (m & 0xFF) as bv8 == Masked8(d0, a0, o0)
  {
  }

  lemma MaskedTest(d: bv8, a: bv8, o: bv8, bit: bv8)
    requires bit & (bit - 1) == 0
    ensures Has(Masked8(d, a, o), bit) == if Has(a, bit) then Has(d, bit) else Has(o, bit)
  {
  }

  lemma MaskedBit(d: bv8, a: bv8, o: bv8, i: nat)
    requires i < 8
    ensures BitsOf(Masked8(d, a, o))[i] == if BitsOf(a)[i] then BitsOf(d)[i] else BitsOf(o)[i]
  {
    hide Masked8, Has;
    if i == 0 { MaskedTest(d, a, o, 1); } else if i == 1 { MaskedTest(d, a, o, 2); }
    else if i == 2 { MaskedTest(d, a, o, 4); } else if i == 3 { MaskedTest(d, a, o, 8); }
    else if i == 4 { MaskedTest(d, a, o, 16); } else if i == 5 { MaskedTest(d, a, o, 32); }
    else if i == 6 { MaskedTest(d, a, o, 64); } else { MaskedTest(d, a, o, 128); }
  }

  lemma MaskedByte(d: byte, a: byte, o: byte)
    ensures ByteFrom(Masked8(VectorOf(d), VectorOf(a), VectorOf(o))) == MaskByte(d, a, o)
  {
    hide Masked8, BitsOf, VectorOf, PackByte, BitOf;
    forall i | 0 <= i < 8
      ensures BitsOf(Masked8(VectorOf(d), VectorOf(a), VectorOf(o)))[i] == MaskedBits(d, a, o)[i]
    {
      MaskedBit(VectorOf(d), VectorOf(a), VectorOf(o), i);
      BitsOfVectorOf(d, i);
      BitsOfVectorOf(a, i);
      BitsOfVectorOf(o, i);
    }
    assert BitsOf(Masked8(VectorOf(d), VectorOf(a), VectorOf(o))) == MaskedBits(d, a, o);
  }

  /** The expression on 16 bits masks every bit. */
  lemma MaskedIsMaskWord(data: word, andMask: word, orMask: word)
    ensures Word16(Masked(Vector16(data), Vector16(andMask), Vector16(orMask))) == MaskWord(data, andMask, orMask)
  {
    MaskedHalves(VectorOf(High(data)), VectorOf(Low(data)), VectorOf(High(andMask)), VectorOf(Low(andMask)),
      VectorOf(High(orMask)), VectorOf(Low(orMask)));
    MaskedByte(High(data), High(andMask), High(orMask));
    MaskedByte(Low(data), Low(andMask), Low(orMask));
    hide Masked, Masked8, Joined, ByteFrom, VectorOf, MaskByte, High, Low;
  }
}
