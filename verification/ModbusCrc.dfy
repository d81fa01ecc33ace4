/** The CRC of MODBUS over Serial Line V1.02, section 6.2.2: table-driven, bitwise, and what it detects. */
module ModbusCrc {

  // ----- the tables, sixteen entries to a row -----

  const TABLE_CRC_HI: seq<seq<bv8>> := [
    [0x00, 0xC1, 0x81, 0x40, 0x01, 0xC0, 0x80, 0x41, 0x01, 0xC0, 0x80, 0x41, 0x00, 0xC1, 0x81, 0x40],
    [0x01, 0xC0, 0x80, 0x41, 0x00, 0xC1, 0x81, 0x40, 0x00, 0xC1, 0x81, 0x40, 0x01, 0xC0, 0x80, 0x41],
    [0x01, 0xC0, 0x80, 0x41, 0x00, 0xC1, 0x81, 0x40, 0x00, 0xC1, 0x81, 0x40, 0x01, 0xC0, 0x80, 0x41],
    [0x00, 0xC1, 0x81, 0x40, 0x01, 0xC0, 0x80, 0x41, 0x01, 0xC0, 0x80, 0x41, 0x00, 0xC1, 0x81, 0x40],
    [0x01, 0xC0, 0x80, 0x41, 0x00, 0xC1, 0x81, 0x40, 0x00, 0xC1, 0x81, 0x40, 0x01, 0xC0, 0x80, 0x41],
    [0x00, 0xC1, 0x81, 0x40, 0x01, 0xC0, 0x80, 0x41, 0x01, 0xC0, 0x80, 0x41, 0x00, 0xC1, 0x81, 0x40],
    [0x00, 0xC1, 0x81, 0x40, 0x01, 0xC0, 0x80, 0x41, 0x01, 0xC0, 0x80, 0x41, 0x00, 0xC1, 0x81, 0x40],
    [0x01, 0xC0, 0x80, 0x41, 0x00, 0xC1, 0x81, 0x40, 0x00, 0xC1, 0x81, 0x40, 0x01, 0xC0, 0x80, 0x41],
    [0x01, 0xC0, 0x80, 0x41, 0x00, 0xC1, 0x81, 0x40, 0x00, 0xC1, 0x81, 0x40, 0x01, 0xC0, 0x80, 0x41],
    [0x00, 0xC1, 0x81, 0x40, 0x01, 0xC0, 0x80, 0x41, 0x01, 0xC0, 0x80, 0x41, 0x00, 0xC1, 0x81, 0x40],
    [0x00, 0xC1, 0x81, 0x40, 0x01, 0xC0, 0x80, 0x41, 0x01, 0xC0, 0x80, 0x41, 0x00, 0xC1, 0x81, 0x40],
    [0x01, 0xC0, 0x80, 0x41, 0x00, 0xC1, 0x81, 0x40, 0x00, 0xC1, 0x81, 0x40, 0x01, 0xC0, 0x80, 0x41],
    [0x00, 0xC1, 0x81, 0x40, 0x01, 0xC0, 0x80, 0x41, 0x01, 0xC0, 0x80, 0x41, 0x00, 0xC1, 0x81, 0x40],
    [0x01, 0xC0, 0x80, 0x41, 0x00, 0xC1, 0x81, 0x40, 0x00, 0xC1, 0x81, 0x40, 0x01, 0xC0, 0x80, 0x41],
    [0x01, 0xC0, 0x80, 0x41, 0x00, 0xC1, 0x81, 0x40, 0x00, 0xC1, 0x81, 0x40, 0x01, 0xC0, 0x80, 0x41],
    [0x00, 0xC1, 0x81, 0x40, 0x01, 0xC0, 0x80, 0x41, 0x01, 0xC0, 0x80, 0x41, 0x00, 0xC1, 0x81, 0x40]
  ]

  const TABLE_CRC_LO: seq<seq<bv8>> := [
    [0x00, 0xC0, 0xC1, 0x01, 0xC3, 0x03, 0x02, 0xC2, 0xC6, 0x06, 0x07, 0xC7, 0x05, 0xC5, 0xC4, 0x04],
    [0xCC, 0x0C, 0x0D, 0xCD, 0x0F, 0xCF, 0xCE, 0x0E, 0x0A, 0xCA, 0xCB, 0x0B, 0xC9, 0x09, 0x08, 0xC8],
    [0xD8, 0x18, 0x19, 0xD9, 0x1B, 0xDB, 0xDA, 0x1A, 0x1E, 0xDE, 0xDF, 0x1F, 0xDD, 0x1D, 0x1C, 0xDC],
    [0x14, 0xD4, 0xD5, 0x15, 0xD7, 0x17, 0x16, 0xD6, 0xD2, 0x12, 0x13, 0xD3, 0x11, 0xD1, 0xD0, 0x10],
    [0xF0, 0x30, 0x31, 0xF1, 0x33, 0xF3, 0xF2, 0x32, 0x36, 0xF6, 0xF7, 0x37, 0xF5, 0x35, 0x34, 0xF4],
    [0x3C, 0xFC, 0xFD, 0x3D, 0xFF, 0x3F, 0x3E, 0xFE, 0xFA, 0x3A, 0x3B, 0xFB, 0x39, 0xF9, 0xF8, 0x38],
    [0x28, 0xE8, 0xE9, 0x29, 0xEB, 0x2B, 0x2A, 0xEA, 0xEE, 0x2E, 0x2F, 0xEF, 0x2D, 0xED, 0xEC, 0x2C],
    [0xE4, 0x24, 0x25, 0xE5, 0x27, 0xE7, 0xE6, 0x26, 0x22, 0xE2, 0xE3, 0x23, 0xE1, 0x21, 0x20, 0xE0],
    [0xA0, 0x60, 0x61, 0xA1, 0x63, 0xA3, 0xA2, 0x62, 0x66, 0xA6, 0xA7, 0x67, 0xA5, 0x65, 0x64, 0xA4],
    [0x6C, 0xAC, 0xAD, 0x6D, 0xAF, 0x6F, 0x6E, 0xAE, 0xAA, 0x6A, 0x6B, 0xAB, 0x69, 0xA9, 0xA8, 0x68],
    [0x78, 0xB8, 0xB9, 0x79, 0xBB, 0x7B, 0x7A, 0xBA, 0xBE, 0x7E, 0x7F, 0xBF, 0x7D, 0xBD, 0xBC, 0x7C],
    [0xB4, 0x74, 0x75, 0xB5, 0x77, 0xB7, 0xB6, 0x76, 0x72, 0xB2, 0xB3, 0x73, 0xB1, 0x71, 0x70, 0xB0],
    [0x50, 0x90, 0x91, 0x51, 0x93, 0x53, 0x52, 0x92, 0x96, 0x56, 0x57, 0x97, 0x55, 0x95, 0x94, 0x54],
    [0x9C, 0x5C, 0x5D, 0x9D, 0x5F, 0x9F, 0x9E, 0x5E, 0x5A, 0x9A, 0x9B, 0x5B, 0x99, 0x59, 0x58, 0x98],
    [0x88, 0x48, 0x49, 0x89, 0x4B, 0x8B, 0x8A, 0x4A, 0x4E, 0x8E, 0x8F, 0x4F, 0x8D, 0x4D, 0x4C, 0x8C],
    [0x44, 0x84, 0x85, 0x45, 0x87, 0x47, 0x46, 0x86, 0x82, 0x42, 0x43, 0x83, 0x41, 0x81, 0x80, 0x40]
  ]

  predicate Square(table: seq<seq<bv8>>) {
    |table| == 16 && forall i | 0 <= i < 16 :: |table[i]| == 16
  }

  lemma TablesSquare()
    ensures Square(TABLE_CRC_HI) && Square(TABLE_CRC_LO)
  {
  }

  function Lookup(table: seq<seq<bv8>>, i: bv8): bv8
    requires Square(table)
  {
    table[(i >> 4) as int][(i & 15) as int]
  }

  // ----- the bitwise definition -----

  // The halves of the register, and addition modulo 2, as functions of their own.

  function Low(r: bv16): bv16 { r & 0xFF }

  function High(r: bv16): bv16 { r >> 8 }

  function Xor(x: bv16, y: bv16): bv16 { x ^ y }

  function Word(b: bv8): bv16 { b as bv16 }

  predicate OddBit(w: bv16) { w & 1 == 1 }

  function Half(w: bv16): bv16 { w >> 1 }

  /** One shift of the register: the polynomial is added when a 1 falls out. */
  function Shift1(r: bv16): bv16 {
    if r & 1 == 1 then (r >> 1) ^ 0xA001 else r >> 1
  }

  function Shift8(r: bv16): bv16 {
    Shift1(Shift1(Shift1(Shift1(Shift1(Shift1(Shift1(Shift1(r))))))))
  }

  function CrcByte(r: bv16, b: bv8): bv16 {
    Shift8(Xor(r, Word(b)))
  }

  function CrcBytes(r: bv16, s: seq<bv8>): bv16 {
    if s == [] then r else CrcByte(CrcBytes(r, s[..|s| - 1]), s[|s| - 1])
  }

  /** The checksum register after a whole message. */
  function Crc(s: seq<bv8>): bv16 {
    CrcBytes(0xFFFF, s)
  }

  /** The bytes 2 and 7: the checksum goes out as 0x41 0x12. */
  lemma CrcOfTwoBytes()
    ensures Crc([2, 7]) == 0x1241
  {
    assert [2, 7][..1] == [2] && [2][..0] == [];
    assert CrcBytes(0xFFFF, []) == 0xFFFF;
    assert CrcBytes(0xFFFF, [2]) == CrcByte(0xFFFF, 2) == 0x813E;
    assert CrcByte(0x813E, 7) == 0x1241;
  }

  // ----- the tables hold the bitwise values -----

  predicate OddParity(i: bv16) {
    (i ^ (i >> 1) ^ (i >> 2) ^ (i >> 3) ^ (i >> 4) ^ (i >> 5) ^ (i >> 6) ^ (i >> 7)) & 1 == 1
  }

  /** Eight shifts of a single byte, in closed form. */
  function ShiftedByte(i: bv16): bv16 {
    (i << 6) ^ (i << 7) ^ (if OddParity(i) then 0xC001 else 0)
  }

  lemma Shift8Closed(i: bv16)
    requires i < 256
    ensures Shift8(i) == ShiftedByte(i)
  {
  }

  lemma XorHalf(x: bv16, y: bv16)
    ensures (x ^ y) >> 1 == (x >> 1) ^ (y >> 1)
  {
  }

  lemma XorLastBit(x: bv16, y: bv16)
    ensures (x ^ y) & 1 == (x & 1) ^ (y & 1)
  {
  }

  lemma XorRegroup(x: bv16, y: bv16, p: bv16)
    ensures (x ^ p) ^ y == (x ^ y) ^ p && (x ^ p) ^ (y ^ p) == x ^ y && x ^ (y ^ p) == (x ^ y) ^ p
  {
  }

  lemma LastBit(x: bv16)
    ensures x & 1 == 0 || x & 1 == 1
  {
  }

  lemma Shift1Linear(x: bv16, y: bv16)
    ensures Shift1(Xor(x, y)) == Xor(Shift1(x), Shift1(y))
  {
    XorHalf(x, y);
    XorLastBit(x, y);
    LastBit(x);
    LastBit(y);
    XorRegroup(x >> 1, y >> 1, 0xA001);
  }

  lemma Shift8Linear(x: bv16, y: bv16)
    ensures Shift8(Xor(x, y)) == Xor(Shift8(x), Shift8(y))
  {
    var x1, y1 := Shift1(x), Shift1(y);
    var x2, y2 := Shift1(x1), Shift1(y1);
    var x3, y3 := Shift1(x2), Shift1(y2);
    var x4, y4 := Shift1(x3), Shift1(y3);
    var x5, y5 := Shift1(x4), Shift1(y4);
    var x6, y6 := Shift1(x5), Shift1(y5);
    var x7, y7 := Shift1(x6), Shift1(y6);
    Shift1Linear(x, y);
    Shift1Linear(x1, y1);
    Shift1Linear(x2, y2);
    Shift1Linear(x3, y3);
    Shift1Linear(x4, y4);
    Shift1Linear(x5, y5);
    Shift1Linear(x6, y6);
    Shift1Linear(x7, y7);
    hide Shift1, Xor;
  }

  lemma Shift8High(h: bv16)
    requires h & 0xFF == 0
    ensures Shift8(h) == h >> 8
  {
  }

  lemma Halves(r: bv16)
    ensures Xor(r & 0xFF00, Low(r)) == r && (r & 0xFF00) >> 8 == High(r) && (r & 0xFF00) & 0xFF == 0
  {
  }

  /** The high byte of the register just moves down; only the low byte meets the polynomial. */
  lemma Shift8Splits(r: bv16)
    ensures Shift8(r) == Xor(High(r), Shift8(Low(r)))
  {
    Shift8Linear(r & 0xFF00, Low(r));
    Shift8High(r & 0xFF00);
    Halves(r);
    hide Shift8, Low, High;
  }

  /** The table entries for the byte `i` are the two halves of eight shifts of it. */
  ghost predicate TablesHold(i: bv8)
    requires Square(TABLE_CRC_HI) && Square(TABLE_CRC_LO)
  {
    Register(Lookup(TABLE_CRC_HI, i), Lookup(TABLE_CRC_LO, i)) == ShiftedByte(Word(i))
  }

  /** The bytes of one row of sixteen. */
  lemma Sixteen(i: bv8, first: bv8)
    requires i >> 4 == first >> 4 && first & 15 == 0
    ensures i == first | 0 || i == first | 1 || i == first | 2 || i == first | 3 || i == first | 4 || i == first | 5
            || i == first | 6 || i == first | 7 || i == first | 8 || i == first | 9 || i == first | 10
            || i == first | 11 || i == first | 12 || i == first | 13 || i == first | 14 || i == first | 15
  {
  }

  lemma Row0(i: bv8)
    requires Square(TABLE_CRC_HI) && Square(TABLE_CRC_LO) && i >> 4 == 0
    ensures TablesHold(i)
  {
    if i < 8 { Sixteen(i, 0); } else { Sixteen(i, 0); }
  }

  lemma Row1(i: bv8)
    requires Square(TABLE_CRC_HI) && Square(TABLE_CRC_LO) && i >> 4 == 1
    ensures TablesHold(i)
  {
    Sixteen(i, 0x10);
  }

  lemma Row2(i: bv8)
    requires Square(TABLE_CRC_HI) && Square(TABLE_CRC_LO) && i >> 4 == 2
    ensures TablesHold(i)
  {
    Sixteen(i, 0x20);
  }

  lemma Row3(i: bv8)
    requires Square(TABLE_CRC_HI) && Square(TABLE_CRC_LO) && i >> 4 == 3
    ensures TablesHold(i)
  {
    Sixteen(i, 0x30);
  }

  lemma Row4(i: bv8)
    requires Square(TABLE_CRC_HI) && Square(TABLE_CRC_LO) && i >> 4 == 4
    ensures TablesHold(i)
  {
    Sixteen(i, 0x40);
  }

  lemma Row5(i: bv8)
    requires Square(TABLE_CRC_HI) && Square(TABLE_CRC_LO) && i >> 4 == 5
    ensures TablesHold(i)
  {
    Sixteen(i, 0x50);
  }

  lemma Row6(i: bv8)
    requires Square(TABLE_CRC_HI) && Square(TABLE_CRC_LO) && i >> 4 == 6
    ensures TablesHold(i)
  {
    Sixteen(i, 0x60);
  }

  lemma Row7(i: bv8)
    requires Square(TABLE_CRC_HI) && Square(TABLE_CRC_LO) && i >> 4 == 7
    ensures TablesHold(i)
  {
    Sixteen(i, 0x70);
  }

  lemma Row8(i: bv8)
    requires Square(TABLE_CRC_HI) && Square(TABLE_CRC_LO) && i >> 4 == 8
    ensures TablesHold(i)
  {
    Sixteen(i, 0x80);
  }

  lemma Row9(i: bv8)
    requires Square(TABLE_CRC_HI) && Square(TABLE_CRC_LO) && i >> 4 == 9
    ensures TablesHold(i)
  {
    Sixteen(i, 0x90);
  }

  lemma Row10(i: bv8)
    requires Square(TABLE_CRC_HI) && Square(TABLE_CRC_LO) && i >> 4 == 10
    ensures TablesHold(i)
  {
    Sixteen(i, 0xA0);
  }

  lemma Row11(i: bv8)
    requires Square(TABLE_CRC_HI) && Square(TABLE_CRC_LO) && i >> 4 == 11
    ensures TablesHold(i)
  {
    Sixteen(i, 0xB0);
  }

  lemma Row12(i: bv8)
    requires Square(TABLE_CRC_HI) && Square(TABLE_CRC_LO) && i >> 4 == 12
    ensures TablesHold(i)
  {
    Sixteen(i, 0xC0);
  }

  lemma Row13(i: bv8)
    requires Square(TABLE_CRC_HI) && Square(TABLE_CRC_LO) && i >> 4 == 13
    ensures TablesHold(i)
  {
    Sixteen(i, 0xD0);
  }

  lemma Row14(i: bv8)
    requires Square(TABLE_CRC_HI) && Square(TABLE_CRC_LO) && i >> 4 == 14
    ensures TablesHold(i)
  {
    Sixteen(i, 0xE0);
  }

  lemma Row15(i: bv8)
    requires Square(TABLE_CRC_HI) && Square(TABLE_CRC_LO) && i >> 4 == 15
    ensures TablesHold(i)
  {
    Sixteen(i, 0xF0);
  }

  lemma TablesCorrect(i: bv8)
    requires Square(TABLE_CRC_HI) && Square(TABLE_CRC_LO)
    ensures Register(Lookup(TABLE_CRC_HI, i), Lookup(TABLE_CRC_LO, i)) == Shift8(Word(i))
  {
    Shift8Closed(Word(i));
    hide Shift8, ShiftedByte, Register, Lookup, Square, Word;
    var q := i >> 4;
    if q == 0 { Row0(i); } else if q == 1 { Row1(i); } else if q == 2 { Row2(i); } else if q == 3 { Row3(i); }
    else if q == 4 { Row4(i); } else if q == 5 { Row5(i); } else if q == 6 { Row6(i); } else if q == 7 { Row7(i); }
    else if q == 8 { Row8(i); } else if q == 9 { Row9(i); } else if q == 10 { Row10(i); }
    else if q == 11 { Row11(i); } else if q == 12 { Row12(i); } else if q == 13 { Row13(i); }
    else if q == 14 { Row14(i); } else { Row15(i); }
  }

  /** The register as the code keeps it: its low byte in `crcHi`, its high byte in `crcLo`. */
  function Register(crcHi: bv8, crcLo: bv8): bv16 {
    ((crcLo as bv16) << 8) | (crcHi as bv16)
  }

  lemma RegisterHalves(crcHi: bv8, crcLo: bv8, b: bv8)
    ensures Low(Xor(Register(crcHi, crcLo), Word(b))) == Word(crcHi ^ b)
    ensures High(Xor(Register(crcHi, crcLo), Word(b))) == Word(crcLo)
  {
  }

  lemma RegisterXor(hi: bv8, lo: bv8, x: bv8)
    ensures Register(x ^ hi, lo) == Xor(Word(x), Register(hi, lo))
  {
  }

  lemma TableStep(crcHi: bv8, crcLo: bv8, b: bv8, hi: bv8, lo: bv8)
    requires Register(hi, lo) == Shift8(Word(crcHi ^ b))
    ensures Register(crcLo ^ hi, lo) == CrcByte(Register(crcHi, crcLo), b)
  {
    hide Shift8, Register, Xor, Word, Low, High;
    RegisterHalves(crcHi, crcLo, b);
    RegisterXor(hi, lo, crcLo);
    Shift8Splits(Xor(Register(crcHi, crcLo), Word(b)));
  }

  /** `crc16`: the table-driven loop computes the bitwise checksum of every buffer. */
  method Crc16(buffer: seq<bv8>) returns (crcHi: bv8, crcLo: bv8)
    ensures Register(crcHi, crcLo) == Crc(buffer)
  {
    crcHi, crcLo := 0xFF, 0xFF;
    assert Register(crcHi, crcLo) == 0xFFFF;
    TablesSquare();
    hide Shift8, CrcByte, Lookup, Register, Word, Square;
    for n := 0 to |buffer|
      invariant Register(crcHi, crcLo) == Crc(buffer[..n])
    {
      var i := crcHi ^ buffer[n];
      TablesCorrect(i);
      var hi, lo := Lookup(TABLE_CRC_HI, i), Lookup(TABLE_CRC_LO, i);
      TableStep(crcHi, crcLo, buffer[n], hi, lo);
      CrcPrefix(buffer, n);
      crcHi, crcLo := crcLo ^ hi, lo;
    }
    assert buffer[..|buffer|] == buffer;
  }

  lemma CrcPrefix(s: seq<bv8>, n: nat)
    requires n < |s|
    ensures Crc(s[..n + 1]) == CrcByte(Crc(s[..n]), s[n])
  {
    hide CrcByte;
    assert s[..n + 1][..n] == s[..n];
  }

  // ----- acceptance -----

  function LowByte(r: bv16): bv8 { (r & 0xFF) as bv8 }

  function HighByte(r: bv16): bv8 { (r >> 8) as bv8 }

  /** The comparison of `check_integrity`. */
  predicate CrcOk(frame: seq<bv8>)
    requires |frame| >= 2
  {
    var n := |frame| - 2;
    frame[n] == LowByte(Crc(frame[..n])) && frame[n + 1] == HighByte(Crc(frame[..n]))
  }

  lemma TwoBytesCancel(r: bv16, a: bv8, b: bv8)
    ensures CrcByte(CrcByte(r, a), b) == 0 <==> a == LowByte(r) && b == HighByte(r)
  {
    assert Shift8(0) == 0;
    var x := Xor(r, Word(a));
    Shift8Splits(x);
    Shift8Injective(Xor(CrcByte(r, a), Word(b)), 0);
    Shift8OfByte(Low(x));
    hide Shift8;
    Cancel(r, a, b, Shift8(Low(x)));
  }

  /** With `y` the eight shifts of the low byte: zero, or too large for the second byte to cancel. */
  lemma Cancel(r: bv16, a: bv8, b: bv8, y: bv16)
    requires var x := Xor(r, Word(a)); (Low(x) == 0 && y == 0) || (Low(x) != 0 && y >= 0x100)
    ensures Xor(Xor(High(Xor(r, Word(a))), y), Word(b)) == 0 <==> a == LowByte(r) && b == HighByte(r)
  {
    if Low(Xor(r, Word(a))) == 0 {
    } else {
      assert a != LowByte(r);
    }
  }

  /** A non-zero byte leaves a bit in the high half. */
  lemma Shift8OfByte(i: bv16)
    requires i < 256
    ensures Shift8(i) >= 0x100 || i == 0
  {
  }

  lemma Shift8Injective(x: bv16, y: bv16)
    ensures Shift8(x) == Shift8(y) <==> x == y
  {
  }

  /** A frame is accepted exactly when the register over all of it, checksum included, comes to zero. */
  lemma AcceptedIsZeroResidue(frame: seq<bv8>)
    requires |frame| >= 2
    ensures CrcOk(frame) <==> Crc(frame) == 0
  {
    hide CrcByte, LowByte, HighByte;
    var n := |frame| - 2;
    CrcPrefix(frame, n);
    CrcPrefix(frame, n + 1);
    assert frame[..n + 2] == frame;
    TwoBytesCancel(Crc(frame[..n]), frame[n], frame[n + 1]);
  }

  // ----- error detection -----

  /** Bit `k` in transmission order: bytes in turn, the low bit of each first. */
  predicate Bit(s: seq<bv8>, k: nat)
    requires k < 8 * |s|
  {
    OddBit(Halved(Word(s[k / 8]), k % 8))
  }

  function Flip(r: bv16): bv16 { r ^ 1 }

  function Feed(r: bv16, b: bool): bv16 {
    if b then Flip(r) else r
  }

  /** The register takes in one bit. */
  function CrcBit(r: bv16, b: bool): bv16 {
    Shift1(Feed(r, b))
  }

  /** The register after the first `k` bits of `s`. */
  function CrcBits(s: seq<bv8>, k: nat): bv16
    requires k <= 8 * |s|
  {
    if k == 0 then 0xFFFF else CrcBit(CrcBits(s, k - 1), Bit(s, k - 1))
  }

  lemma FeedSplits(r: bv16, w: bv16)
    ensures Xor(Feed(r, OddBit(w)), w & 0xFFFE) == Xor(r, w)
    ensures Shift1(w & 0xFFFE) == Half(w)
  {
  }

  /** Taking in a bit commutes with the bits still to come. */
  lemma OneBitFirst(r: bv16, w: bv16)
    ensures Shift1(Xor(r, w)) == Xor(CrcBit(r, OddBit(w)), Half(w))
  {
    FeedSplits(r, w);
    Shift1Linear(Feed(r, OddBit(w)), w & 0xFFFE);
    hide Shift1, Feed, OddBit, Half, Xor;
  }

  /** `n` bits of `w`, low bit first. */
  function CrcWord(r: bv16, w: bv16, n: nat): bv16
    decreases n
  {
    if n == 0 then r else CrcWord(CrcBit(r, OddBit(w)), Half(w), n - 1)
  }

  /** `n` shifts of the register with `w` added at once, or bit by bit. */
  function Shifts(r: bv16, n: nat): bv16
    decreases n
  {
    if n == 0 then r else Shifts(Shift1(r), n - 1)
  }

  function Halved(w: bv16, n: nat): bv16
    decreases n
  {
    if n == 0 then w else Halved(Half(w), n - 1)
  }

  lemma {:induction false} WordAtOnce(r: bv16, w: bv16, n: nat)
    ensures Shifts(Xor(r, w), n) == Xor(CrcWord(r, w, n), Halved(w, n))
    decreases n
  {
    if n > 0 {
      OneBitFirst(r, w);
      WordAtOnce(CrcBit(r, OddBit(w)), Half(w), n - 1);
      hide Shift1, CrcBit, OddBit, Half, Xor;
    }
  }

  lemma EightHalves(b: bv8)
    ensures Halved(Word(b), 8) == 0
  {
    var w := Word(b);
    assert Half(Half(Half(Half(Half(Half(Half(Half(w)))))))) == 0;
    hide Half;
    var w4 := Half(Half(Half(Half(w))));
    assert Halved(w, 8) == Halved(Half(Half(w)), 6);
    assert Halved(Half(Half(w)), 6) == Halved(w4, 4);
    assert Halved(w4, 4) == Halved(Half(Half(w4)), 2);
  }

  lemma EightShifts(r: bv16)
    ensures Shifts(r, 8) == Shift8(r)
  {
    hide Shift1;
    var r4 := Shift1(Shift1(Shift1(Shift1(r))));
    assert Shifts(r, 8) == Shifts(Shift1(Shift1(r)), 6);
    assert Shifts(Shift1(Shift1(r)), 6) == Shifts(r4, 4);
    assert Shifts(r4, 4) == Shifts(Shift1(Shift1(r4)), 2);
  }

  /** A byte at once is its eight bits one after the other. */
  lemma CrcByteIsEightBits(r: bv16, b: bv8)
    ensures CrcByte(r, b) == CrcWord(r, Word(b), 8)
  {
    WordAtOnce(r, Word(b), 8);
    EightShifts(Xor(r, Word(b)));
    EightHalves(b);
    var x := CrcWord(r, Word(b), 8);
    assert Xor(x, 0) == x;
    hide Shift8, CrcWord, Shifts, Halved, Xor, Word;
  }

  lemma {:induction false} HalveAgain(w: bv16, j: nat)
    ensures Half(Halved(w, j)) == Halved(w, j + 1)
    decreases j
  {
    hide Half;
    if j > 0 { HalveAgain(Half(w), j - 1); }
  }

  lemma NextBit(s: seq<bv8>, n: nat, j: nat)
    requires n < |s| && j < 8
    ensures CrcBits(s, 8 * n + j + 1) == CrcBit(CrcBits(s, 8 * n + j), OddBit(Halved(Word(s[n]), j)))
  {
    hide CrcBit, Word, OddBit, Halved;
    var k := 8 * n + j;
    assert k / 8 == n && k % 8 == j;
  }

  lemma {:induction false} BitsOfByte(s: seq<bv8>, n: nat, j: nat)
    requires n < |s| && j <= 8
    ensures CrcWord(CrcBits(s, 8 * n + j), Halved(Word(s[n]), j), 8 - j) == CrcBits(s, 8 * n + 8)
    decreases 8 - j
  {
    hide CrcBit, Word, OddBit, Half, Bit, CrcBits;
    if j < 8 {
      NextBit(s, n, j);
      HalveAgain(Word(s[n]), j);
      hide Halved;
      BitsOfByte(s, n, j + 1);
    }
  }

  /** Feeding the register bit by bit or byte by byte is the same. */
  lemma {:induction false} BitsAreBytes(s: seq<bv8>, n: nat)
    requires n <= |s|
    ensures CrcBits(s, 8 * n) == Crc(s[..n])
  {
    hide CrcByte, CrcWord, CrcBit, Bit, Word;
    if n > 0 {
      hide CrcBits, Crc;
      BitsAreBytes(s, n - 1);
      CrcPrefix(s, n - 1);
      BitsOfByte(s, n - 1, 0);
      CrcByteIsEightBits(Crc(s[..n - 1]), s[n - 1]);
    }
  }

  lemma FeedXor(x: bv16, y: bv16, a: bool, b: bool)
    ensures Xor(Feed(x, a), Feed(y, b)) == Feed(Xor(x, y), a != b)
  {
    FlipLeft(x, y);
    FlipRight(x, y);
    FlipBoth(x, y);
    hide Xor, Flip;
  }

  lemma FlipLeft(x: bv16, y: bv16)
    ensures Xor(Flip(x), y) == Flip(Xor(x, y))
  {
  }

  lemma FlipRight(x: bv16, y: bv16)
    ensures Xor(x, Flip(y)) == Flip(Xor(x, y))
  {
  }

  lemma FlipBoth(x: bv16, y: bv16)
    ensures Xor(Flip(x), Flip(y)) == Xor(x, y)
  {
  }

  /** Two registers differ after a bit as a register holding their difference would. */
  lemma CrcBitLinear(x: bv16, y: bv16, a: bool, b: bool)
    ensures Xor(CrcBit(x, a), CrcBit(y, b)) == CrcBit(Xor(x, y), a != b)
  {
    FeedXor(x, y, a, b);
    Shift1Linear(Feed(x, a), Feed(y, b));
    hide Shift1, Feed, Xor;
  }

  predicate AtLeast(x: bv16, y: bv16) { x >= y }

  /** A difference loses at most one leading place per bit, whatever the bit. */
  lemma DifferenceShrinks(d: bv16, b: bool, t: bv16)
    requires AtLeast(t, 2) && AtLeast(0x8000, t) && AtLeast(d, t)
    ensures AtLeast(CrcBit(d, b), Half(t))
  {
  }

  lemma DifferenceStarts()
    ensures AtLeast(CrcBit(0, true), 0x8000) && CrcBit(0, false) == 0
  {
  }

  lemma DifferenceStays(d: bv16)
    requires d != 0
    ensures CrcBit(d, false) != 0
  {
  }

  /** `0x8000` moved down `n` places. */
  function Floor(n: nat): bv16 {
    if n == 0 then 0x8000 else Half(Floor(n - 1))
  }

  lemma FloorValues(n: nat)
    requires n < 15
    ensures AtLeast(Floor(n), 2) && AtLeast(0x8000, Floor(n)) && Floor(n + 1) != 0
  {
    if n == 0 {} else if n == 1 {} else if n == 2 {} else if n == 3 {} else if n == 4 {} else if n == 5 {}
    else if n == 6 {} else if n == 7 {} else if n == 8 {} else if n == 9 {} else if n == 10 {}
    else if n == 11 {} else if n == 12 {} else if n == 13 {} else { assert n == 14; }
  }

  /** How the registers differ after `k` bits of two messages. */
  ghost function Difference(f: seq<bv8>, g: seq<bv8>, k: nat): bv16
    requires |f| == |g| && k <= 8 * |f|
  {
    if k == 0 then 0 else CrcBit(Difference(f, g, k - 1), Bit(f, k - 1) != Bit(g, k - 1))
  }

  lemma {:induction false} DifferenceIs(f: seq<bv8>, g: seq<bv8>, k: nat)
    requires |f| == |g| && k <= 8 * |f|
    ensures Xor(CrcBits(f, k), CrcBits(g, k)) == Difference(f, g, k)
  {
    if k > 0 {
      DifferenceIs(f, g, k - 1);
      CrcBitLinear(CrcBits(f, k - 1), CrcBits(g, k - 1), Bit(f, k - 1), Bit(g, k - 1));
      hide CrcBit, Xor, Bit;
    }
  }

  lemma {:induction false} NoDifferenceYet(f: seq<bv8>, g: seq<bv8>, k: nat)
    requires |f| == |g| && k <= 8 * |f| && forall i | 0 <= i < k :: Bit(f, i) == Bit(g, i)
    ensures Difference(f, g, k) == 0
  {
    DifferenceStarts();
    hide CrcBit, Bit;
    if k > 0 { NoDifferenceYet(f, g, k - 1); }
  }

  /** From the first wrong bit at `d` on, the difference lasts through any 15 further bits. */
  lemma {:induction false} Diverged(f: seq<bv8>, g: seq<bv8>, d: nat, n: nat)
    requires |f| == |g| && n <= 15 && d + 1 + n <= 8 * |f|
    requires (forall i | 0 <= i < d :: Bit(f, i) == Bit(g, i)) && Bit(f, d) != Bit(g, d)
    ensures AtLeast(Difference(f, g, d + 1 + n), Floor(n)) && Floor(n) != 0
  {
    hide Bit;
    if n == 0 {
      NoDifferenceYet(f, g, d);
      DifferenceStarts();
    } else {
      Diverged(f, g, d, n - 1);
      FloorValues(n - 1);
      hide CrcBit, AtLeast, Half;
      var k := d + n;
      DifferenceShrinks(Difference(f, g, k), Bit(f, k) != Bit(g, k), Floor(n - 1));
    }
  }

  lemma {:induction false} StaysDifferent(f: seq<bv8>, g: seq<bv8>, from: nat, k: nat)
    requires |f| == |g| && from <= k <= 8 * |f| && Difference(f, g, from) != 0
    requires forall i | from <= i < k :: Bit(f, i) == Bit(g, i)
    ensures Difference(f, g, k) != 0
    decreases k
  {
    hide Bit, CrcBit;
    if from < k {
      StaysDifferent(f, g, from, k - 1);
      DifferenceStays(Difference(f, g, k - 1));
    }
  }

  /** All bits in which the frames differ lie within 16 places from `d`, the first of them. */
  ghost predicate Burst(f: seq<bv8>, g: seq<bv8>, d: nat) {
    |f| == |g| && d < 8 * |f| && Bit(f, d) != Bit(g, d)
    && (forall i | 0 <= i < d :: Bit(f, i) == Bit(g, i))
    && (forall i | d + 16 <= i < 8 * |f| :: Bit(f, i) == Bit(g, i))
  }

  lemma AboveZero(x: bv16, t: bv16)
    requires AtLeast(x, t) && t != 0
    ensures x != 0
  {
  }

  lemma BurstChangesCrc(f: seq<bv8>, g: seq<bv8>, d: nat)
    requires Burst(f, g, d)
    ensures Crc(f) != Crc(g)
  {
    hide Bit, CrcBytes, AtLeast, Floor, CrcBit;
    var end := if d + 16 <= 8 * |f| then d + 16 else 8 * |f|;
    Diverged(f, g, d, end - d - 1);
    DifferenceIs(f, g, 8 * |f|);
    BitsAreBytes(f, |f|);
    BitsAreBytes(g, |g|);
    assert f[..|f|] == f && g[..|g|] == g;
    AboveZero(Difference(f, g, end), Floor(end - d - 1));
    StaysDifferent(f, g, end, 8 * |f|);
    assert Xor(Crc(f), Crc(f)) == 0;
  }

  /** No corruption confined to 16 consecutive bits of an accepted frame is accepted. */
  lemma BurstDetected(f: seq<bv8>, g: seq<bv8>, d: nat)
    requires |f| >= 2 && CrcOk(f) && Burst(f, g, d)
    ensures !CrcOk(g)
  {
    AcceptedIsZeroResidue(f);
    AcceptedIsZeroResidue(g);
    BurstChangesCrc(f, g, d);
    hide CrcBytes, CrcOk;
  }
}
