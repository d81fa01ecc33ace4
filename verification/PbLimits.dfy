/** Which received values the field decoders take: the limits of the integer sizes and of the blobs. */
module PbLimits {
  import opened Bytes
  import opened PbVarint
  import opened PbFields
  import opened PbMessage
  import opened PbDecode
  import opened PbRoundTrip

  /**
   * The 64-bit words an integer field of `size` bytes takes. A signed one shorter than 8 bytes looks at the
   * low 32 bits only.
   */
  predicate WordTaken(kind: Kind, size: nat, v: nat)
    requires IntegerSize(size)
  {
    var half := Pow2(8 * size - 1);
    if kind.Varint? then size == 8 || v % 0x1_0000_0000 < half || v % 0x1_0000_0000 >= 0x1_0000_0000 - half
    else v < 2 * half
  }

  lemma HalfRangeIsPow2(size: nat)
    requires IntegerSize(size)
    ensures HalfRange(size) == Pow2(8 * size - 1)
  {
    Pow2Constants();
    assert Pow2(7) == 0x80 && Pow2(15) == 0x8000 && Pow2(31) == 0x8000_0000;
    assert Pow2(63) == TWO63;
  }

  lemma SameRemainder(a: int, k: int, c: int, d: nat)
    requires 0 < d
    ensures (a + k * c * d) % d == a % d
  {
    assert a + k * c * d == d * (a / d + k * c) + a % d;
    DivisionIs(a + k * c * d, a / d + k * c, a % d, d);
  }

  /** The low 32 bits as a signed number agree with the word in all smaller sizes. */
  lemma LowWord(size: nat, v: nat)
    requires IntegerSize(size) && size < 8
    ensures var h, n := HalfRange(size), Signed(v, 0x8000_0000); n % (2 * h) == v % (2 * h)
  {
    var d := 2 * HalfRange(size);
    var c := if size == 1 then 0x100_0000 else if size == 2 then 0x1_0000 else 1;
    var w, q := v % 0x1_0000_0000, v / 0x1_0000_0000;
    assert c * d == 0x1_0000_0000;
    SameRemainder(w, q, c, d);
    SameRemainder(w, -1, c, d);
    assert q * c * d == q * (c * d);
  }

  lemma NarrowZigZagExact(f: Field, v: nat)
    requires f.kind.SVarint? && IntegerSize(f.dataSize) && v < TWO64
    ensures Narrow(f, v).Some? <==> v < 2 * HalfRange(f.dataSize)
    ensures Narrow(f, v).Some? ==> ZigZag(Narrow(f, v).value) == v
  {
    ZigZagBijection(0, v);
  }

  lemma NarrowSignedExact(f: Field, v: nat)
    requires f.kind.Varint? && IntegerSize(f.dataSize) && v < TWO64
    ensures var h: int := HalfRange(f.dataSize);
      && (Narrow(f, v).Some? <==> f.dataSize == 8 || v % TWO32 < h || v % TWO32 >= TWO32 - h)
      && (Narrow(f, v).Some? ==> -h <= Narrow(f, v).value < h && Narrow(f, v).value % (2 * h) == v % (2 * h))
  {
    if f.dataSize == 8 {
      SameRemainder(v, -1, 1, TWO64);
    } else {
      LowWord(f.dataSize, v);
    }
  }

  /** The overflow checks pass exactly those words, and keep their low bits. */
  lemma NarrowExact(f: Field, v: nat)
    requires f.kind.Varint? || f.kind.UVarint? || f.kind.SVarint?
    requires IntegerSize(f.dataSize) && v < TWO64
    ensures Narrow(f, v).Some? <==> WordTaken(f.kind, f.dataSize, v)
    ensures Narrow(f, v).Some? ==> TypedValue(f, Num(Narrow(f, v).value))
    ensures Narrow(f, v).Some? && f.kind.SVarint? ==> ZigZag(Narrow(f, v).value) == v
    ensures Narrow(f, v).Some? && !f.kind.SVarint? ==>
              Narrow(f, v).value % (2 * Pow2(8 * f.dataSize - 1)) == v % (2 * Pow2(8 * f.dataSize - 1))
  {
    hide Pow2;
    HalfRangeIsPow2(f.dataSize);
    if f.kind.SVarint? {
      NarrowZigZagExact(f, v);
    } else if f.kind.Varint? {
      NarrowSignedExact(f, v);
    }
  }

  /** An integer field takes exactly the varints of 64 bits that its size has room for. */
  lemma IntegerTaken(f: Field, v: nat, y: seq<byte>, cur: Value)
    requires f.kind.Varint? || f.kind.UVarint? || f.kind.SVarint?
    requires IntegerSize(f.dataSize) && v < TWO64
    ensures DecodeValue(f, EncodeVarint(v) + y, cur).Ok? <==> WordTaken(f.kind, f.dataSize, v)
    ensures WordTaken(f.kind, f.dataSize, v) ==>
              var r := DecodeValue(f, EncodeVarint(v) + y, cur);
              r.rest == y && TypedValue(f, r.value) && (f.kind.SVarint? ==> ZigZag(r.value.n) == v)
              && (!f.kind.SVarint? ==>
                    r.value.n % (2 * Pow2(8 * f.dataSize - 1)) == v % (2 * Pow2(8 * f.dataSize - 1)))
  {
    hide Narrow, EncodeVarint, Pow2, WordTaken;
    DecodeEncodeVarint(v, y);
    NarrowExact(f, v);
  }

  /** The bodies a bytes, string or fixed-length field has room for. */
  predicate BodyTaken(f: Field, n: nat) {
    match f.kind
    case Bytes => n + 2 <= f.dataSize
    case Str => n + 1 <= f.dataSize
    case _ => n == 0 || n == f.dataSize
  }

  /** A string ends at its first NUL, and no body at all stands for zeros. */
  function Kept(f: Field, body: seq<byte>): seq<byte> {
    match f.kind
    case Bytes => body
    case Str => CString(body)
    case _ => if body == [] then Zeros(f.dataSize) else body
  }

  /** A blob field takes exactly those, and keeps them. */
  lemma BlobTaken(f: Field, body: seq<byte>, y: seq<byte>, cur: Value)
    requires f.kind.Bytes? || f.kind.Str? || f.kind.FixedBytes?
    requires f.dataSize <= 65535 && |body| < TWO32
    ensures DecodeValue(f, WithLength(body) + y, cur).Ok? <==> BodyTaken(f, |body|)
    ensures BodyTaken(f, |body|) ==>
              var r := DecodeValue(f, WithLength(body) + y, cur);
              r.rest == y && r.value == Blob(Kept(f, body)) && TypedValue(f, r.value)
  {
    TakeDelimitedPrefix(body, y);
  }
}
