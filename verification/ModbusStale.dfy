/** When a reply depends on more than the request: bytes behind the frame that the buffer held before. */
module ModbusStale {
  import opened Bytes
  import opened ModbusBits
  import opened ModbusFrame
  import opened ModbusProtocol

  /** A buffer at whose front one whole request of `length` bytes was received. */
  predicate Arrived(req: seq<byte>, length: nat) {
    |req| == MAX_MESSAGE_LENGTH && length <= MAX_MESSAGE_LENGTH && Scan(req[..length], Indication) == Whole(length)
  }

  predicate SameFrame(a: seq<byte>, b: seq<byte>, length: nat) {
    |a| == |b| == MAX_MESSAGE_LENGTH && length <= MAX_MESSAGE_LENGTH && a[..length] == b[..length]
  }

  /** Reply and new tables are the same whatever stands behind the frame. */
  ghost predicate FrameDecides(req: seq<byte>, length: nat, m: Mapping)
    requires Arrived(req, length)
  {
    forall other | SameFrame(req, other, length) :: Reply(other, length, m) == Reply(req, length, m)
  }

  /** The values that the quantity of a multiple write announces lie within the frame. */
  predicate Covered(req: seq<byte>, length: nat)
    requires Arrived(req, length)
  {
    var nb := WordAtIndex(req, 4);
    && (req[1] == WRITE_MULTIPLE_COILS ==> 7 + PackedLength(nb) <= length)
    && (req[1] == WRITE_MULTIPLE_REGISTERS ==> 7 + 2 * nb <= length)
  }

  /** The tests of quantity and range refuse a multiple write. */
  predicate WriteRefused(req: seq<byte>, m: Mapping)
    requires |req| == MAX_MESSAGE_LENGTH
  {
    var address, nb := WordAtIndex(req, 2), WordAtIndex(req, 4);
    || (req[1] == WRITE_MULTIPLE_COILS && (nb < 1 || MAX_WRITE_BITS < nb || address + nb > |m.bits|))
    || (req[1] == WRITE_MULTIPLE_REGISTERS && (nb < 1 || MAX_WRITE_REGISTERS < nb || address + nb > |m.registers|))
  }

  lemma SameByte(a: seq<byte>, b: seq<byte>, length: nat, i: nat)
    requires SameFrame(a, b, length) && i < length
    ensures a[i] == b[i]
  {
    assert a[..length][i] == b[..length][i];
  }

  lemma SameSlice(a: seq<byte>, b: seq<byte>, length: nat, from: nat, to: nat)
    requires SameFrame(a, b, length) && from <= to <= length
    ensures a[from..to] == b[from..to]
  {
    assert a[..length][from..to] == a[from..to] && b[..length][from..to] == b[from..to];
  }

  lemma SameBits(a: seq<byte>, b: seq<byte>, length: nat, nb: nat)
    requires SameFrame(a, b, length) && 7 + PackedLength(nb) <= length
    ensures UnpackBits(a[7..], nb) == UnpackBits(b[7..], nb)
  {
    forall k | 0 <= k < nb ensures UnpackBits(a[7..], nb)[k] == UnpackBits(b[7..], nb)[k] {
      SameByte(a, b, length, 7 + k / 8);
    }
  }

  lemma SameWords(a: seq<byte>, b: seq<byte>, length: nat, from: nat, nb: nat)
    requires SameFrame(a, b, length) && from + 2 * nb <= length
    ensures UnpackWords(a[from..], nb) == UnpackWords(b[from..], nb)
  {
    hide MakeWord;
    forall k | 0 <= k < nb ensures UnpackWords(a[from..], nb)[k] == UnpackWords(b[from..], nb)[k] {
      SameByte(a, b, length, from + 2 * k);
      SameByte(a, b, length, from + 2 * k + 1);
    }
  }

  /** What the stages of the receive loop say about the length of a request. */
  lemma RequestLength(req: seq<byte>, length: nat)
    requires Arrived(req, length)
    ensures var fc := req[1];
            && length == (if fc == WRITE_MULTIPLE_COILS || fc == WRITE_MULTIPLE_REGISTERS then 9 + req[6] as nat
                          else if fc == WRITE_AND_READ_REGISTERS then 13 + req[10] as nat
                          else 4 + MetaLength(fc, Indication))
  {
    assert req[..length][1] == req[1];
  }

  /** The longest request fills 256 bytes, and one that announces a byte more is refused. */
  lemma LongestRequest(line: seq<byte>)
    requires |line| >= 256 && line[1] == WRITE_MULTIPLE_REGISTERS
    ensures line[6] == 247 ==> Scan(line, Indication) == Whole(256)
    ensures line[6] == 248 ==> Scan(line, Indication).TooLong?
  {
  }

  lemma SameHead(a: seq<byte>, b: seq<byte>, length: nat)
    requires SameFrame(a, b, length) && length >= 2
    ensures Basis(a) == Basis(b) && forall code :: Exception(a, code) == Exception(b, code)
  {
    SameByte(a, b, length, 0);
    SameByte(a, b, length, 1);
  }

  lemma SameWordAt(a: seq<byte>, b: seq<byte>, length: nat, i: nat)
    requires SameFrame(a, b, length) && i + 2 <= length
    ensures WordAtIndex(a, i) == WordAtIndex(b, i)
  {
    SameByte(a, b, length, i);
    SameByte(a, b, length, i + 1);
  }

  /** Function 0x17 compares byte count and quantity, so it never looks behind the frame. */
  lemma SameWriteAndRead(req: seq<byte>, length: nat, m: Mapping, other: seq<byte>)
    requires SameFrame(req, other, length) && length == 13 + req[10] as nat
    ensures ServeWriteAndRead(other, m) == ServeWriteAndRead(req, m)
  {
    hide UnpackWords, PackWords, WordAtIndex, Splice, Exception, Basis, InRange;
    SameHead(req, other, length);
    SameWordAt(req, other, length, 2);
    SameWordAt(req, other, length, 4);
    SameWordAt(req, other, length, 6);
    SameWordAt(req, other, length, 8);
    SameByte(req, other, length, 10);
    var nbWrite: nat := WordAtIndex(req, 8);
    if req[10] == 2 * nbWrite { SameWords(req, other, length, 11, nbWrite); }
  }

  lemma SameReply(req: seq<byte>, length: nat, m: Mapping, other: seq<byte>)
    requires Arrived(req, length) && SameFrame(req, other, length)
    requires Covered(req, length) || WriteRefused(req, m)
    ensures Reply(other, length, m) == Reply(req, length, m)
  {
    hide Scan, UnpackBits, UnpackWords, PackBits, PackWords, WordAtIndex, MaskWord, Splice, Exception, Basis,
      PackedLength;
    RequestLength(req, length);
    SameHead(req, other, length);
    SameByte(req, other, length, 0);
    SameByte(req, other, length, 1);
    SameSlice(req, other, length, 0, length - 2);
    assert req[..length - 2] == req[0..length - 2] && other[..length - 2] == other[0..length - 2];
    if length >= 8 {
      SameWordAt(req, other, length, 2);
      SameWordAt(req, other, length, 4);
      SameSlice(req, other, length, 2, 6);
    }
    if length >= 10 { SameWordAt(req, other, length, 6); }
    if req[1] == WRITE_AND_READ_REGISTERS {
      SameWriteAndRead(req, length, m, other);
    } else if !WriteRefused(req, m) {
      var nb := WordAtIndex(req, 4);
      if req[1] == WRITE_MULTIPLE_COILS { SameBits(req, other, length, nb); }
      if req[1] == WRITE_MULTIPLE_REGISTERS { SameWords(req, other, length, 7, nb); }
    }
  }

  // ---------- bytes behind the frame that show ----------

  /** The same buffer with the first byte behind the frame changed. */
  function Disturbed(req: seq<byte>, length: nat): (other: seq<byte>)
    requires |req| == MAX_MESSAGE_LENGTH && length < MAX_MESSAGE_LENGTH
    ensures SameFrame(req, other, length) && other[length] % 2 != req[length] % 2
  {
    var b := req[length];
    req[length := if b % 2 == 0 then b + 1 else b - 1]
  }

  lemma SpliceDiffers<T>(s: seq<T>, at: nat, x: seq<T>, y: seq<T>, k: nat)
    requires |x| == |y| && at + |x| <= |s| && k < |x| && x[k] != y[k]
    ensures Splice(s, at, x) != Splice(s, at, y)
  {
    assert Splice(s, at, x)[at + k] == x[k] && Splice(s, at, y)[at + k] == y[k];
  }

  lemma CoilBehindFrame(req: seq<byte>, length: nat, m: Mapping)
    requires Arrived(req, length) && req[1] == WRITE_MULTIPLE_COILS
    requires !Covered(req, length) && !WriteRefused(req, m)
    ensures Reply(Disturbed(req, length), length, m).mapping != Reply(req, length, m).mapping
  {
    RequestLength(req, length);
    hide Scan;
    var other, nb := Disturbed(req, length), WordAtIndex(req, 4);
    var k := 8 * (length - 7);
    SameByte(req, other, length, 1);
    SameWordAt(req, other, length, 2);
    SameWordAt(req, other, length, 4);
    hide WordAtIndex;
    var x, y := UnpackBits(other[7..], nb), UnpackBits(req[7..], nb);
    assert k / 8 == length - 7 && k % 8 == 0 && k < nb;
    assert x[k] == BitOf(other[length], 0) && y[k] == BitOf(req[length], 0);
    hide UnpackBits, Splice;
    SpliceDiffers(m.bits, WordAtIndex(req, 2), x, y, k);
  }

  lemma RegisterBehindFrame(req: seq<byte>, length: nat, m: Mapping)
    requires Arrived(req, length) && req[1] == WRITE_MULTIPLE_REGISTERS
    requires !Covered(req, length) && !WriteRefused(req, m)
    ensures Reply(Disturbed(req, length), length, m).mapping != Reply(req, length, m).mapping
  {
    RequestLength(req, length);
    hide Scan;
    var other, nb := Disturbed(req, length), WordAtIndex(req, 4);
    var k := (length - 7) / 2;
    SameByte(req, other, length, 1);
    SameWordAt(req, other, length, 2);
    SameWordAt(req, other, length, 4);
    hide WordAtIndex;
    var x, y := UnpackWords(other[7..], nb), UnpackWords(req[7..], nb);
    assert x[k] == MakeWord(other[7 + 2 * k], other[8 + 2 * k]) && y[k] == MakeWord(req[7 + 2 * k], req[8 + 2 * k]);
    hide UnpackWords, Splice;
    SpliceDiffers(m.registers, WordAtIndex(req, 2), x, y, k);
  }

  /**
   * For every function code and request: the reply and the new tables depend on the received
   * frame alone if and only if the frame covers the values of a multiple write, or the tests
   * of quantity and range refuse it.
   */
  lemma FrameDecidesExactly(req: seq<byte>, length: nat, m: Mapping)
    requires Arrived(req, length)
    ensures FrameDecides(req, length, m) <==> Covered(req, length) || WriteRefused(req, m)
  {
    if Covered(req, length) || WriteRefused(req, m) {
      forall other | SameFrame(req, other, length) ensures Reply(other, length, m) == Reply(req, length, m) {
        SameReply(req, length, m, other);
      }
    } else {
      if req[1] == WRITE_MULTIPLE_COILS {
        CoilBehindFrame(req, length, m);
      } else {
        RegisterBehindFrame(req, length, m);
      }
      hide Reply, Covered, WriteRefused, Scan;
      assert SameFrame(req, Disturbed(req, length), length);
    }
  }

  /** A frame of nine bytes that writes two registers: the values are what the buffer held before. */
  lemma ShortWrite(crc0: byte, crc1: byte, m: Mapping)
    requires |m.registers| >= 2
    ensures var frame := [1, WRITE_MULTIPLE_REGISTERS, 0, 0, 0, 2, 0, crc0, crc1];
            var req := frame + seq(MAX_MESSAGE_LENGTH - 9, _ => 0);
            Arrived(req, 9) && !FrameDecides(req, 9, m)
  {
    var frame: seq<byte> := [1, WRITE_MULTIPLE_REGISTERS, 0, 0, 0, 2, 0, crc0, crc1];
    var req := frame + seq(MAX_MESSAGE_LENGTH - 9, _ => 0);
    assert req[..9] == frame;
    assert frame[..7] == [1, WRITE_MULTIPLE_REGISTERS, 0, 0, 0, 2, 0];
    assert Arrived(req, 9);
    assert WordAtIndex(req, 2) == 0 && WordAtIndex(req, 4) == 2;
    FrameDecidesExactly(req, 9, m);
  }
}
