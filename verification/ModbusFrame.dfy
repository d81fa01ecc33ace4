/** RTU frames: checksums over bytes, and how far a received frame extends. */
module ModbusFrame {
  import opened Bytes
  import opened ModbusBits
  import Crc = ModbusCrc

  const READ_COILS: byte := 0x01
  const READ_DISCRETE_INPUTS: byte := 0x02
  const READ_HOLDING_REGISTERS: byte := 0x03
  const READ_INPUT_REGISTERS: byte := 0x04
  const WRITE_SINGLE_COIL: byte := 0x05
  const WRITE_SINGLE_REGISTER: byte := 0x06
  const READ_EXCEPTION_STATUS: byte := 0x07
  const WRITE_MULTIPLE_COILS: byte := 0x0F
  const WRITE_MULTIPLE_REGISTERS: byte := 0x10
  const REPORT_SLAVE_ID: byte := 0x11
  const MASK_WRITE_REGISTER: byte := 0x16
  const WRITE_AND_READ_REGISTERS: byte := 0x17

  const BROADCAST: byte := 0
  const MAX_ADU: nat := 256

  // ---------- the checksum ----------

  function Bits8(s: seq<byte>): (b: seq<bv8>)
    ensures |b| == |s|
  {
    seq(|s|, i requires 0 <= i < |s| => VectorOf(s[i]))
  }

  function Checksum(pdu: seq<byte>): (c: seq<byte>)
    ensures |c| == 2
  {
    var crc := Crc.Crc(Bits8(pdu));
    [ByteFrom(Crc.LowByte(crc)), ByteFrom(Crc.HighByte(crc))]
  }

  /** What `send_msg` puts on the line for a message. */
  function Framed(pdu: seq<byte>): (frame: seq<byte>)
    ensures |frame| == |pdu| + 2
  {
    pdu + Checksum(pdu)
  }

  predicate CrcGood(frame: seq<byte>)
    requires |frame| >= 2
  {
    frame[|frame| - 2..] == Checksum(frame[..|frame| - 2])
  }

  lemma FramedGood(pdu: seq<byte>)
    ensures CrcGood(Framed(pdu))
  {
    assert Framed(pdu)[..|pdu|] == pdu;
  }

  lemma CrcGoodIsCrcOk(frame: seq<byte>)
    requires |frame| >= 2 && CrcGood(frame)
    ensures Crc.CrcOk(Bits8(frame))
  {
    var n := |frame| - 2;
    assert Bits8(frame)[..n] == Bits8(frame[..n]);
    var c := Crc.Crc(Bits8(frame[..n]));
    assert frame[n..][0] == frame[n] && frame[n..][1] == frame[n + 1];
    VectorOfByteFrom(Crc.LowByte(c));
    VectorOfByteFrom(Crc.HighByte(c));
  }

  /** `check_integrity`: 0 for a frame that is not for this slave, -1 for a bad checksum. */
  function Integrity(slave: byte, frame: seq<byte>): int
    requires |frame| >= 2
  {
    if frame[0] != slave && frame[0] != BROADCAST then 0
    else if CrcGood(frame) then |frame|
    else -1
  }

  /**
   * Damage outside the address byte, confined to 16 consecutive bits of the frame as sent
   * (each byte low bit first), the first of which is `at`.
   */
  ghost predicate Corrupted(frame: seq<byte>, damaged: seq<byte>, at: nat) {
    |frame| >= 2 && Crc.Burst(Bits8(frame), Bits8(damaged), at) && damaged[0] == frame[0]
  }

  /** A damaged frame whose address byte is intact is never taken for a message. */
  lemma CorruptionRejected(slave: byte, frame: seq<byte>, damaged: seq<byte>, at: nat)
    requires Corrupted(frame, damaged, at) && Integrity(slave, frame) == |frame|
    ensures |damaged| == |frame| && Integrity(slave, damaged) == -1
  {
    var f, g := Bits8(frame), Bits8(damaged);
    CrcGoodIsCrcOk(frame);
    Crc.BurstDetected(f, g, at);
    if CrcGood(damaged) { CrcGoodIsCrcOk(damaged); }
  }

  // ---------- the staged receive ----------

  datatype Kind = Indication | Confirmation

  /** `compute_meta_length_after_function`. */
  function MetaLength(fc: byte, kind: Kind): (n: nat)
    ensures n <= 9
  {
    if kind == Indication then
      if fc <= WRITE_SINGLE_REGISTER then 4
      else if fc == WRITE_MULTIPLE_COILS || fc == WRITE_MULTIPLE_REGISTERS then 5
      else if fc == MASK_WRITE_REGISTER then 6
      else if fc == WRITE_AND_READ_REGISTERS then 9
      else 0
    else if fc in {WRITE_SINGLE_COIL, WRITE_SINGLE_REGISTER, WRITE_MULTIPLE_COILS, WRITE_MULTIPLE_REGISTERS} then 4
    else if fc == MASK_WRITE_REGISTER then 6
    else 1
  }

  /** `compute_data_length_after_meta`, from the bytes received so far and no others. */
  function DataLength(got: seq<byte>, kind: Kind): (n: nat)
    requires |got| >= 2 && |got| == 2 + MetaLength(got[1], kind)
    ensures 2 <= n <= 257
  {
    var fc := got[1];
    var data: nat :=
      if kind == Indication then
        if fc == WRITE_MULTIPLE_COILS || fc == WRITE_MULTIPLE_REGISTERS then got[6]
        else if fc == WRITE_AND_READ_REGISTERS then got[10]
        else 0
      else if fc <= READ_INPUT_REGISTERS || fc == REPORT_SLAVE_ID || fc == WRITE_AND_READ_REGISTERS then got[2]
      else 0;
    data + 2
  }

  /** What waits on the line: too few bytes, an announced length over the limit, or a frame. */
  datatype Waiting = Short | TooLong(consumed: nat) | Whole(length: nat)

  function Scan(line: seq<byte>, kind: Kind): (w: Waiting)
    ensures w.Whole? ==> 4 <= w.length <= MAX_ADU && w.length <= |line|
    ensures w.TooLong? ==> w.consumed <= 11 && w.consumed <= |line|
  {
    if |line| < 2 then Short
    else
      var meta := 2 + MetaLength(line[1], kind);
      if |line| < meta then Short
      else
        var end := meta + DataLength(line[..meta], kind);
        if end > MAX_ADU then TooLong(meta) else if |line| < end then Short else Whole(end)
  }

  /** A frame is recognised from its own bytes, whatever follows it on the line. */
  lemma SelfDelimiting(line: seq<byte>, more: seq<byte>, kind: Kind)
    requires !Scan(line, kind).Short?
    ensures Scan(line + more, kind) == Scan(line, kind)
  {
    var meta := 2 + MetaLength(line[1], kind);
    assert (line + more)[..meta] == line[..meta];
  }
}
