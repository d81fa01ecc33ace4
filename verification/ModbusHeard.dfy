/** What a client makes of any response whatever: when it takes one for its answer, and what it reads there. */
module ModbusHeard {
  import opened Bytes
  import opened ModbusBits
  import opened ModbusProtocol
  import opened ModbusServed

  /** The bytes that coils or registers of an operation take in its answer. */
  function Payload(op: Op): nat {
    match op
    case ReadBits(_, nb) => (nb + 7) / 8
    case ReadInputBits(_, nb) => (nb + 7) / 8
    case ReadRegisters(_, nb) => 2 * nb
    case ReadInputRegisters(_, nb) => 2 * nb
    case WriteAndRead(_, _, _, nb) => 2 * nb
    case _ => 0
  }

  /** The length a response to the operation must have; an identity may have any. */
  predicate RightLength(op: Op, length: nat) {
    match op
    case WriteBit(_, _) => length == 8
    case WriteRegister(_, _) => length == 8
    case WriteBits(_, _) => length == 8
    case WriteRegisters(_, _) => length == 8
    case MaskWriteRegister(_, _, _) => length == 10
    case ReportSlaveId(_) => true
    case _ => length == 5 + Payload(op)
  }

  /**
   * The count in the response is the one asked for: bytes of coils, registers (an odd byte is ignored), or
   * the quantity of a multiple write. Nothing else of a write's echo is looked at.
   */
  predicate RightCount(op: Op, rsp: seq<byte>)
    requires |rsp| == 260
  {
    match op
    case ReadBits(_, nb) => rsp[2] == Payload(op)
    case ReadInputBits(_, nb) => rsp[2] == Payload(op)
    case ReadRegisters(_, nb) => rsp[2] == 2 * nb || rsp[2] == 2 * nb + 1
    case ReadInputRegisters(_, nb) => rsp[2] == 2 * nb || rsp[2] == 2 * nb + 1
    case WriteAndRead(_, _, _, nb) => rsp[2] == 2 * nb || rsp[2] == 2 * nb + 1
    case WriteBits(_, bits) => Number(rsp, 4) == |bits|
    case WriteRegisters(_, words) => Number(rsp, 4) == |words|
    case _ => true
  }

  /** The outcome of an accepted response. */
  function Read(op: Op, rsp: seq<byte>): Outcome
    requires Refused(op).None? && |rsp| == 260
  {
    match op
    case ReadBits(_, nb) => GotBits(Coils(rsp, 3, nb))
    case ReadInputBits(_, nb) => GotBits(Coils(rsp, 3, nb))
    case ReadRegisters(_, nb) => GotWords(Registers(rsp, 3, nb))
    case ReadInputRegisters(_, nb) => GotWords(Registers(rsp, 3, nb))
    case WriteAndRead(_, _, _, nb) => GotWords(Registers(rsp, 3, nb))
    case WriteBits(_, bits) => Written(|bits|)
    case WriteRegisters(_, words) => Written(|words|)
    case ReportSlaveId(most) => Identity(rsp[2], rsp[3..3 + Least(rsp[2], most)])
    case _ => Written(1)
  }

  /** The outcome of any response: the wrong slave, an exception, bad data, or what was asked for. */
  function Heard(slave: byte, op: Op, rsp: seq<byte>, length: nat): Outcome
    requires Refused(op).None? && |rsp| == 260
  {
    if slave != 0 && rsp[0] != slave then Failed(112345678 + 17)
    else if rsp[1] == Function(op) then
      if RightLength(op, length) && RightCount(op, rsp) then Read(op, rsp) else Failed(112345678 + 13)
    else if rsp[1] < 128 then Failed(112345678 + 13)
    else if rsp[1] == Function(op) as int + 128 && length == 5 && rsp[2] < 12
    then Failed(112345678 + (rsp[2] as int))
    else Failed(112345678 + 14)
  }

  /** The second word of a request is the quantity asked for. */
  predicate Asks(req: seq<byte>, quantity: nat) {
    |req| >= 6 && WordAtIndex(req, 4) == quantity
  }

  predicate AsksFor(op: Op, req: seq<byte>) {
    match op
    case ReadBits(_, nb) => Asks(req, nb)
    case ReadInputBits(_, nb) => Asks(req, nb)
    case ReadRegisters(_, nb) => Asks(req, nb)
    case ReadInputRegisters(_, nb) => Asks(req, nb)
    case WriteBits(_, bits) => Asks(req, |bits|)
    case WriteRegisters(_, words) => Asks(req, |words|)
    case WriteAndRead(_, _, _, nb) => Asks(req, nb)
    case _ => true
  }

  lemma RequestCounts(slave: byte, op: Op)
    requires Refused(op).None?
    ensures var req := Request(slave, op); req[0] == slave && req[1] == Function(op) < 128 && AsksFor(op, req)
  {
    hide PackBits, PackWords;
  }

  /** The count that the check hands on. */
  function Count(op: Op, rsp: seq<byte>): nat
    requires |rsp| == 260
  {
    match op
    case ReadBits(_, _) => rsp[2]
    case ReadInputBits(_, _) => rsp[2]
    case ReadRegisters(_, nb) => nb
    case ReadInputRegisters(_, nb) => nb
    case WriteAndRead(_, _, _, nb) => nb
    case WriteBits(_, bits) => |bits|
    case WriteRegisters(_, words) => |words|
    case ReportSlaveId(_) => rsp[2]
    case _ => 1
  }

  lemma LengthAsComputed(slave: byte, op: Op, length: nat)
    requires Refused(op).None?
    ensures var computed := ResponseLength(Request(slave, op));
            RightLength(op, length) <==> computed.None? || computed.value == length
  {
    hide Request, WordAtIndex;
    RequestCounts(slave, op);
  }

  /** A response of the right slave and function. */
  lemma SameFunctionChecked(slave: byte, op: Op, rsp: seq<byte>, length: nat)
    requires Refused(op).None? && |rsp| == 260 && (slave == 0 || rsp[0] == slave) && rsp[1] == Function(op)
    ensures Confirm(Request(slave, op), rsp, length)
         == if RightLength(op, length) && RightCount(op, rsp) then Accepted(Count(op, rsp))
            else Rejected(112345678 + 13)
  {
    hide Request, WordAtIndex, RightLength, ResponseLength;
    RequestCounts(slave, op);
    LengthAsComputed(slave, op, length);
    NumberAt(rsp, 4);
  }

  /** Any other response. */
  lemma OtherRejected(slave: byte, op: Op, rsp: seq<byte>, length: nat)
    requires Refused(op).None? && |rsp| == 260 && ((slave != 0 && rsp[0] != slave) || rsp[1] != Function(op))
    ensures Heard(slave, op, rsp, length).Failed?
    ensures Confirm(Request(slave, op), rsp, length) == Rejected(Heard(slave, op, rsp, length).errno)
  {
    hide Request, RightLength, RightCount, ResponseLength, Read, Function;
    RequestCounts(slave, op);
  }

  /**
   * For every operation and every response whatever: the client's checks and its reading of the response
   * come to this outcome.
   */
  lemma HeardAsConcluded(slave: byte, op: Op, rsp: seq<byte>, length: nat)
    requires Refused(op).None? && |rsp| == 260
    ensures Conclude(slave, op, rsp, length) == Heard(slave, op, rsp, length)
  {
    hide Request, Confirm, Coils, Registers, UnpackBits, UnpackWords, RightLength, RightCount, Function;
    if (slave == 0 || rsp[0] == slave) && rsp[1] == Function(op) {
      SameFunctionChecked(slave, op, rsp, length);
      match op
      case ReadBits(_, nb) => CoilsAreUnpacked(rsp, 3, nb);
      case ReadInputBits(_, nb) => CoilsAreUnpacked(rsp, 3, nb);
      case ReadRegisters(_, nb) => RegistersAreUnpacked(rsp, 3, nb);
      case ReadInputRegisters(_, nb) => RegistersAreUnpacked(rsp, 3, nb);
      case WriteAndRead(_, _, _, nb) => RegistersAreUnpacked(rsp, 3, nb);
      case _ =>
    } else {
      OtherRejected(slave, op, rsp, length);
    }
  }

  /** What an accepted response contains, and that these responses are accepted. */
  lemma AcceptedExactly(slave: byte, op: Op, rsp: seq<byte>, length: nat)
    requires Refused(op).None? && |rsp| == 260 && slave != 0
    ensures !Conclude(slave, op, rsp, length).Failed?
            <==> rsp[0] == slave && rsp[1] == Function(op) && RightLength(op, length) && RightCount(op, rsp)
  {
    hide Conclude, Function, RightLength, RightCount;
    HeardAsConcluded(slave, op, rsp, length);
  }

  /** An answer to the write of another register, with another value, is taken for this one's. */
  lemma EchoNotCompared(op: Op, rsp: seq<byte>)
    requires op.WriteRegister? && |rsp| == 260 && rsp[0] == 1 && rsp[1] == 6
    ensures Conclude(1, op, rsp, 8) == Written(1)
  {
    hide Conclude;
    HeardAsConcluded(1, op, rsp, 8);
  }

  /** One register asked for, and an answer that counts three bytes: it is taken. */
  lemma OddCountTaken(addr: word, rsp: seq<byte>)
    requires |rsp| == 260 && rsp[0] == 1 && rsp[1] == 3 && rsp[2] == 3
    ensures Conclude(1, ReadRegisters(addr, 1), rsp, 7) == GotWords([Number(rsp, 3)])
  {
    hide Conclude, Number;
    HeardAsConcluded(1, ReadRegisters(addr, 1), rsp, 7);
  }
}
