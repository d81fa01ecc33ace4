/** Sending and receiving frames over a lossless line, a few bytes at a time. */
module ModbusLine {
  import opened Bytes
  import opened ModbusBits
  import opened ModbusWords
  import opened ModbusFrame
  import opened ModbusProtocol
  import Crc = ModbusCrc

  /** Nothing was written from `n` on. */
  ghost predicate Untouched(before: seq<byte>, after: seq<byte>, n: nat) {
    n <= |before| == |after| && after[n..] == before[n..]
  }

  lemma UntouchedFurther(a: seq<byte>, b: seq<byte>, c: seq<byte>, n: nat, m: nat)
    requires Untouched(a, b, n) && Untouched(b, c, m) && n <= m
    ensures Untouched(a, c, m)
  {
    assert a[m..] == a[n..][m - n..] && b[m..] == b[n..][m - n..];
  }

  /** One direction of the serial line: bytes sent and not yet received. */
  class Line {
    var pending: seq<byte>

    constructor ()
      ensures pending == []
    {
      pending := [];
    }

    /** `modbus_rtu_port_recv`: between 1 and `n` of the waiting bytes, 0 when none wait. */
    method Recv(msg: array<byte>, at: nat, n: nat) returns (rc: nat)
      requires at + n <= msg.Length && n > 0
      modifies this, msg
      ensures rc <= n && rc <= |old(pending)| && (rc == 0 <==> old(pending) == [])
      ensures pending == old(pending)[rc..]
      ensures msg[..at + rc] == old(msg[..at]) + old(pending)[..rc] && Untouched(old(msg[..]), msg[..], at + rc)
    {
      if pending == [] { return 0; }
      var some: nat :| 1 <= some <= n && some <= |pending|;
      rc := some;
      for i := 0 to rc
        invariant pending == old(pending) && i <= |pending|
        invariant msg[..at + i] == old(msg[..at]) + pending[..i]
        invariant Untouched(old(msg[..]), msg[..], at + i)
      {
        msg[at + i] := pending[i];
      }
      pending := pending[rc..];
    }
  }

  lemma Halves(crcHi: bv8, crcLo: bv8)
    ensures Crc.LowByte(Crc.Register(crcHi, crcLo)) == crcHi && Crc.HighByte(Crc.Register(crcHi, crcLo)) == crcLo
  {
  }

  /** The checksum of a message, in the order in which it is sent. */
  method ChecksumOf(pdu: seq<byte>) returns (first: byte, second: byte)
    ensures [first, second] == Checksum(pdu)
  {
    hide ByteFrom, Bits8;
    var crcHi, crcLo := Crc.Crc16(Bits8(pdu));
    Halves(crcHi, crcLo);
    ByteIsCast(crcHi);
    ByteIsCast(crcLo);
    first, second := crcHi as int, crcLo as int;
  }

  /** `_modbus_rtu_send_msg_pre` and `_modbus_rtu_send`: completes the message and puts it on the line. */
  method SendMsg(line: Line, msg: array<byte>, length: nat) returns (sent: nat)
    requires length + 2 <= msg.Length
    modifies line, msg
    ensures sent == length + 2 && msg[..length] == old(msg[..length]) && msg[..sent] == Framed(old(msg[..length]))
    ensures line.pending == old(line.pending) + Framed(old(msg[..length]))
  {
    hide Checksum;
    ghost var pdu := msg[..length];
    var first, second := ChecksumOf(msg[..length]);
    msg[length], msg[length + 1] := first, second;
    sent := length + 2;
    assert msg[..sent] == pdu + [first, second];
    line.pending := line.pending + msg[..sent];
  }

  /** `_modbus_rtu_check_integrity`. */
  method CheckIntegrity(slave: byte, msg: array<byte>, length: nat) returns (rc: int)
    requires 2 <= length <= msg.Length
    ensures rc == Integrity(slave, msg[..length])
  {
    hide Checksum;
    ghost var frame := msg[..length];
    if msg[0] != slave && msg[0] != BROADCAST { return 0; }
    var first, second := ChecksumOf(msg[..length - 2]);
    assert frame[..length - 2] == msg[..length - 2];
    assert frame[length - 2..] == [msg[length - 2], msg[length - 1]];
    rc := if msg[length - 2] == first && msg[length - 1] == second then length else -1;
  }

  datatype Step = StepFunction | StepMeta | StepData

  /** Where each stage of the receive loop ends, from the bytes received before it. */
  ghost predicate Staged(step: Step, got: seq<byte>, end: nat, kind: Kind) {
    |got| <= end <= MAX_ADU &&
    match step
    case StepFunction => end == 2
    case StepMeta => |got| >= 2 && |got| < end && end == 2 + MetaLength(got[1], kind)
    case StepData =>
      |got| >= 2 &&
      var meta := 2 + MetaLength(got[1], kind);
      |got| >= meta && end == meta + DataLength(got[..meta], kind)
  }

  /** A stage all of whose bytes have come in. */
  ghost predicate Finished(step: Step, got: seq<byte>, kind: Kind) {
    |got| >= 2 &&
    match step
    case StepFunction => |got| == 2
    case StepMeta => |got| == 2 + MetaLength(got[1], kind)
    case StepData => Staged(step, got, |got|, kind)
  }

  lemma StagedGrows(step: Step, got: seq<byte>, more: seq<byte>, end: nat, kind: Kind)
    requires Staged(step, got, end, kind) && |got + more| <= end
    ensures if |got + more| == end then Finished(step, got + more, kind) else Staged(step, got + more, end, kind)
  {
    if step == StepData {
      var meta := 2 + MetaLength(got[1], kind);
      assert (got + more)[..meta] == got[..meta];
    }
  }

  /** The result of receiving from a line that holds `waiting`. */
  ghost predicate Received(waiting: seq<byte>, kind: Kind, slave: byte, rc: int, got: seq<byte>, left: seq<byte>) {
    match Scan(waiting, kind)
    case Short => rc == -1 && left == []
    case TooLong(consumed) => rc == -1 && left == waiting[consumed..]
    case Whole(length) => got[..Least(length, |got|)] == waiting[..length] && left == waiting[length..]
                          && rc == Integrity(slave, waiting[..length])
  }

  lemma LineRunsDry(step: Step, got: seq<byte>, end: nat, kind: Kind)
    requires Staged(step, got, end, kind) && |got| < end
    ensures Scan(got, kind) == Short
  {
  }

  lemma FunctionRead(got: seq<byte>, kind: Kind)
    requires Finished(StepFunction, got, kind)
    ensures MetaLength(got[1], kind) != 0 ==> Staged(StepMeta, got, 2 + MetaLength(got[1], kind), kind)
  {
  }

  lemma MetaRead(step: Step, got: seq<byte>, kind: Kind)
    requires Finished(step, got, kind) && (step == StepFunction ==> MetaLength(got[1], kind) == 0) && step != StepData
    ensures |got| == 2 + MetaLength(got[1], kind)
    ensures |got| + DataLength(got, kind) <= MAX_ADU ==> Staged(StepData, got, |got| + DataLength(got, kind), kind)
  {
    assert got[..|got|] == got;
  }

  ghost predicate Oversized(got: seq<byte>, kind: Kind) {
    |got| >= 2 && |got| == 2 + MetaLength(got[1], kind) && |got| + DataLength(got, kind) > MAX_ADU
  }

  lemma TooLongRead(got: seq<byte>, left: seq<byte>, kind: Kind, slave: byte, msg: seq<byte>)
    requires Oversized(got, kind)
    ensures Received(got + left, kind, slave, -1, msg, left) && Scan(got + left, kind) == Scan(got, kind)
  {
    var waiting := got + left;
    assert waiting[..|got|] == got && waiting[|got|..] == left && got[..|got|] == got;
  }

  lemma FrameRead(got: seq<byte>, left: seq<byte>, kind: Kind, slave: byte, msg: seq<byte>)
    requires Staged(StepData, got, |got|, kind) && |got| <= |msg| && msg[..|got|] == got
    ensures |got| >= 2 && Received(got + left, kind, slave, Integrity(slave, got), msg, left)
    ensures Scan(got + left, kind) == Scan(got, kind)
  {
    hide Integrity;
    assert Scan(got, kind) == Whole(|got|);
    SelfDelimiting(got, left, kind);
    assert (got + left)[..|got|] == got && (got + left)[|got|..] == left;
  }

  function Rank(step: Step): nat {
    match step case StepFunction => 2 case StepMeta => 1 case StepData => 0
  }

  /** The `switch` at the end of a stage: which stage is next and how many bytes it takes. */
  method NextStage(msg: array<byte>, msgLength: nat, step: Step, kind: Kind)
    returns (next: Step, lengthToRead: nat, tooLong: bool)
    requires msgLength <= msg.Length && Finished(step, msg[..msgLength], kind)
    ensures tooLong ==> Oversized(msg[..msgLength], kind)
    ensures !tooLong ==> Staged(next, msg[..msgLength], msgLength + lengthToRead, kind)
    ensures !tooLong ==> msgLength + lengthToRead <= MAX_ADU
    ensures !tooLong ==> if lengthToRead == 0 then next == StepData else Rank(next) < Rank(step)
  {
    ghost var got := msg[..msgLength];
    hide Staged;
    next, lengthToRead, tooLong := step, 0, false;
    if step == StepFunction {
      FunctionRead(got, kind);
      lengthToRead := MetaLength(msg[1], kind);
      if lengthToRead != 0 {
        next := StepMeta;
        return;
      }
    }
    if step != StepData {
      MetaRead(step, got, kind);
      lengthToRead := DataLength(msg[..msgLength], kind);
      if msgLength + lengthToRead > MAX_ADU {
        tooLong := true;
        return;
      }
      next := StepData;
    }
  }

  lemma Moved(got: seq<byte>, left: seq<byte>, n: nat)
    requires n <= |left|
    ensures got + left == (got + left[..n]) + left[n..]
  {
  }

  lemma StartOfFrame(kind: Kind)
    ensures Staged(StepFunction, [], 2, kind)
  {
  }

  /** `got` has moved from the line to the front of the buffer, and nothing is written behind it. */
  ghost predicate Taken(waiting: seq<byte>, before: seq<byte>, got: seq<byte>, left: seq<byte>, msg: seq<byte>) {
    waiting == got + left && |got| <= |msg| && msg[..|got|] == got && Untouched(before, msg, |got|)
  }

  lemma NothingTaken(waiting: seq<byte>, msg: seq<byte>)
    ensures Taken(waiting, msg, [], waiting, msg)
  {
  }

  lemma TakenFurther(waiting: seq<byte>, before: seq<byte>, got: seq<byte>, left: seq<byte>, now: seq<byte>,
                     msg: seq<byte>, n: nat)
    requires Taken(waiting, before, got, left, now) && n <= |left| && |got| + n <= |msg| == |now|
    requires msg[..|got| + n] == now[..|got|] + left[..n] && Untouched(now, msg, |got| + n)
    ensures Taken(waiting, before, got + left[..n], left[n..], msg)
  {
    Moved(got, left, n);
    UntouchedFurther(before, now, msg, |got|, |got| + n);
  }

  lemma TakenIs(waiting: seq<byte>, before: seq<byte>, got: seq<byte>, left: seq<byte>, msg: seq<byte>)
    requires Taken(waiting, before, got, left, msg)
    ensures waiting == got + left && |got| <= |msg| && msg[..|got|] == got && Untouched(before, msg, |got|)
  {
  }

  /** One receive: what came in is appended to what is held. */
  method TakeSome(line: Line, msg: array<byte>, msgLength: nat, lengthToRead: nat, ghost waiting: seq<byte>,
                  ghost before: seq<byte>, ghost held: seq<byte>)
    returns (n: nat, ghost more: seq<byte>)
    requires msgLength + lengthToRead <= msg.Length && lengthToRead > 0
    requires |held| == msgLength && Taken(waiting, before, held, line.pending, msg[..])
    modifies line, msg
    ensures |more| == n <= lengthToRead && Taken(waiting, before, held + more, line.pending, msg[..])
    ensures held + more == msg[..msgLength + n]
    ensures n == 0 ==> line.pending == []
  {
    ghost var left, now := line.pending, msg[..];
    assert now[..msgLength] == held;
    n := line.Recv(msg, msgLength, lengthToRead);
    more := left[..n];
    TakenFurther(waiting, before, held, left, now, msg[..], n);
  }

  /** How the receive loop ends. */
  datatype End = Complete | Overlong | Dry

  /** The loop of `_modbus_receive_msg` over the three stages of a message. */
  method ReceiveStages(line: Line, msg: array<byte>, kind: Kind)
    returns (end: End, msgLength: nat, ghost held: seq<byte>)
    requires msg.Length == MAX_MESSAGE_LENGTH
    modifies line, msg
    ensures |held| == msgLength <= MAX_ADU
    ensures Taken(old(line.pending), old(msg[..]), held, line.pending, msg[..])
    ensures match end
            case Complete => Staged(StepData, held, msgLength, kind)
            case Overlong => Oversized(held, kind)
            case Dry => Scan(held, kind) == Short && line.pending == []
  {
    hide Received, Finished, Oversized, Staged, Scan, Untouched, Taken;
    ghost var waiting, before := line.pending, msg[..];
    held := [];
    msgLength := 0;
    var lengthToRead: nat, step := 2, StepFunction;
    NothingTaken(waiting, before);
    assert held == msg[..msgLength];
    StartOfFrame(kind);
    while lengthToRead != 0
      invariant |held| == msgLength && msgLength + lengthToRead <= MAX_ADU && held == msg[..msgLength]
      invariant Taken(waiting, before, held, line.pending, msg[..])
      invariant Staged(step, held, msgLength + lengthToRead, kind)
      invariant lengthToRead == 0 ==> step == StepData
      decreases Rank(step), lengthToRead
    {
      var n;
      ghost var more;
      n, more := TakeSome(line, msg, msgLength, lengthToRead, waiting, before, held);
      if n == 0 {
        assert held + more == held;
        LineRunsDry(step, held, msgLength + lengthToRead, kind);
        end := Dry;
        return;
      }
      StagedGrows(step, held, more, msgLength + lengthToRead, kind);
      held := held + more;
      msgLength := msgLength + n;
      lengthToRead := lengthToRead - n;
      if lengthToRead == 0 {
        var tooLong;
        step, lengthToRead, tooLong := NextStage(msg, msgLength, step, kind);
        if tooLong {
          end := Overlong;
          return;
        }
      }
    }
    end := Complete;
  }

  /**
   * `_modbus_receive_msg`: however the line hands out its bytes, the loop ends and takes exactly
   * the frame in front. The bytes it took, `held`, are never more than 256, nothing is written
   * behind them, and they alone decide how far the message extends.
   */
  method ReceiveMsg(line: Line, slave: byte, msg: array<byte>, kind: Kind) returns (rc: int, ghost held: seq<byte>)
    requires msg.Length == MAX_MESSAGE_LENGTH
    modifies line, msg
    ensures Received(old(line.pending), kind, slave, rc, msg[..], line.pending)
    ensures |held| <= 256 && old(line.pending) == held + line.pending
    ensures msg[..|held|] == held && Untouched(old(msg[..]), msg[..], |held|)
    ensures Scan(held, kind) == Scan(old(line.pending), kind)
  {
    hide Finished, Oversized, Integrity, Staged, Scan, Untouched, Taken;
    ghost var waiting, before := line.pending, msg[..];
    var end, msgLength;
    end, msgLength, held := ReceiveStages(line, msg, kind);
    TakenIs(waiting, before, held, line.pending, msg[..]);
    rc := -1;
    match end
    case Dry => assert held + [] == held;
    case Overlong => TooLongRead(held, line.pending, kind, slave, msg[..]);
    case Complete =>
      FrameRead(held, line.pending, kind, slave, msg[..]);
      rc := CheckIntegrity(slave, msg, msgLength);
  }
}
