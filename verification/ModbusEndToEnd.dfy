/** Requests and replies over the line amount to the operation applied to the tables. */
module ModbusEndToEnd {
  import opened Bytes
  import opened ModbusBits
  import opened ModbusFrame
  import opened ModbusProtocol

  /** A message buffer whose first bytes are the frame. */
  ghost predicate Holds(buffer: seq<byte>, frame: seq<byte>) {
    |buffer| == MAX_MESSAGE_LENGTH && |frame| <= MAX_MESSAGE_LENGTH && buffer[..|frame|] == frame
  }

  lemma Behind(buffer: seq<byte>, head: seq<byte>, payload: seq<byte>, crc: seq<byte>)
    requires Holds(buffer, head + payload + crc)
    ensures |head| <= |buffer| && buffer[..|head|] == head
    ensures buffer[|head|..] == payload + buffer[|head| + |payload|..]
  {
    var n := |head + payload + crc|;
    assert buffer == buffer[..n] + buffer[n..];
    assert buffer == head + payload + crc + buffer[n..];
  }

  lemma HighLow(w: word)
    ensures MakeWord(High(w), Low(w)) == w
  {
  }

  // ---------- frames delimit themselves ----------

  /** Where a request counts the bytes that follow, and how many they are. */
  lemma BodyLength(op: Op)
    requires Refused(op).None?
    ensures var b := Body(op);
            |b| == MetaLength(Function(op), Indication)
                   + (if op.WriteBits? || op.WriteRegisters? then b[4] else if op.WriteAndRead? then b[8] else 0)
  {
    hide PackBits, PackWords, High, Low;
  }

  /** A request whose length is the announced one. */
  lemma WholeFrame(frame: seq<byte>)
    requires 4 <= |frame| <= MAX_ADU && 2 + MetaLength(frame[1], Indication) <= |frame|
    requires var fc := frame[1];
             |frame| == 4 + MetaLength(fc, Indication)
                        + (if fc == WRITE_MULTIPLE_COILS || fc == WRITE_MULTIPLE_REGISTERS then frame[6]
                           else if fc == WRITE_AND_READ_REGISTERS then frame[10] else 0)
    ensures Scan(frame, Indication) == Whole(|frame|)
  {
  }

  /** Every request the client builds is received as exactly one frame. */
  lemma RequestDelimited(slave: byte, op: Op)
    requires Refused(op).None?
    ensures var frame := Framed(Request(slave, op)); Scan(frame, Indication) == Whole(|frame|)
  {
    var pdu, crc := Request(slave, op), Checksum(Request(slave, op));
    BodyLength(op);
    hide Checksum, Body;
    var frame := pdu + crc;
    assert frame[1] == Function(op);
    assert op.WriteBits? || op.WriteRegisters? ==> frame[6] == Body(op)[4];
    assert op.WriteAndRead? ==> frame[10] == Body(op)[8];
    WholeFrame(frame);
  }

  /** Function codes of a request for which the answer "illegal function" looks like another reply. */
  predicate Misleading(fc: byte) {
    fc >= 0x80 && (fc - 0x80 in {0, 1, 2, 3, 4, 5, 6, 15, 16, 17, 22, 23})
  }

  predicate ExceptionHead(fc: byte, rsp: seq<byte>) {
    |rsp| == 3 && rsp[1] == (fc as int + 0x80) % 256 && rsp[2] in {1, 2, 3} && (fc >= 0x80 ==> rsp[2] == 1)
  }

  predicate AnswerHead(fc: byte, rsp: seq<byte>) {
    3 <= |rsp| <= 254 && rsp[1] == fc &&
    if fc in {1, 2, 3, 4, 17, 23} then |rsp| == 3 + rsp[2] as int
    else if fc in {5, 6, 15, 16} then |rsp| == 6
    else fc == 22 && |rsp| == 8
  }

  /** Function code, byte count and length of every reply. */
  lemma ReplyHead(req: seq<byte>, length: nat, m: Mapping)
    requires |req| == MAX_MESSAGE_LENGTH && Scan(req[..Least(length, MAX_MESSAGE_LENGTH)], Indication) == Whole(length)
    requires Reply(req, length, m).response.Some?
    ensures var rsp := Reply(req, length, m).response.value;
            ExceptionHead(req[1], rsp) || AnswerHead(req[1], rsp)
  {
    hide PackBits, PackWords, UnpackBits, UnpackWords, MaskWord;
    var got := req[..Least(length, MAX_MESSAGE_LENGTH)];
    assert got[1] == req[1];
  }

  lemma ExceptionDelimited(fc: byte, rsp: seq<byte>, crc: seq<byte>)
    requires ExceptionHead(fc, rsp) && |crc| == 2
    ensures Scan(rsp + crc, Confirmation) == Whole(5) <==> !Misleading(fc)
  {
    var frame := rsp + crc;
    assert frame[1] == rsp[1] && frame[2] == rsp[2];
    if fc < 0x80 {
      assert frame[1] >= 0x80;
    } else {
      assert frame[1] == fc - 0x80;
    }
  }

  lemma AnswerDelimited(fc: byte, rsp: seq<byte>, crc: seq<byte>)
    requires AnswerHead(fc, rsp) && |crc| == 2
    ensures Scan(rsp + crc, Confirmation) == Whole(|rsp| + 2) && !Misleading(fc)
  {
    var frame := rsp + crc;
    assert frame[1] == rsp[1] && frame[2] == rsp[2];
  }

  /**
   * Every reply to a received request is received as exactly one frame, unless the request
   * carried an unknown function code above 0x80 whose low bits are a known one: adding 0x80
   * again turns the exception into the head of a longer reply.
   */
  lemma ReplyDelimited(req: seq<byte>, length: nat, m: Mapping)
    requires |req| == MAX_MESSAGE_LENGTH && Scan(req[..Least(length, MAX_MESSAGE_LENGTH)], Indication) == Whole(length)
    requires Reply(req, length, m).response.Some?
    ensures var frame := Framed(Reply(req, length, m).response.value);
            Scan(frame, Confirmation) == Whole(|frame|) <==> !Misleading(req[1])
  {
    var rsp := Reply(req, length, m).response.value;
    ReplyHead(req, length, m);
    hide Reply, Scan, Checksum;
    if ExceptionHead(req[1], rsp) {
      ExceptionDelimited(req[1], rsp, Checksum(rsp));
    } else {
      AnswerDelimited(req[1], rsp, Checksum(rsp));
    }
  }

  lemma UnknownFunction(req: seq<byte>, m: Mapping)
    requires |req| == MAX_MESSAGE_LENGTH && req[0] == 1 && req[1] == 0x83
    ensures Scan(req[..4], Indication) == Whole(4) && Reply(req, 4, m).response == Some([1, 3, 1])
  {
    assert req[..4][1] == req[1];
  }

  /** The unknown function code 0x83: its exception looks like registers read, of another length. */
  lemma MisleadingReply(crc0: byte, crc1: byte, m: Mapping)
    ensures var req := [1, 0x83, crc0, crc1] + seq(MAX_MESSAGE_LENGTH - 4, _ => 0);
            Scan(req[..4], Indication) == Whole(4) && Reply(req, 4, m).response == Some([1, 3, 1])
            && var frame := Framed([1, 3, 1]); Scan(frame, Confirmation) != Whole(|frame|)
  {
    var req: seq<byte> := [1, 0x83, crc0, crc1] + seq(MAX_MESSAGE_LENGTH - 4, _ => 0);
    assert req[..4] == [1, 0x83, crc0, crc1];
    assert req[0] == 1 && req[1] == 0x83;
    UnknownFunction(req, m);
    hide Checksum, Reply, Scan;
    ReplyDelimited(req, 4, m);
  }

  // ---------- one exchange ----------

  lemma InBuffer(buffer: seq<byte>, frame: seq<byte>, i: nat)
    requires Holds(buffer, frame) && i < |frame|
    ensures buffer[i] == frame[i]
  {
    assert buffer[..|frame|][i] == frame[i];
  }

  lemma WordInBuffer(buffer: seq<byte>, frame: seq<byte>, i: nat, w: word)
    requires Holds(buffer, frame) && i + 1 < |frame| && frame[i] == High(w) && frame[i + 1] == Low(w)
    ensures WordAtIndex(buffer, i) == w
  {
    InBuffer(buffer, frame, i);
    InBuffer(buffer, frame, i + 1);
    HighLow(w);
  }

  lemma FourBytes(b: seq<byte>, first: word, second: word)
    requires |b| >= 4 && b[..4] == WordBytes(first) + WordBytes(second)
    ensures b[0] == High(first) && b[1] == Low(first) && b[2] == High(second) && b[3] == Low(second)
  {
    var four := b[..4];
    assert four[0] == High(first) && four[1] == Low(first) && four[2] == High(second) && four[3] == Low(second);
  }

  /** The server finds slave, function and the two words behind them where the client put them. */
  lemma RequestHead(slave: byte, op: Op, req: seq<byte>, first: word, second: word)
    requires Refused(op).None? && Holds(req, Framed(Request(slave, op)))
    requires |Body(op)| >= 4 && Body(op)[..4] == WordBytes(first) + WordBytes(second)
    ensures |req| == MAX_MESSAGE_LENGTH
    ensures req[0] == slave && req[1] == Function(op)
    ensures WordAtIndex(req, 2) == first && WordAtIndex(req, 4) == second
    ensures req[2..6] == Body(op)[..4]
  {
    hide Body, Checksum, WordBytes, High, Low;
    var frame, b := Framed(Request(slave, op)), Body(op);
    FourBytes(b, first, second);
    InBuffer(req, frame, 0);
    InBuffer(req, frame, 1);
    assert frame[2] == b[0] && frame[3] == b[1] && frame[4] == b[2] && frame[5] == b[3];
    WordInBuffer(req, frame, 2, first);
    WordInBuffer(req, frame, 4, second);
    assert req[2..6] == req[..|frame|][2..6];
    assert frame[2..6] == b[..4];
  }

  lemma PduInBuffer(buffer: seq<byte>, pdu: seq<byte>)
    requires Holds(buffer, Framed(pdu))
    ensures |buffer| == MAX_MESSAGE_LENGTH && |pdu| <= |buffer| && buffer[..|pdu|] == pdu
  {
    assert buffer[..|pdu|] == buffer[..|pdu| + 2][..|pdu|];
  }

  lemma ExceptionConfirmed(req: seq<byte>, rsp: seq<byte>)
    requires |req| >= 2 && (req[1] != REPORT_SLAVE_ID ==> |req| >= 6) && |rsp| == MAX_MESSAGE_LENGTH
    requires rsp[0] == req[0] && req[1] < 0x80 && rsp[1] == req[1] + 0x80 && rsp[2] < EXCEPTION_MAX
    ensures Confirm(req, rsp, 5) == Rejected(ENOBASE + rsp[2])
  {
    hide WordAtIndex, PackedLength;
  }

  /** A reply of three bytes reports its code to the client. */
  lemma ExceptionReported(slave: byte, op: Op, code: byte, rsp: seq<byte>)
    requires Refused(op).None? && slave != BROADCAST && code < EXCEPTION_MAX
    requires Holds(rsp, Framed([slave, (Function(op) as int + 0x80) % 256, code]))
    ensures Conclude(slave, op, rsp, 5) == Failed(ENOBASE + code)
  {
    hide Body, Checksum;
    var pdu := [slave, (Function(op) as int + 0x80) % 256, code];
    PduInBuffer(rsp, pdu);
    assert rsp[0] == rsp[..3][0] && rsp[1] == rsp[..3][1] && rsp[2] == rsp[..3][2];
    ExceptionConfirmed(Request(slave, op), rsp);
  }

  /**
   * Serving a request leaves the tables as the operation would, and the client, handed the
   * reply, ends with the outcome of the operation.
   */
  ghost predicate Equivalent(slave: byte, op: Op, m: Mapping, req: seq<byte>, rsp: seq<byte>)
    requires Refused(op).None? && |req| == MAX_MESSAGE_LENGTH
  {
    var served := Reply(req, |Request(slave, op)| + 2, m);
    var (mapping, outcome) := Direct(op, m);
    served.response.Some? && served.mapping == mapping
    && (Holds(rsp, Framed(served.response.value))
        ==> Conclude(slave, op, rsp, |served.response.value| + 2) == outcome)
  }

  lemma CountsInRequest(slave: byte, op: Op)
    requires Refused(op).None?
    requires op.ReadBits? || op.ReadInputBits? || op.ReadRegisters? || op.ReadInputRegisters? || op.WriteAndRead?
    ensures var req := Request(slave, op);
            |req| >= 6 && req[0] == slave && req[1] == Function(op) && WordAtIndex(req, 4) == op.nb
  {
    var req := Request(slave, op);
    assert req[4] == High(op.nb) && req[5] == Low(op.nb);
    HighLow(op.nb);
  }

  lemma ReadConfirmed(slave: byte, op: Op, rsp: seq<byte>, count: nat)
    requires Refused(op).None? && slave != BROADCAST && |rsp| == MAX_MESSAGE_LENGTH
    requires op.ReadBits? || op.ReadInputBits? || op.ReadRegisters? || op.ReadInputRegisters? || op.WriteAndRead?
    requires count == if op.ReadBits? || op.ReadInputBits? then PackedLength(op.nb) else 2 * op.nb
    requires rsp[0] == slave && rsp[1] == Function(op) && rsp[2] == count
    ensures Confirm(Request(slave, op), rsp, 5 + count).Accepted?
  {
    CountsInRequest(slave, op);
    hide Request, WordAtIndex, PackedLength;
  }

  lemma BitsRead(slave: byte, op: Op, bits: seq<bool>, rsp: seq<byte>)
    requires Refused(op).None? && slave != BROADCAST
    requires (op.ReadBits? || op.ReadInputBits?) && |bits| == op.nb && op.nb >= 1
    requires Holds(rsp, Framed([slave, Function(op)] + [PackedLength(op.nb)] + PackBits(bits)))
    ensures Conclude(slave, op, rsp, 5 + PackedLength(op.nb)) == GotBits(bits)
  {
    hide PackBits, UnpackBits, Checksum, Confirm, Request, PackedLength, Function;
    var head := [slave, Function(op)] + [PackedLength(op.nb)];
    var crc := Checksum(head + PackBits(bits));
    Behind(rsp, head, PackBits(bits), crc);
    assert head[0] == slave && head[1] == Function(op) && head[2] == PackedLength(op.nb);
    ReadConfirmed(slave, op, rsp, PackedLength(op.nb));
    UnpackPack(bits, rsp[3 + |PackBits(bits)|..]);
    hide Holds;
  }

  /** Which of the server's branches a request of the client reaches. */
  lemma Dispatched(slave: byte, op: Op, m: Mapping, req: seq<byte>)
    requires Refused(op).None? && slave != BROADCAST && |req| == MAX_MESSAGE_LENGTH
    requires req[0] == slave && req[1] == Function(op)
    ensures var length := |Request(slave, op)| + 2;
            var (mapping, answer) := match op
              case ReadBits(_, _) => (m, ServeReadBits(req, m.bits))
              case ReadInputBits(_, _) => (m, ServeReadBits(req, m.inputBits))
              case ReadRegisters(_, _) => (m, ServeReadRegisters(req, m.registers))
              case ReadInputRegisters(_, _) => (m, ServeReadRegisters(req, m.inputRegisters))
              case WriteBit(_, _) => ServeWriteBit(req, length, m)
              case WriteRegister(_, _) => ServeWriteRegister(req, length, m)
              case WriteBits(_, _) => ServeWriteBits(req, m)
              case WriteRegisters(_, _) => ServeWriteRegisters(req, m)
              case MaskWriteRegister(_, _, _) => ServeMaskWrite(req, length, m)
              case WriteAndRead(_, _, _, _) => ServeWriteAndRead(req, m)
              case ReportSlaveId(_) => (m, Basis(req) + [|SLAVE_ID|] + SLAVE_ID);
            Reply(req, length, m) == Served(mapping, Some(answer))
  {
    hide ServeReadBits, ServeReadRegisters, ServeWriteBit, ServeWriteRegister, ServeWriteBits, ServeWriteRegisters,
      ServeMaskWrite, ServeWriteAndRead, Basis, Request;
  }

  lemma ReadHead(slave: byte, op: Op, req: seq<byte>)
    requires Refused(op).None? && Holds(req, Framed(Request(slave, op)))
    requires op.ReadBits? || op.ReadInputBits? || op.ReadRegisters? || op.ReadInputRegisters?
    ensures |req| == MAX_MESSAGE_LENGTH
    ensures req[0] == slave && req[1] == Function(op)
    ensures WordAtIndex(req, 2) == op.addr && WordAtIndex(req, 4) == op.nb
  {
    assert Body(op) == WordBytes(op.addr) + WordBytes(op.nb) && Body(op)[..4] == Body(op);
    hide Request, Holds, Framed, WordAtIndex, Body;
    RequestHead(slave, op, req, op.addr, op.nb);
  }

  lemma BitsExchange(slave: byte, op: Op, m: Mapping, req: seq<byte>, rsp: seq<byte>)
    requires Refused(op).None? && slave != BROADCAST && (op.ReadBits? || op.ReadInputBits?)
    requires Holds(req, Framed(Request(slave, op)))
    ensures Equivalent(slave, op, m, req, rsp)
  {
    hide Conclude, Framed, Request, WordAtIndex, PackedLength, PackBits, Reply, Holds;
    ReadHead(slave, op, req);
    Dispatched(slave, op, m, req);
    var table := if op.ReadBits? then m.bits else m.inputBits;
    if Holds(rsp, Framed(ServeReadBits(req, table))) {
      if op.nb < 1 {
        ExceptionReported(slave, op, ILLEGAL_DATA_VALUE, rsp);
      } else if op.addr + op.nb > |table| {
        ExceptionReported(slave, op, ILLEGAL_DATA_ADDRESS, rsp);
      } else {
        BitsRead(slave, op, table[op.addr..op.addr + op.nb], rsp);
      }
    }
  }

  lemma WordsRead(slave: byte, op: Op, words: seq<word>, rsp: seq<byte>)
    requires Refused(op).None? && slave != BROADCAST
    requires (op.ReadRegisters? || op.ReadInputRegisters? || op.WriteAndRead?) && |words| == op.nb && op.nb >= 1
    requires Holds(rsp, Framed([slave, Function(op)] + [2 * op.nb] + PackWords(words)))
    ensures Conclude(slave, op, rsp, 5 + 2 * op.nb) == GotWords(words)
  {
    hide PackWords, UnpackWords, Checksum, Confirm, Request, Function;
    var head := [slave, Function(op)] + [2 * op.nb];
    var crc := Checksum(head + PackWords(words));
    Behind(rsp, head, PackWords(words), crc);
    assert head[0] == slave && head[1] == Function(op) && head[2] == 2 * op.nb;
    ReadConfirmed(slave, op, rsp, 2 * op.nb);
    UnpackPackWords(words, rsp[3 + |PackWords(words)|..]);
    hide Holds;
  }

  lemma RegistersExchange(slave: byte, op: Op, m: Mapping, req: seq<byte>, rsp: seq<byte>)
    requires Refused(op).None? && slave != BROADCAST && (op.ReadRegisters? || op.ReadInputRegisters?)
    requires Holds(req, Framed(Request(slave, op)))
    ensures Equivalent(slave, op, m, req, rsp)
  {
    hide Conclude, Framed, Request, WordAtIndex, PackWords, Reply, Holds;
    ReadHead(slave, op, req);
    Dispatched(slave, op, m, req);
    var table := if op.ReadRegisters? then m.registers else m.inputRegisters;
    if Holds(rsp, Framed(ServeReadRegisters(req, table))) {
      if op.nb < 1 {
        ExceptionReported(slave, op, ILLEGAL_DATA_VALUE, rsp);
      } else if op.addr + op.nb > |table| {
        ExceptionReported(slave, op, ILLEGAL_DATA_ADDRESS, rsp);
      } else {
        WordsRead(slave, op, table[op.addr..op.addr + op.nb], rsp);
      }
    }
  }

  /** An answer that only echoes the head of the request confirms a write. */
  lemma WriteConfirmed(slave: byte, op: Op, first: word, second: word, pdu: seq<byte>, rsp: seq<byte>)
    requires Refused(op).None? && slave != BROADCAST
    requires op.WriteBit? || op.WriteRegister? || op.WriteBits? || op.WriteRegisters?
    requires |Body(op)| >= 4 && Body(op)[..4] == WordBytes(first) + WordBytes(second)
    requires pdu == [slave, Function(op)] + (WordBytes(first) + WordBytes(second)) && Holds(rsp, Framed(pdu))
    ensures Conclude(slave, op, rsp, 8) == Written(if op.WriteBits? || op.WriteRegisters? then second else 1)
  {
    hide Body, Checksum;
    var frame := Framed(pdu);
    var b := Body(op);
    assert frame[0] == slave && frame[1] == Function(op) && frame[4] == High(second) && frame[5] == Low(second);
    InBuffer(rsp, frame, 0);
    InBuffer(rsp, frame, 1);
    WordInBuffer(rsp, frame, 4, second);
    FourBytes(b, first, second);
    HighLow(second);
    assert WordAtIndex(Request(slave, op), 4) == second;
    hide Holds, Framed, MakeWord, High, Low, WordAtIndex;
  }

  function SingleValue(op: Op): word
    requires op.WriteBit? || op.WriteRegister?
  {
    if op.WriteRegister? then op.value else if op.on then 0xFF00 else 0
  }

  lemma SingleWriteBody(slave: byte, op: Op)
    requires op.WriteBit? || op.WriteRegister?
    ensures var four := WordBytes(op.addr) + WordBytes(SingleValue(op));
            Body(op) == four && Body(op)[..4] == four && Request(slave, op) == [slave, Function(op)] + four
  {
    var four := WordBytes(op.addr) + WordBytes(SingleValue(op));
    assert Body(op) == four;
    hide WordBytes, Body;
    assert four[..4] == four;
  }

  lemma SingleWriteExchange(slave: byte, op: Op, m: Mapping, req: seq<byte>, rsp: seq<byte>)
    requires slave != BROADCAST && (op.WriteBit? || op.WriteRegister?)
    requires Holds(req, Framed(Request(slave, op)))
    ensures Equivalent(slave, op, m, req, rsp)
  {
    hide Conclude, Holds, Framed, Body, WordAtIndex, WordBytes, Reply, Request;
    var value := SingleValue(op);
    var pdu := Request(slave, op);
    SingleWriteBody(slave, op);
    RequestHead(slave, op, req, op.addr, value);
    PduInBuffer(req, pdu);
    Dispatched(slave, op, m, req);
    var answer := if op.WriteBit? then ServeWriteBit(req, 8, m).1 else ServeWriteRegister(req, 8, m).1;
    if Holds(rsp, Framed(answer)) {
      if op.addr >= (if op.WriteBit? then |m.bits| else |m.registers|) {
        ExceptionReported(slave, op, ILLEGAL_DATA_ADDRESS, rsp);
      } else {
        WriteConfirmed(slave, op, op.addr, value, pdu, rsp);
      }
    }
  }

  /** The payload of a request behind its byte count, as the server's buffer holds it. */
  lemma RequestPayload(slave: byte, op: Op, req: seq<byte>, head: seq<byte>, payload: seq<byte>)
    requires Refused(op).None? && Holds(req, Framed(Request(slave, op)))
    requires Body(op) == head + payload
    ensures req[..2 + |head|] == [slave, Function(op)] + head
    ensures exists tail :: req[2 + |head|..] == payload + tail
  {
    hide Body, Checksum;
    var front := [slave, Function(op)] + head;
    var crc := Checksum(Request(slave, op));
    assert Request(slave, op) == front + payload;
    Behind(req, front, payload, crc);
  }

  lemma BitsWriteHead(slave: byte, op: Op, req: seq<byte>)
    requires Refused(op).None? && op.WriteBits? && Holds(req, Framed(Request(slave, op)))
    ensures |req| == MAX_MESSAGE_LENGTH
    ensures req[0] == slave && req[1] == Function(op)
    ensures WordAtIndex(req, 2) == op.addr && WordAtIndex(req, 4) == |op.bitsToWrite|
    ensures UnpackBits(req[7..], |op.bitsToWrite|) == op.bitsToWrite
    ensures Basis(req) + req[2..6] == [slave, Function(op)] + (WordBytes(op.addr) + WordBytes(|op.bitsToWrite|))
    ensures |Body(op)| >= 4 && Body(op)[..4] == WordBytes(op.addr) + WordBytes(|op.bitsToWrite|)
  {
    hide Request, Framed, PackBits, UnpackBits, WordAtIndex;
    var addr, bits := op.addr, op.bitsToWrite;
    var head := WordBytes(addr) + WordBytes(|bits|) + [PackedLength(|bits|)];
    var payload := PackBits(bits);
    assert Body(op) == head + payload;
    hide Body;
    assert (head + payload)[..4] == head[..4] == WordBytes(addr) + WordBytes(|bits|);
    RequestHead(slave, op, req, addr, |bits|);
    RequestPayload(slave, op, req, head, payload);
    var tail :| req[7..] == payload + tail;
    UnpackPack(bits, tail);
  }

  lemma BitsWriteExchange(slave: byte, op: Op, m: Mapping, req: seq<byte>, rsp: seq<byte>)
    requires Refused(op).None? && slave != BROADCAST && op.WriteBits?
    requires Holds(req, Framed(Request(slave, op)))
    ensures Equivalent(slave, op, m, req, rsp)
  {
    hide Conclude, Holds, Framed, Body, Request, WordAtIndex, WordBytes, Reply, PackBits, UnpackBits, Basis;
    var addr, count := op.addr, |op.bitsToWrite|;
    BitsWriteHead(slave, op, req);
    Dispatched(slave, op, m, req);
    if Holds(rsp, Framed(ServeWriteBits(req, m).1)) {
      if count < 1 {
        ExceptionReported(slave, op, ILLEGAL_DATA_VALUE, rsp);
      } else if addr + count > |m.bits| {
        ExceptionReported(slave, op, ILLEGAL_DATA_ADDRESS, rsp);
      } else {
        WriteConfirmed(slave, op, addr, count, Basis(req) + req[2..6], rsp);
      }
    }
  }

  lemma RegistersWriteHead(slave: byte, op: Op, req: seq<byte>)
    requires Refused(op).None? && op.WriteRegisters? && Holds(req, Framed(Request(slave, op)))
    ensures |req| == MAX_MESSAGE_LENGTH
    ensures req[0] == slave && req[1] == Function(op)
    ensures WordAtIndex(req, 2) == op.addr && WordAtIndex(req, 4) == |op.words|
    ensures UnpackWords(req[7..], |op.words|) == op.words
    ensures Basis(req) + req[2..6] == [slave, Function(op)] + (WordBytes(op.addr) + WordBytes(|op.words|))
    ensures |Body(op)| >= 4 && Body(op)[..4] == WordBytes(op.addr) + WordBytes(|op.words|)
  {
    hide Request, Framed, PackWords, UnpackWords, WordAtIndex;
    var addr, words := op.addr, op.words;
    var head := WordBytes(addr) + WordBytes(|words|) + [2 * |words|];
    var payload := PackWords(words);
    assert Body(op) == head + payload;
    hide Body;
    assert (head + payload)[..4] == head[..4] == WordBytes(addr) + WordBytes(|words|);
    RequestHead(slave, op, req, addr, |words|);
    RequestPayload(slave, op, req, head, payload);
    var tail :| req[7..] == payload + tail;
    UnpackPackWords(words, tail);
  }

  lemma RegistersWriteExchange(slave: byte, op: Op, m: Mapping, req: seq<byte>, rsp: seq<byte>)
    requires Refused(op).None? && slave != BROADCAST && op.WriteRegisters?
    requires Holds(req, Framed(Request(slave, op)))
    ensures Equivalent(slave, op, m, req, rsp)
  {
    hide Conclude, Holds, Framed, Body, Request, WordAtIndex, WordBytes, Reply, PackWords, UnpackWords, Basis;
    var addr, count := op.addr, |op.words|;
    RegistersWriteHead(slave, op, req);
    Dispatched(slave, op, m, req);
    if Holds(rsp, Framed(ServeWriteRegisters(req, m).1)) {
      if count < 1 {
        ExceptionReported(slave, op, ILLEGAL_DATA_VALUE, rsp);
      } else if addr + count > |m.registers| {
        ExceptionReported(slave, op, ILLEGAL_DATA_ADDRESS, rsp);
      } else {
        WriteConfirmed(slave, op, addr, count, Basis(req) + req[2..6], rsp);
      }
    }
  }

  lemma MaskConfirmed(slave: byte, op: Op, rsp: seq<byte>)
    requires slave != BROADCAST && op.MaskWriteRegister?
    requires Holds(rsp, Framed(Request(slave, op)))
    ensures Conclude(slave, op, rsp, 10) == Written(1)
  {
    var frame := Framed(Request(slave, op));
    hide Checksum, Body;
    InBuffer(rsp, frame, 0);
    InBuffer(rsp, frame, 1);
    hide Holds, WordAtIndex;
  }

  lemma MaskWriteHead(slave: byte, op: Op, req: seq<byte>)
    requires op.MaskWriteRegister? && Holds(req, Framed(Request(slave, op)))
    ensures |req| == MAX_MESSAGE_LENGTH
    ensures req[0] == slave && req[1] == Function(op)
    ensures WordAtIndex(req, 2) == op.addr && WordAtIndex(req, 4) == op.andMask && WordAtIndex(req, 6) == op.orMask
  {
    var frame := Framed(Request(slave, op));
    assert frame[6] == High(op.orMask) && frame[7] == Low(op.orMask);
    assert Body(op)[..4] == WordBytes(op.addr) + WordBytes(op.andMask);
    hide Body, Checksum, High, Low, WordBytes;
    RequestHead(slave, op, req, op.addr, op.andMask);
    WordInBuffer(req, frame, 6, op.orMask);
  }

  lemma MaskWriteServed(slave: byte, op: Op, m: Mapping, req: seq<byte>)
    requires op.MaskWriteRegister? && Holds(req, Framed(Request(slave, op)))
    ensures |req| == MAX_MESSAGE_LENGTH && req[0] == slave && req[1] == Function(op) && |Request(slave, op)| == 8
    ensures var (mapping, answer) := ServeMaskWrite(req, 10, m);
            mapping == Direct(op, m).0
            && answer == if op.addr >= |m.registers| then Exception(req, ILLEGAL_DATA_ADDRESS) else Request(slave, op)
  {
    assert |Request(slave, op)| == 8;
    hide WordAtIndex, MaskWord, Exception, Request, Framed, Holds;
    MaskWriteHead(slave, op, req);
    PduInBuffer(req, Request(slave, op));
  }

  lemma MaskWriteExchange(slave: byte, op: Op, m: Mapping, req: seq<byte>, rsp: seq<byte>)
    requires slave != BROADCAST && op.MaskWriteRegister?
    requires Holds(req, Framed(Request(slave, op)))
    ensures Equivalent(slave, op, m, req, rsp)
  {
    hide Conclude, Holds, Framed, Body, Request, Reply, MaskWord, ServeMaskWrite;
    MaskWriteServed(slave, op, m, req);
    Dispatched(slave, op, m, req);
    if Holds(rsp, Framed(ServeMaskWrite(req, 10, m).1)) {
      if op.addr >= |m.registers| {
        ExceptionReported(slave, op, ILLEGAL_DATA_ADDRESS, rsp);
      } else {
        MaskConfirmed(slave, op, rsp);
      }
    }
  }

  /** The body of a request of function 0x17, in front of the words to write. */
  function WriteAndReadFront(op: Op): (front: seq<byte>)
    requires Refused(op).None? && op.WriteAndRead?
    ensures |front| == 9
  {
    WordBytes(op.addr) + WordBytes(op.nb) + WordBytes(op.writeAddr) + WordBytes(|op.words|) + [2 * |op.words|]
  }

  lemma FrontWords(op: Op)
    requires Refused(op).None? && op.WriteAndRead?
    ensures var front := WriteAndReadFront(op);
            Body(op) == front + PackWords(op.words) && Body(op)[..4] == WordBytes(op.addr) + WordBytes(op.nb)
            && front[4] == High(op.writeAddr) && front[5] == Low(op.writeAddr)
            && front[6] == High(|op.words|) && front[7] == Low(|op.words|) && front[8] == 2 * |op.words|
  {
    hide PackWords, High, Low;
  }

  lemma WriteAndReadCounts(slave: byte, op: Op, req: seq<byte>)
    requires Refused(op).None? && op.WriteAndRead? && Holds(req, Framed(Request(slave, op)))
    ensures |req| == MAX_MESSAGE_LENGTH
    ensures WordAtIndex(req, 6) == op.writeAddr && WordAtIndex(req, 8) == |op.words| && req[10] == 2 * |op.words|
  {
    hide WriteAndReadFront, Body, Checksum, PackWords, WordAtIndex, High, Low, Holds;
    FrontWords(op);
    var frame, front := Framed(Request(slave, op)), WriteAndReadFront(op);
    assert frame[6] == front[4] && frame[7] == front[5] && frame[8] == front[6] && frame[9] == front[7];
    assert frame[10] == front[8];
    PduInBuffer(req, Request(slave, op));
    WordInBuffer(req, frame, 6, op.writeAddr);
    WordInBuffer(req, frame, 8, |op.words|);
    InBuffer(req, frame, 10);
  }

  lemma WriteAndReadHead(slave: byte, op: Op, req: seq<byte>)
    requires Refused(op).None? && op.WriteAndRead? && Holds(req, Framed(Request(slave, op)))
    ensures |req| == MAX_MESSAGE_LENGTH
    ensures req[0] == slave && req[1] == Function(op)
    ensures WordAtIndex(req, 2) == op.addr && WordAtIndex(req, 4) == op.nb
    ensures WordAtIndex(req, 6) == op.writeAddr && WordAtIndex(req, 8) == |op.words| && req[10] == 2 * |op.words|
    ensures UnpackWords(req[11..], |op.words|) == op.words
  {
    hide WriteAndReadFront, Body, Request, Framed, PackWords, UnpackWords, WordAtIndex, High, Low, Holds;
    FrontWords(op);
    WriteAndReadCounts(slave, op, req);
    var words, front := op.words, WriteAndReadFront(op);
    RequestHead(slave, op, req, op.addr, op.nb);
    RequestPayload(slave, op, req, front, PackWords(words));
    var tail :| req[11..] == PackWords(words) + tail;
    UnpackPackWords(words, tail);
  }

  lemma WriteAndReadServed(slave: byte, op: Op, m: Mapping, req: seq<byte>)
    requires Refused(op).None? && op.WriteAndRead? && Holds(req, Framed(Request(slave, op)))
    ensures |req| == MAX_MESSAGE_LENGTH && req[0] == slave && req[1] == Function(op)
    ensures var (mapping, answer) := ServeWriteAndRead(req, m);
            mapping == Direct(op, m).0
            && answer == if |op.words| < 1 || op.nb < 1 then Exception(req, ILLEGAL_DATA_VALUE)
              else if Direct(op, m).1.Failed? then Exception(req, ILLEGAL_DATA_ADDRESS)
              else [slave, Function(op)] + [2 * op.nb] + PackWords(Direct(op, m).1.words)
  {
    hide Request, WordAtIndex, PackWords, UnpackWords, Exception, Splice;
    WriteAndReadHead(slave, op, req);
  }

  lemma WriteAndReadExchange(slave: byte, op: Op, m: Mapping, req: seq<byte>, rsp: seq<byte>)
    requires Refused(op).None? && slave != BROADCAST && op.WriteAndRead?
    requires Holds(req, Framed(Request(slave, op)))
    ensures Equivalent(slave, op, m, req, rsp)
  {
    hide Conclude, Holds, Framed, Body, Request, Reply, PackWords, ServeWriteAndRead;
    WriteAndReadServed(slave, op, m, req);
    Dispatched(slave, op, m, req);
    if Holds(rsp, Framed(ServeWriteAndRead(req, m).1)) {
      if |op.words| < 1 || op.nb < 1 {
        ExceptionReported(slave, op, ILLEGAL_DATA_VALUE, rsp);
      } else if Direct(op, m).1.Failed? {
        ExceptionReported(slave, op, ILLEGAL_DATA_ADDRESS, rsp);
      } else {
        WordsRead(slave, op, Direct(op, m).1.words, rsp);
      }
    }
  }

  lemma IdentityRead(slave: byte, op: Op, rsp: seq<byte>)
    requires Refused(op).None? && slave != BROADCAST && op.ReportSlaveId?
    requires Holds(rsp, Framed([slave, REPORT_SLAVE_ID] + [10] + SLAVE_ID))
    ensures Conclude(slave, op, rsp, 15) == Identity(10, SLAVE_ID[..Least(10, op.maxDest)])
  {
    hide Checksum;
    var head := [slave, REPORT_SLAVE_ID] + [10];
    Behind(rsp, head, SLAVE_ID, Checksum(head + SLAVE_ID));
    var n := Least(10, op.maxDest);
    assert rsp[3..3 + n] == rsp[3..][..n] == SLAVE_ID[..n];
    var front := rsp[..3];
    assert rsp[0] == front[0] && rsp[1] == front[1] && rsp[2] == front[2];
    hide Holds;
  }

  lemma ReportExchange(slave: byte, op: Op, m: Mapping, req: seq<byte>, rsp: seq<byte>)
    requires Refused(op).None? && slave != BROADCAST && op.ReportSlaveId?
    requires Holds(req, Framed(Request(slave, op)))
    ensures Equivalent(slave, op, m, req, rsp)
  {
    hide Checksum, Reply, Conclude, Holds;
    var frame := Framed(Request(slave, op));
    PduInBuffer(req, Request(slave, op));
    InBuffer(req, frame, 0);
    InBuffer(req, frame, 1);
    Dispatched(slave, op, m, req);
    if Holds(rsp, Framed([slave, REPORT_SLAVE_ID] + [10] + SLAVE_ID)) { IdentityRead(slave, op, rsp); }
  }

  /** A call the library refuses sends nothing, and is refused by the operation itself. */
  lemma RefusedLocally(op: Op, m: Mapping)
    requires Refused(op).Some?
    ensures Direct(op, m) == (m, Failed(Refused(op).value))
  {
  }

  /** The addressee takes a request for a message of its own. */
  lemma RequestAccepted(slave: byte, op: Op)
    requires Refused(op).None?
    ensures var sent := Framed(Request(slave, op));
            Scan(sent, Indication) == Whole(|sent|) && Integrity(slave, sent) == |sent|
  {
    hide Body, Scan, Checksum, CrcGood;
    RequestDelimited(slave, op);
    FramedGood(Request(slave, op));
    assert Framed(Request(slave, op))[0] == slave;
  }

  /** And the client its answer. */
  lemma AnswerAccepted(slave: byte, op: Op, m: Mapping, req: seq<byte>)
    requires Refused(op).None? && Holds(req, Framed(Request(slave, op)))
    requires Reply(req, |Request(slave, op)| + 2, m).response.Some?
    ensures var answer := Framed(Reply(req, |Request(slave, op)| + 2, m).response.value);
            Scan(answer, Confirmation) == Whole(|answer|) && Integrity(slave, answer) == |answer|
  {
    hide Body, Reply, Scan, Checksum, CrcGood;
    var sent := Framed(Request(slave, op));
    var answer := Reply(req, |sent|, m).response.value;
    RequestDelimited(slave, op);
    assert req[..Least(|sent|, MAX_MESSAGE_LENGTH)] == sent;
    InBuffer(req, sent, 0);
    InBuffer(req, sent, 1);
    ReplyDelimited(req, |sent|, m);
    RepliesAsItself(req, |sent|, m);
    FramedGood(answer);
    assert Framed(answer)[0] == answer[0];
  }

  /**
   * End to end: for every operation, address, count and mapping, the request travels as one
   * frame that its addressee accepts, the server's tables change exactly as the operation
   * says, and the reply travels as one frame from which the client gets its outcome. A
   * failed operation leaves all tables unchanged and names the exception.
   */
  lemma EndToEnd(slave: byte, op: Op, m: Mapping, req: seq<byte>, rsp: seq<byte>)
    requires Refused(op).None? && 1 <= slave <= 247
    requires Holds(req, Framed(Request(slave, op)))
    ensures var sent := Framed(Request(slave, op));
            Scan(sent, Indication) == Whole(|sent|) && Integrity(slave, sent) == |sent|
    ensures Equivalent(slave, op, m, req, rsp)
    ensures var answer := Framed(Reply(req, |Request(slave, op)| + 2, m).response.value);
            Scan(answer, Confirmation) == Whole(|answer|) && Integrity(slave, answer) == |answer|
  {
    hide Reply, Request, Scan, Integrity, Framed, Conclude, Direct, Holds;
    RequestAccepted(slave, op);
    Exchanged(slave, op, m, req, rsp);
    AnswerAccepted(slave, op, m, req);
  }

  lemma RepliesAsItself(req: seq<byte>, length: nat, m: Mapping)
    requires |req| == MAX_MESSAGE_LENGTH && Scan(req[..Least(length, MAX_MESSAGE_LENGTH)], Indication) == Whole(length)
    requires Reply(req, length, m).response.Some?
    ensures var rsp := Reply(req, length, m).response.value; |rsp| > 0 && rsp[0] == req[0]
  {
    hide PackBits, PackWords, UnpackBits, UnpackWords, MaskWord;
  }

  lemma Exchanged(slave: byte, op: Op, m: Mapping, req: seq<byte>, rsp: seq<byte>)
    requires Refused(op).None? && 1 <= slave <= 247
    requires Holds(req, Framed(Request(slave, op)))
    ensures Equivalent(slave, op, m, req, rsp)
  {
    hide Equivalent, Holds, Framed, Request;
    match op
    case ReadBits(_, _) => BitsExchange(slave, op, m, req, rsp);
    case ReadInputBits(_, _) => BitsExchange(slave, op, m, req, rsp);
    case ReadRegisters(_, _) => RegistersExchange(slave, op, m, req, rsp);
    case ReadInputRegisters(_, _) => RegistersExchange(slave, op, m, req, rsp);
    case WriteBit(_, _) => SingleWriteExchange(slave, op, m, req, rsp);
    case WriteRegister(_, _) => SingleWriteExchange(slave, op, m, req, rsp);
    case WriteBits(_, _) => BitsWriteExchange(slave, op, m, req, rsp);
    case WriteRegisters(_, _) => RegistersWriteExchange(slave, op, m, req, rsp);
    case MaskWriteRegister(_, _, _) => MaskWriteExchange(slave, op, m, req, rsp);
    case WriteAndRead(_, _, _, _) => WriteAndReadExchange(slave, op, m, req, rsp);
    case ReportSlaveId(_) => ReportExchange(slave, op, m, req, rsp);
  }

  /**
   * The range test of function 0x17 meets its purpose exactly when the write address is not
   * below the table, which it does not look at; for a table starting at 0 it always does.
   */
  lemma RangeTestExact(address: word, nb: nat, addressWrite: word, nbWrite: nat, start: nat, count: nat)
    requires InRange(address, nb, addressWrite, nbWrite, start, count)
    ensures WritesInside(addressWrite, nbWrite, start, count) <==> start <= addressWrite
    ensures start == 0 ==> WritesInside(addressWrite, nbWrite, start, count)
  {
  }

  /** A shifted table of ten registers: the test lets a write below its first register pass. */
  lemma RangeTestMisses()
    ensures InRange(100, 1, 50, 1, 100, 10) && !WritesInside(50, 1, 100, 10)
  {
  }
}
