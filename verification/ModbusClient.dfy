/** The client's calls: building a request, checking the confirmation, storing its values. */
module ModbusClient {
  import opened Bytes
  import opened ModbusBits
  import opened ModbusWords
  import opened ModbusFrame
  import opened ModbusProtocol
  import opened ModbusEndToEnd
  import opened ModbusLine
  import opened ModbusServer
  import ModbusReply

  // ---------- requests ----------

  /** `_modbus_rtu_build_request_basis`. */
  method BuildRequestBasis(slave: byte, fc: byte, addr: word, nb: word, req: array<byte>) returns (length: nat)
    requires req.Length == MAX_MESSAGE_LENGTH
    modifies req
    ensures length == 6 && req[..6] == [slave, fc] + (WordBytes(addr) + WordBytes(nb))
  {
    req[0], req[1] := slave, fc;
    req[2], req[3] := addr / 256, addr % 256;
    req[4], req[5] := nb / 256, nb % 256;
    length := 6;
  }

  /** `req[n++] = w >> 8; req[n++] = w & 0x00ff`. */
  method PutWord(req: array<byte>, at: nat, w: word) returns (next: nat)
    requires at + 2 <= req.Length
    modifies req
    ensures next == at + 2 && req[..next] == old(req[..at]) + WordBytes(w)
  {
    req[at], req[at + 1] := w / 256, w % 256;
    next := at + 2;
    assert req[..next] == req[..at] + [req[at], req[at + 1]];
  }

  method PutByte(req: array<byte>, at: nat, b: byte) returns (next: nat)
    requires at < req.Length
    modifies req
    ensures next == at + 1 && req[..next] == old(req[..at]) + [b]
  {
    req[at] := b;
    next := at + 1;
    assert req[..next] == req[..at] + [req[at]];
  }

  /** The loop of `modbus_write_registers` over the values to send. */
  method PutWords(req: array<byte>, at: nat, src: seq<word>) returns (next: nat)
    requires at + 2 * |src| <= req.Length
    modifies req
    ensures next == at + 2 * |src| && req[..next] == old(req[..at]) + PackWords(src)
  {
    next := at;
    ghost var head := req[..at];
    assert src[..0] == [];
    for i := 0 to |src|
      invariant next == at + 2 * i && req[..next] == head + PackWords(src[..i])
    {
      next := PutWord(req, next, src[i]);
      OneMoreWord(head, src, i);
    }
    assert src[..|src|] == src;
  }

  lemma OneMoreWord(head: seq<byte>, src: seq<word>, i: nat)
    requires i < |src|
    ensures head + PackWords(src[..i + 1]) == head + PackWords(src[..i]) + WordBytes(src[i])
  {
    var ws := src[..i + 1];
    assert ws[..|ws| - 1] == src[..i];
    Assoc(head, PackWords(src[..i]), WordBytes(src[i]));
  }

  /** The inner loop of `modbus_write_bits`: the next byte of up to eight coils. */
  method PackNext(src: seq<bool>, from: nat) returns (oneByte: byte, pos: nat)
    requires from < |src|
    ensures pos == (if from + 8 <= |src| then from + 8 else |src|) && oneByte == PackByte(src[from..pos])
  {
    pos := from;
    var shift: nat, value: bv8 := 0, 0;
    assert Value(value) == PackByte(src[from..pos]);
    hide PackByte, Value, Ored;
    while shift < 8 && pos < |src|
      invariant from <= pos <= |src| && shift == pos - from <= 8 && Value(value) == PackByte(src[from..pos])
      decreases |src| - pos
    {
      BitPacked(value, src[from..pos], src[pos]);
      assert src[from..pos + 1] == src[from..pos] + [src[pos]];
      value := Ored(value, shift, src[pos]);
      pos := pos + 1;
      shift := shift + 1;
    }
    oneByte := Value(value);
  }

  lemma BitPacked(oneByte: bv8, group: seq<bool>, on: bool)
    requires |group| < 8 && Value(oneByte) == PackByte(group)
    ensures Value(Ored(oneByte, |group|, on)) == PackByte(group + [on])
  {
    hide PackByte, Ored, Value;
    PowersBelow(group);
    OrAdds(oneByte, |group|, on);
    PackByteSnoc(group, on);
  }

  lemma PowersBelow(group: seq<bool>)
    ensures PackByte(group) < Pow2(|group|)
  {
  }

  method PutBits(req: array<byte>, at: nat, src: seq<bool>) returns (next: nat)
    requires at + PackedLength(|src|) <= req.Length
    modifies req
    ensures next == at + PackedLength(|src|) && req[..next] == old(req[..at]) + PackBits(src)
  {
    next := at;
    var pos: nat, byteCount := 0, PackedLength(|src|);
    ghost var head := req[..at];
    assert src[..0] == [] && PackBits([]) == [];
    hide PackBits, PackByte, PackedLength;
    for i := 0 to byteCount
      invariant next == at + i && pos == (if 8 * i <= |src| then 8 * i else |src|)
      invariant req[..next] == head + PackBits(src[..pos])
    {
      var oneByte, end := PackNext(src, pos);
      OneMoreByte(head, src, pos, end);
      next := PutByte(req, next, oneByte);
      pos := end;
    }
    assert src[..|src|] == src;
  }

  lemma OneMoreByte(head: seq<byte>, src: seq<bool>, from: nat, to: nat)
    requires from % 8 == 0 && from < to <= |src| && to <= from + 8
    ensures PackByte(src[from..to]) < 256
    ensures head + PackBits(src[..to]) == head + PackBits(src[..from]) + [PackByte(src[from..to])]
  {
    PackBitsGroup(src[..from], src[from..to]);
    assert src[..to] == src[..from] + src[from..to];
    Assoc(head, PackBits(src[..from]), [PackByte(src[from..to])]);
  }

  /** The request-building part of each client call. */
  method BuildRequest(slave: byte, op: Op, req: array<byte>) returns (length: nat)
    requires Refused(op).None? && req.Length == MAX_MESSAGE_LENGTH
    modifies req
    ensures length <= 253 && req[..length] == Request(slave, op)
  {
    hide PackBits, PackWords, WordBytes, PackedLength;
    match op
    case ReadBits(addr, nb) => length := BuildRequestBasis(slave, READ_COILS, addr, nb, req);
    case ReadInputBits(addr, nb) => length := BuildRequestBasis(slave, READ_DISCRETE_INPUTS, addr, nb, req);
    case ReadRegisters(addr, nb) => length := BuildRequestBasis(slave, READ_HOLDING_REGISTERS, addr, nb, req);
    case ReadInputRegisters(addr, nb) => length := BuildRequestBasis(slave, READ_INPUT_REGISTERS, addr, nb, req);
    case WriteBit(addr, on) =>
      length := BuildRequestBasis(slave, WRITE_SINGLE_COIL, addr, if on then 0xFF00 else 0, req);
    case WriteRegister(addr, value) => length := BuildRequestBasis(slave, WRITE_SINGLE_REGISTER, addr, value, req);
    case WriteBits(addr, bits) => length := BuildWriteBits(slave, op, req);
    case WriteRegisters(addr, words) => length := BuildWriteRegisters(slave, op, req);
    case MaskWriteRegister(addr, andMask, orMask) => length := BuildMaskWrite(slave, op, req);
    case WriteAndRead(writeAddr, words, addr, nb) => length := BuildWriteAndRead(slave, op, req);
    case ReportSlaveId(_) =>
      length := BuildRequestBasis(slave, REPORT_SLAVE_ID, 0, 0, req);
      assert req[..2] == req[..6][..2];
      length := length - 4;
  }

  method BuildWriteBits(slave: byte, op: Op, req: array<byte>) returns (length: nat)
    requires op.WriteBits? && Refused(op).None? && req.Length == MAX_MESSAGE_LENGTH
    modifies req
    ensures length <= 253 && req[..length] == Request(slave, op)
  {
    hide PackBits, WordBytes, PackedLength;
    var bits := op.bitsToWrite;
    length := BuildRequestBasis(slave, WRITE_MULTIPLE_COILS, op.addr, |bits|, req);
    var byteCount := PackedLength(|bits|);
    length := PutByte(req, length, byteCount);
    length := PutBits(req, length, bits);
    ghost var four := WordBytes(op.addr) + WordBytes(|bits|);
    FourParts([slave, WRITE_MULTIPLE_COILS], four, [byteCount], PackBits(bits));
  }

  lemma FourParts(a: seq<byte>, b: seq<byte>, c: seq<byte>, d: seq<byte>)
    ensures a + b + c + d == a + (b + c + d)
  {
    Assoc(a, b, c);
    Assoc(a, b + c, d);
  }

  method BuildWriteRegisters(slave: byte, op: Op, req: array<byte>) returns (length: nat)
    requires op.WriteRegisters? && Refused(op).None? && req.Length == MAX_MESSAGE_LENGTH
    modifies req
    ensures length <= 253 && req[..length] == Request(slave, op)
  {
    hide PackWords, WordBytes;
    var words := op.words;
    length := BuildRequestBasis(slave, WRITE_MULTIPLE_REGISTERS, op.addr, |words|, req);
    var byteCount := 2 * |words|;
    length := PutByte(req, length, byteCount);
    length := PutWords(req, length, words);
    ghost var four := WordBytes(op.addr) + WordBytes(|words|);
    FourParts([slave, WRITE_MULTIPLE_REGISTERS], four, [byteCount], PackWords(words));
  }

  method BuildMaskWrite(slave: byte, op: Op, req: array<byte>) returns (length: nat)
    requires op.MaskWriteRegister? && req.Length == MAX_MESSAGE_LENGTH
    modifies req
    ensures length <= 253 && req[..length] == Request(slave, op)
  {
    length := BuildRequestBasis(slave, MASK_WRITE_REGISTER, op.addr, 0, req);
    length := length - 2;
    assert req[..4] == req[..6][..4] == [slave, MASK_WRITE_REGISTER] + WordBytes(op.addr);
    length := PutWord(req, length, op.andMask);
    length := PutWord(req, length, op.orMask);
    hide WordBytes;
    FourParts([slave, MASK_WRITE_REGISTER], WordBytes(op.addr), WordBytes(op.andMask), WordBytes(op.orMask));
  }

  method BuildWriteAndRead(slave: byte, op: Op, req: array<byte>) returns (length: nat)
    requires op.WriteAndRead? && Refused(op).None? && req.Length == MAX_MESSAGE_LENGTH
    modifies req
    ensures length <= 253 && req[..length] == Request(slave, op)
  {
    hide PackWords, WordBytes;
    var words := op.words;
    length := BuildRequestBasis(slave, WRITE_AND_READ_REGISTERS, op.addr, op.nb, req);
    length := PutWord(req, length, op.writeAddr);
    length := PutWord(req, length, |words|);
    var byteCount := 2 * |words|;
    length := PutByte(req, length, byteCount);
    length := PutWords(req, length, words);
    ghost var head, four := [slave, WRITE_AND_READ_REGISTERS], WordBytes(op.addr) + WordBytes(op.nb);
    ghost var more := four + WordBytes(op.writeAddr) + WordBytes(|words|);
    FourParts(head, four, WordBytes(op.writeAddr), WordBytes(|words|));
    FourParts(head, more, [byteCount], PackWords(words));
  }

  // ---------- confirmations ----------

  /** `check_confirmation`, the slave test of the backend included. */
  method CheckConfirmation(req: array<byte>, rsp: array<byte>, length: nat) returns (rc: int, errno: int)
    requires req.Length == rsp.Length == MAX_MESSAGE_LENGTH
    ensures var c := Confirm(req[..], rsp[..], length);
            if c.Accepted? then rc == c.count else rc == -1 && errno == c.errno
  {
    var fc := rsp[1];
    rc, errno := -1, 0;
    if req[0] != rsp[0] && req[0] != BROADCAST {
      errno := EMBBADSLAVE;
      return;
    }
    var expected := ResponseLength(req[..]);
    if fc >= 0x80 {
      if length == 5 && req[1] == fc - 0x80 && rsp[2] < EXCEPTION_MAX {
        errno := ENOBASE + rsp[2];
      } else {
        errno := EMBBADEXC;
      }
      return;
    }
    if expected.Some? && expected.value != length {
      errno := EMBBADDATA;
      return;
    }
    if fc != req[1] {
      errno := EMBBADDATA;
      return;
    }
    var reqNbValue, rspNbValue := 1, 1;
    if fc == READ_COILS || fc == READ_DISCRETE_INPUTS {
      var nb: word := MakeWord(req[4], req[5]);
      reqNbValue := nb / 8 + if nb % 8 == 0 then 0 else 1;
      rspNbValue := rsp[2];
    } else if fc == WRITE_AND_READ_REGISTERS || fc == READ_HOLDING_REGISTERS || fc == READ_INPUT_REGISTERS {
      reqNbValue := MakeWord(req[4], req[5]);
      rspNbValue := rsp[2] / 2;
    } else if fc == WRITE_MULTIPLE_COILS || fc == WRITE_MULTIPLE_REGISTERS {
      reqNbValue := MakeWord(req[4], req[5]);
      rspNbValue := MakeWord(rsp[4], rsp[5]);
    } else if fc == REPORT_SLAVE_ID {
      reqNbValue, rspNbValue := rsp[2], rsp[2];
    }
    if reqNbValue == rspNbValue {
      rc := rspNbValue;
    } else {
      errno := EMBBADDATA;
    }
  }

  // ---------- whole calls ----------

  /** The loop of `read_io_status` over the received bytes. */
  method StoreBits(rsp: array<byte>, rc: nat, nb: nat, dest: array<byte>)
    requires rsp != dest && rc == PackedLength(nb) && 3 + rc <= rsp.Length && nb <= dest.Length
    modifies dest
    ensures OnOff(dest[..nb]) == UnpackBits(rsp[3..], nb)
  {
    var pos: nat := 0;
    ghost var packed, bits := rsp[3..], UnpackBits(rsp[3..], nb);
    hide PackedLength, UnpackBits, TestBit;
    for i := 3 to 3 + rc
      invariant pos == if 8 * (i - 3) <= nb then 8 * (i - 3) else nb
      invariant forall j | 0 <= j < pos :: dest[j] == if bits[j] then 1 else 0
    {
      var temp := rsp[i];
      assert packed[i - 3] == temp;
      var shift := 0;
      while shift < 8 && pos < nb
        invariant 0 <= shift <= 8 && pos <= nb && pos == 8 * (i - 3) + shift
        invariant forall j | 0 <= j < pos :: dest[j] == if bits[j] then 1 else 0
        decreases nb - pos
      {
        ByteOf(packed, i - 3, shift, nb);
        dest[pos] := if TestBit(temp, shift) then 1 else 0;
        pos := pos + 1;
        shift := shift + 1;
      }
    }
  }

  /** The loop of `read_registers`. */
  method StoreWords(rsp: array<byte>, rc: nat, dest: array<word>)
    requires 3 + 2 * rc <= rsp.Length && rc <= dest.Length
    modifies dest
    ensures dest[..rc] == UnpackWords(rsp[3..], rc)
  {
    ghost var words := UnpackWords(rsp[3..], rc);
    for i := 0 to rc
      invariant forall j | 0 <= j < i :: dest[j] == words[j]
    {
      WordAt(rsp[3..], rc, i);
      dest[i] := MakeWord(rsp[3 + 2 * i], rsp[4 + 2 * i]);
    }
  }

  /** The checks see the same in the request buffer as in the request itself. */
  lemma SameChecks(slave: byte, op: Op, req: seq<byte>, rsp: seq<byte>, length: nat)
    requires Refused(op).None? && |rsp| == MAX_MESSAGE_LENGTH
    requires Holds(req, Framed(Request(slave, op)))
    ensures |req| == MAX_MESSAGE_LENGTH && Confirm(req, rsp, length) == Confirm(Request(slave, op), rsp, length)
  {
    hide Body, Holds, Framed, PackedLength;
    var pdu := Request(slave, op);
    PduInBuffer(req, pdu);
    assert req[0] == req[..|pdu|][0] && req[1] == req[..|pdu|][1];
    if !op.ReportSlaveId? {
      assert req[4] == req[..|pdu|][4] && req[5] == req[..|pdu|][5];
    }
  }

  lemma AcceptedCount(slave: byte, op: Op, rsp: seq<byte>, length: nat)
    requires Refused(op).None? && |rsp| == MAX_MESSAGE_LENGTH && Confirm(Request(slave, op), rsp, length).Accepted?
    ensures var count := Confirm(Request(slave, op), rsp, length).count;
            if op.ReadBits? || op.ReadInputBits? then count == PackedLength(op.nb)
            else if op.ReadRegisters? || op.ReadInputRegisters? || op.WriteAndRead? then count == op.nb
            else op.ReportSlaveId? ==> count < 256
  {
    if op.ReadBits? || op.ReadInputBits? || op.ReadRegisters? || op.ReadInputRegisters? || op.WriteAndRead? {
      CountsInRequest(slave, op);
    }
    hide Body, PackedLength, WordAtIndex;
  }

  method FinishBits(rsp: array<byte>, rc: nat, nb: nat) returns (o: Outcome)
    requires rsp.Length == MAX_MESSAGE_LENGTH && rc == PackedLength(nb) && nb <= MAX_READ_BITS
    ensures o == GotBits(UnpackBits(rsp[..][3..], nb))
  {
    var dest := new byte[nb];
    StoreBits(rsp, rc, nb, dest);
    assert rsp[..][3..] == rsp[3..];
    o := GotBits(OnOff(dest[..nb]));
  }

  method FinishWords(rsp: array<byte>, rc: nat) returns (o: Outcome)
    requires rsp.Length == MAX_MESSAGE_LENGTH && rc <= MAX_READ_REGISTERS
    ensures o == GotWords(UnpackWords(rsp[..][3..], rc))
  {
    var dest := new word[rc];
    StoreWords(rsp, rc, dest);
    assert rsp[..][3..] == rsp[3..];
    o := GotWords(dest[..rc]);
  }

  /** From the received response to what the caller sees. */
  method Finish(slave: byte, op: Op, req: array<byte>, rsp: array<byte>, length: nat) returns (o: Outcome)
    requires Refused(op).None? && req.Length == rsp.Length == MAX_MESSAGE_LENGTH
    requires Holds(req[..], Framed(Request(slave, op)))
    ensures o == Conclude(slave, op, rsp[..], length)
  {
    hide Holds, Framed, UnpackBits, UnpackWords, Confirm, Request, PackedLength;
    var rc, errno := CheckConfirmation(req, rsp, length);
    SameChecks(slave, op, req[..], rsp[..], length);
    if rc == -1 { return Failed(errno); }
    AcceptedCount(slave, op, rsp[..], length);
    match op
    case ReadBits(_, nb) => o := FinishBits(rsp, rc, nb);
    case ReadInputBits(_, nb) => o := FinishBits(rsp, rc, nb);
    case ReadRegisters(_, nb) => o := FinishWords(rsp, rc);
    case ReadInputRegisters(_, nb) => o := FinishWords(rsp, rc);
    case WriteBit(_, _) => o := Written(rc);
    case WriteRegister(_, _) => o := Written(rc);
    case WriteBits(_, _) => o := Written(rc);
    case WriteRegisters(_, _) => o := Written(rc);
    case MaskWriteRegister(_, _, _) => o := Written(rc);
    case WriteAndRead(_, _, _, nb) => o := FinishWords(rsp, rc);
    case ReportSlaveId(maxDest) =>
      o := Identity(rc, rsp[3..3 + Least(rc, maxDest)]);
      assert rsp[..][3..3 + Least(rc, maxDest)] == rsp[3..3 + Least(rc, maxDest)];
  }

  lemma WholeReceived(frame: seq<byte>, slave: byte, rc: int, req: seq<byte>, left: seq<byte>)
    requires Scan(frame, Indication) == Whole(|frame|) && Integrity(slave, frame) == |frame|
    requires |req| == MAX_MESSAGE_LENGTH && Received(frame, Indication, slave, rc, req, left)
    ensures left == [] && rc == |frame| && Holds(req, frame) && 4 <= |frame| <= MAX_ADU
  {
    hide Integrity;
    assert frame[..|frame|] == frame;
  }

  /** A device at the other end: its address, its tables, and a line in each direction. */
  class Server {
    const id: byte
    const tables: Tables
    const requests: Line
    const responses: Line

    ghost predicate Valid()
      reads tables.bits, tables.inputBits
    {
      tables.Valid() && requests != responses
    }

    constructor (id: byte, tables: Tables)
      requires tables.Valid()
      ensures Valid() && this.id == id && this.tables == tables && fresh(requests) && fresh(responses)
      ensures requests.pending == [] && responses.pending == []
    {
      this.id, this.tables := id, tables;
      requests := new Line();
      responses := new Line();
    }

    /** One turn of a server: receive a request addressed to it, then reply. */
    method Poll() returns (ghost req: seq<byte>)
      requires Valid()
      requires var p := requests.pending; Scan(p, Indication) == Whole(|p|) && Integrity(id, p) == |p|
      modifies requests, responses, tables.bits, tables.registers
      ensures Valid() && requests.pending == [] && Holds(req, old(requests.pending))
      ensures var s := ModbusProtocol.Reply(req, |old(requests.pending)|, old(tables.View()));
              tables.View() == s.mapping
              && responses.pending == old(responses.pending)
                 + (if s.response.Some? then Framed(s.response.value) else [])
    {
      hide Integrity, Scan, ModbusProtocol.Reply, Cells, OnOff, Received;
      var buffer := new byte[MAX_MESSAGE_LENGTH];
      ghost var frame := requests.pending;
      var rc, _ := ReceiveMsg(requests, id, buffer, Indication);
      req := buffer[..];
      WholeReceived(frame, id, rc, req, requests.pending);
      var _ := ModbusReply.Reply(buffer, rc, tables, responses);
    }
  }

  lemma RequestArrives(slave: byte, op: Op, m: Mapping, req: seq<byte>)
    requires Refused(op).None? && 1 <= slave <= 247 && Holds(req, Framed(Request(slave, op)))
    ensures var sent := Framed(Request(slave, op));
            Scan(sent, Indication) == Whole(|sent|) && Integrity(slave, sent) == |sent|
  {
    EndToEnd(slave, op, m, req, req);
  }

  /** What a client that received the server's answer concludes. */
  lemma AnswerArrives(slave: byte, op: Op, m: Mapping, served: seq<byte>, rsp: seq<byte>, rc: int, left: seq<byte>,
                      answer: seq<byte>)
    requires Refused(op).None? && 1 <= slave <= 247 && Holds(served, Framed(Request(slave, op)))
    requires ModbusProtocol.Reply(served, |Framed(Request(slave, op))|, m).response == Some(answer)
    requires |rsp| == MAX_MESSAGE_LENGTH && Received(Framed(answer), Confirmation, slave, rc, rsp, left)
    ensures rc >= 0 && left == []
    ensures ModbusProtocol.Reply(served, |Framed(Request(slave, op))|, m).mapping == Direct(op, m).0
    ensures Conclude(slave, op, rsp, rc) == Direct(op, m).1
  {
    var frame := Framed(answer);
    EndToEnd(slave, op, m, served, rsp);
    assert frame[..|frame|] == frame && frame[|frame|..] == [];
    hide Direct, Conclude, ModbusProtocol.Reply, Integrity, Scan, Request, Framed;
  }

  lemma Responds(slave: byte, op: Op, m: Mapping, served: seq<byte>)
    requires Refused(op).None? && 1 <= slave <= 247 && Holds(served, Framed(Request(slave, op)))
    ensures ModbusProtocol.Reply(served, |Framed(Request(slave, op))|, m).response.Some?
  {
    EndToEnd(slave, op, m, served, served);
  }

  /**
   * A whole client call. For every operation, address, count and table contents it is the
   * operation applied to the server's tables.
   */
  method Call(server: Server, op: Op) returns (o: Outcome)
    requires server.Valid() && 1 <= server.id <= 247
    requires server.requests.pending == [] && server.responses.pending == []
    modifies server.requests, server.responses, server.tables.bits, server.tables.registers
    ensures server.Valid() && server.requests.pending == [] && server.responses.pending == []
    ensures (server.tables.View(), o) == Direct(op, old(server.tables.View()))
  {
    ghost var m := server.tables.View();
    var refused := Refused(op);
    if refused.Some? {
      RefusedLocally(op, m);
      return Failed(refused.value);
    }
    o := Ask(server, op);
  }

  /**
   * Send, let the server take its turn, receive, check. Receiving is shown not to fail here,
   * so the calls' early return on -1 has nothing to do.
   */
  method Ask(server: Server, op: Op) returns (o: Outcome)
    requires server.Valid() && 1 <= server.id <= 247 && Refused(op).None?
    requires server.requests.pending == [] && server.responses.pending == []
    modifies server.requests, server.responses, server.tables.bits, server.tables.registers
    ensures server.Valid() && server.requests.pending == [] && server.responses.pending == []
    ensures (server.tables.View(), o) == Direct(op, old(server.tables.View()))
  {
    hide Direct, Conclude, ModbusProtocol.Reply, Integrity, Scan, Request, Framed, Cells, OnOff, Received, Refused;
    ghost var m := server.tables.View();
    var slave := server.id;
    ghost var frame := Framed(Request(slave, op));
    var req, rsp := new byte[MAX_MESSAGE_LENGTH], new byte[MAX_MESSAGE_LENGTH];
    var length := BuildRequest(slave, op, req);
    length := SendMsg(server.requests, req, length);
    assert server.requests.pending == frame;
    RequestArrives(slave, op, m, req[..]);
    ghost var served := server.Poll();
    Responds(slave, op, m, served);
    ghost var answer := ModbusProtocol.Reply(served, |frame|, m).response.value;
    assert server.responses.pending == Framed(answer);
    var rc, _ := ReceiveMsg(server.responses, slave, rsp, Confirmation);
    AnswerArrives(slave, op, m, served, rsp[..], rc, server.responses.pending, answer);
    o := Finish(slave, op, req, rsp, rc);
  }
}
