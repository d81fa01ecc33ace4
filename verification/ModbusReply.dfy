/** The branches of `modbus_reply`, each writing its answer into the response buffer. */
module ModbusReply {
  import opened Bytes
  import opened ModbusBits
  import opened ModbusWords
  import opened ModbusFrame
  import opened ModbusProtocol
  import opened ModbusLine
  import opened ModbusServer

  method ReadWord(req: array<byte>, i: nat) returns (w: word)
    requires i + 1 < req.Length
    ensures w == WordAtIndex(req[..], i)
  {
    w := MakeWord(req[i], req[i + 1]);
  }

  /** `response_exception`. */
  method ResponseException(req: array<byte>, code: byte, rsp: array<byte>) returns (length: nat)
    requires req.Length == rsp.Length == MAX_MESSAGE_LENGTH && req != rsp
    modifies rsp
    ensures length == 3 && rsp[..length] == Exception(req[..], code)
  {
    rsp[0] := req[0];
    rsp[1] := (req[1] as int + 0x80) % 256;
    rsp[2] := code;
    length := 3;
  }

  /** The answer to a read of coils that was not refused. */
  method AnswerReadBits(req: array<byte>, tab: array<byte>, address: nat, nb: nat, rsp: array<byte>)
    returns (length: nat)
    requires req.Length == rsp.Length == MAX_MESSAGE_LENGTH && req != rsp && tab != rsp && Cells(tab[..])
    requires address + nb <= tab.Length && nb <= MAX_READ_BITS
    modifies rsp
    ensures length <= 253 && address + nb <= |OnOff(tab[..])|
    ensures rsp[..length] == Basis(req[..]) + [PackedLength(nb)] + PackBits(OnOff(tab[..])[address..address + nb])
  {
    hide PackBits, PackedLength, OnOff, Cells;
    rsp[0], rsp[1], rsp[2] := req[0], req[1], PackedLength(nb);
    assert rsp[..3] == Basis(req[..]) + [PackedLength(nb)];
    length := ResponseIoStatus(tab, address, nb, rsp, 3);
  }

  method ReplyReadBits(req: array<byte>, tab: array<byte>, rsp: array<byte>) returns (length: nat)
    requires req.Length == rsp.Length == MAX_MESSAGE_LENGTH && req != rsp && tab != rsp && Cells(tab[..])
    modifies rsp
    ensures length <= 253 && rsp[..length] == ServeReadBits(req[..], OnOff(tab[..]))
  {
    hide WordAtIndex, PackBits, PackedLength, OnOff, Cells, Basis, Exception;
    var address := ReadWord(req, 2);
    var nb: word := ReadWord(req, 4);
    if nb < 1 || MAX_READ_BITS < nb {
      length := ResponseException(req, ILLEGAL_DATA_VALUE, rsp);
    } else if address + nb > tab.Length {
      length := ResponseException(req, ILLEGAL_DATA_ADDRESS, rsp);
    } else {
      length := AnswerReadBits(req, tab, address, nb, rsp);
    }
  }

  /** `rsp[rsp_length++] = tab[i] >> 8; rsp[rsp_length++] = tab[i] & 0xFF` over a range of registers. */
  method CopyRegisters(tab: array<word>, address: nat, nb: nat, rsp: array<byte>, offset: nat) returns (end: nat)
    requires address + nb <= tab.Length && offset + 2 * nb <= rsp.Length
    modifies rsp
    ensures end == offset + 2 * nb
    ensures rsp[..end] == old(rsp[..offset]) + PackWords(tab[address..address + nb])
  {
    end := offset;
    ghost var head, all := rsp[..offset], tab[..];
    for i := address to address + nb
      invariant end == offset + 2 * (i - address)
      invariant rsp[..end] == head + PackWords(all[address..i])
    {
      ghost var before := rsp[..end];
      rsp[end], rsp[end + 1] := tab[i] / 256, tab[i] % 256;
      assert rsp[..end + 2] == before + [High(all[i]), Low(all[i])];
      end := end + 2;
      OneMoreWord(head, all, address, i);
    }
    assert all[address..address + nb] == tab[address..address + nb];
  }

  lemma OneMoreWord(head: seq<byte>, all: seq<word>, from: nat, i: nat)
    requires from <= i < |all|
    ensures head + PackWords(all[from..i + 1]) == head + PackWords(all[from..i]) + [High(all[i]), Low(all[i])]
  {
    var ws := all[from..i + 1];
    assert ws[..|ws| - 1] == all[from..i];
    Assoc(head, PackWords(all[from..i]), [High(all[i]), Low(all[i])]);
  }

  method ReplyReadRegisters(req: array<byte>, tab: array<word>, rsp: array<byte>) returns (length: nat)
    requires req.Length == rsp.Length == MAX_MESSAGE_LENGTH && req != rsp
    modifies rsp
    ensures length <= 253 && rsp[..length] == ServeReadRegisters(req[..], tab[..])
  {
    var address := ReadWord(req, 2);
    var nb: word := ReadWord(req, 4);
    hide WordAtIndex, PackWords;
    if nb < 1 || MAX_READ_REGISTERS < nb {
      length := ResponseException(req, ILLEGAL_DATA_VALUE, rsp);
    } else if address + nb > tab.Length {
      length := ResponseException(req, ILLEGAL_DATA_ADDRESS, rsp);
    } else {
      rsp[0], rsp[1], rsp[2] := req[0], req[1], 2 * nb;
      assert rsp[..3] == Basis(req[..]) + [2 * nb];
      length := CopyRegisters(tab, address, nb, rsp, 3);
      assert tab[..][address..address + nb] == tab[address..address + nb];
    }
  }

  /** `memcpy(rsp, req, n)`. */
  method Echo(req: array<byte>, n: nat, rsp: array<byte>)
    requires n <= req.Length && n <= rsp.Length && req != rsp
    modifies rsp
    ensures rsp[..n] == req[..n]
  {
    forall i | 0 <= i < n { rsp[i] := req[i]; }
  }

  method ReplyWriteBit(req: array<byte>, reqLength: nat, tab: array<byte>, rsp: array<byte>, ghost m: Mapping)
    returns (length: nat)
    requires req.Length == rsp.Length == MAX_MESSAGE_LENGTH && req != rsp && tab != rsp && tab != req
    requires 2 <= reqLength <= MAX_MESSAGE_LENGTH && Cells(tab[..]) && m.bits == OnOff(tab[..])
    modifies tab, rsp
    ensures Cells(tab[..]) && length <= 258
    ensures (m.(bits := OnOff(tab[..])), rsp[..length]) == ServeWriteBit(req[..], reqLength, m)
  {
    var address := ReadWord(req, 2);
    var data := ReadWord(req, 4);
    hide WordAtIndex;
    if address >= tab.Length {
      length := ResponseException(req, ILLEGAL_DATA_ADDRESS, rsp);
    } else if data == 0xFF00 || data == 0 {
      tab[address] := if data != 0 then 1 else 0;
      assert OnOff(tab[..]) == m.bits[address := data != 0];
      length := reqLength - 2;
      Echo(req, length, rsp);
      assert req[..][..length] == req[..length];
    } else {
      length := ResponseException(req, ILLEGAL_DATA_VALUE, rsp);
    }
  }

  method ReplyWriteRegister(req: array<byte>, reqLength: nat, tab: array<word>, rsp: array<byte>, ghost m: Mapping)
    returns (length: nat)
    requires req.Length == rsp.Length == MAX_MESSAGE_LENGTH && req != rsp
    requires 2 <= reqLength <= MAX_MESSAGE_LENGTH && m.registers == tab[..]
    modifies tab, rsp
    ensures length <= 258 && (m.(registers := tab[..]), rsp[..length]) == ServeWriteRegister(req[..], reqLength, m)
  {
    var address := ReadWord(req, 2);
    var data := ReadWord(req, 4);
    hide WordAtIndex;
    if address >= tab.Length {
      length := ResponseException(req, ILLEGAL_DATA_ADDRESS, rsp);
    } else {
      tab[address] := data;
      assert tab[..] == m.registers[address := data];
      length := reqLength - 2;
      Echo(req, length, rsp);
      assert req[..][..length] == req[..length];
    }
  }

  method ReplyWriteBits(req: array<byte>, tab: array<byte>, rsp: array<byte>, ghost m: Mapping) returns (length: nat)
    requires req.Length == rsp.Length == MAX_MESSAGE_LENGTH && req != rsp && tab != rsp && tab != req
    requires Cells(tab[..]) && m.bits == OnOff(tab[..])
    modifies tab, rsp
    ensures Cells(tab[..]) && length <= 258
    ensures (m.(bits := OnOff(tab[..])), rsp[..length]) == ServeWriteBits(req[..], m)
  {
    var address := ReadWord(req, 2);
    var nb: word := ReadWord(req, 4);
    hide WordAtIndex, UnpackBits, Cells, OnOff, Splice;
    if nb < 1 || MAX_WRITE_BITS < nb {
      length := ResponseException(req, ILLEGAL_DATA_VALUE, rsp);
    } else if address + nb > tab.Length {
      length := ResponseException(req, ILLEGAL_DATA_ADDRESS, rsp);
    } else {
      SetBitsFromBytes(tab, address, nb, req, 7);
      assert req[..][7..] == req[7..];
      Echo(req, 6, rsp);
      length := 6;
      assert req[..6] == Basis(req[..]) + req[..][2..6];
    }
  }

  /** `tab[i] = (req[j] << 8) + req[j + 1]` over a range of registers. */
  method StoreRegisters(tab: array<word>, address: nat, nb: nat, req: array<byte>, at: nat)
    requires address + nb <= tab.Length && at + 2 * nb <= req.Length
    modifies tab
    ensures tab[..] == Splice(old(tab[..]), address, UnpackWords(req[at..], nb))
  {
    ghost var words := UnpackWords(req[at..], nb);
    for i := address to address + nb
      invariant forall k | 0 <= k < tab.Length && !(address <= k < i) :: tab[k] == old(tab[k])
      invariant forall k | address <= k < i :: tab[k] == words[k - address]
    {
      var j := at + 2 * (i - address);
      WordAt(req[at..], nb, i - address);
      tab[i] := MakeWord(req[j], req[j + 1]);
    }
  }

  method ReplyWriteRegisters(req: array<byte>, tab: array<word>, rsp: array<byte>, ghost m: Mapping)
    returns (length: nat)
    requires req.Length == rsp.Length == MAX_MESSAGE_LENGTH && req != rsp
    requires m.registers == tab[..]
    modifies tab, rsp
    ensures length <= 258 && (m.(registers := tab[..]), rsp[..length]) == ServeWriteRegisters(req[..], m)
  {
    var address := ReadWord(req, 2);
    var nb: word := ReadWord(req, 4);
    hide WordAtIndex, UnpackWords, Splice;
    if nb < 1 || MAX_WRITE_REGISTERS < nb {
      length := ResponseException(req, ILLEGAL_DATA_VALUE, rsp);
    } else if address + nb > tab.Length {
      length := ResponseException(req, ILLEGAL_DATA_ADDRESS, rsp);
    } else {
      StoreRegisters(tab, address, nb, req, 7);
      assert req[..][7..] == req[7..];
      Echo(req, 6, rsp);
      length := 6;
      assert req[..6] == Basis(req[..]) + req[..][2..6];
    }
  }

  method ReplyMaskWrite(req: array<byte>, reqLength: nat, tab: array<word>, rsp: array<byte>, ghost m: Mapping)
    returns (length: nat)
    requires req.Length == rsp.Length == MAX_MESSAGE_LENGTH && req != rsp
    requires 2 <= reqLength <= MAX_MESSAGE_LENGTH && m.registers == tab[..]
    modifies tab, rsp
    ensures length <= 258 && (m.(registers := tab[..]), rsp[..length]) == ServeMaskWrite(req[..], reqLength, m)
  {
    hide WordAtIndex, MaskWord, Word16, Masked, Vector16, Exception;
    var address := ReadWord(req, 2);
    var andMask := ReadWord(req, 4);
    var orMask := ReadWord(req, 6);
    if address >= tab.Length {
      length := ResponseException(req, ILLEGAL_DATA_ADDRESS, rsp);
    } else {
      var data := tab[address];
      MaskedIsMaskWord(data, andMask, orMask);
      data := Word16(Masked(Vector16(data), Vector16(andMask), Vector16(orMask)));
      tab[address] := data;
      assert tab[..] == m.registers[address := data];
      length := reqLength - 2;
      Echo(req, length, rsp);
      assert req[..][..length] == req[..length];
    }
  }

  /** Function 0x17, not refused: writes first, then reads. */
  method AnswerWriteAndRead(req: array<byte>, tab: array<word>, address: nat, nb: nat, addressWrite: nat, nbWrite: nat,
                            rsp: array<byte>)
    returns (length: nat)
    requires req.Length == rsp.Length == MAX_MESSAGE_LENGTH && req != rsp
    requires nb <= MAX_WR_READ_REGISTERS && nbWrite <= MAX_WR_WRITE_REGISTERS
    requires address + nb <= tab.Length && addressWrite + nbWrite <= tab.Length
    modifies tab, rsp
    ensures tab[..] == Splice(old(tab[..]), addressWrite, UnpackWords(req[..][11..], nbWrite))
    ensures length == 3 + 2 * nb
    ensures rsp[..length] == Basis(req[..]) + [2 * nb] + PackWords(tab[..][address..address + nb])
  {
    hide UnpackWords, PackWords, Splice;
    rsp[0], rsp[1], rsp[2] := req[0], req[1], 2 * nb;
    assert rsp[..3] == Basis(req[..]) + [2 * nb];
    StoreRegisters(tab, addressWrite, nbWrite, req, 11);
    assert req[..][11..] == req[11..];
    length := CopyRegisters(tab, address, nb, rsp, 3);
    assert tab[..][address..address + nb] == tab[address..address + nb];
  }

  method ReplyWriteAndRead(req: array<byte>, tab: array<word>, rsp: array<byte>, ghost m: Mapping)
    returns (length: nat)
    requires req.Length == rsp.Length == MAX_MESSAGE_LENGTH && req != rsp
    requires m.registers == tab[..]
    modifies tab, rsp
    ensures length <= 258 && (m.(registers := tab[..]), rsp[..length]) == ServeWriteAndRead(req[..], m)
  {
    hide WordAtIndex, UnpackWords, PackWords, Splice, Basis, Exception;
    var address := ReadWord(req, 2);
    var nb: word := ReadWord(req, 4);
    var addressWrite := ReadWord(req, 6);
    var nbWrite: word := ReadWord(req, 8);
    if nbWrite < 1 || MAX_WR_WRITE_REGISTERS < nbWrite || nb < 1 || MAX_WR_READ_REGISTERS < nb
       || req[10] != 2 * nbWrite
    {
      length := ResponseException(req, ILLEGAL_DATA_VALUE, rsp);
    } else if !InRange(address, nb, addressWrite, nbWrite, 0, tab.Length) {
      length := ResponseException(req, ILLEGAL_DATA_ADDRESS, rsp);
    } else {
      length := AnswerWriteAndRead(req, tab, address, nb, addressWrite, nbWrite, rsp);
    }
  }

  method ReplySlaveId(req: array<byte>, rsp: array<byte>) returns (length: nat)
    requires req.Length == rsp.Length == MAX_MESSAGE_LENGTH && req != rsp
    modifies rsp
    ensures length == 13 && rsp[..length] == Basis(req[..]) + [|SLAVE_ID|] + SLAVE_ID
  {
    rsp[0], rsp[1] := req[0], req[1];
    var byteCountPos := 2;
    length := 3;
    forall i | 0 <= i < |SLAVE_ID| { rsp[3 + i] := SLAVE_ID[i]; }
    length := length + |SLAVE_ID|;
    rsp[byteCountPos] := length - byteCountPos - 1;
    assert rsp[3..13] == SLAVE_ID;
  }

  /** `modbus_reply`: the request in `req[..reqLength]` is served and the answer sent. */
  method Reply(req: array<byte>, reqLength: nat, tables: Tables, line: Line) returns (rc: int)
    requires req.Length == MAX_MESSAGE_LENGTH && 2 <= reqLength <= MAX_MESSAGE_LENGTH && tables.Valid()
    requires req != tables.bits && req != tables.inputBits
    modifies tables.bits, tables.registers, line
    ensures tables.Valid()
    ensures var s := ModbusProtocol.Reply(old(req[..]), reqLength, old(tables.View()));
            tables.View() == s.mapping
            && line.pending == old(line.pending) + (if s.response.Some? then Framed(s.response.value) else [])
  {
    hide Cells, OnOff, ServeReadBits, ServeReadRegisters, ServeWriteBit, ServeWriteRegister, ServeWriteBits,
      ServeWriteRegisters, ServeMaskWrite, ServeWriteAndRead, Basis, Exception, Framed;
    var rsp := new byte[MAX_MESSAGE_LENGTH];
    var length := 0;
    ghost var m := tables.View();
    var fc := req[1];
    if fc == READ_COILS {
      length := ReplyReadBits(req, tables.bits, rsp);
    } else if fc == READ_DISCRETE_INPUTS {
      length := ReplyReadBits(req, tables.inputBits, rsp);
    } else if fc == READ_HOLDING_REGISTERS {
      length := ReplyReadRegisters(req, tables.registers, rsp);
    } else if fc == READ_INPUT_REGISTERS {
      length := ReplyReadRegisters(req, tables.inputRegisters, rsp);
    } else if fc == WRITE_SINGLE_COIL {
      length := ReplyWriteBit(req, reqLength, tables.bits, rsp, m);
    } else if fc == WRITE_SINGLE_REGISTER {
      length := ReplyWriteRegister(req, reqLength, tables.registers, rsp, m);
    } else if fc == WRITE_MULTIPLE_COILS {
      length := ReplyWriteBits(req, tables.bits, rsp, m);
    } else if fc == WRITE_MULTIPLE_REGISTERS {
      length := ReplyWriteRegisters(req, tables.registers, rsp, m);
    } else if fc == REPORT_SLAVE_ID {
      length := ReplySlaveId(req, rsp);
    } else if fc == READ_EXCEPTION_STATUS {
      return -1;
    } else if fc == MASK_WRITE_REGISTER {
      length := ReplyMaskWrite(req, reqLength, tables.registers, rsp, m);
    } else if fc == WRITE_AND_READ_REGISTERS {
      length := ReplyWriteAndRead(req, tables.registers, rsp, m);
    } else {
      length := ResponseException(req, ILLEGAL_FUNCTION, rsp);
    }
    if req[0] == BROADCAST { return 0; }
    rc := SendMsg(line, rsp, length);
  }
}
