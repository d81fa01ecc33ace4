/** Requests, the server's answers, the client's checks, and the operations they stand for. */
module ModbusProtocol {
  import opened Bytes
  import opened ModbusBits
  import opened ModbusFrame

  const MAX_READ_BITS: nat := 2000
  const MAX_WRITE_BITS: nat := 1968
  const MAX_READ_REGISTERS: nat := 125
  const MAX_WRITE_REGISTERS: nat := 123
  const MAX_WR_WRITE_REGISTERS: nat := 121
  const MAX_WR_READ_REGISTERS: nat := 125
  const MAX_MESSAGE_LENGTH: nat := 260

  const ILLEGAL_FUNCTION: byte := 1
  const ILLEGAL_DATA_ADDRESS: byte := 2
  const ILLEGAL_DATA_VALUE: byte := 3
  const EXCEPTION_MAX: byte := 12

  const EINVAL: int := 22
  const ENOBASE: int := 112345678
  const EMBXILADD: int := ENOBASE + 2
  const EMBXILVAL: int := ENOBASE + 3
  const EMBBADDATA: int := ENOBASE + 13
  const EMBBADEXC: int := ENOBASE + 14
  const EMBMDATA: int := ENOBASE + 16
  const EMBBADSLAVE: int := ENOBASE + 17

  /** The four tables of a server, each starting at address 0. */
  datatype Mapping = Mapping(bits: seq<bool>, inputBits: seq<bool>, registers: seq<word>, inputRegisters: seq<word>)

  /** The operations of the client library. */
  datatype Op =
    | ReadBits(addr: word, nb: nat)
    | ReadInputBits(addr: word, nb: nat)
    | ReadRegisters(addr: word, nb: nat)
    | ReadInputRegisters(addr: word, nb: nat)
    | WriteBit(addr: word, on: bool)
    | WriteRegister(addr: word, value: word)
    | WriteBits(addr: word, bitsToWrite: seq<bool>)
    | WriteRegisters(addr: word, words: seq<word>)
    | MaskWriteRegister(addr: word, andMask: word, orMask: word)
    | WriteAndRead(writeAddr: word, words: seq<word>, addr: word, nb: nat)
    | ReportSlaveId(maxDest: nat)

  /** What a call gives back: an errno, or the return value and what was stored in `dest`. */
  datatype Outcome =
    | Failed(errno: int)
    | GotBits(bits: seq<bool>)
    | GotWords(words: seq<word>)
    | Written(count: nat)
    | Identity(count: nat, dest: seq<byte>)

  function Splice<T>(s: seq<T>, at: nat, new_: seq<T>): (t: seq<T>)
    requires at + |new_| <= |s|
    ensures |t| == |s|
  {
    s[..at] + new_ + s[at + |new_|..]
  }

  const SLAVE_ID: seq<byte> := [180, 0xFF, 76, 77, 66, 51, 46, 49, 46, 52]

  // ---------- the operations themselves ----------

  function ReadTable<T>(table: seq<T>, addr: nat, nb: nat, got: seq<T> -> Outcome): Outcome {
    if nb < 1 then Failed(EMBXILVAL)
    else if addr + nb > |table| then Failed(EMBXILADD)
    else got(table[addr..addr + nb])
  }

  /** The effect of an operation on the tables, and its outcome. */
  function Direct(op: Op, m: Mapping): (r: (Mapping, Outcome)) {
    match op
    case ReadBits(addr, nb) =>
      (m, if nb > MAX_READ_BITS then Failed(EMBMDATA) else ReadTable(m.bits, addr, nb, s => GotBits(s)))
    case ReadInputBits(addr, nb) =>
      (m, if nb > MAX_READ_BITS then Failed(EMBMDATA) else ReadTable(m.inputBits, addr, nb, s => GotBits(s)))
    case ReadRegisters(addr, nb) =>
      (m, if nb > MAX_READ_REGISTERS then Failed(EMBMDATA) else ReadTable(m.registers, addr, nb, s => GotWords(s)))
    case ReadInputRegisters(addr, nb) =>
      (m, if nb > MAX_READ_REGISTERS then Failed(EMBMDATA) else ReadTable(m.inputRegisters, addr, nb, s => GotWords(s)))
    case WriteBit(addr, on) =>
      if addr >= |m.bits| then (m, Failed(EMBXILADD)) else (m.(bits := m.bits[addr := on]), Written(1))
    case WriteRegister(addr, value) =>
      if addr >= |m.registers| then (m, Failed(EMBXILADD))
      else (m.(registers := m.registers[addr := value]), Written(1))
    case WriteBits(addr, bits) =>
      if |bits| > MAX_WRITE_BITS then (m, Failed(EMBMDATA))
      else if |bits| < 1 then (m, Failed(EMBXILVAL))
      else if addr + |bits| > |m.bits| then (m, Failed(EMBXILADD))
      else (m.(bits := Splice(m.bits, addr, bits)), Written(|bits|))
    case WriteRegisters(addr, words) =>
      if |words| > MAX_WRITE_REGISTERS then (m, Failed(EMBMDATA))
      else if |words| < 1 then (m, Failed(EMBXILVAL))
      else if addr + |words| > |m.registers| then (m, Failed(EMBXILADD))
      else (m.(registers := Splice(m.registers, addr, words)), Written(|words|))
    case MaskWriteRegister(addr, andMask, orMask) =>
      if addr >= |m.registers| then (m, Failed(EMBXILADD))
      else (m.(registers := m.registers[addr := MaskWord(m.registers[addr], andMask, orMask)]), Written(1))
    case WriteAndRead(writeAddr, words, addr, nb) =>
      if |words| > MAX_WR_WRITE_REGISTERS || nb > MAX_WR_READ_REGISTERS then (m, Failed(EMBMDATA))
      else if |words| < 1 || nb < 1 then (m, Failed(EMBXILVAL))
      else if addr + nb > |m.registers| || writeAddr + |words| > |m.registers| then (m, Failed(EMBXILADD))
      else
        var registers := Splice(m.registers, writeAddr, words);
        (m.(registers := registers), GotWords(registers[addr..addr + nb]))
    case ReportSlaveId(maxDest) =>
      (m, if maxDest == 0 then Failed(EINVAL)
      else Identity(|SLAVE_ID|, SLAVE_ID[..if maxDest < |SLAVE_ID| then maxDest else |SLAVE_ID|]))
  }

  // ---------- the client's requests ----------

  /** The errno with which the library refuses a call before anything is sent. */
  function Refused(op: Op): Option<int> {
    match op
    case ReadBits(_, nb) => if nb > MAX_READ_BITS then Some(EMBMDATA) else None
    case ReadInputBits(_, nb) => if nb > MAX_READ_BITS then Some(EMBMDATA) else None
    case ReadRegisters(_, nb) => if nb > MAX_READ_REGISTERS then Some(EMBMDATA) else None
    case ReadInputRegisters(_, nb) => if nb > MAX_READ_REGISTERS then Some(EMBMDATA) else None
    case WriteBit(_, _) => None
    case WriteRegister(_, _) => None
    case WriteBits(_, bits) => if |bits| > MAX_WRITE_BITS then Some(EMBMDATA) else None
    case WriteRegisters(_, words) => if |words| > MAX_WRITE_REGISTERS then Some(EMBMDATA) else None
    case MaskWriteRegister(_, _, _) => None
    case WriteAndRead(_, words, _, nb) =>
      if |words| > MAX_WR_WRITE_REGISTERS || nb > MAX_WR_READ_REGISTERS then Some(EMBMDATA) else None
    case ReportSlaveId(maxDest) => if maxDest == 0 then Some(EINVAL) else None
  }

  function Function(op: Op): byte {
    match op
    case ReadBits(_, _) => READ_COILS
    case ReadInputBits(_, _) => READ_DISCRETE_INPUTS
    case ReadRegisters(_, _) => READ_HOLDING_REGISTERS
    case ReadInputRegisters(_, _) => READ_INPUT_REGISTERS
    case WriteBit(_, _) => WRITE_SINGLE_COIL
    case WriteRegister(_, _) => WRITE_SINGLE_REGISTER
    case WriteBits(_, _) => WRITE_MULTIPLE_COILS
    case WriteRegisters(_, _) => WRITE_MULTIPLE_REGISTERS
    case MaskWriteRegister(_, _, _) => MASK_WRITE_REGISTER
    case WriteAndRead(_, _, _, _) => WRITE_AND_READ_REGISTERS
    case ReportSlaveId(_) => REPORT_SLAVE_ID
  }

  function WordBytes(w: word): (b: seq<byte>)
    ensures |b| == 2
  {
    [High(w), Low(w)]
  }

  /** The bytes of a request behind the function code. */
  function Body(op: Op): (b: seq<byte>)
    requires Refused(op).None?
    ensures (if op.ReportSlaveId? then 0 else 4) <= |b| <= 251
  {
    match op
    case ReadBits(addr, nb) => WordBytes(addr) + WordBytes(nb)
    case ReadInputBits(addr, nb) => WordBytes(addr) + WordBytes(nb)
    case ReadRegisters(addr, nb) => WordBytes(addr) + WordBytes(nb)
    case ReadInputRegisters(addr, nb) => WordBytes(addr) + WordBytes(nb)
    case WriteBit(addr, on) => WordBytes(addr) + WordBytes(if on then 0xFF00 else 0)
    case WriteRegister(addr, value) => WordBytes(addr) + WordBytes(value)
    case WriteBits(addr, bits) =>
      WordBytes(addr) + WordBytes(|bits|) + [PackedLength(|bits|)] + PackBits(bits)
    case WriteRegisters(addr, words) =>
      WordBytes(addr) + WordBytes(|words|) + [2 * |words|] + PackWords(words)
    case MaskWriteRegister(addr, andMask, orMask) => WordBytes(addr) + WordBytes(andMask) + WordBytes(orMask)
    case WriteAndRead(writeAddr, words, addr, nb) =>
      WordBytes(addr) + WordBytes(nb) + WordBytes(writeAddr) + WordBytes(|words|) + [2 * |words|] + PackWords(words)
    case ReportSlaveId(_) => []
  }

  function Request(slave: byte, op: Op): (pdu: seq<byte>)
    requires Refused(op).None?
    ensures 2 <= |pdu| <= 253
  {
    [slave, Function(op)] + Body(op)
  }

  // ---------- the server ----------

  /** The tables after a request, and the message sent back (without its checksum). */
  datatype Served = Served(mapping: Mapping, response: Option<seq<byte>>)

  function WordAtIndex(req: seq<byte>, i: nat): word
    requires i + 1 < |req|
  {
    MakeWord(req[i], req[i + 1])
  }

  /** `response_exception`. */
  function Exception(req: seq<byte>, code: byte): (rsp: seq<byte>)
    requires |req| == MAX_MESSAGE_LENGTH
  {
    [req[0], (req[1] as int + 0x80) % 256, code]
  }

  function Basis(req: seq<byte>): seq<byte>
    requires |req| == MAX_MESSAGE_LENGTH
  {
    [req[0], req[1]]
  }

  function ServeReadBits(req: seq<byte>, table: seq<bool>): seq<byte>
    requires |req| == MAX_MESSAGE_LENGTH
  {
    var address, nb := WordAtIndex(req, 2), WordAtIndex(req, 4);
    if nb < 1 || MAX_READ_BITS < nb then Exception(req, ILLEGAL_DATA_VALUE)
    else if address + nb > |table| then Exception(req, ILLEGAL_DATA_ADDRESS)
    else Basis(req) + [PackedLength(nb)] + PackBits(table[address..address + nb])
  }

  function ServeReadRegisters(req: seq<byte>, table: seq<word>): seq<byte>
    requires |req| == MAX_MESSAGE_LENGTH
  {
    var address, nb := WordAtIndex(req, 2), WordAtIndex(req, 4);
    if nb < 1 || MAX_READ_REGISTERS < nb then Exception(req, ILLEGAL_DATA_VALUE)
    else if address + nb > |table| then Exception(req, ILLEGAL_DATA_ADDRESS)
    else Basis(req) + [2 * nb] + PackWords(table[address..address + nb])
  }

  /** The echo of a single write copies the request up to its checksum. */
  function ServeWriteBit(req: seq<byte>, length: nat, m: Mapping): (Mapping, seq<byte>)
    requires |req| == MAX_MESSAGE_LENGTH && 2 <= length <= MAX_MESSAGE_LENGTH
  {
    var address, data := WordAtIndex(req, 2), WordAtIndex(req, 4);
    if address >= |m.bits| then (m, Exception(req, ILLEGAL_DATA_ADDRESS))
    else if data == 0xFF00 || data == 0 then (m.(bits := m.bits[address := data != 0]), req[..length - 2])
    else (m, Exception(req, ILLEGAL_DATA_VALUE))
  }

  function ServeWriteRegister(req: seq<byte>, length: nat, m: Mapping): (Mapping, seq<byte>)
    requires |req| == MAX_MESSAGE_LENGTH && 2 <= length <= MAX_MESSAGE_LENGTH
  {
    var address, data := WordAtIndex(req, 2), WordAtIndex(req, 4);
    if address >= |m.registers| then (m, Exception(req, ILLEGAL_DATA_ADDRESS))
    else (m.(registers := m.registers[address := data]), req[..length - 2])
  }

  /** The byte count of the request is not compared with the quantity. */
  function ServeWriteBits(req: seq<byte>, m: Mapping): (Mapping, seq<byte>)
    requires |req| == MAX_MESSAGE_LENGTH
  {
    var address, nb := WordAtIndex(req, 2), WordAtIndex(req, 4);
    if nb < 1 || MAX_WRITE_BITS < nb then (m, Exception(req, ILLEGAL_DATA_VALUE))
    else if address + nb > |m.bits| then (m, Exception(req, ILLEGAL_DATA_ADDRESS))
    else (m.(bits := Splice(m.bits, address, UnpackBits(req[7..], nb))), Basis(req) + req[2..6])
  }

  function ServeWriteRegisters(req: seq<byte>, m: Mapping): (Mapping, seq<byte>)
    requires |req| == MAX_MESSAGE_LENGTH
  {
    var address, nb := WordAtIndex(req, 2), WordAtIndex(req, 4);
    if nb < 1 || MAX_WRITE_REGISTERS < nb then (m, Exception(req, ILLEGAL_DATA_VALUE))
    else if address + nb > |m.registers| then (m, Exception(req, ILLEGAL_DATA_ADDRESS))
    else (m.(registers := Splice(m.registers, address, UnpackWords(req[7..], nb))), Basis(req) + req[2..6])
  }

  function ServeMaskWrite(req: seq<byte>, length: nat, m: Mapping): (Mapping, seq<byte>)
    requires |req| == MAX_MESSAGE_LENGTH && 2 <= length <= MAX_MESSAGE_LENGTH
  {
    var address, andMask, orMask := WordAtIndex(req, 2), WordAtIndex(req, 4), WordAtIndex(req, 6);
    if address >= |m.registers| then (m, Exception(req, ILLEGAL_DATA_ADDRESS))
    else
      var data := MaskWord(m.registers[address], andMask, orMask);
      (m.(registers := m.registers[address := data]), req[..length - 2])
  }

  /**
   * The range test of `modbus_reply` for function 0x17, for a register table that starts at
   * `start`: its third operand repeats the read address where the write address was meant.
   */
  predicate InRange(address: word, nb: nat, addressWrite: word, nbWrite: nat, start: nat, count: nat) {
    var mappingAddress, mappingAddressWrite := address - start, addressWrite - start;
    !(mappingAddress < 0 || mappingAddress + nb > count || mappingAddress < 0 || mappingAddressWrite + nbWrite > count)
  }

  /** What the range test has to ensure before the table is written. */
  predicate WritesInside(addressWrite: word, nbWrite: nat, start: nat, count: nat) {
    start <= addressWrite && addressWrite - start + nbWrite <= count
  }

  function ServeWriteAndRead(req: seq<byte>, m: Mapping): (Mapping, seq<byte>)
    requires |req| == MAX_MESSAGE_LENGTH
  {
    var address, nb := WordAtIndex(req, 2), WordAtIndex(req, 4);
    var addressWrite, nbWrite := WordAtIndex(req, 6), WordAtIndex(req, 8);
    if nbWrite < 1 || MAX_WR_WRITE_REGISTERS < nbWrite || nb < 1 || MAX_WR_READ_REGISTERS < nb || req[10] != 2 * nbWrite
    then (m, Exception(req, ILLEGAL_DATA_VALUE))
    else if !InRange(address, nb, addressWrite, nbWrite, 0, |m.registers|)
    then (m, Exception(req, ILLEGAL_DATA_ADDRESS))
    else
      var registers := Splice(m.registers, addressWrite, UnpackWords(req[11..], nbWrite));
      (m.(registers := registers), Basis(req) + [2 * nb] + PackWords(registers[address..address + nb]))
  }

  /**
   * `modbus_reply` on a request of `length` bytes in a buffer of 260; bytes behind the
   * request are whatever the buffer held before.
   */
  function Reply(req: seq<byte>, length: nat, m: Mapping): (s: Served)
    requires |req| == MAX_MESSAGE_LENGTH && 2 <= length <= MAX_MESSAGE_LENGTH
  {
    var fc := req[1];
    if fc == READ_EXCEPTION_STATUS then Served(m, None)
    else
      var (mapping, rsp) :=
        if fc == READ_COILS then (m, ServeReadBits(req, m.bits))
        else if fc == READ_DISCRETE_INPUTS then (m, ServeReadBits(req, m.inputBits))
        else if fc == READ_HOLDING_REGISTERS then (m, ServeReadRegisters(req, m.registers))
        else if fc == READ_INPUT_REGISTERS then (m, ServeReadRegisters(req, m.inputRegisters))
        else if fc == WRITE_SINGLE_COIL then ServeWriteBit(req, length, m)
        else if fc == WRITE_SINGLE_REGISTER then ServeWriteRegister(req, length, m)
        else if fc == WRITE_MULTIPLE_COILS then ServeWriteBits(req, m)
        else if fc == WRITE_MULTIPLE_REGISTERS then ServeWriteRegisters(req, m)
        else if fc == REPORT_SLAVE_ID then (m, Basis(req) + [|SLAVE_ID|] + SLAVE_ID)
        else if fc == MASK_WRITE_REGISTER then ServeMaskWrite(req, length, m)
        else if fc == WRITE_AND_READ_REGISTERS then ServeWriteAndRead(req, m)
        else (m, Exception(req, ILLEGAL_FUNCTION));
      Served(mapping, if req[0] == BROADCAST then None else Some(rsp))
  }

  // ---------- the client's checks ----------

  datatype Checked = Accepted(count: nat) | Rejected(errno: int)

  /** `compute_response_length_from_request`, None where the length is device specific. */
  function ResponseLength(req: seq<byte>): Option<nat>
    requires |req| >= 2 && (req[1] != REPORT_SLAVE_ID ==> |req| >= 6)
  {
    var fc := req[1];
    if fc == READ_COILS || fc == READ_DISCRETE_INPUTS then Some(5 + PackedLength(WordAtIndex(req, 4)))
    else if fc == WRITE_AND_READ_REGISTERS || fc == READ_HOLDING_REGISTERS || fc == READ_INPUT_REGISTERS
    then Some(5 + 2 * WordAtIndex(req, 4))
    else if fc == READ_EXCEPTION_STATUS then Some(6)
    else if fc == REPORT_SLAVE_ID then None
    else if fc == MASK_WRITE_REGISTER then Some(10)
    else Some(8)
  }

  /** `check_confirmation` on the first `length` bytes of the response buffer. */
  function Confirm(req: seq<byte>, rsp: seq<byte>, length: nat): (c: Checked)
    requires |req| >= 2 && (req[1] != REPORT_SLAVE_ID ==> |req| >= 6)
    requires |rsp| == MAX_MESSAGE_LENGTH
    ensures c.Accepted? && req[1] == REPORT_SLAVE_ID ==> c.count == rsp[2]
  {
    var fc := rsp[1];
    if req[0] != rsp[0] && req[0] != BROADCAST then Rejected(EMBBADSLAVE)
    else if fc >= 0x80 then
      if length == 5 && req[1] == fc - 0x80 && rsp[2] < EXCEPTION_MAX then Rejected(ENOBASE + rsp[2])
      else Rejected(EMBBADEXC)
    else
      var expected := ResponseLength(req);
      if expected.Some? && expected.value != length then Rejected(EMBBADDATA)
      else if fc != req[1] then Rejected(EMBBADDATA)
      else
        var (asked, got) :=
          if fc == READ_COILS || fc == READ_DISCRETE_INPUTS then (PackedLength(WordAtIndex(req, 4)), rsp[2] as nat)
          else if fc == WRITE_AND_READ_REGISTERS || fc == READ_HOLDING_REGISTERS || fc == READ_INPUT_REGISTERS
          then (WordAtIndex(req, 4) as nat, rsp[2] / 2)
          else if fc == WRITE_MULTIPLE_COILS || fc == WRITE_MULTIPLE_REGISTERS
          then (WordAtIndex(req, 4) as nat, WordAtIndex(rsp, 4) as nat)
          else if fc == REPORT_SLAVE_ID then (rsp[2] as nat, rsp[2] as nat)
          else (1, 1);
        if asked == got then Accepted(got) else Rejected(EMBBADDATA)
  }

  function Least(a: nat, b: nat): nat { if a < b then a else b }

  /** What the operation returns and stores in `dest`, from the checked response. */
  function Conclude(slave: byte, op: Op, rsp: seq<byte>, length: nat): (o: Outcome)
    requires Refused(op).None? && |rsp| == MAX_MESSAGE_LENGTH
  {
    match Confirm(Request(slave, op), rsp, length)
    case Rejected(errno) => Failed(errno)
    case Accepted(count) =>
      match op
      case ReadBits(_, nb) => GotBits(UnpackBits(rsp[3..], nb))
      case ReadInputBits(_, nb) => GotBits(UnpackBits(rsp[3..], nb))
      case ReadRegisters(_, nb) => GotWords(UnpackWords(rsp[3..], nb))
      case ReadInputRegisters(_, nb) => GotWords(UnpackWords(rsp[3..], nb))
      case WriteBit(_, _) => Written(count)
      case WriteRegister(_, _) => Written(count)
      case WriteBits(_, _) => Written(count)
      case WriteRegisters(_, _) => Written(count)
      case MaskWriteRegister(_, _, _) => Written(count)
      case WriteAndRead(_, _, _, nb) => GotWords(UnpackWords(rsp[3..], nb))
      case ReportSlaveId(maxDest) => Identity(count, rsp[3..3 + Least(count, maxDest)])
  }
}
