/** What a server does with each received request: a judgement of its bytes, apart from the reply code. */
module ModbusServed {
  import opened Bytes
  import opened ModbusBits
  import opened ModbusFrame
  import opened ModbusProtocol
  import opened ModbusStale

  /** No answer at all, an exception, or an operation to carry out. */
  datatype Verdict = Silent | Refuse(code: byte) | Carry(op: Op)

  function Number(req: seq<byte>, i: nat): word
    requires i + 1 < |req|
  {
    256 * (req[i] as int) + req[i + 1]
  }

  /** Coils from byte `at` on, eight to a byte, the first one lowest. */
  function Coils(req: seq<byte>, at: nat, n: nat): (bits: seq<bool>)
    requires at + (n + 7) / 8 <= |req|
    ensures |bits| == n
  {
    seq(n, k requires 0 <= k < n => (req[at + k / 8] / Pow2(k % 8)) % 2 == 1)
  }

  /** Registers from byte `at` on, the high byte first. */
  function Registers(req: seq<byte>, at: nat, n: nat): (words: seq<word>)
    requires at + 2 * n <= |req|
    ensures |words| == n
  {
    seq(n, k requires 0 <= k < n => Number(req, at + 2 * k))
  }

  /** Exception 3 for a quantity outside its limits, 2 for a place outside the table, and 0 for neither. */
  function Fault(n: nat, most: nat, address: nat, size: nat): (code: byte)
    ensures code == 0 <==> 1 <= n <= most && address + n <= size
  {
    if n == 0 || n > most then 3 else if address + n > size then 2 else 0
  }

  function Unless(fault: byte, op: Op): Verdict {
    if fault != 0 then Refuse(fault) else Carry(op)
  }

  /** The judgement of a request; exception 1 is for an unknown function. */
  function Judge(req: seq<byte>, m: Mapping): Verdict
    requires |req| == 260
  {
    var address, n := Number(req, 2), Number(req, 4);
    match req[1]
    case 0x01 => Unless(Fault(n, 2000, address, |m.bits|), ReadBits(address, n))
    case 0x02 => Unless(Fault(n, 2000, address, |m.inputBits|), ReadInputBits(address, n))
    case 0x03 => Unless(Fault(n, 125, address, |m.registers|), ReadRegisters(address, n))
    case 0x04 => Unless(Fault(n, 125, address, |m.inputRegisters|), ReadInputRegisters(address, n))
    case 0x05 =>
      if address >= |m.bits| then Refuse(2)
      else if n == 0xFF00 then Carry(WriteBit(address, true))
      else if n == 0 then Carry(WriteBit(address, false)) else Refuse(3)
    case 0x06 => if address >= |m.registers| then Refuse(2) else Carry(WriteRegister(address, n))
    case 0x07 => Silent
    case 0x0F => (
      var fault := Fault(n, 1968, address, |m.bits|);
      if fault != 0 then Refuse(fault) else Carry(WriteBits(address, Coils(req, 7, n))))
    case 0x10 => (
      var fault := Fault(n, 123, address, |m.registers|);
      if fault != 0 then Refuse(fault) else Carry(WriteRegisters(address, Registers(req, 7, n))))
    case 0x11 => Carry(ReportSlaveId(10))
    case 0x16 =>
      if address >= |m.registers| then Refuse(2) else Carry(MaskWriteRegister(address, n, Number(req, 6)))
    case 0x17 => (
      var addressWrite, nWrite := Number(req, 6), Number(req, 8);
      if n == 0 || n > 125 || nWrite == 0 || nWrite > 121 || req[10] != 2 * nWrite then Refuse(3)
      else if address + n > |m.registers| || addressWrite + nWrite > |m.registers| then Refuse(2)
      else Carry(WriteAndRead(addressWrite, Registers(req, 11, nWrite), address, n)))
    case _ => Refuse(1)
  }

  /** The message that answers a carried-out operation, from its outcome. */
  function Answer(slave: byte, op: Op, outcome: Outcome): seq<byte>
    requires Refused(op).None? && !outcome.Failed?
  {
    match outcome
    case GotBits(bits) => [slave, Function(op), PackedLength(|bits|) % 256] + PackBits(bits)
    case GotWords(words) => [slave, Function(op), 2 * |words| % 256] + PackWords(words)
    case Written(count) =>
      if op.WriteBits? || op.WriteRegisters? then Request(slave, op)[..6] else Request(slave, op)
    case Identity(count, dest) => [slave, Function(op), count % 256] + dest
  }

  /** The request for an operation is what was received, or for a multiple write its first six bytes. */
  predicate Asked(req: seq<byte>, length: nat, op: Op)
    requires |req| == 260 && 2 <= length <= 260
  {
    Refused(op).None?
    && if op.WriteBits? || op.WriteRegisters? then req[..6] == Request(req[0], op)[..6]
       else req[..length - 2] == Request(req[0], op)
  }

  /** Tables and answer are those of the judgement. */
  predicate Judged(req: seq<byte>, length: nat, m: Mapping)
    requires |req| == 260 && 2 <= length <= 260
  {
    var served := Reply(req, length, m);
    match Judge(req, m)
    case Silent => served == Served(m, None)
    case Refuse(code) =>
      served == Served(m, if req[0] == 0 then None else Some([req[0], (req[1] as int + 0x80) % 256, code]))
    case Carry(op) =>
      var (after, outcome) := Direct(op, m);
      Asked(req, length, op) && !outcome.Failed?
      && served == Served(after, if req[0] == 0 then None else Some(Answer(req[0], op, outcome)))
  }

  // ---------- bytes, words, coils ----------

  lemma Doubled(p: int, q: int)
    ensures 2 * p * q == 2 * (p * q)
  {
  }

  lemma DivideTwice(b: nat, p: nat)
    requires p > 0
    ensures b / 2 / p == b / (2 * p)
  {
    var half := b / 2;
    var q, r := half / p, half % p;
    assert half == p * q + r;
    Doubled(p, q);
    DivisionIs(b, q, 2 * r + b % 2, 2 * p);
  }

  lemma {:induction false} BitIsDigit(b: nat, i: nat)
    ensures BitOf(b, i) <==> (b / Pow2(i)) % 2 == 1
  {
    if i > 0 {
      BitIsDigit(b / 2, i - 1);
      DivideTwice(b, Pow2(i - 1));
    }
  }

  lemma CoilsAreUnpacked(req: seq<byte>, at: nat, n: nat)
    requires at + (n + 7) / 8 <= |req|
    ensures Coils(req, at, n) == UnpackBits(req[at..], n)
  {
    hide BitOf, Pow2;
    forall k | 0 <= k < n ensures Coils(req, at, n)[k] == UnpackBits(req[at..], n)[k] {
      BitIsDigit(req[at + k / 8], k % 8);
    }
  }

  lemma RegistersAreUnpacked(req: seq<byte>, at: nat, n: nat)
    requires |req| == 260 && at + 2 * n <= 260
    ensures Registers(req, at, n) == UnpackWords(req[at..], n)
  {
  }

  lemma NumberAt(req: seq<byte>, i: nat)
    requires i + 1 < |req|
    ensures WordAtIndex(req, i) == Number(req, i)
    ensures req[i] == High(Number(req, i)) && req[i + 1] == Low(Number(req, i))
  {
  }

  lemma {:induction false} PackedRegisters(req: seq<byte>, at: nat, n: nat)
    requires at + 2 * n <= |req|
    ensures PackWords(Registers(req, at, n)) == req[at..at + 2 * n]
  {
    if n > 0 {
      var words := Registers(req, at, n);
      assert words[..n - 1] == Registers(req, at, n - 1);
      PackedRegisters(req, at, n - 1);
      NumberAt(req, at + 2 * (n - 1));
    }
  }

  // ---------- function by function ----------

  /** The exception with a given code. */
  function Exceptional(req: seq<byte>, code: byte): seq<byte>
    requires |req| == 260
  {
    [req[0], (req[1] as int + 0x80) % 256, code]
  }

  lemma LongEnough(req: seq<byte>, length: nat)
    requires Arrived(req, length)
    ensures |req| == 260 && 4 <= length <= 260
  {
    hide Scan;
    RequestLength(req, length);
  }

  lemma ReadBitsServed(req: seq<byte>, table: seq<bool>)
    requires |req| == 260
    ensures var address, n := Number(req, 2), Number(req, 4);
            var fault := Fault(n, 2000, address, |table|);
            ServeReadBits(req, table) == if fault != 0 then Exceptional(req, fault)
              else [req[0], req[1], PackedLength(n)] + PackBits(table[address..address + n])
  {
    hide PackBits, WordAtIndex, Number;
    NumberAt(req, 2);
    NumberAt(req, 4);
  }

  /** The first six bytes of a request are slave, function and two words. */
  lemma SixBytes(req: seq<byte>, op: Op)
    requires |req| == 260 && Refused(op).None? && Function(op) == req[1] && |Body(op)| >= 4
    requires Body(op)[..4] == WordBytes(Number(req, 2)) + WordBytes(Number(req, 4))
    ensures Request(req[0], op)[..6] == req[..6]
  {
    hide Body, High, Low, Number;
    NumberAt(req, 2);
    NumberAt(req, 4);
    var b := Body(op)[..4];
    assert Request(req[0], op)[..6] == [req[0], req[1]] + b;
    assert req[..6] == [req[0], req[1]] + [req[2], req[3], req[4], req[5]];
  }

  lemma ReadAsked(req: seq<byte>, length: nat, op: Op)
    requires Arrived(req, length) && req[1] in {1, 2, 3, 4} && Refused(op).None? && Function(op) == req[1]
    requires Body(op) == WordBytes(Number(req, 2)) + WordBytes(Number(req, 4))
    requires op.ReadBits? || op.ReadInputBits? || op.ReadRegisters? || op.ReadInputRegisters?
    ensures 2 <= length <= 260 && Asked(req, length, op)
  {
    hide Scan, Body, WordBytes, Number;
    RequestLength(req, length);
    assert Body(op)[..4] == Body(op);
    SixBytes(req, op);
    assert Request(req[0], op)[..6] == Request(req[0], op);
  }

  lemma ReadBitsJudged(req: seq<byte>, length: nat, m: Mapping)
    requires Arrived(req, length) && req[1] in {1, 2} && 2 <= length <= 260
    ensures Judged(req, length, m)
  {
    hide Scan, Asked, PackBits, Number, ServeReadBits, WordBytes, Request, Fault;
    var address, n := Number(req, 2), Number(req, 4);
    if req[1] == 1 {
      ReadBitsServed(req, m.bits);
      if Fault(n, 2000, address, |m.bits|) == 0 { ReadAsked(req, length, ReadBits(address, n)); }
    } else {
      ReadBitsServed(req, m.inputBits);
      if Fault(n, 2000, address, |m.inputBits|) == 0 { ReadAsked(req, length, ReadInputBits(address, n)); }
    }
  }

  lemma ReadWordsServed(req: seq<byte>, table: seq<word>)
    requires |req| == 260
    ensures var address, n := Number(req, 2), Number(req, 4);
            var fault := Fault(n, 125, address, |table|);
            ServeReadRegisters(req, table) == if fault != 0 then Exceptional(req, fault)
              else [req[0], req[1], 2 * n] + PackWords(table[address..address + n])
  {
    hide PackWords, WordAtIndex, Number;
    NumberAt(req, 2);
    NumberAt(req, 4);
  }

  lemma ReadWordsJudged(req: seq<byte>, length: nat, m: Mapping)
    requires Arrived(req, length) && req[1] in {3, 4} && 2 <= length <= 260
    ensures Judged(req, length, m)
  {
    hide Scan, Asked, PackWords, Number, ServeReadRegisters, WordBytes, Request, Fault;
    var address, n := Number(req, 2), Number(req, 4);
    if req[1] == 3 {
      ReadWordsServed(req, m.registers);
      if Fault(n, 125, address, |m.registers|) == 0 { ReadAsked(req, length, ReadRegisters(address, n)); }
    } else {
      ReadWordsServed(req, m.inputRegisters);
      if Fault(n, 125, address, |m.inputRegisters|) == 0 { ReadAsked(req, length, ReadInputRegisters(address, n)); }
    }
  }

  lemma SingleAsked(req: seq<byte>, length: nat, op: Op)
    requires Arrived(req, length) && req[1] in {5, 6} && Refused(op).None? && Function(op) == req[1]
    requires Body(op) == WordBytes(Number(req, 2)) + WordBytes(Number(req, 4))
    requires op.WriteBit? || op.WriteRegister?
    ensures length == 8 && Asked(req, length, op) && Request(req[0], op) == req[..6]
  {
    hide Scan, Body, WordBytes, Number;
    RequestLength(req, length);
    assert Body(op)[..4] == Body(op);
    SixBytes(req, op);
    assert Request(req[0], op)[..6] == Request(req[0], op);
  }

  lemma WriteBitServed(req: seq<byte>, length: nat, m: Mapping)
    requires |req| == 260 && 2 <= length <= 260
    ensures var address, n := Number(req, 2), Number(req, 4);
            ServeWriteBit(req, length, m) ==
            if address >= |m.bits| then (m, Exceptional(req, 2))
            else if n == 0xFF00 then (m.(bits := m.bits[address := true]), req[..length - 2])
            else if n == 0 then (m.(bits := m.bits[address := false]), req[..length - 2])
            else (m, Exceptional(req, 3))
  {
    hide WordAtIndex, Number;
    NumberAt(req, 2);
    NumberAt(req, 4);
  }

  lemma WriteBitJudged(req: seq<byte>, length: nat, m: Mapping)
    requires Arrived(req, length) && req[1] == 5 && 2 <= length <= 260
    ensures Judged(req, length, m)
  {
    hide Scan, Asked, Number, ServeWriteBit, WordBytes, Request;
    var address, n := Number(req, 2), Number(req, 4);
    WriteBitServed(req, length, m);
    if n == 0xFF00 { SingleAsked(req, length, WriteBit(address, true)); }
    if n == 0 { SingleAsked(req, length, WriteBit(address, false)); }
  }

  lemma WriteRegisterServed(req: seq<byte>, length: nat, m: Mapping)
    requires |req| == 260 && 2 <= length <= 260
    ensures var address, n := Number(req, 2), Number(req, 4);
            ServeWriteRegister(req, length, m) ==
            if address >= |m.registers| then (m, Exceptional(req, 2))
            else (m.(registers := m.registers[address := n]), req[..length - 2])
  {
    hide WordAtIndex, Number;
    NumberAt(req, 2);
    NumberAt(req, 4);
  }

  lemma WriteRegisterJudged(req: seq<byte>, length: nat, m: Mapping)
    requires Arrived(req, length) && req[1] == 6 && 2 <= length <= 260
    ensures Judged(req, length, m)
  {
    hide Scan, Asked, Number, ServeWriteRegister, WordBytes, Request;
    var address, n := Number(req, 2), Number(req, 4);
    WriteRegisterServed(req, length, m);
    SingleAsked(req, length, WriteRegister(address, n));
  }

  lemma WriteBitsServed(req: seq<byte>, m: Mapping)
    requires |req| == 260
    ensures var address, n := Number(req, 2), Number(req, 4);
            var fault := Fault(n, 1968, address, |m.bits|);
            ServeWriteBits(req, m) == if fault != 0 then (m, Exceptional(req, fault))
              else (m.(bits := Splice(m.bits, address, Coils(req, 7, n))), req[..6])
  {
    hide WordAtIndex, Number, UnpackBits, Coils, Splice;
    NumberAt(req, 2);
    NumberAt(req, 4);
    assert [req[0], req[1]] + req[2..6] == req[..6];
    if Number(req, 4) <= 1968 { CoilsAreUnpacked(req, 7, Number(req, 4)); }
  }

  lemma ManyAsked(req: seq<byte>, length: nat, op: Op)
    requires |req| == 260 && 2 <= length <= 260 && Refused(op).None? && Function(op) == req[1]
    requires op.WriteBits? || op.WriteRegisters?
    requires op.addr == Number(req, 2)
    requires (if op.WriteBits? then |op.bitsToWrite| else |op.words|) == Number(req, 4)
    ensures Asked(req, length, op) && Request(req[0], op)[..6] == req[..6]
  {
    hide Number, PackBits, PackWords, High, Low;
    assert Body(op)[..4] == WordBytes(Number(req, 2)) + WordBytes(Number(req, 4));
    SixBytes(req, op);
  }

  lemma WriteBitsJudged(req: seq<byte>, length: nat, m: Mapping)
    requires Arrived(req, length) && req[1] == 0x0F && 2 <= length <= 260
    ensures Judged(req, length, m)
  {
    hide Scan, Asked, Number, ServeWriteBits, Request, Fault, Splice;
    var address, n := Number(req, 2), Number(req, 4);
    WriteBitsServed(req, m);
    if Fault(n, 1968, address, |m.bits|) == 0 { ManyAsked(req, length, WriteBits(address, Coils(req, 7, n))); }
  }

  lemma WriteRegistersServed(req: seq<byte>, m: Mapping)
    requires |req| == 260
    ensures var address, n := Number(req, 2), Number(req, 4);
            var fault := Fault(n, 123, address, |m.registers|);
            ServeWriteRegisters(req, m) == if fault != 0 then (m, Exceptional(req, fault))
              else (m.(registers := Splice(m.registers, address, Registers(req, 7, n))), req[..6])
  {
    hide WordAtIndex, Number, UnpackWords, Registers, Splice;
    NumberAt(req, 2);
    NumberAt(req, 4);
    assert [req[0], req[1]] + req[2..6] == req[..6];
    if Number(req, 4) <= 123 { RegistersAreUnpacked(req, 7, Number(req, 4)); }
  }

  lemma WriteRegistersJudged(req: seq<byte>, length: nat, m: Mapping)
    requires Arrived(req, length) && req[1] == 0x10 && 2 <= length <= 260
    ensures Judged(req, length, m)
  {
    hide Scan, Asked, Number, ServeWriteRegisters, Request, Fault, Splice;
    var address, n := Number(req, 2), Number(req, 4);
    WriteRegistersServed(req, m);
    if Fault(n, 123, address, |m.registers|) == 0 {
      ManyAsked(req, length, WriteRegisters(address, Registers(req, 7, n)));
    }
  }

  lemma ReportAsked(req: seq<byte>, length: nat)
    requires Arrived(req, length) && req[1] == 0x11
    ensures 2 <= length <= 260 && Asked(req, length, ReportSlaveId(10))
  {
    hide Scan;
    RequestLength(req, length);
    assert [req[0], req[1]] + [] == req[..2];
  }

  lemma ReportJudged(req: seq<byte>, length: nat, m: Mapping)
    requires Arrived(req, length) && req[1] == 0x11 && 2 <= length <= 260
    ensures Judged(req, length, m)
  {
    hide Scan, Number, Asked, Request;
    ReportAsked(req, length);
    assert SLAVE_ID[..10] == SLAVE_ID;
    assert Basis(req) + [10] == [req[0], req[1], 10];
  }

  lemma MaskWriteServed(req: seq<byte>, length: nat, m: Mapping)
    requires |req| == 260 && 2 <= length <= 260
    ensures var address := Number(req, 2);
            ServeMaskWrite(req, length, m) ==
            if address >= |m.registers| then (m, Exceptional(req, 2))
            else
              var data := MaskWord(m.registers[address], Number(req, 4), Number(req, 6));
              (m.(registers := m.registers[address := data]), req[..length - 2])
  {
    hide WordAtIndex, Number, MaskWord;
    NumberAt(req, 2);
    NumberAt(req, 4);
    NumberAt(req, 6);
  }

  lemma MaskWriteAsked(req: seq<byte>, length: nat)
    requires Arrived(req, length) && req[1] == 0x16
    ensures var op := MaskWriteRegister(Number(req, 2), Number(req, 4), Number(req, 6));
            length == 10 && Asked(req, length, op) && Request(req[0], op) == req[..8]
  {
    hide Scan, Number, High, Low;
    RequestLength(req, length);
    NumberAt(req, 2);
    NumberAt(req, 4);
    NumberAt(req, 6);
  }

  lemma MaskWriteJudged(req: seq<byte>, length: nat, m: Mapping)
    requires Arrived(req, length) && req[1] == 0x16 && 2 <= length <= 260
    ensures Judged(req, length, m)
  {
    hide Scan, Asked, Number, ServeMaskWrite, Request, MaskWord;
    MaskWriteServed(req, length, m);
    MaskWriteAsked(req, length);
  }

  lemma WriteAndReadServed(req: seq<byte>, m: Mapping)
    requires |req| == 260
    ensures var address, n, addressWrite, nWrite := Number(req, 2), Number(req, 4), Number(req, 6), Number(req, 8);
            ServeWriteAndRead(req, m) ==
            if n == 0 || n > 125 || nWrite == 0 || nWrite > 121 || req[10] != 2 * nWrite
            then (m, Exceptional(req, 3))
            else if address + n > |m.registers| || addressWrite + nWrite > |m.registers|
            then (m, Exceptional(req, 2))
            else
              var registers := Splice(m.registers, addressWrite, Registers(req, 11, nWrite));
              (m.(registers := registers), [req[0], req[1], 2 * n] + PackWords(registers[address..address + n]))
  {
    hide WordAtIndex, Number, UnpackWords, Registers, Splice, PackWords;
    NumberAt(req, 2);
    NumberAt(req, 4);
    NumberAt(req, 6);
    NumberAt(req, 8);
    var n := Number(req, 4);
    if n <= 125 { assert Basis(req) + [2 * n] == [req[0], req[1], 2 * n]; }
    if Number(req, 8) <= 121 { RegistersAreUnpacked(req, 11, Number(req, 8)); }
  }

  lemma ElevenBytes(req: seq<byte>, op: Op)
    requires |req| == 260 && Refused(op).None? && op.WriteAndRead? && req[1] == 0x17
    requires op.addr == Number(req, 2) && op.nb == Number(req, 4) && op.writeAddr == Number(req, 6)
    requires |op.words| == Number(req, 8) && req[10] == 2 * Number(req, 8)
    ensures Request(req[0], op) == req[..11] + PackWords(op.words)
  {
    hide Number, High, Low, PackWords;
    NumberAt(req, 2);
    NumberAt(req, 4);
    NumberAt(req, 6);
    NumberAt(req, 8);
    var head := WordBytes(op.addr) + WordBytes(op.nb) + WordBytes(op.writeAddr) + WordBytes(|op.words|);
    assert [req[0], req[1]] + (head + [2 * |op.words|]) == req[..11];
    Assoc([req[0], req[1]], head + [2 * |op.words|], PackWords(op.words));
  }

  lemma WriteAndReadAsked(req: seq<byte>, length: nat)
    requires Arrived(req, length) && req[1] == 0x17
    requires 1 <= Number(req, 8) <= 121 && req[10] == 2 * Number(req, 8) && Number(req, 4) <= 125
    ensures var nWrite: nat := Number(req, 8);
            var op := WriteAndRead(Number(req, 6), Registers(req, 11, nWrite), Number(req, 2), Number(req, 4));
            2 <= length <= 260 && Asked(req, length, op)
  {
    hide Scan, Number, Registers, PackWords, WordBytes, Body;
    RequestLength(req, length);
    var nWrite: nat := Number(req, 8);
    var op := WriteAndRead(Number(req, 6), Registers(req, 11, nWrite), Number(req, 2), Number(req, 4));
    ElevenBytes(req, op);
    PackedRegisters(req, 11, nWrite);
    assert req[..length - 2] == req[..11] + req[11..11 + 2 * nWrite];
  }

  lemma WriteAndReadJudged(req: seq<byte>, length: nat, m: Mapping)
    requires Arrived(req, length) && req[1] == 0x17 && 2 <= length <= 260
    ensures Judged(req, length, m)
  {
    hide Scan, Asked, Number, ServeWriteAndRead, Request, Splice, Registers, PackWords;
    WriteAndReadServed(req, m);
    var n, nWrite := Number(req, 4), Number(req, 8);
    if n <= 125 && 1 <= nWrite <= 121 && req[10] == 2 * nWrite { WriteAndReadAsked(req, length); }
  }

  lemma OthersJudged(req: seq<byte>, length: nat, m: Mapping)
    requires Arrived(req, length) && 2 <= length <= 260
    requires req[1] !in {1, 2, 3, 4, 5, 6, 0x0F, 0x10, 0x11, 0x16, 0x17}
    ensures Judged(req, length, m)
  {
    hide Scan, Number;
  }

  /**
   * Every received request: no answer to function 7, an exception that leaves the tables as they are, or
   * the operation it asks for carried out and answered with its outcome. A broadcast is never answered.
   */
  lemma ServedAsJudged(req: seq<byte>, length: nat, m: Mapping)
    requires Arrived(req, length)
    ensures 2 <= length <= 260 && Judged(req, length, m)
  {
    hide Judged, Scan, MetaLength;
    LongEnough(req, length);
    var fc := req[1];
    if fc in {1, 2} { ReadBitsJudged(req, length, m); }
    else if fc in {3, 4} { ReadWordsJudged(req, length, m); }
    else if fc == 5 { WriteBitJudged(req, length, m); }
    else if fc == 6 { WriteRegisterJudged(req, length, m); }
    else if fc == 0x0F { WriteBitsJudged(req, length, m); }
    else if fc == 0x10 { WriteRegistersJudged(req, length, m); }
    else if fc == 0x11 { ReportJudged(req, length, m); }
    else if fc == 0x16 { MaskWriteJudged(req, length, m); }
    else if fc == 0x17 { WriteAndReadJudged(req, length, m); }
    else { OthersJudged(req, length, m); }
  }

  /** The answer to function 0x11: an identity, the run indicator, and `LMB3.1.4`. */
  lemma IdentityAnswered(req: seq<byte>, length: nat, m: Mapping)
    requires Arrived(req, length) && req[0] != 0 && req[1] == 0x11
    ensures 2 <= length <= 260
    ensures Reply(req, length, m).response
         == Some([req[0], 0x11, 10, 180, 0xFF, 76, 77, 66, 51, 46, 49, 46, 52])
  {
    hide Scan, Number;
    LongEnough(req, length);
    assert Basis(req) + [10] + SLAVE_ID == [req[0], 0x11, 10, 180, 0xFF, 76, 77, 66, 51, 46, 49, 46, 52];
  }
}
