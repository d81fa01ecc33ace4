/** `modbus_reply`: a request buffer is served from four tables updated in place. */
module ModbusServer {
  import opened Bytes
  import opened ModbusBits
  import opened ModbusWords
  import opened ModbusProtocol

  /** Coil cells are bytes holding 0 or 1. */
  predicate Cells(s: seq<byte>) {
    forall i | 0 <= i < |s| :: s[i] <= 1
  }

  function OnOff(s: seq<byte>): (bits: seq<bool>)
    ensures |bits| == |s|
  {
    seq(|s|, i requires 0 <= i < |s| => s[i] != 0)
  }

  class Tables {
    const bits: array<byte>
    const inputBits: array<byte>
    const registers: array<word>
    const inputRegisters: array<word>

    ghost predicate Valid()
      reads bits, inputBits
    {
      bits != inputBits && registers != inputRegisters && Cells(bits[..]) && Cells(inputBits[..])
    }

    ghost function View(): Mapping
      reads bits, inputBits, registers, inputRegisters
    {
      Mapping(OnOff(bits[..]), OnOff(inputBits[..]), registers[..], inputRegisters[..])
    }

    /** `modbus_mapping_new`: all cells off, all registers 0. */
    constructor (nbBits: nat, nbInputBits: nat, nbRegisters: nat, nbInputRegisters: nat)
      ensures Valid() && fresh(bits) && fresh(inputBits) && fresh(registers) && fresh(inputRegisters)
      ensures View() == Mapping(seq(nbBits, _ => false), seq(nbInputBits, _ => false),
                                seq(nbRegisters, _ => 0), seq(nbInputRegisters, _ => 0))
    {
      bits := new byte[nbBits](_ => 0);
      inputBits := new byte[nbInputBits](_ => 0);
      registers := new word[nbRegisters](_ => 0);
      inputRegisters := new word[nbInputRegisters](_ => 0);
    }
  }

  // ---------- bits and bytes ----------

  /** Coils written so far: `packed` as whole bytes up to `end`, `group` waiting in `oneByte`. */
  ghost predicate Packing(written: seq<byte>, head: seq<byte>, packed: seq<bool>, full: nat, oneByte: bv8,
                          group: seq<bool>) {
    |packed| == 8 * full && |group| <= 8 && Value(oneByte) == PackByte(group) && written == head + PackBits(packed)
  }

  /** The bytes of `nb` coils from `address` on stand behind `head`. */
  ghost predicate CoilsWritten(written: seq<byte>, head: seq<byte>, coils: seq<bool>, address: nat, nb: nat) {
    address + nb <= |coils| && written == head + PackBits(coils[address..address + nb])
  }

  /** `response_io_status`: the coils from `address` on, eight to a byte, behind `offset`. */
  method ResponseIoStatus(tab: array<byte>, address: nat, nb: nat, rsp: array<byte>, offset: nat) returns (end: nat)
    requires tab != rsp && address + nb <= tab.Length && Cells(tab[..])
    requires offset + PackedLength(nb) <= rsp.Length
    modifies rsp
    ensures end == offset + PackedLength(nb)
    ensures CoilsWritten(rsp[..end], old(rsp[..offset]), OnOff(tab[..]), address, nb)
  {
    hide Packing, PackBits, Value, PackedLength, PackByte, Taken, CoilsWritten, OnOff;
    ghost var head, cells := rsp[..offset], tab[..];
    ghost var all := OnOff(cells);
    ghost var packed, group, full := [], [], 0;
    var shift: nat, oneByte: bv8 := 0, 0;
    end := offset;
    NothingPacked(head);
    NothingTaken(all, address);
    for i := address to address + nb
      invariant tab[..] == cells
      invariant shift == |group| < 8 && Taken(all, address, i, packed, group) && |packed| == 8 * full
      invariant end == offset + full <= rsp.Length && Packing(rsp[..end], head, packed, full, oneByte, group)
    {
      assert tab[i] == cells[i];
      CellAt(cells, i);
      oneByte := AddCoil(tab[i], shift, oneByte, rsp[..end], head, packed, full, group);
      OneMore(all, address, i, packed, group);
      group := group + [all[i]];
      if shift == 7 {
        PackedSoFar(full, 8, nb);
        end := StoreByte(rsp, end, oneByte, head, packed, full, group);
        packed, group, full := packed + group, [], full + 1;
        oneByte, shift := 0, 0;
      } else {
        shift := shift + 1;
      }
    }
    TakenLength(all, address, address + nb, packed, group);
    PackedSoFar(full, |group|, nb);
    end := FlushCoils(rsp, end, shift, oneByte, head, packed, full, group);
    AllTaken(rsp[..end], head, all, address, nb, packed, group);
  }

  /** `one_byte |= tab_io_status[i] << shift`. */
  method AddCoil(cell: byte, shift: nat, oneByte: bv8, ghost written: seq<byte>, ghost head: seq<byte>,
                 ghost packed: seq<bool>, ghost full: nat, ghost group: seq<bool>)
    returns (next: bv8)
    requires cell <= 1 && shift == |group| < 8 && Packing(written, head, packed, full, oneByte, group)
    ensures Packing(written, head, packed, full, next, group + [cell != 0])
  {
    BitAdded(oneByte, group, cell);
    next := Ored(oneByte, shift, cell != 0);
  }

  /** `rsp[offset++] = one_byte`, for the last group of coils so far. */
  method StoreByte(rsp: array<byte>, at: nat, oneByte: bv8, ghost head: seq<byte>, ghost packed: seq<bool>,
                   ghost full: nat, ghost group: seq<bool>)
    returns (next: nat)
    requires at < rsp.Length && Packing(rsp[..at], head, packed, full, oneByte, group) && 0 < |group|
    modifies rsp
    ensures next == at + 1 && rsp[..next] == head + PackBits(packed + group)
    ensures |group| == 8 ==> Packing(rsp[..next], head, packed + group, full + 1, 0, [])
  {
    rsp[at] := Value(oneByte);
    next := at + 1;
    NothingPacked([]);
    hide PackBits, PackByte, Value;
    PackBitsGroup(packed, group);
    assert rsp[..next] == rsp[..at] + [rsp[at]];
  }

  lemma PackedSoFar(full: nat, group: nat, nb: nat)
    requires group <= 8 && 8 * full + group <= nb
    ensures group > 0 ==> full < PackedLength(nb)
    ensures 8 * full + group == nb && group < 8 ==> PackedLength(nb) == full + if group > 0 then 1 else 0
  {
  }

  /** The last, partly filled byte. */
  method FlushCoils(rsp: array<byte>, at: nat, shift: nat, oneByte: bv8, ghost head: seq<byte>,
                    ghost packed: seq<bool>, ghost full: nat, ghost group: seq<bool>)
    returns (end: nat)
    requires at <= rsp.Length && Packing(rsp[..at], head, packed, full, oneByte, group)
    requires shift == |group| && (shift != 0 ==> at < rsp.Length)
    modifies rsp
    ensures end == at + (if shift != 0 then 1 else 0) && rsp[..end] == head + PackBits(packed + group)
  {
    end := at;
    if shift != 0 {
      end := StoreByte(rsp, end, oneByte, head, packed, full, group);
    } else {
      AllStored(rsp[..end], head, packed, full, oneByte, group);
    }
  }

  /** The coils from `from` to `i` are those packed and those waiting. */
  ghost predicate Taken(all: seq<bool>, from: nat, i: nat, packed: seq<bool>, group: seq<bool>) {
    from <= i <= |all| && packed + group == all[from..i]
  }

  lemma CellAt(cells: seq<byte>, i: nat)
    requires Cells(cells) && i < |cells|
    ensures cells[i] <= 1 && OnOff(cells)[i] == (cells[i] != 0)
  {
  }

  lemma NothingTaken(all: seq<bool>, from: nat)
    requires from <= |all|
    ensures Taken(all, from, from, [], [])
  {
  }

  lemma OneMore(all: seq<bool>, from: nat, i: nat, packed: seq<bool>, group: seq<bool>)
    requires Taken(all, from, i, packed, group) && i < |all|
    ensures Taken(all, from, i + 1, packed, group + [all[i]])
    ensures Taken(all, from, i + 1, packed + (group + [all[i]]), [])
    ensures |packed| + |group| == i - from
  {
    assert packed + (group + [all[i]]) == (packed + group) + [all[i]];
  }

  lemma TakenLength(all: seq<bool>, from: nat, to: nat, packed: seq<bool>, group: seq<bool>)
    requires Taken(all, from, to, packed, group)
    ensures |packed| + |group| == to - from
  {
    assert |packed + group| == to - from;
  }

  lemma AllTaken(written: seq<byte>, head: seq<byte>, all: seq<bool>, address: nat, nb: nat, packed: seq<bool>,
                 group: seq<bool>)
    requires Taken(all, address, address + nb, packed, group) && written == head + PackBits(packed + group)
    ensures CoilsWritten(written, head, all, address, nb)
  {
  }

  lemma NothingPacked(head: seq<byte>)
    ensures Packing(head, head, [], 0, 0, [])
  {
  }

  lemma AllStored(written: seq<byte>, head: seq<byte>, packed: seq<bool>, full: nat, oneByte: bv8, group: seq<bool>)
    requires Packing(written, head, packed, full, oneByte, group) && group == []
    ensures written == head + PackBits(packed + group)
  {
    assert packed + group == packed;
  }

  lemma BitAdded(oneByte: bv8, group: seq<bool>, cell: byte)
    requires |group| < 8 && Value(oneByte) == PackByte(group) && cell <= 1
    ensures Value(Ored(oneByte, |group|, cell != 0)) == PackByte(group + [cell != 0])
  {
    hide PackByte, Ored, Value;
    OrAdds(oneByte, |group|, cell != 0);
    PackByteSnoc(group, cell != 0);
  }

  /** `modbus_set_bits_from_bytes`. */
  method SetBitsFromBytes(dest: array<byte>, idx: nat, nb: nat, tab: array<byte>, at: nat)
    requires dest != tab && idx + nb <= dest.Length && at + PackedLength(nb) <= tab.Length && Cells(dest[..])
    modifies dest
    ensures Cells(dest[..])
    ensures OnOff(dest[..]) == Splice(old(OnOff(dest[..])), idx, UnpackBits(tab[at..], nb))
  {
    var shift := 0;
    ghost var packed, bits, full := tab[at..], UnpackBits(tab[at..], nb), 0;
    hide TestBit, PackedLength, UnpackBits, OnOff;
    for i := idx to idx + nb
      invariant 0 <= shift < 8 && i - idx == 8 * full + shift
      invariant forall j | 0 <= j < dest.Length && !(idx <= j < i) :: dest[j] == old(dest[j])
      invariant forall j | idx <= j < i :: dest[j] == if bits[j - idx] then 1 else 0
    {
      ByteOf(packed, full, shift, nb);
      var b := tab[at + (i - idx) / 8];
      assert packed[full] == b;
      dest[i] := if TestBit(b, shift) then 1 else 0;
      if shift == 7 { full := full + 1; }
      shift := (shift + 1) % 8;
    }
    Overwritten(old(dest[..]), dest[..], idx, bits);
  }

  lemma ByteOf(packed: seq<byte>, full: nat, shift: nat, nb: nat)
    requires 8 * full + shift < nb && shift < 8 && PackedLength(nb) <= |packed|
    ensures full < PackedLength(nb) && (8 * full + shift) / 8 == full
    ensures (shift + 1) % 8 == if shift == 7 then 0 else shift + 1
    ensures UnpackBits(packed, nb)[8 * full + shift] == TestBit(packed[full], shift)
  {
    assert (8 * full + shift) / 8 == full && (8 * full + shift) % 8 == shift;
    TestBitIs(packed[full], shift);
  }

  lemma Overwritten(before: seq<byte>, after: seq<byte>, idx: nat, bits: seq<bool>)
    requires |before| == |after| && idx + |bits| <= |before| && Cells(before)
    requires forall j | 0 <= j < |before| && !(idx <= j < idx + |bits|) :: after[j] == before[j]
    requires forall j | idx <= j < idx + |bits| :: after[j] == if bits[j - idx] then 1 else 0
    ensures Cells(after) && OnOff(after) == Splice(OnOff(before), idx, bits)
  {
  }

  /** `modbus_get_byte_from_bits`. */
  method GetByteFromBits(src: array<byte>, idx: nat, nb: nat) returns (value: byte)
    requires idx + (if nb > 8 then 8 else nb) <= src.Length && Cells(src[..])
    ensures value == PackByte(OnOff(src[idx..idx + if nb > 8 then 8 else nb]))
  {
    var n := if nb > 8 then 8 else nb;
    var bits: bv8 := 0;
    for i := 0 to n
      invariant Value(bits) == PackByte(OnOff(src[idx..idx + i]))
    {
      ghost var group := OnOff(src[idx..idx + i]);
      BitAdded(bits, group, src[idx + i]);
      assert OnOff(src[idx..idx + i + 1]) == group + [src[idx + i] != 0];
      bits := Ored(bits, i, src[idx + i] != 0);
    }
    value := Value(bits);
  }
}
