/** The buffer-backed input stream and the readers that consume it step by step. */
module PbIStream {
  import opened Bytes
  import opened PbVarint
  import opened PbDecode

  lemma SliceTwice(m: seq<byte>, at: nat, n: nat, k: nat)
    requires at + n + k <= |m|
    ensures m[at..at + n + k][..n] == m[at..at + n] && m[at..at + n + k][n..] == m[at + n..at + n + k]
  {
  }

  class IStream {
    /** The memory the stream points into. */
    const memory: seq<byte>
    var state: nat
    var bytesLeft: nat

    ghost predicate Valid()
      reads this
    {
      state + bytesLeft <= |memory|
    }

    ghost function Contents(): seq<byte>
      requires Valid()
      reads this
    {
      memory[state..state + bytesLeft]
    }

    ghost function End(): nat
      reads this
    {
      state + bytesLeft
    }

    /** `pb_istream_from_buffer`, at an offset so that substreams can be copied. */
    constructor (memory: seq<byte>, state: nat, bytesLeft: nat)
      requires state + bytesLeft <= |memory|
      ensures Valid() && this.memory == memory && this.state == state && this.bytesLeft == bytesLeft
    {
      this.memory := memory;
      this.state := state;
      this.bytesLeft := bytesLeft;
    }

    /** `pb_read` into a buffer, with the copy loop of `buf_read`. */
    method Read(count: nat) returns (ok: bool, data: seq<byte>)
      requires Valid()
      modifies this
      ensures Valid() && End() == old(End())
      ensures ok <==> Take(old(Contents()), count).Ok?
      ensures ok ==> Ok(data, Contents()) == Take(old(Contents()), count)
      ensures !ok ==> Contents() == old(Contents())
    {
      data := [];
      if bytesLeft < count {
        return false, data;
      }
      for i := 0 to count
        invariant data == memory[state..state + i]
      {
        data := data + [memory[state + i]];
      }
      state := state + count;
      bytesLeft := bytesLeft - count;
      assert data == old(Contents())[..count];
      assert Contents() == old(Contents())[count..];
      return true, data;
    }

    method ReadByte() returns (ok: bool, b: byte)
      requires Valid()
      modifies this
      ensures Valid() && End() == old(End())
      ensures ok <==> old(bytesLeft) > 0
      ensures ok ==> b == old(Contents())[0] && Contents() == old(Contents())[1..]
      ensures ok ==> bytesLeft == old(bytesLeft) - 1
      ensures !ok ==> Contents() == old(Contents())
    {
      if bytesLeft == 0 {
        return false, 0;
      }
      b := memory[state];
      state := state + 1;
      bytesLeft := bytesLeft - 1;
      return true, b;
    }

    /** The seven bits of a byte never overlap the ones read before, so `|=` adds. */
    method DecodeVarint() returns (ok: bool, dest: nat)
      requires Valid()
      modifies this
      ensures Valid() && End() == old(End())
      ensures ok <==> PbVarint.DecodeVarint(old(Contents())).Ok?
      ensures ok ==> Ok(dest, Contents()) == PbVarint.DecodeVarint(old(Contents()))
    {
      var bitpos: nat, result: nat := 0, 0;
      while true
        invariant Valid() && End() == old(End())
        invariant PbVarint.DecodeVarint(old(Contents())) == DecodeVarintFrom(Contents(), bitpos, result)
        decreases bytesLeft
      {
        if bitpos >= 64 {
          return false, 0;
        }
        var got, b := ReadByte();
        if !got {
          return false, 0;
        }
        result := result + ShiftIn64(b, bitpos);
        bitpos := bitpos + 7;
        if b < 128 {
          return true, result;
        }
      }
    }

    /** `pb_decode_varint32_eof`; `eof` only tells an empty stream. */
    method DecodeVarint32() returns (ok: bool, dest: nat, eof: bool)
      requires Valid()
      modifies this
      ensures Valid() && End() == old(End())
      ensures ok <==> PbVarint.DecodeVarint32(old(Contents())).Ok?
      ensures ok ==> Ok(dest, Contents()) == PbVarint.DecodeVarint32(old(Contents()))
      ensures eof <==> old(bytesLeft) == 0
    {
      var got, b := ReadByte();
      if !got {
        return false, 0, true;
      }
      if b < 128 {
        return true, b, false;
      }
      var bitpos: nat, result: nat := 7, b % 128;
      while true
        invariant Valid() && End() == old(End())
        invariant PbVarint.DecodeVarint32(old(Contents())) == DecodeVarint32From(Contents(), bitpos, result)
        decreases bytesLeft
      {
        got, b := ReadByte();
        if !got {
          return false, 0, false;
        }
        if bitpos >= 32 {
          var signExtension := if bitpos < 63 then 0xFF else 0x01;
          if b % 128 != 0 && (result < 0x8000_0000 || b != signExtension) {
            return false, 0, false;
          }
        } else {
          result := result + ShiftIn32(b, bitpos);
        }
        bitpos := bitpos + 7;
        if b < 128 {
          if bitpos == 35 && b / 16 % 8 != 0 {
            return false, 0, false;
          }
          return true, result, false;
        }
      }
    }

    method DecodeTag() returns (ok: bool, wire: nat, tag: nat, eof: bool)
      requires Valid() && bytesLeft > 0
      modifies this
      ensures Valid() && End() == old(End())
      ensures ok ==> TagRead(tag, wire, Contents()) == PbDecode.DecodeTag(old(Contents()))
      ensures !ok ==> PbDecode.DecodeTag(old(Contents())) == if eof then TagEnd else TagError
    {
      var got, temp, end := DecodeVarint32();
      if !got {
        return false, 0, 0, end;
      }
      if temp == 0 {
        return false, 0, 0, true;
      }
      return true, temp % 8, temp / 8, false;
    }

    method SkipVarint() returns (ok: bool)
      requires Valid()
      modifies this
      ensures Valid() && End() == old(End())
      ensures ok <==> PbDecode.SkipVarint(old(Contents())).Ok?
      ensures ok ==> Ok((), Contents()) == PbDecode.SkipVarint(old(Contents()))
    {
      while true
        invariant Valid() && End() == old(End())
        invariant PbDecode.SkipVarint(old(Contents())) == PbDecode.SkipVarint(Contents())
        decreases bytesLeft
      {
        var got, b := ReadByte();
        if !got || b < 128 {
          return got;
        }
      }
    }

    method SkipString() returns (ok: bool)
      requires Valid()
      modifies this
      ensures Valid() && End() == old(End())
      ensures ok <==> TakeDelimited(old(Contents())).Ok?
      ensures ok ==> Contents() == TakeDelimited(old(Contents())).rest
    {
      var got, length, _ := DecodeVarint32();
      if !got {
        return false;
      }
      var data;
      ok, data := Read(length);
    }

    method SkipField(wire: nat) returns (ok: bool)
      requires Valid()
      modifies this
      ensures Valid() && End() == old(End())
      ensures ok <==> PbDecode.SkipField(old(Contents()), wire).Ok?
      ensures ok ==> Contents() == PbDecode.SkipField(old(Contents()), wire).rest
    {
      var data;
      match wire {
        case 0 => ok := SkipVarint();
        case 1 => ok, data := Read(8);
        case 2 => ok := SkipString();
        case 5 => ok, data := Read(4);
        case _ => ok := false;
      }
    }

    /** The parent gives up the bytes of the substream at once; its position follows on closing. */
    method MakeSubstream() returns (ok: bool, sub: IStream)
      requires Valid()
      modifies this
      ensures Valid() && sub.Valid() && fresh(sub) && sub.memory == memory
      ensures ok <==> TakeDelimited(old(Contents())).Ok?
      ensures !ok ==> End() == old(End())
      ensures ok ==> sub.Contents() == TakeDelimited(old(Contents())).value
      ensures ok ==> sub.state == state && sub.End() + bytesLeft == old(End())
      ensures ok ==> memory[sub.End()..sub.End() + bytesLeft] == TakeDelimited(old(Contents())).rest
    {
      hide PbVarint.DecodeVarint32;
      var got, size, _ := DecodeVarint32();
      sub := new IStream(memory, state, bytesLeft);
      if !got || bytesLeft < size {
        return false, sub;
      }
      sub.bytesLeft := size;
      bytesLeft := bytesLeft - size;
      SliceTwice(memory, state, size, bytesLeft);
      return true, sub;
    }

    /** Skips what is left of the substream and takes over its position. */
    method CloseSubstream(sub: IStream) returns (ok: bool)
      requires Valid() && sub.Valid() && sub != this && sub.memory == memory
      requires sub.End() + bytesLeft <= |memory|
      modifies this, sub
      ensures Valid() && ok && bytesLeft == old(bytesLeft)
      ensures Contents() == memory[old(sub.End())..old(sub.End()) + bytesLeft] && state == old(sub.End())
    {
      if sub.bytesLeft != 0 {
        var got, data := sub.Read(sub.bytesLeft);
      }
      state := sub.state;
      return true;
    }
  }
}
