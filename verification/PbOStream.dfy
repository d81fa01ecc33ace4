/** The output stream: writing into a buffer, or only counting. */
module PbOStream {
  import opened Bytes
  import opened PbVarint
  import opened PbMessage

  datatype Error = NoError | StreamFull | ArraySizeExceeded | InvalidDataSize | BytesSizeExceeded | SubmsgSizeChanged

  function Overwrite(m: seq<byte>, at: nat, b: seq<byte>): (r: seq<byte>)
    requires at + |b| <= |m|
    ensures |r| == |m|
  {
    m[..at] + b + m[at + |b|..]
  }

  lemma OverwriteTwice(m: seq<byte>, at: nat, a: seq<byte>, b: seq<byte>)
    requires at + |a| + |b| <= |m|
    ensures Overwrite(Overwrite(m, at, a), at + |a|, b) == Overwrite(m, at, a + b)
  {
  }

  lemma OverwriteNext(m: seq<byte>, at: nat, b: seq<byte>, i: nat)
    requires at + |b| <= |m| && i < |b|
    ensures Overwrite(m, at, b[..i])[at + i := b[i]] == Overwrite(m, at, b[..i + 1])
  {
  }

  /** The buffer of `pb_encode_varint` after its loop, up to the last byte written. */
  method VarintBytes(v: nat) returns (encoded: seq<byte>)
    requires 0x7F < v < TWO64
    ensures encoded == EncodeVarint(v)
  {
    hide EncodeVarint;
    VarintAtMostTen(v);
    var buffer := new byte[10];
    var i, value := 0, v;
    while value != 0
      invariant 0 <= i <= 10 && value >= 0 && buffer.Length == 10
      invariant value != 0 ==> EncodeVarint(v) == buffer[..i] + EncodeVarint(value)
      invariant value == 0 ==> 0 < i <= 10 && buffer[i - 1] >= 128
                               && EncodeVarint(v) == buffer[..i - 1] + [buffer[i - 1] - 128]
    {
      NextVarintByte(value);
      assert |EncodeVarint(v)| == i + |EncodeVarint(value)|;
      ghost var done, last := buffer[..i], value % 128 + 128;
      buffer[i] := value % 128 + 128;
      value := value / 128;
      i := i + 1;
      assert buffer[..i] == done + [last] && buffer[..i - 1] == done;
      Assoc(done, [last], EncodeVarint(value));
    }
    buffer[i - 1] := buffer[i - 1] - 128;
    encoded := buffer[..i];
  }

  lemma NextVarintByte(value: nat)
    requires value > 0
    ensures EncodeVarint(value)
            == if value / 128 == 0 then [value % 128] else [value % 128 + 128] + EncodeVarint(value / 128)
    ensures |EncodeVarint(value)| >= 1
  {
  }

  class OStream {
    /** `callback == NULL`: PB_OSTREAM_SIZING. */
    const sizing: bool
    const buf: array<byte>
    const maxSize: nat
    var state: nat
    var bytesWritten: nat

    /** All bytes put out so far, and the memory and position the stream started with. */
    ghost var out: seq<byte>
    ghost const memory: seq<byte>
    ghost const origin: nat

    /** The buffer is the initial memory with `out` laid over it, and nothing else. */
    ghost predicate Valid()
      reads this, buf
    {
      && bytesWritten == |out|
      && if sizing then buf.Length == 0
         else && |out| <= maxSize && |memory| == buf.Length && origin + maxSize <= |memory|
              && state == origin + |out| && buf[..] == Overwrite(memory, origin, out)
    }

    /** Whether `b` more bytes can be put out: always, while sizing. */
    ghost predicate Room(b: seq<byte>)
      reads this
    {
      sizing || |out| + |b| <= maxSize
    }

    constructor Sizing()
      ensures Valid() && sizing && out == [] && fresh(buf)
    {
      sizing, maxSize, state, bytesWritten := true, 0, 0, 0;
      buf := new byte[0];
      out, memory, origin := [], [], 0;
    }

    /** A writing stream from position `state` of `buf`, with room for `maxSize` bytes. */
    constructor Into(buf: array<byte>, state: nat, maxSize: nat)
      requires state + maxSize <= buf.Length
      ensures Valid() && !sizing && this.buf == buf && this.maxSize == maxSize
      ensures out == [] && memory == buf[..] && origin == state
    {
      sizing := false;
      this.buf, this.maxSize, this.state := buf, maxSize, state;
      bytesWritten := 0;
      out, memory, origin := [], buf[..], state;
    }

    /** `pb_write`, with the copy loop of `buf_write`. */
    method Write(b: seq<byte>) returns (err: Error)
      requires Valid()
      modifies this, buf
      ensures Valid() && err != SubmsgSizeChanged
      ensures err == NoError <==> old(Room(b))
      ensures out == if err == NoError then old(out) + b else old(out)
    {
      if !sizing {
        if bytesWritten + |b| > maxSize {
          return StreamFull;
        }
        ghost var m := buf[..];
        var dest := state;
        state := dest + |b|;
        for i := 0 to |b|
          invariant state == dest + |b| && bytesWritten == old(bytesWritten) && out == old(out)
          invariant buf[..] == Overwrite(m, dest, b[..i])
        {
          buf[dest + i] := b[i];
          OverwriteNext(m, dest, b, i);
        }
        assert b[..|b|] == b;
        OverwriteTwice(memory, origin, out, b);
      }
      bytesWritten := bytesWritten + |b|;
      out := out + b;
      return NoError;
    }

    /** `pb_write(stream, NULL, size)` while sizing. */
    method Count(size: nat, ghost b: seq<byte>) returns (err: Error)
      requires Valid() && sizing && size == |b|
      modifies this
      ensures Valid() && err == NoError && out == old(out) + b
    {
      bytesWritten := bytesWritten + size;
      out := out + b;
      return NoError;
    }

    method PutVarint(v: nat) returns (err: Error)
      requires Valid() && v < TWO64
      modifies this, buf
      ensures Valid() && err != SubmsgSizeChanged
      ensures err == NoError <==> old(Room(EncodeVarint(v)))
      ensures err == NoError ==> out == old(out) + EncodeVarint(v)
      ensures old(out) <= out
    {
      if v <= 0x7F {
        err := Write([v]);
        return;
      }
      var encoded := VarintBytes(v);
      err := Write(encoded);
    }

    method PutTag(wire: nat, tag: nat) returns (err: Error)
      requires Valid() && wire < 8 && tag < 0x2000_0000
      modifies this, buf
      ensures Valid() && err != SubmsgSizeChanged && old(out) <= out
      ensures err == NoError <==> old(Room(EncTag(tag, wire)))
      ensures err == NoError ==> out == old(out) + EncTag(tag, wire)
    {
      err := PutVarint(tag * 8 + wire);
    }

    method PutString(b: seq<byte>) returns (err: Error)
      requires Valid() && |b| < TWO32
      modifies this, buf
      ensures Valid() && err != SubmsgSizeChanged && old(out) <= out
      ensures err == NoError <==> old(Room(WithLength(b)))
      ensures err == NoError ==> out == old(out) + WithLength(b)
    {
      hide EncodeVarint;
      Assoc(out, EncodeVarint(|b|), b);
      err := PutVarint(|b|);
      if err == NoError { err := Write(b); }
    }
  }
}
