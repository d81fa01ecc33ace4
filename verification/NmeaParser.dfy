/** The reassembly buffer and packet queue of `parser.c`. */
module NmeaParser {
  import opened Bytes
  import opened NmeaSpec

  const MIN_PARSEBUFF: nat := 256

  /** `nmeaParserNODE`. */
  class Node<P> {
    const packType: Kind
    const pack: P
    var next: Node?<P>

    constructor (packType: Kind, pack: P)
      ensures this.packType == packType && this.pack == pack && next == null
    {
      this.packType, this.pack, next := packType, pack, null;
    }
  }

  ghost function PacketsOf<P>(nodes: seq<Node<P>>): (q: seq<Packet<P>>)
    ensures |q| == |nodes|
  {
    seq(|nodes|, i requires 0 <= i < |nodes| => Packet(nodes[i].packType, nodes[i].pack))
  }

  lemma PackTypeOfSentence(s: seq<byte>, n: nat, hex: Hex)
    requires FindTail(s, hex) == Tail(n, true)
    ensures 0 < n <= |s| && PackType(s[1..]) == PackType(s[..n][1..])
  {
    FindTailExact(s, n, hex);
    var a, b := s[1..], s[..n][1..];
    if n == TAIL_SIZE {
      assert |b| == 4 && (|a| >= 5 ==> a[..5][2] == CR);
    } else {
      assert a[..5] == b[..5];
    }
  }

  /** `nmeaPARSER`; `hex` and `parse` stand for `nmea_atoi` and the five sentence parsers. */
  class Parser<P> {
    const buffer: array<byte>
    var buffUse: nat
    var top: Node?<P>
    var end: Node?<P>
    const hex: Hex
    const parse: Sentences<P>
    ghost var nodes: seq<Node<P>>

    /** `top` leads through the nodes to `end`. */
    ghost predicate Linked()
      reads this, nodes
    {
      && (if nodes == [] then top == null && end == null
          else top == nodes[0] && end == nodes[|nodes| - 1] && nodes[|nodes| - 1].next == null)
      && (forall i | 0 <= i < |nodes| - 1 :: nodes[i].next == nodes[i + 1])
      && (forall i, j | 0 <= i < j < |nodes| :: nodes[i] != nodes[j])
    }

    ghost predicate Valid()
      reads this, nodes
    {
      Linked() && buffUse <= buffer.Length && buffer.Length >= MIN_PARSEBUFF
    }

    ghost function Queue(): (q: seq<Packet<P>>)
      reads this`nodes
      ensures |q| == |nodes|
    {
      PacketsOf(nodes)
    }

    ghost function View(): State<P>
      reads this`nodes, this`buffUse, buffer
      requires buffUse <= buffer.Length
    {
      State(buffer[..buffUse], Queue())
    }

    /** `nmea_parser_init`. */
    constructor (buffSize: nat, hex: Hex, parse: Sentences<P>)
      ensures Valid() && fresh(buffer) && View() == State([], []) && nodes == []
      ensures buffer.Length == if buffSize < 256 then 256 else buffSize
      ensures this.hex == hex && this.parse == parse
    {
      buffer := new byte[if buffSize < MIN_PARSEBUFF then MIN_PARSEBUFF else buffSize];
      buffUse, top, end := 0, null, null;
      this.hex, this.parse := hex, parse;
      nodes := [];
    }

    /** The queue part of `nmea_parser_real_push`. */
    method Enqueue(kind: Kind, pack: P)
      requires Valid()
      modifies this`top, this`end, this`nodes, nodes
      ensures Valid() && Queue() == old(Queue()) + [Packet(kind, pack)]
      ensures forall i | 0 <= i < |nodes| :: nodes[i] in old(nodes) || fresh(nodes[i])
    {
      var node := new Node(kind, pack);
      if end != null {
        end.next := node;
      }
      end := node;
      if top == null {
        top := node;
      }
      nodes := nodes + [node];
    }

    /** `nmea_find_tail` on the unparsed part of the buffer. */
    method FindTailAt(at: nat) returns (nread: nat, good: bool)
      requires at <= buffUse <= buffer.Length
      ensures Tail(nread, good) == FindTail(buffer[at..buffUse], hex)
    {
      ghost var s := buffer[at..buffUse];
      var p, crc: bv8 := at, 0;
      nread, good := 0, false;
      hide Xor;
      while p < buffUse
        invariant at <= p <= buffUse && nread == p - at
        invariant FindTail(s, hex) == Scan(s, nread, crc, hex)
      {
        if buffer[p] == DOLLAR && nread > 0 { return; }
        if buffer[p] == STAR {
          if p + TAIL_SIZE <= buffUse && buffer[p + 3] == CR && buffer[p + 4] == LF {
            good := hex(buffer[p + 1], buffer[p + 2]) == crc as int;
            nread := nread + TAIL_SIZE;
            return;
          }
          nread := 0;
          return;
        }
        if nread > 0 { crc := Xor(crc, buffer[p]); }
        p := p + 1;
        nread := nread + 1;
      }
      nread := 0;
    }

    /** A sentence with a good checksum: look up its type, parse it, queue what comes out. */
    method TakeSentence(at: nat, senSz: nat)
      requires Valid() && at + senSz <= buffUse
      requires FindTail(buffer[at..buffUse], hex) == Tail(senSz, true)
      modifies this`top, this`end, this`nodes, nodes
      ensures Valid() && senSz > 0
      ensures Queue() == old(Queue()) + Packets(buffer[at..at + senSz], parse)
      ensures forall i | 0 <= i < |nodes| :: nodes[i] in old(nodes) || fresh(nodes[i])
    {
      ghost var s := buffer[at..buffUse];
      PackTypeOfSentence(s, senSz, hex);
      assert s[..senSz] == buffer[at..at + senSz] && s[1..] == buffer[at + 1..buffUse];
      var kind := PackType(buffer[at + 1..buffUse]);
      hide PackType, FindTail;
      if kind.None? {
        assert Queue() + [] == Queue();
        return;
      }
      var pack := parse(kind.value, buffer[at..at + senSz]);
      if pack.None? {
        assert Queue() + [] == Queue();
        return;
      }
      Enqueue(kind.value, pack.value);
    }

    /** `memcpy` of new bytes behind those in use, after clearing a buffer they do not fit. */
    method Append(chunk: seq<byte>)
      requires Valid() && |chunk| <= buffer.Length
      modifies this`buffUse, buffer
      ensures Valid() && buffUse <= buffer.Length
      ensures buffer[..buffUse]
              == (if |old(buffer[..buffUse])| + |chunk| >= buffer.Length then [] else old(buffer[..buffUse])) + chunk
    {
      if buffUse + |chunk| >= buffer.Length {
        buffUse := 0;
      }
      var use := buffUse;
      ghost var kept := buffer[..use];
      for i := 0 to |chunk|
        invariant buffUse == use && buffer[..use + i] == kept + chunk[..i]
      {
        buffer[use + i] := chunk[i];
        assert buffer[..use + i + 1] == buffer[..use + i] + [chunk[i]];
      }
      buffUse := use + |chunk|;
      assert chunk[..|chunk|] == chunk;
    }

    /** The unparsed bytes move to the front. */
    method Shift(nparsed: nat)
      requires Valid() && nparsed <= buffUse
      modifies this`buffUse, buffer
      ensures Valid() && buffer[..buffUse] == old(buffer[nparsed..buffUse])
    {
      ghost var all := buffer[..];
      var left := buffUse - nparsed;
      for i := 0 to left
        invariant forall k | 0 <= k < i :: buffer[k] == all[nparsed + k]
        invariant forall k | i <= k < buffer.Length :: buffer[k] == all[k]
      {
        buffer[i] := buffer[nparsed + i];
      }
      buffUse := left;
    }

    /** Draining `d` has yielded `taken`; `s` still has to be drained, or is what is left. */
    ghost predicate Halfway(d: Drained<P>, taken: seq<Packet<P>>, s: seq<byte>, more: bool) {
      var left := Drain(s, hex, parse);
      if more then d == Drained(taken + left.packets, left.rest) else d == Drained(taken, s)
    }

    lemma AtStart(s: seq<byte>)
      ensures Halfway(Drain(s, hex, parse), [], s, true)
    {
      var d := Drain(s, hex, parse);
      assert [] + d.packets == d.packets;
    }

    lemma AtEnd(d: Drained<P>, taken: seq<Packet<P>>, s: seq<byte>)
      requires Halfway(d, taken, s, false)
      ensures d == Drained(taken, s)
    {
    }

    /** The parse loop of `nmea_parser_real_push`. */
    method ParseAll() returns (nparsed: nat)
      requires Valid()
      modifies this`top, this`end, this`nodes, nodes
      ensures Valid() && nparsed <= buffUse
      ensures var d := Drain(buffer[..buffUse], hex, parse);
              Queue() == old(Queue()) + d.packets && buffer[nparsed..buffUse] == d.rest
      ensures forall i | 0 <= i < |nodes| :: nodes[i] in old(nodes) || fresh(nodes[i])
    {
      ghost var d := Drain(buffer[..buffUse], hex, parse);
      ghost var taken: seq<Packet<P>> := [];
      nparsed := 0;
      var more := true;
      assert buffer[0..buffUse] == buffer[..buffUse] && Queue() + [] == Queue();
      AtStart(buffer[..buffUse]);
      hide Drain, Halfway, PacketsOf;
      while more
        invariant Valid() && nparsed <= buffUse && Queue() == old(Queue()) + taken
        invariant Halfway(d, taken, buffer[nparsed..buffUse], more)
        invariant forall i | 0 <= i < |nodes| :: nodes[i] in old(nodes) || fresh(nodes[i])
        decreases more, buffUse - nparsed
      {
        ghost var new_;
        more, nparsed, new_ := OneSentence(nparsed, taken, d);
        PacketsInOrder(old(Queue()), taken, new_);
        taken := taken + new_;
      }
      AtEnd(d, taken, buffer[nparsed..buffUse]);
    }

    /** One turn of the loop. */
    method OneSentence(at: nat, ghost taken: seq<Packet<P>>, ghost d: Drained<P>)
      returns (more: bool, nparsed: nat, ghost new_: seq<Packet<P>>)
      requires Valid() && at <= buffUse && Halfway(d, taken, buffer[at..buffUse], true)
      modifies this`top, this`end, this`nodes, nodes
      ensures Valid() && at <= nparsed <= buffUse && (more ==> at < nparsed) && Queue() == old(Queue()) + new_
      ensures Halfway(d, taken + new_, buffer[nparsed..buffUse], more)
      ensures forall i | 0 <= i < |nodes| :: nodes[i] in old(nodes) || fresh(nodes[i])
    {
      var senSz, good := FindTailAt(at);
      ghost var s := buffer[at..buffUse];
      hide Drain, FindTail, Packets, Halfway, PacketsOf;
      Turn(s, senSz, good, taken, d);
      more, nparsed, new_ := senSz != 0, at + senSz, [];
      assert s[..senSz] == buffer[at..nparsed] && s[senSz..] == buffer[nparsed..buffUse];
      if good {
        TakeSentence(at, senSz);
        new_ := Packets(s[..senSz], parse);
      } else {
        assert taken + [] == taken && Queue() + [] == Queue();
      }
    }

    /** `nmea_parser_real_push`: returns the number of bytes taken off. */
    method RealPush(chunk: seq<byte>) returns (nparsed: nat)
      requires Valid() && |chunk| <= buffer.Length
      modifies this`buffUse, this`top, this`end, this`nodes, buffer, nodes
      ensures Valid() && View() == NmeaSpec.Push(old(View()), chunk, buffer.Length, hex, parse)
      ensures forall i | 0 <= i < |nodes| :: nodes[i] in old(nodes) || fresh(nodes[i])
    {
      hide Drain, Linked, PacketsOf;
      ghost var before := View();
      Append(chunk);
      ghost var whole := buffer[..buffUse];
      assert whole == (if |before.rest| + |chunk| >= buffer.Length then [] else before.rest) + chunk;
      nparsed := ParseAll();
      if nparsed > 0 {
        Shift(nparsed);
      } else {
        assert buffer[0..buffUse] == buffer[..buffUse];
      }
      assert View() == State(Drain(whole, hex, parse).rest, before.queue + Drain(whole, hex, parse).packets);
    }

    /** What one turn of the loop leaves to be drained. */
    lemma Turn(s: seq<byte>, n: nat, good: bool, taken: seq<Packet<P>>, d: Drained<P>)
      requires FindTail(s, hex) == Tail(n, good) && Halfway(d, taken, s, true)
      ensures n <= |s| && (good ==> n > 0)
      ensures Halfway(d, if good then taken + Packets(s[..n], parse) else taken, s[n..], n != 0)
    {
      if n == 0 {
        assert taken + [] == taken && s[0..] == s;
      } else {
        DrainStep(s, hex, parse);
        hide Drain, Packets;
        var left := Drain(s[n..], hex, parse);
        if good {
          PacketsInOrder(taken, Packets(s[..n], parse), left.packets);
        } else {
          PacketsInOrder(taken, [], left.packets);
        }
      }
    }

    /** `nmea_parser_peek`, and with it `nmea_parser_top`. */
    method Peek() returns (p: Option<Packet<P>>)
      requires Valid()
      ensures p == if Queue() == [] then None else Some(Queue()[0])
    {
      if top == null { return None; }
      p := Some(Packet(top.packType, top.pack));
    }

    /** `nmea_parser_pop`: packets leave in the order they came. */
    method Pop() returns (p: Option<Packet<P>>)
      requires Valid()
      modifies this`top, this`end, this`nodes
      ensures Valid()
      ensures if old(Queue()) == [] then p == None && Queue() == []
              else p == Some(old(Queue())[0]) && Queue() == old(Queue())[1..]
      ensures nodes == if old(nodes) == [] then [] else old(nodes)[1..]
    {
      if top == null { return None; }
      p := Some(Packet(top.packType, top.pack));
      if |nodes| > 1 { assert nodes[0].next == nodes[1]; }
      top := top.next;
      if top == null {
        end := null;
      }
      nodes := nodes[1..];
    }

    /** `nmea_parser_drop`. */
    method Drop()
      requires Valid()
      modifies this`top, this`end, this`nodes
      ensures Valid() && Queue() == if old(Queue()) == [] then [] else old(Queue())[1..]
      ensures nodes == if old(nodes) == [] then [] else old(nodes)[1..]
    {
      var _ := Pop();
    }

    /** `nmea_parser_queue_clear`. */
    method QueueClear()
      requires Valid()
      modifies this`top, this`end, this`nodes
      ensures Valid() && Queue() == [] && buffUse == old(buffUse)
    {
      while top != null
        invariant Valid()
        invariant forall n | n in nodes :: n in old(nodes)
        decreases |nodes|
      {
        Drop();
      }
    }

    /** `nmea_parser_push`, whose loop hands `buff` on from its start every time. */
    method Push(data: seq<byte>) returns (nparsed: nat)
      requires Valid()
      modifies this`buffUse, this`top, this`end, this`nodes, buffer, nodes
      ensures Valid()
      ensures View() == PushAll(old(View()), Handed(data, |data|, buffer.Length), buffer.Length, hex, parse)
    {
      hide Handed, PushAll, NmeaSpec.Push, Linked, ToHand, View;
      nparsed := 0;
      var buffSz: nat := |data|;
      ghost var done: seq<seq<byte>> := [];
      ghost var before, all := View(), Handed(data, |data|, buffer.Length);
      var more := true;
      StartHanded(data, buffer.Length, before);
      while more
        invariant Valid() && buffSz <= |data| && View() == PushAll(before, done, buffer.Length, hex, parse)
        invariant ToHand(data, done, all, buffSz, more)
        invariant forall i | 0 <= i < |nodes| :: nodes[i] in old(nodes) || fresh(nodes[i])
        decreases more, buffSz
      {
        var nparse: nat := if buffSz > buffer.Length then buffer.Length else buffSz;
        HandedStep(data, buffSz, buffer.Length, done, all, before);
        var n := RealPush(data[..nparse]);
        nparsed := nparsed + n;
        done := done + [data[..nparse]];
        buffSz := buffSz - nparse;
        more := buffSz > 0;
      }
      assert done == all by { DoneHanding(data, done, all, buffSz); }
    }

    /** Pieces handed on so far, and those to come. */
    ghost predicate ToHand(data: seq<byte>, done: seq<seq<byte>>, all: seq<seq<byte>>, left: nat, more: bool) {
      left <= |data| && buffer.Length > 0
      && if more then done + Handed(data, left, buffer.Length) == all else done == all
    }

    lemma StartHanded(data: seq<byte>, size: nat, before: State<P>)
      requires size == buffer.Length > 0
      ensures ToHand(data, [], Handed(data, |data|, size), |data|, true)
      ensures PushAll(before, [], size, hex, parse) == before
    {
      assert [] + Handed(data, |data|, size) == Handed(data, |data|, size);
    }

    lemma DoneHanding(data: seq<byte>, done: seq<seq<byte>>, all: seq<seq<byte>>, left: nat)
      requires ToHand(data, done, all, left, false)
      ensures done == all
    {
    }

    lemma HandedStep(data: seq<byte>, left: nat, size: nat, done: seq<seq<byte>>, all: seq<seq<byte>>,
                     before: State<P>)
      requires size == buffer.Length && ToHand(data, done, all, left, true)
      ensures var n := if left > size then size else left;
              ToHand(data, done + [data[..n]], all, left - n, left - n > 0)
              && PushAll(before, done + [data[..n]], size, hex, parse)
                 == NmeaSpec.Push(PushAll(before, done, size, hex, parse), data[..n], size, hex, parse)
    {
      var n := if left > size then size else left;
      var longer := done + [data[..n]];
      assert longer[..|longer| - 1] == done;
      hide NmeaSpec.Push;
      if left > size {
        assert longer + Handed(data, left - size, size) == done + ([data[..n]] + Handed(data, left - size, size));
      }
    }
  }
}
