/** Sentences in a byte stream: where one ends, what it carries, and what is left over. */
module NmeaSpec {
  import opened Bytes

  const DOLLAR: byte := 0x24
  const STAR: byte := 0x2A
  const CR: byte := 0x0D
  const LF: byte := 0x0A
  const TAIL_SIZE: nat := 5

  datatype Kind = GPGGA | GPGSA | GPGSV | GPRMC | GPVTG

  datatype Packet<P> = Packet(kind: Kind, pack: P)

  /** `nmea_atoi` on the two digits behind a star. */
  type Hex = (byte, byte) -> int

  /** The parsers of the five sentences; None when one rejects its sentence. */
  type Sentences<!P> = (Kind, seq<byte>) -> Option<P>

  /** How many bytes `nmea_find_tail` takes off the front, and whether their checksum holds. */
  datatype Tail = Tail(length: nat, good: bool)

  const NONE: Tail := Tail(0, false)

  function Xor(a: bv8, b: byte): bv8 { a ^ (b as bv8) }

  /** The scan of `nmea_find_tail` from position `p`, with the checksum of the bytes so far. */
  function Scan(s: seq<byte>, p: nat, crc: bv8, hex: Hex): (t: Tail)
    requires p <= |s|
    ensures t.length <= |s| && (t.good ==> t.length >= TAIL_SIZE)
    decreases |s| - p
  {
    if p == |s| then NONE
    else if s[p] == DOLLAR && p > 0 then Tail(p, false)
    else if s[p] == STAR then
      if p + TAIL_SIZE <= |s| && s[p + 3] == CR && s[p + 4] == LF
      then Tail(p + TAIL_SIZE, hex(s[p + 1], s[p + 2]) == crc as int)
      else NONE
    else Scan(s, p + 1, if p > 0 then Xor(crc, s[p]) else crc, hex)
  }

  function FindTail(s: seq<byte>, hex: Hex): Tail { Scan(s, 0, 0, hex) }

  /** `nmea_pack_type`. */
  function PackType(s: seq<byte>): Option<Kind> {
    if |s| < 5 then None
    else if s[..5] == [0x47, 0x50, 0x47, 0x47, 0x41] then Some(GPGGA)
    else if s[..5] == [0x47, 0x50, 0x47, 0x53, 0x41] then Some(GPGSA)
    else if s[..5] == [0x47, 0x50, 0x47, 0x53, 0x56] then Some(GPGSV)
    else if s[..5] == [0x47, 0x50, 0x52, 0x4D, 0x43] then Some(GPRMC)
    else if s[..5] == [0x47, 0x50, 0x56, 0x54, 0x47] then Some(GPVTG)
    else None
  }

  function Name(kind: Kind): string {
    match kind
    case GPGGA => "GPGGA"
    case GPGSA => "GPGSA"
    case GPGSV => "GPGSV"
    case GPRMC => "GPRMC"
    case GPVTG => "GPVTG"
  }

  /** A sentence is of a kind exactly if it begins with the five letters of its name. */
  lemma PackTypeNamed(s: seq<byte>, kind: Kind)
    ensures PackType(s) == Some(kind)
            <==> |s| >= 5 && forall i | 0 <= i < 5 :: s[i] as int == Name(kind)[i] as int
  {
    if |s| >= 5 { assert s[..5] == [s[0], s[1], s[2], s[3], s[4]]; }
  }

  /** What a sentence with a good checksum puts into the queue. */
  function Packets<P>(sentence: seq<byte>, parse: Sentences<P>): seq<Packet<P>>
    requires sentence != []
  {
    match PackType(sentence[1..])
    case None => []
    case Some(kind) =>
      match parse(kind, sentence)
      case None => []
      case Some(pack) => [Packet(kind, pack)]
  }

  datatype Drained<P> = Drained(packets: seq<Packet<P>>, rest: seq<byte>)

  /** Everything that can be taken off the front of a buffer. */
  function Drain<P>(s: seq<byte>, hex: Hex, parse: Sentences<P>): (d: Drained<P>)
    ensures |d.rest| <= |s|
  {
    var t := FindTail(s, hex);
    if t.length == 0 then Drained([], s)
    else
      var more := Drain(s[t.length..], hex, parse);
      Drained((if t.good then Packets(s[..t.length], parse) else []) + more.packets, more.rest)
  }

  // ---------- what a good sentence is ----------

  /** The exclusive or of a run of bytes. */
  function XorAll(s: seq<byte>): bv8 {
    if s == [] then 0 else Xor(XorAll(s[..|s| - 1]), s[|s| - 1])
  }

  /**
   * The first `n` bytes are one sentence: the first star behind the first byte comes before any
   * further dollar sign, two digits and a line end follow it, and the digits give the exclusive
   * or of what lies between.
   */
  predicate IsSentence(s: seq<byte>, n: nat, hex: Hex) {
    5 <= n <= |s| &&
    var p := n - 5;
    s[p] == 0x2A && s[p + 3] == 0x0D && s[p + 4] == 0x0A
    && (forall i | 0 <= i < p :: s[i] != 0x2A && (i > 0 ==> s[i] != 0x24))
    && hex(s[p + 1], s[p + 2]) == (if p > 0 then XorAll(s[1..p]) else 0) as int
  }

  /** The checksum the scan has when it reaches `p`. */
  function CrcUpTo(s: seq<byte>, p: nat): bv8
    requires p <= |s|
  {
    if p <= 1 then 0 else XorAll(s[1..p])
  }

  lemma CrcGrows(s: seq<byte>, p: nat)
    requires 0 < p < |s|
    ensures CrcUpTo(s, p + 1) == Xor(CrcUpTo(s, p), s[p])
  {
    var t := s[1..p + 1];
    assert t[..|t| - 1] == s[1..p];
    if p == 1 { assert s[1..1] == []; }
  }

  lemma {:induction false} ScanFinds(s: seq<byte>, p: nat, n: nat, hex: Hex)
    requires p <= |s| && forall i | 0 <= i < p :: s[i] != STAR && (i > 0 ==> s[i] != DOLLAR)
    ensures Scan(s, p, CrcUpTo(s, p), hex) == Tail(n, true) <==> n >= p + TAIL_SIZE && IsSentence(s, n, hex)
    decreases |s| - p
  {
    if p < |s| && s[p] != STAR && (p > 0 ==> s[p] != DOLLAR) {
      if p > 0 { CrcGrows(s, p); }
      ScanFinds(s, p + 1, n, hex);
    }
    hide XorAll, Xor;
  }

  /** `nmea_find_tail` reports a good sentence exactly when there is one at the front. */
  lemma FindTailExact(s: seq<byte>, n: nat, hex: Hex)
    ensures FindTail(s, hex) == Tail(n, true) <==> IsSentence(s, n, hex)
  {
    ScanFinds(s, 0, n, hex);
    hide XorAll, Xor;
  }

  // ---------- what blocks the scan ----------

  /** Where the scan from `p` ends: the first star, or the first dollar sign behind the first byte. */
  function Stop(s: seq<byte>, p: nat): (q: nat)
    requires p <= |s|
    ensures p <= q <= |s| && (q < |s| ==> s[q] == STAR || (s[q] == DOLLAR && q > 0))
    ensures forall i | p <= i < q :: s[i] != STAR && (i > 0 ==> s[i] != DOLLAR)
    decreases |s| - p
  {
    if p == |s| || s[p] == STAR || (s[p] == DOLLAR && p > 0) then p else Stop(s, p + 1)
  }

  /** A star with two characters and a line end behind it. */
  predicate CompleteTail(s: seq<byte>, p: nat) {
    p + TAIL_SIZE <= |s| && s[p] == STAR && s[p + 3] == CR && s[p + 4] == LF
  }

  lemma {:induction false} ScanToStop(s: seq<byte>, p: nat, crc: bv8, hex: Hex)
    requires p <= |s|
    ensures var q := Stop(s, p);
            Scan(s, p, crc, hex).length
            == if q < |s| && s[q] == DOLLAR then q else if CompleteTail(s, q) then q + TAIL_SIZE else 0
    decreases |s| - p
  {
    var q := Stop(s, p);
    if p < q { ScanToStop(s, p + 1, if p > 0 then Xor(crc, s[p]) else crc, hex); }
  }

  lemma {:induction false} StopIs(s: seq<byte>, p: nat, q: nat)
    requires p <= q < |s| && (s[q] == STAR || (s[q] == DOLLAR && q > 0))
    requires forall i | p <= i < q :: s[i] != STAR && (i > 0 ==> s[i] != DOLLAR)
    ensures Stop(s, p) == q
  {
  }

  /**
   * The scan ends at the star at `p`, and a byte already there is not the line end that has to
   * follow its two characters.
   */
  predicate Stuck(s: seq<byte>, p: nat) {
    p < |s| && s[p] == STAR
    && (forall i | 0 <= i < p :: s[i] != STAR && (i > 0 ==> s[i] != DOLLAR))
    && ((p + 3 < |s| && s[p + 3] != CR) || (p + 4 < |s| && s[p + 4] != LF))
  }

  predicate Blocked(s: seq<byte>) {
    exists p | 0 <= p < |s| :: Stuck(s, p)
  }

  lemma StuckStays(s: seq<byte>, p: nat, more: seq<byte>, hex: Hex)
    requires Stuck(s, p)
    ensures Stuck(s + more, p) && FindTail(s + more, hex).length == 0
  {
    var t := s + more;
    assert t[p] == s[p] && (p + 3 < |s| ==> t[p + 3] == s[p + 3]) && (p + 4 < |s| ==> t[p + 4] == s[p + 4]);
    assert forall i | 0 <= i < p :: t[i] == s[i];
    StopIs(t, 0, p);
    ScanToStop(t, 0, 0, hex);
  }

  /** Bytes that make the scan succeed, where no star is in the way. */
  function Unblocking(s: seq<byte>): seq<byte> {
    var q := Stop(s, 0);
    if q == |s| || s[q] == DOLLAR then [DOLLAR, DOLLAR]
    else if |s| < q + TAIL_SIZE then [0x30, 0x30, CR, LF][|s| - q - 1..]
    else []
  }

  lemma UnblockingWorks(s: seq<byte>, hex: Hex)
    requires !Stuck(s, Stop(s, 0))
    ensures FindTail(s + Unblocking(s), hex).length > 0
  {
    var q, more := Stop(s, 0), Unblocking(s);
    var t := s + more;
    assert forall i | 0 <= i < |s| :: t[i] == s[i];
    assert forall i | 0 <= i < |more| :: t[|s| + i] == more[i];
    if q == |s| {
      StopIs(t, 0, if q == 0 then 1 else q);
    } else {
      StopIs(t, 0, q);
    }
    ScanToStop(t, 0, 0, hex);
  }

  /** Whatever comes behind, nothing can be found at the front if and only if the scan is stuck at a star. */
  lemma BadTailBlocks(s: seq<byte>, hex: Hex)
    ensures (forall more :: FindTail(s + more, hex).length == 0) <==> Blocked(s)
  {
    if Blocked(s) {
      var p :| 0 <= p < |s| && Stuck(s, p);
      forall more ensures FindTail(s + more, hex).length == 0 { StuckStays(s, p, more, hex); }
    } else {
      UnblockingWorks(s, hex);
    }
  }

  // ---------- more bytes do not change what was decided ----------

  lemma {:induction false} ScanStays(s: seq<byte>, more: seq<byte>, p: nat, crc: bv8, hex: Hex)
    requires p <= |s| && Scan(s, p, crc, hex).length > 0
    ensures Scan(s + more, p, crc, hex) == Scan(s, p, crc, hex)
    decreases |s| - p
  {
    var t := s + more;
    assert t[p] == s[p];
    if s[p] == DOLLAR && p > 0 {
    } else if s[p] == STAR {
      assert t[p + 1] == s[p + 1] && t[p + 2] == s[p + 2] && t[p + 3] == s[p + 3] && t[p + 4] == s[p + 4];
    } else {
      ScanStays(s, more, p + 1, if p > 0 then Xor(crc, s[p]) else crc, hex);
    }
  }

  lemma DrainStep<P>(s: seq<byte>, hex: Hex, parse: Sentences<P>)
    requires FindTail(s, hex).length > 0
    ensures var t := FindTail(s, hex);
            var head, more := if t.good then Packets(s[..t.length], parse) else [], Drain(s[t.length..], hex, parse);
            Drain(s, hex, parse) == Drained(head + more.packets, more.rest)
  {
  }

  lemma PacketsInOrder<P>(a: seq<Packet<P>>, b: seq<Packet<P>>, c: seq<Packet<P>>)
    ensures (a + b) + c == a + (b + c)
  {
  }

  /** Draining a stream in two pieces: packets come in the same order, and the rest is the same. */
  lemma {:induction false} DrainInPieces<P>(a: seq<byte>, b: seq<byte>, hex: Hex, parse: Sentences<P>)
    ensures var first := Drain(a, hex, parse);
            var second := Drain(first.rest + b, hex, parse);
            Drain(a + b, hex, parse) == Drained(first.packets + second.packets, second.rest)
  {
    var t := FindTail(a, hex);
    if t.length == 0 {
      var d := Drain(a + b, hex, parse);
      assert [] + d.packets == d.packets;
    } else {
      var n := t.length;
      ScanStays(a, b, 0, 0, hex);
      assert (a + b)[..n] == a[..n] && (a + b)[n..] == a[n..] + b;
      DrainStep(a, hex, parse);
      DrainStep(a + b, hex, parse);
      DrainInPieces(a[n..], b, hex, parse);
      hide FindTail, Packets, Drain;
      var head := if t.good then Packets(a[..n], parse) else [];
      var first := Drain(a[n..], hex, parse);
      var second := Drain(first.rest + b, hex, parse);
      PacketsInOrder(head, first.packets, second.packets);
    }
  }

  // ---------- chunks ----------

  /** Leftover bytes and the queue. */
  datatype State<P> = State(rest: seq<byte>, queue: seq<Packet<P>>)

  /** `nmea_parser_real_push` on a buffer of `size` bytes: a chunk that does not fit drops the rest. */
  function Push<P>(s: State<P>, chunk: seq<byte>, size: nat, hex: Hex, parse: Sentences<P>): State<P> {
    var d := Drain((if |s.rest| + |chunk| >= size then [] else s.rest) + chunk, hex, parse);
    State(d.rest, s.queue + d.packets)
  }

  function PushAll<P>(s: State<P>, chunks: seq<seq<byte>>, size: nat, hex: Hex, parse: Sentences<P>): State<P> {
    if chunks == [] then s
    else Push(PushAll(s, chunks[..|chunks| - 1], size, hex, parse), chunks[|chunks| - 1], size, hex, parse)
  }

  /** Unconsumed bytes stay below the buffer size throughout. */
  predicate Fits<P>(s: State<P>, chunks: seq<seq<byte>>, size: nat, hex: Hex, parse: Sentences<P>) {
    chunks == [] ||
    (Fits(s, chunks[..|chunks| - 1], size, hex, parse)
     && |PushAll(s, chunks[..|chunks| - 1], size, hex, parse).rest| + |chunks[|chunks| - 1]| < size)
  }

  function Stream(chunks: seq<seq<byte>>): seq<byte> {
    if chunks == [] then [] else Stream(chunks[..|chunks| - 1]) + chunks[|chunks| - 1]
  }

  /** Nothing can be taken off what a push leaves behind. */
  lemma {:induction false} RestIsDrained<P>(s: seq<byte>, hex: Hex, parse: Sentences<P>)
    ensures var rest := Drain(s, hex, parse).rest; Drain(rest, hex, parse) == Drained([], rest)
  {
    var t := FindTail(s, hex);
    if t.length > 0 { RestIsDrained(s[t.length..], hex, parse); }
  }

  /** Any chunking that fits leaves what one drain of the whole stream leaves. */
  lemma {:induction false} ChunksAreStream<P>(s: State<P>, chunks: seq<seq<byte>>, size: nat, hex: Hex,
                                              parse: Sentences<P>)
    requires Drain(s.rest, hex, parse) == Drained([], s.rest) && Fits(s, chunks, size, hex, parse)
    ensures var d := Drain(s.rest + Stream(chunks), hex, parse);
            PushAll(s, chunks, size, hex, parse) == State(d.rest, s.queue + d.packets)
  {
    if chunks == [] {
      assert s.rest + Stream(chunks) == s.rest && s.queue + [] == s.queue;
    } else {
      var front, last := chunks[..|chunks| - 1], chunks[|chunks| - 1];
      ChunksAreStream(s, front, size, hex, parse);
      var before := s.rest + Stream(front);
      DrainInPieces(before, last, hex, parse);
      Assoc(s.rest, Stream(front), last);
      var first := Drain(before, hex, parse);
      var second := Drain(first.rest + last, hex, parse);
      PacketsInOrder(s.queue, first.packets, second.packets);
    }
  }

  /** The same stream in any two chunkings that fit ends in the same leftover and the same queue. */
  lemma ChunkIndependence<P>(s: State<P>, a: seq<seq<byte>>, b: seq<seq<byte>>, size: nat, hex: Hex,
                             parse: Sentences<P>)
    requires Drain(s.rest, hex, parse) == Drained([], s.rest) && Stream(a) == Stream(b)
    requires Fits(s, a, size, hex, parse) && Fits(s, b, size, hex, parse)
    ensures PushAll(s, a, size, hex, parse) == PushAll(s, b, size, hex, parse)
  {
    ChunksAreStream(s, a, size, hex, parse);
    ChunksAreStream(s, b, size, hex, parse);
  }

  // ---------- a blocked parser ----------

  /** Draining takes nothing off exactly when no tail is found. */
  lemma NothingDrained<P>(s: seq<byte>, hex: Hex, parse: Sentences<P>)
    ensures Drain(s, hex, parse) == Drained([], s) <==> FindTail(s, hex).length == 0
  {
  }

  lemma NothingMore<P>(packets: seq<Packet<P>>, second: Drained<P>, all: seq<byte>)
    ensures Drained(packets + second.packets, second.rest) == Drained(packets, all) <==> second == Drained([], all)
  {
    assert packets + [] == packets;
    assert |packets + second.packets| == |packets| + |second.packets|;
  }

  /** The parser takes nothing off for `more` coming in behind the stream `s`. */
  ghost predicate NothingTaken<P>(s: seq<byte>, more: seq<byte>, hex: Hex, parse: Sentences<P>) {
    var d := Drain(s, hex, parse);
    Drain(s + more, hex, parse) == Drained(d.packets, d.rest + more)
  }

  lemma NothingTakenOff<P>(s: seq<byte>, more: seq<byte>, hex: Hex, parse: Sentences<P>)
    ensures NothingTaken(s, more, hex, parse) <==> FindTail(Drain(s, hex, parse).rest + more, hex).length == 0
  {
    var d := Drain(s, hex, parse);
    DrainInPieces(s, more, hex, parse);
    NothingDrained(d.rest + more, hex, parse);
    NothingMore(d.packets, Drain(d.rest + more, hex, parse), d.rest + more);
  }

  /**
   * A stream after which the parser takes nothing off any more, whatever follows: exactly one
   * whose leftover holds a star that a line end can no longer follow.
   */
  lemma StreamBlocks<P>(s: seq<byte>, hex: Hex, parse: Sentences<P>)
    ensures (forall more :: NothingTaken(s, more, hex, parse)) <==> Blocked(Drain(s, hex, parse).rest)
  {
    var rest := Drain(s, hex, parse).rest;
    if Blocked(rest) {
      var p :| 0 <= p < |rest| && Stuck(rest, p);
      forall more ensures NothingTaken(s, more, hex, parse) {
        StuckStays(rest, p, more, hex);
        NothingTakenOff(s, more, hex, parse);
      }
    } else {
      UnblockingWorks(rest, hex);
      NothingTakenOff(s, Unblocking(rest), hex, parse);
    }
  }

  /** Five bytes, `$*AAX`, behind which nothing is ever taken off. */
  lemma StarWithoutLineEnd<P>(more: seq<byte>, hex: Hex, parse: Sentences<P>)
    ensures NothingTaken([DOLLAR, STAR, 0x41, 0x41, 0x58], more, hex, parse)
  {
    var s: seq<byte> := [DOLLAR, STAR, 0x41, 0x41, 0x58];
    assert Stuck(s, 1);
    StuckStays(s, 1, [], hex);
    assert s + [] == s;
    NothingDrained(s, hex, parse);
    StreamBlocks(s, hex, parse);
  }

  /** Chunks pile up behind the star until one does not fit; the parser then starts afresh with that chunk. */
  lemma StuckUntilCleared<P>(s: State<P>, chunk: seq<byte>, size: nat, hex: Hex, parse: Sentences<P>)
    requires Blocked(s.rest)
    ensures if |s.rest| + |chunk| < size
            then Push(s, chunk, size, hex, parse) == State(s.rest + chunk, s.queue) && Blocked(s.rest + chunk)
            else Push(s, chunk, size, hex, parse) == Push(State([], s.queue), chunk, size, hex, parse)
  {
    var p :| 0 <= p < |s.rest| && Stuck(s.rest, p);
    StuckStays(s.rest, p, chunk, hex);
    NothingDrained(s.rest + chunk, hex, parse);
    assert s.queue + [] == s.queue;
  }

  // ---------- nmea_parser_push ----------

  /**
   * What `nmea_parser_push` hands on: pieces of at most the buffer size, but every one from
   * the start of the data, because the loop never moves `buff`.
   */
  function Handed(data: seq<byte>, left: nat, size: nat): seq<seq<byte>>
    requires left <= |data| && size > 0
    decreases left
  {
    if left <= size then [data[..left]] else [data[..size]] + Handed(data, left - size, size)
  }

  function Flat(chunks: seq<seq<byte>>): seq<byte> {
    if chunks == [] then [] else chunks[0] + Flat(chunks[1..])
  }

  /** `i` modulo `size`. */
  function Wrapped(i: nat, size: nat): (k: nat)
    requires size > 0
    ensures k < size && k <= i
  {
    if i < size then i else Wrapped(i - size, size)
  }

  lemma {:induction false} HandedRepeats(data: seq<byte>, left: nat, size: nat, i: nat)
    requires left <= |data| && size > 0 && i < left
    ensures |Flat(Handed(data, left, size))| == left && Flat(Handed(data, left, size))[i] == data[Wrapped(i, size)]
    decreases left
  {
    var chunks := Handed(data, left, size);
    if left <= size {
      assert chunks[1..] == [] && Flat(chunks) == data[..left];
    } else {
      var rest := Handed(data, left - size, size);
      assert chunks[1..] == rest && Flat(chunks) == data[..size] + Flat(rest);
      HandedRepeats(data, left - size, size, if i < size then 0 else i - size);
    }
  }

  lemma FlatOne(data: seq<byte>)
    ensures Flat([data]) == data
  {
    assert [data][1..] == [];
  }

  /** The data repeats with the period of the buffer size. */
  predicate Periodic(data: seq<byte>, size: nat)
    requires size > 0
  {
    forall i | 0 <= i < |data| :: data[i] == data[Wrapped(i, size)]
  }

  lemma Repeats(fed: seq<byte>, data: seq<byte>, size: nat)
    requires size > 0 && |fed| == |data| && forall i | 0 <= i < |data| :: fed[i] == data[Wrapped(i, size)]
    ensures fed == data <==> Periodic(data, size)
  {
    if Periodic(data, size) {
      assert forall i | 0 <= i < |data| :: fed[i] == data[i];
    } else {
      var i :| 0 <= i < |data| && data[i] != data[Wrapped(i, size)];
      assert fed[i] != data[i];
    }
  }

  /**
   * `nmea_parser_push` feeds exactly the data it was given if and only if the data repeats
   * with the period of the buffer size; data that fits the buffer always does.
   */
  lemma PushFeedsData(data: seq<byte>, size: nat)
    requires size > 0
    ensures Flat(Handed(data, |data|, size)) == data <==> Periodic(data, size)
    ensures |data| <= size ==> Handed(data, |data|, size) == [data]
  {
    var fed := Flat(Handed(data, |data|, size));
    if |data| <= size {
      assert data[..|data|] == data;
      FlatOne(data);
      forall i | 0 <= i < |data| ensures data[i] == data[Wrapped(i, size)] { }
    } else {
      HandedRepeats(data, |data|, size, 0);
      forall i | 0 <= i < |data| ensures fed[i] == data[Wrapped(i, size)] { HandedRepeats(data, |data|, size, i); }
      hide Handed, Flat, Periodic;
      Repeats(fed, data, size);
    }
  }

  /** Behind a buffer of 256 bytes, a last byte unlike the first is lost. */
  lemma PushLosesData(first: byte, last: byte)
    requires first != last
    ensures var data := seq(256, _ => first) + [last]; Flat(Handed(data, 257, 256)) != data
  {
    var data := seq(256, _ => first) + [last];
    assert Wrapped(256, 256) == 0 && data[256] == last && data[0] == first;
    PushFeedsData(data, 256);
  }
}
