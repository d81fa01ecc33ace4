/** A slave that shares the line with others and must tell their responses from requests. */
module ModbusBus {
  import opened Bytes
  import opened ModbusFrame
  import opened ModbusProtocol
  import opened ModbusEndToEnd
  import opened ModbusLine

  /** Flag, bytes left on the line, and the result of the last receive. */
  datatype Listening = Listening(toIgnore: bool, left: seq<byte>, rc: int)

  /** `_modbus_rtu_receive` as seen by slave `self`. */
  function Listen(self: byte, s: Listening): Listening {
    var kind := if s.toIgnore then Confirmation else Indication;
    match Scan(s.left, kind)
    case Short => Listening(false, [], if s.toIgnore then 0 else -1)
    case TooLong(consumed) => Listening(false, s.left[consumed..], if s.toIgnore then 0 else -1)
    case Whole(length) =>
      var rc := Integrity(self, s.left[..length]);
      if s.toIgnore then Listening(false, s.left[length..], 0)
      else Listening(rc == 0, s.left[length..], rc)
  }

  class Listener {
    const self: byte
    var confirmationToIgnore: bool

    constructor (self: byte)
      ensures this.self == self && !confirmationToIgnore
    {
      this.self, confirmationToIgnore := self, false;
    }

    /** `_modbus_rtu_receive`: errors of an ignored confirmation are ignored as well. */
    method Receive(line: Line, req: array<byte>) returns (rc: int)
      requires req.Length == MAX_MESSAGE_LENGTH
      modifies this, line, req
      ensures var next := Listen(self, Listening(old(confirmationToIgnore), old(line.pending), 0));
              Listening(confirmationToIgnore, line.pending, rc) == next
      ensures !old(confirmationToIgnore) && rc > 0 ==> rc <= MAX_ADU && old(line.pending) == req[..rc] + line.pending
    {
      hide Integrity, Scan;
      if confirmationToIgnore {
        var _, _ := ReceiveMsg(line, self, req, Confirmation);
        confirmationToIgnore := false;
        rc := 0;
      } else {
        var r, _ := ReceiveMsg(line, self, req, Indication);
        rc := r;
        if rc == 0 {
          confirmationToIgnore := true;
        }
        if rc > 0 { LengthIsFrame(self, old(line.pending), rc, req[..], line.pending); }
      }
    }
  }

  lemma LengthIsFrame(self: byte, waiting: seq<byte>, rc: int, got: seq<byte>, left: seq<byte>)
    requires |got| == MAX_MESSAGE_LENGTH && Received(waiting, Indication, self, rc, got, left) && rc > 0
    ensures rc <= MAX_ADU && waiting == got[..rc] + left
  {
    var length := Scan(waiting, Indication).length;
    assert rc == length;
    assert waiting == waiting[..length] + waiting[length..];
  }

  /** A request of the client, and how its addressee came to answer it. */
  datatype Exchange = Exchange(target: byte, op: Op, buffer: seq<byte>, tables: Mapping)

  /** The addressee holds the request in its buffer when it serves it from its tables. */
  ghost predicate Served(e: Exchange) {
    e.target <= 247 && Refused(e.op).None? && Holds(e.buffer, Framed(Request(e.target, e.op)))
  }

  /** The addressee's response; a broadcast has none. */
  function Answer(e: Exchange): Option<seq<byte>>
    requires |e.buffer| == MAX_MESSAGE_LENGTH && Refused(e.op).None?
  {
    Reply(e.buffer, |Request(e.target, e.op)| + 2, e.tables).response
  }

  datatype Heard = Heard(bytes: seq<byte>, response: bool, mine: bool)

  /** The frames of one exchange that reach slave `self`, which does not hear itself. */
  ghost function Frames(self: byte, e: Exchange): seq<Heard>
    requires Served(e)
  {
    var request := Heard(Framed(Request(e.target, e.op)), false, e.target == self || e.target == BROADCAST);
    if e.target != self && Answer(e).Some? then [request, Heard(Framed(Answer(e).value), true, false)] else [request]
  }

  ghost function Traffic(self: byte, run: seq<Exchange>): seq<Heard>
    requires forall i | 0 <= i < |run| :: Served(run[i])
  {
    if run == [] then [] else Frames(self, run[0]) + Traffic(self, run[1..])
  }

  function OnLine(frames: seq<Heard>): seq<byte> {
    if frames == [] then [] else frames[0].bytes + OnLine(frames[1..])
  }

  /** The state after `n` receives. */
  function After(self: byte, stream: seq<byte>, n: nat): Listening {
    if n == 0 then Listening(false, stream, 0) else Listen(self, After(self, stream, n - 1))
  }

  predicate ResponseNext(frames: seq<Heard>) {
    frames != [] && frames[0].response
  }

  /** What a listener in step has before it: a frame boundary, and the right expectation. */
  ghost predicate InStep(s: Listening, frames: seq<Heard>) {
    s.left == OnLine(frames) && s.toIgnore == ResponseNext(frames)
  }

  /** A frame that can be received as what it is. */
  ghost predicate Sound(self: byte, f: Heard) {
    |f.bytes| >= 2 && Scan(f.bytes, if f.response then Confirmation else Indication) == Whole(|f.bytes|)
    && if f.response then !f.mine else Integrity(self, f.bytes) == if f.mine then |f.bytes| else 0
  }

  /** Sound frames in which the responses are exactly what follows foreign requests. */
  ghost predicate Orderly(self: byte, frames: seq<Heard>) {
    frames == [] ||
    (Sound(self, frames[0]) && Orderly(self, frames[1..])
     && (ResponseNext(frames[1..]) <==> !frames[0].response && !frames[0].mine))
  }

  lemma RequestSound(self: byte, e: Exchange)
    requires Served(e) && 1 <= self <= 247
    ensures Sound(self, Heard(Framed(Request(e.target, e.op)), false, e.target == self || e.target == BROADCAST))
  {
    var pdu := Request(e.target, e.op);
    var request := Framed(pdu);
    RequestDelimited(e.target, e.op);
    FramedGood(pdu);
    assert request[0] == e.target;
    hide Scan, CrcGood, Framed, Holds, Request;
  }

  lemma AnswerSound(self: byte, e: Exchange)
    requires Served(e) && Answer(e).Some?
    ensures Sound(self, Heard(Framed(Answer(e).value), true, false))
  {
    var pdu := Request(e.target, e.op);
    var request := Framed(pdu);
    var length := |pdu| + 2;
    RequestDelimited(e.target, e.op);
    assert request[1] == Function(e.op);
    InBuffer(e.buffer, request, 1);
    assert e.buffer[..Least(length, MAX_MESSAGE_LENGTH)] == request;
    hide Scan, Framed, Holds, Request, Reply;
    ReplyDelimited(e.buffer, length, e.tables);
  }

  lemma OneOrTwoOrderly(self: byte, request: Heard, answer: Heard)
    requires Sound(self, request) && !request.response
    ensures request.mine ==> Orderly(self, [request])
    ensures !request.mine && Sound(self, answer) && answer.response ==> Orderly(self, [request, answer])
  {
    hide Sound;
    assert [request][1..] == [];
    var pair := [request, answer];
    assert pair[1..] == [answer] && [answer][1..] == [];
    if Sound(self, answer) && answer.response {
      SoundResponse(self, answer);
      assert Orderly(self, [answer]);
    }
  }

  lemma SoundResponse(self: byte, f: Heard)
    requires Sound(self, f) && f.response
    ensures !f.mine
  {
  }

  lemma FramesOrderly(self: byte, e: Exchange)
    requires Served(e) && 1 <= self <= 247
    ensures Orderly(self, Frames(self, e)) && !ResponseNext(Frames(self, e))
  {
    RequestSound(self, e);
    AnswerDue(e);
    var request := Frames(self, e)[0];
    if e.target != self && Answer(e).Some? {
      AnswerSound(self, e);
      hide Sound, Answer, Orderly, Served;
      OneOrTwoOrderly(self, request, Frames(self, e)[1]);
    } else {
      hide Sound, Answer, Orderly, Served;
      OneOrTwoOrderly(self, request, request);
    }
  }

  /** Only a broadcast goes unanswered. */
  lemma AnswerDue(e: Exchange)
    requires Served(e)
    ensures Answer(e).Some? <==> e.target != BROADCAST
  {
    var request := Framed(Request(e.target, e.op));
    InBuffer(e.buffer, request, 0);
    InBuffer(e.buffer, request, 1);
    assert request[0] == e.target && request[1] == Function(e.op);
    hide ServeReadBits, ServeReadRegisters, ServeWriteBit, ServeWriteRegister, ServeWriteBits, ServeWriteRegisters,
      ServeMaskWrite, ServeWriteAndRead, Basis, Request, Framed, Holds;
  }

  lemma {:induction false} TrafficOrderly(self: byte, run: seq<Exchange>)
    requires (forall i | 0 <= i < |run| :: Served(run[i])) && 1 <= self <= 247
    ensures Orderly(self, Traffic(self, run)) && !ResponseNext(Traffic(self, run))
  {
    hide Served, Sound;
    if run != [] {
      FramesOrderly(self, run[0]);
      TrafficOrderly(self, run[1..]);
      OrderlyJoined(self, Frames(self, run[0]), Traffic(self, run[1..]));
    }
  }

  lemma {:induction false} OrderlyJoined(self: byte, a: seq<Heard>, b: seq<Heard>)
    requires Orderly(self, a) && Orderly(self, b) && !ResponseNext(b)
    requires a != [] ==> a[|a| - 1].response || a[|a| - 1].mine
    ensures Orderly(self, a + b)
  {
    hide Sound;
    if a == [] {
      assert a + b == b;
    } else {
      OrderlyJoined(self, a[1..], b);
      assert (a + b)[1..] == a[1..] + b;
    }
  }

  /** One receive takes exactly one frame and leaves the listener in step. */
  lemma StaysInStep(self: byte, s: Listening, frames: seq<Heard>)
    requires InStep(s, frames) && Orderly(self, frames) && frames != []
    ensures var next := Listen(self, s);
            InStep(next, frames[1..]) && next.rc == if frames[0].mine then |frames[0].bytes| else 0
  {
    var f := frames[0];
    var more := OnLine(frames[1..]);
    SelfDelimiting(f.bytes, more, if f.response then Confirmation else Indication);
    assert s.left[..|f.bytes|] == f.bytes && s.left[|f.bytes|..] == more;
    hide Integrity, Scan;
  }

  lemma {:induction false} OrderlyTail(self: byte, frames: seq<Heard>, n: nat)
    requires Orderly(self, frames) && n <= |frames|
    ensures Orderly(self, frames[n..])
  {
    hide Sound;
    if n > 0 {
      OrderlyTail(self, frames[1..], n - 1);
      assert frames[1..][n - 1..] == frames[n..];
    } else {
      assert frames[0..] == frames;
    }
  }

  /**
   * Over every run, a listening slave begins each receive at a frame boundary, expects a
   * response exactly when the next frame is another slave's response, and is handed exactly
   * the requests meant for it, each whole.
   */
  lemma {:induction false} BusStaysInStep(self: byte, run: seq<Exchange>, n: nat)
    requires (forall i | 0 <= i < |run| :: Served(run[i])) && 1 <= self <= 247
    requires n <= |Traffic(self, run)|
    ensures var frames := Traffic(self, run);
            var s := After(self, OnLine(frames), n);
            InStep(s, frames[n..]) && (n > 0 ==> s.rc == if frames[n - 1].mine then |frames[n - 1].bytes| else 0)
  {
    hide Served, Traffic, Orderly, Listen, OnLine, ResponseNext;
    var frames := Traffic(self, run);
    TrafficOrderly(self, run);
    if n == 0 {
      assert frames[0..] == frames;
    } else {
      BusStaysInStep(self, run, n - 1);
      hide InStep;
      OrderlyTail(self, frames, n - 1);
      StaysInStep(self, After(self, OnLine(frames), n - 1), frames[n - 1..]);
      assert frames[n - 1..][1..] == frames[n..];
      assert frames[n - 1..][0] == frames[n - 1];
    }
  }
}
