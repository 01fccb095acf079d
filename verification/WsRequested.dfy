/** What the application and the peer ask a connection to send, read off the events, and what the peer gets of it. */
module WsRequested {
  import opened Bytes
  import opened WsFrame
  import opened WsSendSpec
  import RingSpec

  /** An opcode of section 5.2 of RFC 6455 and a payload. */
  type Asked = (nat, seq<Byte>)

  /** The frame that an event asks for: a message in its own opcode, or the one CLOSE; nothing once closed. */
  function AskedBy(e: Event, closed: bool): seq<Asked> {
    if closed then []
    else
      match e
      case SendMessage(text, data, _) => [(if text then 0x1 else 0x2, data)]
      case CloseCalled(_) => [(0x8, [])]
      case PeerClosed(_) => [(0x8, [])]
      case _ => []
  }

  /** Either side has closed the connection. */
  predicate ClosedAfter(e: Event, closed: bool) {
    closed || e.CloseCalled? || e.PeerClosed?
  }

  /** How long the frame is: the header has 2, 4 or 10 bytes. */
  function FrameLen(len: nat): nat {
    len + if len < 126 then 2 else if len < 65536 then 4 else 10
  }

  /** There is room for the frame under the limit, and memory where a new chunk is needed. */
  predicate HasRoom(r: RingSpec.Ring, len: nat, allocOk: bool)
    requires RingSpec.AllValid(r.chunks)
  {
    && r.len + len <= r.maxLen
    && (allocOk || (r.chunks != [] && r.chunks[|r.chunks| - 1].Len() + len <= |r.chunks[|r.chunks| - 1].data|))
  }

  function Memory(e: Event): bool {
    match e
    case SendMessage(_, _, allocOk) => allocOk
    case CloseCalled(allocOk) => allocOk
    case PeerClosed(allocOk) => allocOk
    case _ => true
  }

  /** What is asked for and there is room for. */
  function Taken(s: Ws, e: Event, closed: bool): seq<Asked>
    requires RingSpec.Inv(s.ring)
  {
    var asked := AskedBy(e, closed);
    if asked != [] && HasRoom(s.ring, FrameLen(|asked[0].1|), Memory(e)) then asked else []
  }

  /** What a run is asked to send, of which there is room for each when it is asked, in order. */
  function AllTaken(s: Ws, events: seq<Event>, closed: bool): seq<Asked>
    requires IsRun(s, events)
    decreases |events|
  {
    if events == [] then []
    else Taken(s, events[0], closed) + AllTaken(Step(s, events[0]), events[1..], ClosedAfter(events[0], closed))
  }

  lemma WireLen(sent: Sent)
    ensures |WireOf(sent)| == FrameLen(|sent.data|)
  {
  }

  lemma {:induction false} PlainSnoc(sent: seq<Sent>, x: Sent)
    ensures Plain(sent + [x]) == Plain(sent) + [(Opcode(x.frame), x.data)]
  {
    if sent == [] {
      assert sent + [x] == [x] && Plain([x][1..]) == [];
    } else {
      PlainSnoc(sent[1..], x);
      assert (sent + [x])[1..] == sent[1..] + [x];
    }
  }

  /** A frame is accepted exactly if there is room for it. */
  lemma QueueTakes(s: Ws, sent: Sent, allocOk: bool)
    requires RingSpec.Inv(s.ring)
    ensures var u := QueueFrame(s, sent, allocOk);
            && u.closing == s.closing
            && Plain(u.accepted) == Plain(s.accepted) +
                 if HasRoom(s.ring, FrameLen(|sent.data|), allocOk) then [(Opcode(sent.frame), sent.data)] else []
  {
    hide RingSpec.Write, HeaderBytes, Plain, FrameLen;
    WireLen(sent);
    PlainSnoc(s.accepted, sent);
    assert Plain(s.accepted) + [] == Plain(s.accepted);
  }

  /** A step accepts exactly the frame that it is asked for, if there is room for it. */
  lemma StepTakes(s: Ws, e: Event)
    requires Enabled(s, e)
    ensures Plain(Step(s, e).accepted) == Plain(s.accepted) + Taken(s, e, s.closing)
    ensures Step(s, e).closing == ClosedAfter(e, s.closing)
  {
    hide RingSpec.Inv, QueueFrame, Plain, FrameLen, HasRoom;
    assert Plain(s.accepted) + [] == Plain(s.accepted);
    match e
    case SendMessage(text, data, allocOk) => QueueTakes(s, Sent(if text then Text else Binary, data), allocOk);
    case SendDone(n) =>
    case SendFailed =>
    case _ => QueueTakes(s.(closing := true), Sent(Close, []), e.allocOk);
  }

  lemma {:induction false} RunTakes(s: Ws, events: seq<Event>)
    requires IsRun(s, events)
    ensures Plain(Run(s, events).accepted) == Plain(s.accepted) + AllTaken(s, events, s.closing)
    decreases |events|
  {
    hide Step, Taken, RingSpec.Inv;
    if events == [] {
      assert Plain(s.accepted) + [] == Plain(s.accepted);
    } else {
      StepTakes(s, events[0]);
      RunTakes(Step(s, events[0]), events[1..]);
      Associate(Plain(s.accepted), Taken(s, events[0], s.closing),
                AllTaken(Step(s, events[0]), events[1..], ClosedAfter(events[0], s.closing)));
    }
  }

  /**
   What the peer decodes, at any point of any run, is a prefix of the frames that were asked for and
   had room, each with its own opcode and the caller's bytes, and with what is queued it is all of them.
   */
  lemma PeerSeesRequested(initialCapacity: nat, maxLen: nat, events: seq<Event>)
    requires IsRun(Start(initialCapacity, maxLen), events)
    ensures var s, asked := Run(Start(initialCapacity, maxLen), events),
                            AllTaken(Start(initialCapacity, maxLen), events, false);
            && RingSpec.Inv(s.ring)
            && DecodeStream(s.wire) <= asked
            && DecodeStream(s.wire + RingSpec.Contents(s.ring.chunks)) == asked
  {
    hide RingSpec.Inv, DecodeStream, RingSpec.Contents, AllTaken, Run, IsRun;
    var start := Start(initialCapacity, maxLen);
    PeerSeesAccepted(initialCapacity, maxLen, events);
    RunTakes(start, events);
    assert Plain(start.accepted) == [];
  }

  /** After a close nothing is asked for; so a CLOSE is the last frame, and there is one at most. */
  lemma {:induction false} NothingAfterClose(s: Ws, events: seq<Event>)
    requires IsRun(s, events)
    ensures AllTaken(s, events, true) == []
    decreases |events|
  {
    if events != [] {
      NothingAfterClose(Step(s, events[0]), events[1..]);
    }
  }

  /** A closing connection ends when its last byte is out, and no other does then. */
  lemma EndsWhenDrained(s: Ws, n: nat)
    requires Inv(s) && Enabled(s, SendDone(n))
    ensures var u := Step(s, SendDone(n));
            && (u.alive <==> !s.closing || n < s.ring.len)
            && (u.sending <==> n < s.ring.len)
  {
    RingSpec.ConsumeInv(s.ring, n);
    IdleIsEmpty(AfterSend(s, n).ring);
  }

  /** A failed send ends the connection, with nothing more on the wire or under way. */
  lemma FailureEnds(s: Ws)
    requires Inv(s) && Enabled(s, SendFailed)
    ensures var u := Step(s, SendFailed);
            !u.alive && u.outstanding == 0 && u.offered == [] && u.wire == s.wire && u.ring == s.ring
  {
  }

  /** As long as the connection lives, messages may be sent and both sides may close it. */
  lemma MayAsk(s: Ws, text: bool, data: seq<Byte>, allocOk: bool)
    requires Inv(s) && s.alive && |data| < SIZE_LIMIT
    ensures Enabled(s, SendMessage(text, data, allocOk))
    ensures Enabled(s, CloseCalled(allocOk)) && Enabled(s, PeerClosed(allocOk))
    ensures 0 < s.ring.len ==> Enabled(s, SendFailed)
  {
  }

  /** On a new connection a message that fits is offered at once, whole, to the first send. */
  lemma FirstMessageIsOffered(initialCapacity: nat, maxLen: nat, text: bool, data: seq<Byte>)
    requires |data| < SIZE_LIMIT && FrameLen(|data|) <= maxLen
    ensures var s, e := Start(initialCapacity, maxLen), SendMessage(text, data, true);
            && Enabled(s, e) && Step(s, e).outstanding == 1
            && Step(s, e).offered == HeaderBytes(if text then Text else Binary, |data|) + data
  {
    hide HeaderBytes;
    var sent := Sent(if text then Text else Binary, data);
    var s := Start(initialCapacity, maxLen);
    WireLen(sent);
    RingSpec.WriteInv(s.ring, WireOf(sent), true);
    RingSpec.WriteAppends(s.ring, WireOf(sent), true);
    var w := RingSpec.Write(s.ring, WireOf(sent), true);
    RingSpec.ContentsSingle(w.chunks[0]);
    assert w.chunks == [w.chunks[0]];
  }
}
