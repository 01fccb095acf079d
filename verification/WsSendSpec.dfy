/**
 The sending side of a WebSocket connection on values: frames are queued in the ring, one
 asynchronous send is kept going, and a CLOSE frame ends the stream.
 */
module WsSendSpec {
  import opened Bytes
  import opened WsFrame
  import RingSpec

  datatype Sent = Sent(frame: FrameType, data: seq<Byte>)

  /**
   `outstanding` counts sends that were started and have not completed; `offered` holds the bytes
   that the last one was given. `wire` and `accepted` are history: the bytes whose send completed,
   and the frames that were queued.
   */
  datatype Ws = Ws(
    ring: RingSpec.Ring, sending: bool, closing: bool, alive: bool,
    outstanding: nat, offered: seq<Byte>, wire: seq<Byte>, accepted: seq<Sent>)

  function Start(initialCapacity: nat, maxLen: nat): Ws {
    Ws(RingSpec.Empty(initialCapacity, maxLen), false, false, true, 0, [], [], [])
  }

  function WireOf(s: Sent): seq<Byte> {
    HeaderBytes(s.frame, |s.data|) + s.data
  }

  function WiresOf(sent: seq<Sent>): seq<seq<Byte>> {
    if sent == [] then [] else [WireOf(sent[0])] + WiresOf(sent[1..])
  }

  /** Nothing to send: the condition under which `peek` returns no range. */
  predicate Idle(r: RingSpec.Ring)
    requires RingSpec.Inv(r)
  {
    r.chunks == [] || r.chunks[0].Len() == 0
  }

  lemma IdleIsEmpty(r: RingSpec.Ring)
    requires RingSpec.Inv(r)
    ensures Idle(r) <==> r.len == 0
  {
    if r.chunks != [] {
      RingSpec.HeadIsPrefix(r);
    }
  }

  /**
   Starts the next send, of all that the head chunk holds, or stops; a connection that is closing
   ends once everything is out.
   */
  function Drain(s: Ws): Ws
    requires RingSpec.Inv(s.ring)
  {
    if Idle(s.ring) then s.(sending := false, alive := s.alive && !s.closing)
    else s.(sending := true, outstanding := s.outstanding + 1, offered := s.ring.chunks[0].Queued())
  }

  function QueueStatus(s: Ws, sent: Sent, allocOk: bool): RingSpec.WriteResult
    requires RingSpec.Inv(s.ring)
  {
    RingSpec.WriteStatus(s.ring, |WireOf(sent)|, allocOk)
  }

  function QueueFrame(s: Ws, sent: Sent, allocOk: bool): Ws
    requires RingSpec.Inv(s.ring)
  {
    RingSpec.WriteInv(s.ring, WireOf(sent), allocOk);
    if QueueStatus(s, sent, allocOk) != RingSpec.Written then s
    else
      var queued := s.(ring := RingSpec.Write(s.ring, WireOf(sent), allocOk), accepted := s.accepted + [sent]);
      if s.sending then queued else Drain(queued)
  }

  function AfterSend(s: Ws, n: nat): Ws
    requires RingSpec.Inv(s.ring) && RingSpec.CanConsume(s.ring, n) && 0 < s.outstanding && n <= |s.offered|
  {
    RingSpec.ConsumeInv(s.ring, n);
    s.(ring := RingSpec.Consume(s.ring, n), outstanding := s.outstanding - 1, offered := [],
       wire := s.wire + s.offered[..n])
  }

  datatype Event =
    | SendMessage(text: bool, data: seq<Byte>, allocOk: bool)
    | CloseCalled(allocOk: bool)
    | PeerClosed(allocOk: bool)
    | SendDone(n: nat)
    | SendFailed

  predicate Enabled(s: Ws, e: Event) {
    && s.alive && RingSpec.Inv(s.ring)
    && match e
       // a send that succeeds has put at most what it was given on the wire
       case SendDone(n) => 0 < s.outstanding && n <= |s.offered| && RingSpec.CanConsume(s.ring, n)
       case SendFailed => 0 < s.outstanding
       case SendMessage(_, data, _) => |data| < SIZE_LIMIT
       case _ => true
  }

  function Step(s: Ws, e: Event): Ws
    requires Enabled(s, e)
  {
    match e
    case SendMessage(text, data, allocOk) =>
      if s.closing then s else QueueFrame(s, Sent(if text then Text else Binary, data), allocOk)
    case CloseCalled(allocOk) =>
      if s.closing then s else QueueFrame(s.(closing := true), Sent(Close, []), allocOk)
    case PeerClosed(allocOk) =>
      if s.closing then s else QueueFrame(s.(closing := true), Sent(Close, []), allocOk)
    case SendDone(n) =>
      RingSpec.ConsumeInv(s.ring, n);
      Drain(AfterSend(s, n))
    case SendFailed => s.(alive := false, outstanding := s.outstanding - 1, offered := [])
  }

  /** A CLOSE frame is last. */
  predicate CloseIsLast(accepted: seq<Sent>) {
    forall i :: 0 <= i < |accepted| - 1 ==> accepted[i].frame != Close
  }

  /** The stream: what is on the wire, then what is queued, is exactly what was accepted, in order. */
  predicate StreamHolds(wire: seq<Byte>, queued: seq<Byte>, accepted: seq<Sent>, closing: bool) {
    && wire + queued == Concat(WiresOf(accepted))
    && CloseIsLast(accepted)
    && (!closing ==> forall i :: 0 <= i < |accepted| ==> accepted[i].frame != Close)
    && (forall i :: 0 <= i < |accepted| ==> |accepted[i].data| < SIZE_LIMIT)
  }

  predicate StreamOk(s: Ws)
    requires RingSpec.Inv(s.ring)
  {
    StreamHolds(s.wire, RingSpec.Contents(s.ring.chunks), s.accepted, s.closing)
  }

  /** What a send was given is still what the head chunk holds in front. */
  predicate Offers(r: RingSpec.Ring, offered: seq<Byte>)
    requires RingSpec.Inv(r)
  {
    offered != [] && r.chunks != [] && offered <= r.chunks[0].Queued()
  }

  /** One send is outstanding exactly while bytes are queued, and it is of the oldest ones. */
  predicate SendOk(s: Ws) {
    && RingSpec.Inv(s.ring)
    && s.outstanding <= 1
    && (s.alive ==>
          && (s.sending <==> 0 < s.ring.len)
          && s.outstanding == (if s.sending then 1 else 0)
          && (s.sending ==> Offers(s.ring, s.offered)))
  }

  predicate Inv(s: Ws) {
    SendOk(s) && StreamOk(s)
  }

  lemma {:induction false} WiresOfSnoc(sent: seq<Sent>, x: Sent)
    ensures Concat(WiresOf(sent + [x])) == Concat(WiresOf(sent)) + WireOf(x)
  {
    if sent == [] {
      assert sent + [x] == [x];
      assert WiresOf([x]) == [WireOf(x)] + WiresOf([]);
      assert Concat([WireOf(x)]) == WireOf(x) + Concat([]);
    } else {
      WiresOfSnoc(sent[1..], x);
      assert (sent + [x])[1..] == sent[1..] + [x];
      assert WiresOf(sent + [x])[1..] == WiresOf(sent[1..] + [x]);
      assert WiresOf(sent)[1..] == WiresOf(sent[1..]);
    }
  }

  lemma DrainKeeps(s: Ws)
    requires RingSpec.Inv(s.ring) && s.outstanding == 0
    ensures SendOk(Drain(s))
  {
    if s.ring.chunks != [] {
      RingSpec.HeadIsPrefix(s.ring);
    }
  }

  /** A write leaves the bytes that are being sent in place. */
  lemma WriteKeepsOffer(r: RingSpec.Ring, msg: seq<Byte>, allocOk: bool, offered: seq<Byte>)
    requires RingSpec.Inv(r) && Offers(r, offered)
    ensures var w := RingSpec.Write(r, msg, allocOk);
            RingSpec.Inv(w) && Offers(w, offered)
  {
    RingSpec.WriteInv(r, msg, allocOk);
    RingSpec.WriteHolds(r, msg, allocOk);
    var c, c' := r.chunks[0], RingSpec.Write(r, msg, allocOk).chunks[0];
    forall i | 0 <= i < |offered| ensures c'.Queued()[i] == offered[i] {
      assert c'.At(c.head + i) == c.At(c.head + i);
    }
  }

  /** The environment may report any part of what was offered. */
  lemma AnyPartMayComplete(s: Ws, n: nat)
    requires Inv(s) && s.alive && s.sending && n <= |s.offered|
    ensures Enabled(s, SendDone(n))
  {
  }

  lemma QueueKeepsSend(s: Ws, sent: Sent, allocOk: bool)
    requires SendOk(s) && s.alive
    ensures SendOk(QueueFrame(s, sent, allocOk))
  {
    var w := RingSpec.Write(s.ring, WireOf(sent), allocOk);
    RingSpec.WriteInv(s.ring, WireOf(sent), allocOk);
    if QueueStatus(s, sent, allocOk) == RingSpec.Written {
      if s.sending {
        WriteKeepsOffer(s.ring, WireOf(sent), allocOk, s.offered);
      } else {
        DrainKeeps(s.(ring := w, accepted := s.accepted + [sent]));
      }
    }
  }

  /** A frame joins the stream at its end. */
  lemma StreamGrows(wire: seq<Byte>, queued: seq<Byte>, accepted: seq<Sent>, closing: bool, sent: Sent)
    requires StreamHolds(wire, queued, accepted, closing) && |sent.data| < SIZE_LIMIT
    requires forall i :: 0 <= i < |accepted| ==> accepted[i].frame != Close
    requires sent.frame == Close ==> closing
    ensures StreamHolds(wire, queued + WireOf(sent), accepted + [sent], closing)
  {
    WiresOfSnoc(accepted, sent);
    assert wire + (queued + WireOf(sent)) == (wire + queued) + WireOf(sent);
  }

  /** Bytes move from the queue to the wire. */
  lemma StreamMoves(wire: seq<Byte>, queued: seq<Byte>, accepted: seq<Sent>, closing: bool, n: nat)
    requires StreamHolds(wire, queued, accepted, closing) && n <= |queued|
    ensures StreamHolds(wire + queued[..n], queued[n..], accepted, closing)
  {
    assert wire + queued[..n] + queued[n..] == wire + (queued[..n] + queued[n..]);
    assert queued[..n] + queued[n..] == queued;
  }

  lemma QueueKeepsStream(s: Ws, sent: Sent, allocOk: bool)
    requires RingSpec.Inv(s.ring) && StreamOk(s) && |sent.data| < SIZE_LIMIT
    requires forall i :: 0 <= i < |s.accepted| ==> s.accepted[i].frame != Close
    requires sent.frame == Close ==> s.closing
    ensures RingSpec.Inv(QueueFrame(s, sent, allocOk).ring) && StreamOk(QueueFrame(s, sent, allocOk))
  {
    RingSpec.WriteInv(s.ring, WireOf(sent), allocOk);
    RingSpec.WriteAppends(s.ring, WireOf(sent), allocOk);
    StreamGrows(s.wire, RingSpec.Contents(s.ring.chunks), s.accepted, s.closing, sent);
  }

  lemma SendDoneKeepsStream(s: Ws, n: nat)
    requires RingSpec.Inv(s.ring) && StreamOk(s) && RingSpec.CanConsume(s.ring, n) && 0 < s.outstanding
    requires Offers(s.ring, s.offered) && n <= |s.offered|
    ensures RingSpec.Inv(AfterSend(s, n).ring) && StreamOk(AfterSend(s, n))
  {
    RingSpec.ConsumeInv(s.ring, n);
    RingSpec.ConsumeDrops(s.ring, n);
    RingSpec.HeadIsPrefix(s.ring);
    var contents := RingSpec.Contents(s.ring.chunks);
    StreamMoves(s.wire, contents, s.accepted, s.closing, n);
    assert s.offered[..n] == s.ring.chunks[0].Queued()[..n] == contents[..n];
  }

  lemma StepKeepsInv(s: Ws, e: Event)
    requires Inv(s) && Enabled(s, e)
    ensures Inv(Step(s, e))
  {
    match e
    case SendMessage(text, data, allocOk) =>
      if !s.closing {
        var sent := Sent(if text then Text else Binary, data);
        QueueKeepsSend(s, sent, allocOk);
        QueueKeepsStream(s, sent, allocOk);
      }
    case SendDone(n) =>
      RingSpec.ConsumeInv(s.ring, n);
      SendDoneKeepsStream(s, n);
      DrainKeeps(AfterSend(s, n));
    case SendFailed =>
    case _ =>
      if !s.closing {
        QueueKeepsSend(s.(closing := true), Sent(Close, []), e.allocOk);
        QueueKeepsStream(s.(closing := true), Sent(Close, []), e.allocOk);
      }
  }

  predicate IsRun(s: Ws, events: seq<Event>)
    decreases |events|
  {
    events == [] || (Enabled(s, events[0]) && IsRun(Step(s, events[0]), events[1..]))
  }

  function Run(s: Ws, events: seq<Event>): Ws
    requires IsRun(s, events)
    decreases |events|
  {
    if events == [] then s else Run(Step(s, events[0]), events[1..])
  }

  lemma {:induction false} RunKeepsInv(s: Ws, events: seq<Event>)
    requires Inv(s) && IsRun(s, events)
    ensures Inv(Run(s, events))
    decreases |events|
  {
    if events != [] {
      StepKeepsInv(s, events[0]);
      RunKeepsInv(Step(s, events[0]), events[1..]);
    }
  }

  // ---------- What the peer sees ----------

  /** The unmasked frame at the front of a byte stream, and its whole length; `None` while it is unfinished. */
  function FirstFrame(b: seq<Byte>): (r: Option<((nat, seq<Byte>), nat)>)
    ensures r.Some? ==> 0 < r.value.1 <= |b|
  {
    match DecodeHeader(b)
    case None => None
    case Some(h) =>
      if h.masked || |b| < h.size + h.len then None
      else Some(((h.opcode, b[h.size..h.size + h.len]), h.size + h.len))
  }

  /** Splits a byte stream into the frames it holds; an unfinished frame at the end is left out. */
  function DecodeStream(b: seq<Byte>): seq<(nat, seq<Byte>)>
    decreases |b|
  {
    match FirstFrame(b)
    case None => []
    case Some((frame, n)) => [frame] + DecodeStream(b[n..])
  }

  function Plain(sent: seq<Sent>): (p: seq<(nat, seq<Byte>)>)
    ensures |p| == |sent|
  {
    if sent == [] then [] else [(Opcode(sent[0].frame), sent[0].data)] + Plain(sent[1..])
  }

  lemma {:induction false} StreamDecodes(sent: seq<Sent>)
    requires forall i :: 0 <= i < |sent| ==> |sent[i].data| < SIZE_LIMIT
    ensures DecodeStream(Concat(WiresOf(sent))) == Plain(sent)
  {
    if sent != [] {
      var x := sent[0];
      var header, rest := HeaderBytes(x.frame, |x.data|), Concat(WiresOf(sent[1..]));
      var b := Concat(WiresOf(sent));
      assert WiresOf(sent)[1..] == WiresOf(sent[1..]);
      assert b == header + (x.data + rest);
      HeaderRoundTrip(x.frame, |x.data|, x.data + rest);
      assert b[|header|..|header| + |x.data|] == x.data;
      assert FirstFrame(b) == Some(((Opcode(x.frame), x.data), |header| + |x.data|));
      assert b[|header| + |x.data|..] == rest;
      StreamDecodes(sent[1..]);
    }
  }

  lemma FirstFrameStays(a: seq<Byte>, b: seq<Byte>)
    requires FirstFrame(a).Some?
    ensures FirstFrame(a + b) == FirstFrame(a)
  {
    assert (a + b)[0] == a[0] && (a + b)[1] == a[1];
    var h := DecodeHeader(a).value;
    var ext := ExtendedBytes(Len7(a[1]));
    assert (a + b)[2..2 + ext] == a[2..2 + ext];
    assert (a + b)[2 + ext..h.size] == a[2 + ext..h.size];
    assert (a + b)[h.size..h.size + h.len] == a[h.size..h.size + h.len];
  }

  lemma {:induction false} DecodingGrows(a: seq<Byte>, b: seq<Byte>)
    ensures DecodeStream(a) <= DecodeStream(a + b)
    decreases |a|
  {
    if FirstFrame(a).Some? {
      FirstFrameStays(a, b);
      var n := FirstFrame(a).value.1;
      assert (a + b)[n..] == a[n..] + b;
      DecodingGrows(a[n..], b);
    }
  }

  /** At any point of any run the peer has decoded a prefix of the accepted frames, and with the queued bytes all. */
  lemma PeerSeesAccepted(initialCapacity: nat, maxLen: nat, events: seq<Event>)
    requires IsRun(Start(initialCapacity, maxLen), events)
    ensures var s := Run(Start(initialCapacity, maxLen), events);
            && RingSpec.Inv(s.ring)
            && DecodeStream(s.wire) <= Plain(s.accepted)
            && DecodeStream(s.wire + RingSpec.Contents(s.ring.chunks)) == Plain(s.accepted)
            && CloseIsLast(s.accepted)
            && s.outstanding <= 1
  {
    var s0 := Start(initialCapacity, maxLen);
    var s := Run(s0, events);
    RunKeepsInv(s0, events);
    StreamDecodes(s.accepted);
    DecodingGrows(s.wire, RingSpec.Contents(s.ring.chunks));
  }

  // ---------- Sends come to an end ----------

  /** A send that moves something makes the queue shorter. */
  lemma SendShortens(s: Ws, n: nat)
    requires Inv(s) && Enabled(s, SendDone(n)) && 0 < n
    ensures Step(s, SendDone(n)).ring.len + n == s.ring.len
    ensures Step(s, SendDone(n)).accepted == s.accepted
    ensures !Step(s, SendDone(n)).alive ==> Step(s, SendDone(n)).ring.len == 0
  {
    RingSpec.ConsumeInv(s.ring, n);
    RingSpec.HeadIsPrefix(s.ring);
    IdleIsEmpty(AfterSend(s, n).ring);
  }

  /**
   Between two messages, sends that each move something can go on as long as bytes are queued, and
   after as many of them as there are bytes at most the peer has decoded all that was accepted.
   */
  lemma {:induction false} QueueDrains(s: Ws, events: seq<Event>)
    requires Inv(s) && s.alive && IsRun(s, events)
    requires forall i :: 0 <= i < |events| ==> events[i].SendDone? && 0 < events[i].n
    ensures var r := Run(s, events);
            && Inv(r) && r.accepted == s.accepted && r.ring.len + |events| <= s.ring.len
            && (0 < r.ring.len ==> r.offered != [] && forall n :: 0 < n <= |r.offered| ==> Enabled(r, SendDone(n)))
            && (r.ring.len == 0 ==> DecodeStream(r.wire) == Plain(s.accepted))
    decreases |events|
  {
    if events == [] {
      if 0 < s.ring.len {
        forall n | 0 < n <= |s.offered| ensures Enabled(s, SendDone(n)) {
          AnyPartMayComplete(s, n);
        }
      } else {
        NothingQueued(s);
      }
    } else {
      StepKeepsInv(s, events[0]);
      SendShortens(s, events[0].n);
      var u := Step(s, events[0]);
      if u.alive {
        QueueDrains(u, events[1..]);
      } else {
        assert events[1..] == [];
        NothingQueued(u);
      }
    }
  }

  lemma NothingQueued(s: Ws)
    requires Inv(s) && s.ring.len == 0
    ensures DecodeStream(s.wire) == Plain(s.accepted)
  {
    IdleIsEmpty(s.ring);
    if s.ring.chunks != [] {
      RingSpec.HeadIsPrefix(s.ring);
    }
    assert RingSpec.Contents(s.ring.chunks) == [];
    assert s.wire + [] == s.wire;
    StreamDecodes(s.accepted);
  }
}
