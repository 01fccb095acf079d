/**
 What a whole run of received chunks delivers, by the block-wise parser: when it stays in step with
 the byte-wise one, and which cuts of a stream of frames are sure to be harmless.
 */
module WsDelivery {
  import opened Bytes
  import opened WsFrame
  import opened WsStream
  import opened WsBlocks
  import opened WsLateCut
  import opened WsReassembly
  import opened WsParser

  // ---------- In step, exactly ----------

  predicate Benign(c: Conn, chunk: seq<Byte>, accepts: seq<Message> -> bool)
    requires AtRest(c) && (c.Open? ==> InBuffer(c.p, |chunk|))
  {
    c.Open? ==>
      ResumeOk(c.p, |chunk|) || Harmless(c.p, c.delivered, LateHeader(c.p, chunk), Surplus(c.p, chunk), accepts)
  }

  /** A cut is unobservable exactly if the part behind it is benign. */
  lemma CutIsUnobservableExactly(c: Conn, a: seq<Byte>, b: seq<Byte>, accepts: seq<Message> -> bool)
    requires AtRest(c) && (c.Open? ==> ResumeOk(c.p, |a + b|))
    requires var mid := BlockConsume(c, a, accepts); mid.Open? ==> InBuffer(mid.p, |b|)
    ensures var mid := BlockConsume(c, a, accepts);
            BlockConsume(c, a + b, accepts) == BlockConsume(mid, b, accepts) <==> Benign(mid, b, accepts)
  {
    var mid := BlockConsume(c, a, accepts);
    BlockConsumeIsBytewise(c, a, accepts);
    BlockConsumeIsBytewise(c, a + b, accepts);
    ConsumeSplit(c, a, b, accepts);
    if mid.Open? {
      LateCutExact(mid, b, accepts);
    }
  }

  /** No header attempt of the run writes behind its buffer. */
  predicate AllInBuffer(c: Conn, chunks: seq<seq<Byte>>, accepts: seq<Message> -> bool)
    requires AtRest(c)
    decreases |chunks|
  {
    chunks != [] ==>
      && (c.Open? ==> InBuffer(c.p, |chunks[0]|))
      && AllInBuffer(BlockConsume(c, chunks[0], accepts), chunks[1..], accepts)
  }

  predicate AllBenign(c: Conn, chunks: seq<seq<Byte>>, accepts: seq<Message> -> bool)
    requires AtRest(c) && AllInBuffer(c, chunks, accepts)
    decreases |chunks|
  {
    chunks != [] ==>
      && Benign(c, chunks[0], accepts)
      && AllBenign(BlockConsume(c, chunks[0], accepts), chunks[1..], accepts)
  }

  /** The connection is as after the same bytes taken one by one, after every chunk. */
  predicate InStep(c: Conn, c': Conn, chunks: seq<seq<Byte>>, accepts: seq<Message> -> bool)
    requires AtRest(c) && AtRest(c')
    decreases |chunks|
  {
    && c == c'
    && (chunks != [] ==>
          InStep(BlockConsume(c, chunks[0], accepts), Consume(c', chunks[0], accepts), chunks[1..], accepts))
  }

  lemma {:induction false} InStepExactly(c: Conn, chunks: seq<seq<Byte>>, accepts: seq<Message> -> bool)
    requires AtRest(c) && AllInBuffer(c, chunks, accepts)
    ensures InStep(c, c, chunks, accepts) <==> AllBenign(c, chunks, accepts)
    decreases |chunks|
  {
    if chunks != [] {
      var next := BlockConsume(c, chunks[0], accepts);
      if c.Open? {
        LateCutExact(c, chunks[0], accepts);
      }
      InStepExactly(next, chunks[1..], accepts);
      if next != Consume(c, chunks[0], accepts) {
        assert !InStep(next, Consume(c, chunks[0], accepts), chunks[1..], accepts);
      }
    }
  }

  // ---------- Which cuts are harmless ----------

  /**
   A chunk of `next` bytes may start at offset `off` of the stream: if three or more bytes of a
   header come before it, it ends with that header at the latest.
   */
  predicate CutOk(frames: seq<Frame>, off: nat, next: nat)
    requires AllEncodable(frames)
    decreases |frames|
  {
    frames == [] ||
    if |Wire(frames[0])| <= off then CutOk(frames[1..], off - |Wire(frames[0])|, next)
    else 3 <= off < |FrameHeader(frames[0])| ==> off + next <= |FrameHeader(frames[0])|
  }

  predicate CutsOk(frames: seq<Frame>, off: nat, chunks: seq<seq<Byte>>)
    requires AllEncodable(frames)
    decreases |chunks|
  {
    chunks != [] ==> CutOk(frames, off, |chunks[0]|) && CutsOk(frames, off + |chunks[0]|, chunks[1..])
  }

  /** Inside the first frame the header buffer holds what was received of the header. */
  lemma StateInFrame(s: Peer, f: Frame, a: seq<Byte>, accepts: seq<Message> -> bool)
    requires Encodable(f) && Fits(s) && a < Wire(f)
    ensures var c := Consume(ToConn(s), a, accepts);
            c.Open? && c.p.phase.InHeader? ==> c.p.phase.buf == a < FrameHeader(f)
  {
    if s.Peer? && a != [] {
      var c, h := ToConn(s), FrameHeader(f);
      HeaderThenRest(c, a, accepts);
      HeaderFinishes(c.p, f);
      if |a| < |h| {
        assert a == h[..|a|];
        if 2 <= |a| {
          FirstBytesDecide(a, h, c.p.messageOpcode);
        }
      } else {
        assert a[..|h|] == h;
        FirstBytesDecide(h, a, c.p.messageOpcode);
        if Accepts(c.p, f) {
          PayloadThenRest(AfterHeader(c.p, f), c.delivered, a[|h|..], accepts);
        }
      }
    }
  }

  /** At such a cut the parser can resume. */
  lemma {:induction false} ResumesAtCut(
    s: Peer, frames: seq<Frame>, a: seq<Byte>, next: nat, accepts: seq<Message> -> bool)
    requires AllEncodable(frames) && Fits(s) && a <= Concat(Wires(frames)) && CutOk(frames, |a|, next)
    ensures var c := Consume(ToConn(s), a, accepts);
            c.Open? ==> ResumeOk(c.p, next)
    decreases |frames|
  {
    if frames != [] {
      var f, more := frames[0], frames[1..];
      assert Wires(frames)[1..] == Wires(more);
      assert Concat(Wires(frames)) == Wire(f) + Concat(Wires(more));
      if |Wire(f)| <= |a| {
        var rest := a[|Wire(f)|..];
        assert a == Wire(f) + rest;
        FrameRefines(s, f, rest, accepts);
        ReceiveFits(s, f, accepts);
        ResumesAtCut(Receive(s, f, accepts), more, rest, next, accepts);
      } else {
        assert a < Wire(f);
        StateInFrame(s, f, a, accepts);
        var c := Consume(ToConn(s), a, accepts);
        if c.Open? && c.p.phase.InHeader? && 2 < |a| {
          HeaderFields(f);
          FirstBytesDecide(a, FrameHeader(f), 0);
        }
      }
    }
  }

  /** Chunks that continue a stream of frames behind its prefix `a`, cut so, are taken as byte by byte. */
  lemma {:induction false} CutsAreHarmless(
    s: Peer, frames: seq<Frame>, a: seq<Byte>, chunks: seq<seq<Byte>>, accepts: seq<Message> -> bool)
    requires AllEncodable(frames) && Fits(s) && a + Concat(chunks) <= Concat(Wires(frames))
    requires CutsOk(frames, |a|, chunks)
    ensures var c := Consume(ToConn(s), a, accepts);
            && AllInBuffer(c, chunks, accepts)
            && BlockConsumeChunks(c, chunks, accepts) == Consume(ToConn(s), a + Concat(chunks), accepts)
    decreases |chunks|
  {
    var c := Consume(ToConn(s), a, accepts);
    assert a <= a + Concat(chunks);
    if chunks == [] {
      assert a + Concat(chunks) == a;
    } else {
      var chunk, more := chunks[0], chunks[1..];
      Associate(a, chunk, Concat(more));
      assert a <= Concat(Wires(frames)) && (c.Open? ==> ResumeOk(c.p, |chunk|)) by {
        ResumesAtCut(s, frames, a, |chunk|, accepts);
      }
      assert BlockConsume(c, chunk, accepts) == Consume(ToConn(s), a + chunk, accepts) by {
        BlockConsumeIsBytewise(c, chunk, accepts);
        ConsumeSplit(ToConn(s), a, chunk, accepts);
      }
      CutsAreHarmless(s, frames, a + chunk, more, accepts);
    }
  }

  /** For every stream of masked frames, so cut, the connection delivers exactly what the standard prescribes. */
  lemma DeliversWhatWasSent(frames: seq<Frame>, chunks: seq<seq<Byte>>, accepts: seq<Message> -> bool)
    requires AllEncodable(frames) && Concat(chunks) == Concat(Wires(frames)) && CutsOk(frames, 0, chunks)
    ensures AllInBuffer(Open(IDLE, []), chunks, accepts)
    ensures BlockConsumeChunks(Open(IDLE, []), chunks, accepts) ==
            ToConn(ReceiveAll(Peer(NoMessage, []), frames, accepts))
  {
    var s := Peer(NoMessage, []);
    assert [] + Concat(chunks) == Concat(Wires(frames)) + [] == Concat(chunks);
    CutsAreHarmless(s, frames, [], chunks, accepts);
    StreamRefines(s, frames, [], accepts);
  }

  /** A small message cut behind the third to fifth byte of its header is not delivered when all of it has come. */
  lemma SmallMessageLost(f: Frame, k: nat, accepts: seq<Message> -> bool)
    requires Encodable(f) && f.fin && (f.opcode == TEXT || f.opcode == BINARY) && f.form == Short
    requires 0 < |f.payload| <= 8 && 3 <= k < 6
    ensures Concat([Wire(f)[..k], Wire(f)[k..]]) == Concat(Wires([f]))
    ensures |ReceiveAll(Peer(NoMessage, []), [f], accepts).delivered| == 1
    ensures BlockConsumeChunks(Open(IDLE, []), [Wire(f)[..k], Wire(f)[k..]], accepts).delivered == []
  {
    CutFrame(f, k);
    OneDelivered(f, accepts);
    NothingDelivered(f, k, accepts);
  }

  lemma CutFrame(f: Frame, k: nat)
    requires Encodable(f) && k <= |Wire(f)|
    ensures Concat([Wire(f)[..k], Wire(f)[k..]]) == Concat(Wires([f]))
  {
    var a, b := Wire(f)[..k], Wire(f)[k..];
    assert [a, b][1..] == [b] && Concat([b]) == b + Concat([]);
    assert Wires([f]) == [Wire(f)] && Concat([Wire(f)]) == Wire(f) + Concat([]);
  }

  lemma OneDelivered(f: Frame, accepts: seq<Message> -> bool)
    requires Encodable(f) && f.fin && (f.opcode == TEXT || f.opcode == BINARY) && f.form == Short
    ensures |ReceiveAll(Peer(NoMessage, []), [f], accepts).delivered| == 1
  {
    var s := Receive(Peer(NoMessage, []), f, accepts);
    assert [f][1..] == [] && ReceiveAll(s, [], accepts) == s;
  }

  lemma NothingDelivered(f: Frame, k: nat, accepts: seq<Message> -> bool)
    requires Encodable(f) && f.fin && (f.opcode == TEXT || f.opcode == BINARY) && f.form == Short
    requires 0 < |f.payload| <= 8 && 3 <= k < 6
    ensures BlockConsumeChunks(Open(IDLE, []), [Wire(f)[..k], Wire(f)[k..]], accepts).delivered == []
  {
    TwoChunks(Open(IDLE, []), Wire(f)[..k], Wire(f)[k..], accepts);
    SecondChunkSwallowed(f, k, accepts);
  }

  lemma TwoChunks(c: Conn, a: seq<Byte>, b: seq<Byte>, accepts: seq<Message> -> bool)
    requires AtRest(c)
    ensures BlockConsumeChunks(c, [a, b], accepts) == BlockConsume(BlockConsume(c, a, accepts), b, accepts)
  {
    assert [a, b][1..] == [b] && [b][1..] == [];
    var next := BlockConsume(c, a, accepts);
    assert BlockConsumeChunks(next, [b], accepts) == BlockConsumeChunks(BlockConsume(next, b, accepts), [], accepts);
  }

  lemma SecondChunkSwallowed(f: Frame, k: nat, accepts: seq<Message> -> bool)
    requires Encodable(f) && f.fin && (f.opcode == TEXT || f.opcode == BINARY) && f.form == Short
    requires 0 < |f.payload| <= 8 && 3 <= k < 6
    ensures var c := BlockConsume(Open(IDLE, []), Wire(f)[..k], accepts);
            BlockConsume(c, Wire(f)[k..], accepts).delivered == []
  {
    var wire, h := Wire(f), FrameHeader(f);
    var chunk, c := wire[k..], BlockConsume(Open(IDLE, []), wire[..k], accepts);
    CutBehindThree(f, k, accepts);
    HeaderFields(f);
    HeaderFinishes(IDLE, f);
    assert wire[..k] == h[..k] && h[..k] + chunk == wire && wire[..6] == h;
    FirstBytesDecide(h[..k], h, 0);
    assert LateHeader(c.p, chunk) == h;
    LateCutLosesMessage(c, chunk, [], accepts);
    assert BlockConsume(BlockConsume(c, chunk, accepts), [], accepts) == BlockConsume(c, chunk, accepts);
  }

  /**
   A longer message, cut there, makes the header attempt write behind its buffer: all of the second
   chunk goes there.
   */
  lemma HeaderOverrun(f: Frame, k: nat, accepts: seq<Message> -> bool)
    requires Encodable(f) && f.fin && (f.opcode == TEXT || f.opcode == BINARY) && f.form == Short
    requires 8 < |f.payload| && 3 <= k < 6
    ensures Concat([Wire(f)[..k], Wire(f)[k..]]) == Concat(Wires([f]))
    ensures var c := BlockConsume(Open(IDLE, []), Wire(f)[..k], accepts);
            c.Open? && c.p.phase.InHeader? && HeaderEnd(c.p, Wire(f)[k..]) == |Wire(f)| > HEADER_BUF_LEN
  {
    var wire := Wire(f);
    CutFrame(f, k);
    CutBehindThree(f, k, accepts);
    AttemptTakes(IDLE.(phase := InHeader(wire[..k])), wire[k..]);
  }

  /** The first bytes of a header are collected. */
  lemma CutBehindThree(f: Frame, k: nat, accepts: seq<Message> -> bool)
    requires Encodable(f) && f.fin && (f.opcode == TEXT || f.opcode == BINARY) && f.form == Short && 3 <= k < 6
    ensures |Wire(f)| == 6 + |f.payload|
    ensures BlockConsume(Open(IDLE, []), Wire(f)[..k], accepts) == Open(IDLE.(phase := InHeader(Wire(f)[..k])), [])
  {
    var start, h := Open(IDLE, []), FrameHeader(f);
    HeaderFields(f);
    assert Pending(h[..k], 0) by {
      HeaderFinishes(IDLE, f);
      FirstBytesDecide(h[..k], h, 0);
    }
    assert Wire(f)[..k] == h[..k];
    OnlyCollected(start, h[..k], accepts);
    BlockConsumeIsBytewise(start, h[..k], accepts);
  }

  // ---------- The limit on messages ----------

  /** Every length that the chunk makes the parser declare keeps its top bit 0. */
  predicate BlockDeclaresLegal(p: Parser, bytes: seq<Byte>)
    requires WellFormed(p)
  {
    if p.phase.InPayload? then DeclaresLegal(p, bytes)
    else
      var r := HeaderAttempt(p, bytes);
      r.result == Violation ||
      ((r.p.phase.InPayload? ==> r.p.phase.len < LEGAL_LENGTH) && DeclaresLegal(r.p, bytes[r.n..]))
  }

  predicate ChunksDeclareLegal(c: Conn, chunks: seq<seq<Byte>>, accepts: seq<Message> -> bool)
    requires AtRest(c)
    decreases |chunks|
  {
    chunks != [] ==>
      && ChunkDeclaresLegal(c, chunks[0], accepts)
      && ChunksDeclareLegal(BlockConsume(c, chunks[0], accepts), chunks[1..], accepts)
  }

  predicate ChunkDeclaresLegal(c: Conn, bytes: seq<Byte>, accepts: seq<Message> -> bool)
    requires AtRest(c)
  {
    c.Open? && bytes != [] ==>
      var r := BlockParse(c.p, bytes);
      BlockDeclaresLegal(c.p, bytes) && StreamDeclaresLegal(Deliver(c.delivered, r, accepts), bytes[r.n..], accepts)
  }

  lemma AttemptBounded(p: Parser, bytes: seq<Byte>)
    requires WellFormed(p) && p.phase.InHeader? && Bounded(p)
    requires var q := HeaderAttempt(p, bytes).p; q.phase.InPayload? ==> q.phase.len < LEGAL_LENGTH
    ensures Bounded(HeaderAttempt(p, bytes).p)
  {
  }

  lemma BlockParseBounded(p: Parser, bytes: seq<Byte>)
    requires WellFormed(p) && Bounded(p) && BlockDeclaresLegal(p, bytes)
    ensures Bounded(BlockParse(p, bytes).p)
  {
    if p.phase.InPayload? {
      ParseBounded(p, bytes);
    } else {
      var r := HeaderAttempt(p, bytes);
      if r.result != Violation {
        AttemptBounded(p, bytes);
        ParseBounded(r.p, bytes[r.n..]);
      }
    }
  }

  lemma ChunkWithinLimit(c: Conn, bytes: seq<Byte>, accepts: seq<Message> -> bool)
    requires AtRest(c) && WithinLimit(c) && ChunkDeclaresLegal(c, bytes, accepts)
    ensures WithinLimit(BlockConsume(c, bytes, accepts))
  {
    if c.Open? && bytes != [] {
      var r := BlockParse(c.p, bytes);
      BlockParseBounded(c.p, bytes);
      ConsumeWithinLimit(Deliver(c.delivered, r, accepts), bytes[r.n..], accepts);
    }
  }

  /** Over any run of chunks, late ones included, nothing longer than the limit is ever buffered or delivered. */
  lemma {:induction false} ChunksWithinLimit(c: Conn, chunks: seq<seq<Byte>>, accepts: seq<Message> -> bool)
    requires AtRest(c) && WithinLimit(c) && ChunksDeclareLegal(c, chunks, accepts)
    ensures WithinLimit(BlockConsumeChunks(c, chunks, accepts))
    decreases |chunks|
  {
    if chunks != [] {
      ChunkWithinLimit(c, chunks[0], accepts);
      ChunksWithinLimit(BlockConsume(c, chunks[0], accepts), chunks[1..], accepts);
    }
  }

  // ---------- The connection as it runs ----------

  /** Receives the chunks one after the other into the connection's scratch buffer. */
  method Feed(receiver: Receiver, scratch: array<Byte>, chunks: seq<seq<Byte>>, accepts: seq<Message> -> bool)
    returns (stop: Option<Reason>)
    requires receiver.Valid() && scratch != receiver.parser.headerBuf
    requires forall i :: 0 <= i < |chunks| ==> |chunks[i]| <= scratch.Length
    requires AllInBuffer(receiver.View(), chunks, accepts)
    modifies receiver, receiver.parser, receiver.parser.headerBuf, scratch
    ensures stop == None ==> receiver.Valid()
    ensures receiver.Outcome(stop) == BlockConsumeChunks(old(receiver.View()), chunks, accepts)
  {
    ghost var c := receiver.View();
    var i := 0;
    stop := None;
    assert chunks[0..] == chunks;
    while i < |chunks| && stop == None
      invariant i <= |chunks| && (stop == None ==> receiver.Valid())
      invariant BlockConsumeChunks(c, chunks, accepts) ==
                  BlockConsumeChunks(receiver.Outcome(stop), chunks[i..], accepts)
      invariant AllInBuffer(receiver.Outcome(stop), chunks[i..], accepts)
      decreases |chunks| - i
    {
      stop := ReceiveOne(receiver, scratch, chunks[i], accepts);
      assert chunks[i..][1..] == chunks[i + 1..];
      i := i + 1;
    }
    NothingAfterClose(receiver.Outcome(stop), chunks[i..], accepts);
  }

  lemma {:induction false} NothingAfterClose(c: Conn, chunks: seq<seq<Byte>>, accepts: seq<Message> -> bool)
    requires AtRest(c) && (c.Closed? || chunks == [])
    ensures BlockConsumeChunks(c, chunks, accepts) == c
    decreases |chunks|
  {
    if chunks != [] {
      NothingAfterClose(c, chunks[1..], accepts);
    }
  }

  method ReceiveOne(receiver: Receiver, scratch: array<Byte>, chunk: seq<Byte>, accepts: seq<Message> -> bool)
    returns (stop: Option<Reason>)
    requires receiver.Valid() && scratch != receiver.parser.headerBuf && |chunk| <= scratch.Length
    requires InBuffer(receiver.parser.View(), |chunk|)
    modifies receiver, receiver.parser, receiver.parser.headerBuf, scratch
    ensures stop == None ==> receiver.Valid()
    ensures receiver.Outcome(stop) == BlockConsume(old(receiver.View()), chunk, accepts)
  {
    ghost var c := receiver.View();
    forall k | 0 <= k < |chunk| {
      scratch[k] := chunk[k];
    }
    assert scratch[..|chunk|] == chunk;
    assert receiver.View() == c;
    stop := receiver.Consume(scratch, |chunk|, accepts);
  }

  /** A connection from its start: with such cuts it ends as the standard prescribes. */
  method ReceiveFrames(
    scratch: array<Byte>, chunks: seq<seq<Byte>>, accepts: seq<Message> -> bool, ghost frames: seq<Frame>)
    returns (receiver: Receiver, stop: Option<Reason>)
    requires forall i :: 0 <= i < |chunks| ==> |chunks[i]| <= scratch.Length
    requires AllEncodable(frames) && Concat(chunks) == Concat(Wires(frames)) && CutsOk(frames, 0, chunks)
    modifies scratch
    ensures stop == None ==> receiver.Valid()
    ensures receiver.Outcome(stop) == ToConn(ReceiveAll(Peer(NoMessage, []), frames, accepts))
  {
    DeliversWhatWasSent(frames, chunks, accepts);
    receiver := new Receiver();
    stop := Feed(receiver, scratch, chunks, accepts);
  }
}
