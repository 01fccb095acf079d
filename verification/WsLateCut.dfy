/**
 Chunks that arrive while three or more header bytes are buffered: what the block-wise parser
 makes of them, and exactly when the connection does not notice.
 */
module WsLateCut {
  import opened Bytes
  import opened WsFrame
  import opened WsStream
  import opened WsBlocks

  // ---------- One header attempt ----------

  /** The attempt takes exactly the missing header bytes if and only if the resumption is exact. */
  lemma HeaderTakeExact(p: Parser, bytes: seq<Byte>)
    requires WellFormed(p) && p.phase.InHeader? && 2 <= |p.phase.buf| && |bytes| <= SIZE_LIMIT - HEADER_BUF_LEN
    ensures HeaderAttempt(p, bytes).n == Min(|bytes|, Needed(p.phase.buf) - |p.phase.buf|) <==> ResumeOk(p, |bytes|)
  {
    AttemptTakes(p, bytes);
    if ResumeOk(p, |bytes|) {
      AttemptExact(p, bytes);
      var h := p.phase.buf + bytes[..HeaderAttempt(p, bytes).n];
      FirstBytesDecide(p.phase.buf, h, p.messageOpcode);
    }
  }

  /** A chunk that reaches past a header of which three or more bytes are buffered already. */
  predicate Late(p: Parser, bytes: seq<Byte>) {
    WellFormed(p) && !ResumeOk(p, |bytes|) && InBuffer(p, |bytes|)
  }

  /** The header that such a chunk completes. */
  function LateHeader(p: Parser, bytes: seq<Byte>): (h: seq<Byte>)
    requires Late(p, bytes)
    ensures 2 <= |h| && |h| == Needed(h) && BaseHeaderOk(h, p.messageOpcode)
  {
    FirstBytesDecide(p.phase.buf, p.phase.buf + bytes, p.messageOpcode);
    FirstBytesDecide(p.phase.buf, (p.phase.buf + bytes)[..Needed(p.phase.buf)], p.messageOpcode);
    (p.phase.buf + bytes)[..Needed(p.phase.buf)]
  }

  /** The bytes of the chunk behind the header; there are at most eight. */
  function Surplus(p: Parser, bytes: seq<Byte>): (x: seq<Byte>)
    requires Late(p, bytes)
    ensures 0 < |x| <= 8
  {
    bytes[Needed(p.phase.buf) - |p.phase.buf|..]
  }

  /** All of the chunk goes into the header buffer, and the header is finished from its front. */
  lemma LateCutSwallowsSurplus(p: Parser, bytes: seq<Byte>)
    requires Late(p, bytes)
    ensures HeaderAttempt(p, bytes) ==
              match FinishHeader(p, LateHeader(p, bytes))
              case None => Parsed(Violation, IDLE, |bytes|)
              case Some(q) => Parsed(Again, q, |bytes|)
  {
    var buf := p.phase.buf;
    assert FillCount(|buf|, 2, |bytes|) == |bytes|;
    var h := buf + bytes[..|bytes|];
    assert bytes[..|bytes|] == bytes;
    FirstBytesDecide(buf, h, p.messageOpcode);
  }

  /** The byte-wise parser goes on with the surplus. */
  lemma BytewiseReadsSurplus(p: Parser, bytes: seq<Byte>)
    requires Late(p, bytes)
    ensures match FinishHeader(p, LateHeader(p, bytes))
            case None => Parse(p, bytes) == Parsed(Violation, IDLE, |bytes| - |Surplus(p, bytes)|)
            case Some(q) =>
              WellFormed(q) && Parse(p, bytes) == Parse(q, Surplus(p, bytes)).After(|bytes| - |Surplus(p, bytes)|)
  {
    var buf, x := p.phase.buf, Surplus(p, bytes);
    var a := bytes[..Needed(buf) - |buf|];
    assert LateHeader(p, bytes) == buf + a;
    assert bytes == a + x;
    HeaderCompletes(p, a, x);
  }

  // ---------- What the connection notices ----------

  /** A parser that need not be at rest goes on with `bytes`. */
  function Resume(q: Parser, delivered: seq<Message>, bytes: seq<Byte>, accepts: seq<Message> -> bool): (c: Conn)
    requires WellFormed(q)
    ensures AtRest(c)
  {
    var r := Parse(q, bytes);
    Consume(Deliver(delivered, r, accepts), bytes[r.n..], accepts)
  }

  lemma ResumeAtRest(q: Parser, delivered: seq<Message>, bytes: seq<Byte>, accepts: seq<Message> -> bool)
    requires WellFormed(q) && !Ripe(q)
    ensures Resume(q, delivered, bytes, accepts) == Consume(Open(q, delivered), bytes, accepts)
  {
  }

  lemma ResumeLater(
    p: Parser, delivered: seq<Message>, bytes: seq<Byte>, q: Parser, rest: seq<Byte>, accepts: seq<Message> -> bool)
    requires WellFormed(p) && WellFormed(q) && |rest| <= |bytes| && rest == bytes[|bytes| - |rest|..]
    requires Parse(p, bytes) == Parse(q, rest).After(|bytes| - |rest|)
    ensures Resume(p, delivered, bytes, accepts) == Resume(q, delivered, rest, accepts)
  {
    ResumeOnce(p, delivered, bytes, Parse(q, rest), |bytes| - |rest|, rest, accepts);
  }

  lemma ResumeOnce(
    p: Parser, delivered: seq<Message>, bytes: seq<Byte>, r: Parsed, k: nat, rest: seq<Byte>,
    accepts: seq<Message> -> bool)
    requires WellFormed(p) && WellFormed(r.p) && !Ripe(r.p) && r.n <= |rest| && k <= |bytes| && rest == bytes[k..]
    requires Parse(p, bytes) == r.After(k)
    ensures Resume(p, delivered, bytes, accepts) == Consume(Deliver(delivered, r, accepts), rest[r.n..], accepts)
  {
    hide Parse, Consume, Deliver;
    DeliverIgnoresCount(delivered, r, k, accepts);
    assert bytes[r.n + k..] == rest[r.n..];
  }

  /** Finishing the frame in hand does not depend on what follows. */
  lemma ResumeFirst(q: Parser, delivered: seq<Message>, x: seq<Byte>, accepts: seq<Message> -> bool)
    requires WellFormed(q)
    ensures Resume(q, delivered, x, accepts) == Consume(Resume(q, delivered, [], accepts), x, accepts)
  {
    if !Ripe(q) {
      ResumeAtRest(q, delivered, x, accepts);
      ResumeAtRest(q, delivered, [], accepts);
    } else {
      var (frame, q') := Complete(q);
      if frame == None {
        ResumeAtRest(q', delivered, x, accepts);
        ResumeAtRest(q', delivered, [], accepts);
      }
    }
  }

  /** A frame or more, after which parser and connection are as before. */
  predicate Silent(p: Parser, x: seq<Byte>) {
    && 2 <= |x| && BaseHeaderOk(x, p.messageOpcode)
    && var opcode := x[0] as nat % 16;
       if IsControl(opcode) then opcode != CLOSE && |x| == 6 + Len7(x[1])
       else
         && x[0] < 128 && opcode == CONTINUATION && |x| == Needed(x) && DeclaredLen(x) == 0
         && !TooLong(|p.message|, 0)
  }

  predicate AtHeader(c: Conn) {
    c.Open? && WellFormed(c.p) && c.p.phase == InHeader([])
  }

  /** The opcode of the message that a data frame belongs to. */
  function CurrentOpcode(messageOpcode: nat, opcode: nat): nat {
    if opcode == CONTINUATION then messageOpcode else opcode
  }

  /** What the end of a frame does to the connection. */
  lemma FrameEnds(q: Parser, delivered: seq<Message>, accepts: seq<Message> -> bool)
    requires WellFormed(q) && Ripe(q)
    ensures var c := Resume(q, delivered, [], accepts);
            && (c.Closed? || AtHeader(c))
            && (if IsControl(q.phase.opcode) then
                  if q.phase.opcode == CLOSE then c.Closed?
                  else c == Open(q.(phase := InHeader([])), delivered)
                else if q.phase.fin then
                  var all := delivered + [Message(CurrentOpcode(q.messageOpcode, q.phase.opcode) == TEXT, q.message)];
                  if accepts(all) then c == Open(Parser(InHeader([]), [], 0), all) else c == Closed(Rejected, all)
                else
                  && c.Open? && c.delivered == delivered && c.p.message == q.message
                  && c.p.messageOpcode == CurrentOpcode(q.messageOpcode, q.phase.opcode))
  {
    var (frame, p) := Complete(q);
    if frame == None {
      assert Parse(q, []) == Parsed(Again, p, 0);
    }
  }

  lemma OnlyCollected(c: Conn, x: seq<Byte>, accepts: seq<Message> -> bool)
    requires AtHeader(c) && Pending(x, c.p.messageOpcode)
    ensures Consume(c, x, accepts) == Open(c.p.(phase := InHeader(x)), c.delivered)
  {
    if x != [] {
      assert x + [] == x && [] + x == x;
      HeaderBytesCollect(c.p, x, []);
      ConsumeOnce(c, x, Parse(c.p, x), accepts);
    }
  }

  lemma BadStart(c: Conn, x: seq<Byte>, accepts: seq<Message> -> bool)
    requires AtHeader(c) && 2 <= |x| && !BaseHeaderOk(x, c.p.messageOpcode)
    ensures Consume(c, x, accepts) == Closed(ProtocolError, c.delivered)
  {
    assert [] + x[..2] == x[..2] && x == x[..2] + x[2..];
    BadHeaderStops(c.p, x[..2], x[2..]);
    ConsumeOnce(c, x, Parse(c.p, x), accepts);
  }

  lemma WholeStart(c: Conn, h: seq<Byte>, rest: seq<Byte>, accepts: seq<Message> -> bool)
    requires AtHeader(c) && 2 <= |h| && |h| == Needed(h) && BaseHeaderOk(h, c.p.messageOpcode)
    ensures match FinishHeader(c.p, h)
            case None => Consume(c, h + rest, accepts).Closed?
            case Some(q) => WellFormed(q) && Consume(c, h + rest, accepts) == Resume(q, c.delivered, rest, accepts)
  {
    var x := h + rest;
    WholeHeader(c.p, h, rest);
    if FinishHeader(c.p, h).Some? {
      ResumeAtRest(c.p, c.delivered, x, accepts);
      ResumeLater(c.p, c.delivered, x, FinishHeader(c.p, h).value, rest, accepts);
    } else {
      ConsumeOnce(c, x, Parse(c.p, x), accepts);
    }
  }

  /** A whole header does not fit into so few bytes. */
  lemma FewBytes(c: Conn, z: seq<Byte>, accepts: seq<Message> -> bool)
    requires AtHeader(c) && |z| <= 5
    ensures var r := Consume(c, z, accepts);
            r == Closed(ProtocolError, c.delivered) || r == Open(c.p.(phase := InHeader(z)), c.delivered)
  {
    if Pending(z, c.p.messageOpcode) {
      OnlyCollected(c, z, accepts);
    } else {
      BadStart(c, z, accepts);
    }
  }

  /** At the start of a header: the header, as far as the bytes go, decides. */
  lemma HeaderThenRest(c: Conn, x: seq<Byte>, accepts: seq<Message> -> bool)
    requires AtHeader(c)
    ensures var r := Consume(c, x, accepts);
            if Pending(x, c.p.messageOpcode) then r == Open(c.p.(phase := InHeader(x)), c.delivered)
            else if !BaseHeaderOk(x, c.p.messageOpcode) then r.Closed?
            else
              |x| >= Needed(x) &&
              match FinishHeader(c.p, x[..Needed(x)])
              case None => r.Closed?
              case Some(q) => WellFormed(q) && r == Resume(q, c.delivered, x[Needed(x)..], accepts)
  {
    if Pending(x, c.p.messageOpcode) {
      OnlyCollected(c, x, accepts);
    } else if !BaseHeaderOk(x, c.p.messageOpcode) {
      BadStart(c, x, accepts);
    } else {
      var h, rest := x[..Needed(x)], x[Needed(x)..];
      FirstBytesDecide(h, x, c.p.messageOpcode);
      assert x == h + rest;
      WholeStart(c, h, rest, accepts);
    }
  }

  /** At the start of a payload: either it does not end, or it ends and the rest follows. */
  lemma PayloadThenRest(q: Parser, delivered: seq<Message>, y: seq<Byte>, accepts: seq<Message> -> bool)
    requires WellFormed(q) && q.phase.InPayload? && q.phase.read == 0
    ensures if |y| < q.phase.len then Resume(q, delivered, y, accepts) == Open(ReadPayload(q, y), delivered)
            else
              var ripe := ReadPayload(q, y[..q.phase.len]);
              && WellFormed(ripe) && Ripe(ripe)
              && Resume(q, delivered, y, accepts) ==
                   Consume(Resume(ripe, delivered, [], accepts), y[q.phase.len..], accepts)
  {
    if |y| < q.phase.len {
      assert y + [] == y;
      PayloadBytesRead(q, y, []);
      ResumeLater(q, delivered, y, ReadPayload(q, y), [], accepts);
    } else {
      var a, rest := y[..q.phase.len], y[q.phase.len..];
      assert y == a + rest;
      PayloadBytesRead(q, a, rest);
      ResumeLater(q, delivered, y, ReadPayload(q, a), rest, accepts);
      ResumeFirst(ReadPayload(q, a), delivered, rest, accepts);
    }
  }

  /** A frame whose payload has begun, and at most five bytes behind it. */
  lemma FrameThenFewBytes(q: Parser, delivered: seq<Message>, y: seq<Byte>, accepts: seq<Message> -> bool)
    requires WellFormed(q) && q.phase.InPayload? && q.phase.read == 0 && |y| <= q.phase.len + 5
    ensures var r := Resume(q, delivered, y, accepts);
            if |y| < q.phase.len then r.Open? && r.p.phase.InPayload? && r.p.phase.read == |y|
            else if IsControl(q.phase.opcode) then
              r.Closed? || (q.phase.opcode != CLOSE && r == Open(q.(phase := InHeader(y[q.phase.len..])), delivered))
            else if q.phase.fin then r.Closed? || r.delivered != delivered
            else
              r.Open? ==>
                && |r.p.message| == |q.message| + q.phase.len && r.p.phase == InHeader(y[q.phase.len..])
                && r.p.messageOpcode == CurrentOpcode(q.messageOpcode, q.phase.opcode)
                && r.delivered == delivered && (q.phase.len == 0 ==> r.p.message == q.message)
    ensures |y| == q.phase.len && IsControl(q.phase.opcode) && q.phase.opcode != CLOSE ==>
              Resume(q, delivered, y, accepts) == Open(q.(phase := InHeader([])), delivered)
    ensures |y| == q.phase.len && !IsControl(q.phase.opcode) && !q.phase.fin ==>
              Resume(q, delivered, y, accepts).Open?
  {
    PayloadThenRest(q, delivered, y, accepts);
    if |y| >= q.phase.len {
      var ripe := ReadPayload(q, y[..q.phase.len]);
      FrameEnds(ripe, delivered, accepts);
      var c := Resume(ripe, delivered, [], accepts);
      if c.Open? {
        FewBytes(c, y[q.phase.len..], accepts);
      }
    }
  }

  /** Up to eight bytes at the start of a header leave no trace exactly when they are such frames. */
  lemma SilentExact(c: Conn, x: seq<Byte>, accepts: seq<Message> -> bool)
    requires AtHeader(c) && 0 < |x| <= 8
    ensures Consume(c, x, accepts) == c <==> Silent(c.p, x)
  {
    var p := c.p;
    HeaderThenRest(c, x, accepts);
    if !Pending(x, p.messageOpcode) && BaseHeaderOk(x, p.messageOpcode) {
      var h := x[..Needed(x)];
      FirstBytesDecide(h, x, p.messageOpcode);
      var f := FinishHeader(p, h);
      DeclaredByFirst(x);
      if f.Some? {
        FrameThenFewBytes(f.value, c.delivered, x[Needed(x)..], accepts);
      }
    }
  }

  lemma DeclaredByFirst(x: seq<Byte>)
    requires 2 <= |x| && Needed(x) <= |x|
    ensures Needed(x[..Needed(x)]) == Needed(x)
    ensures Len7(x[1]) <= 125 ==> Needed(x) == 6 && DeclaredLen(x[..Needed(x)]) == Len7(x[1])
    ensures |x| == Needed(x) ==> x[..Needed(x)] == x
  {
  }

  lemma {:induction false} ParseGrows(p: Parser, bytes: seq<Byte>)
    requires WellFormed(p)
    ensures var r := Parse(p, bytes);
            r.result != Violation ==> |p.message| <= |r.p.message|
    decreases |bytes|, Ripe(p)
  {
    if Ripe(p) {
      if Complete(p).0.None? {
        ParseGrows(Complete(p).1, bytes);
      }
    } else if bytes != [] && Step(p, bytes[0]).Some? {
      ParseGrows(Step(p, bytes[0]).value, bytes[1..]);
    }
  }

  /** Messages are only added, and the one in hand only grows. */
  predicate Grown(c: Conn, r: Conn) {
    && |c.delivered| <= |r.delivered|
    && (c.Open? && r.Open? && |r.delivered| == |c.delivered| ==> |c.p.message| <= |r.p.message|)
  }

  lemma {:induction false} ConsumeGrows(c: Conn, bytes: seq<Byte>, accepts: seq<Message> -> bool)
    requires AtRest(c)
    ensures Grown(c, Consume(c, bytes, accepts))
    ensures c.Closed? ==> Consume(c, bytes, accepts).Closed?
    decreases |bytes|
  {
    if c.Open? && bytes != [] {
      var r := Parse(c.p, bytes);
      ParseGrows(c.p, bytes);
      ConsumeGrows(Deliver(c.delivered, r, accepts), bytes[r.n..], accepts);
    }
  }

  /** Two headers of control frames say the same only if they are the same. */
  lemma SameControlHeader(p: Parser, p': Parser, h: seq<Byte>, h': seq<Byte>)
    requires 6 == |h| == |h'| && BaseHeaderOk(h, p.messageOpcode) && BaseHeaderOk(h', p'.messageOpcode)
    requires Needed(h) == Needed(h') == 6
    requires IsControl(h[0] as nat % 16)
    ensures FinishHeader(p, h).Some?
    ensures h == h' <==>
              FinishHeader(p', h').Some? && FinishHeader(p', h').value.phase == FinishHeader(p, h).value.phase
  {
    if FinishHeader(p', h').Some? && FinishHeader(p', h').value.phase == FinishHeader(p, h).value.phase {
      assert h == h[..2] + h[2..] && h' == h'[..2] + h'[2..];
      assert h[0] == h'[0] && h[1] == h'[1];
      assert h[2..] == h'[2..];
    }
  }

  /** Up to eight bytes of a payload lead to the start of a payload like it only if the frame repeats. */
  lemma TwinExact(p: Parser, h: seq<Byte>, delivered: seq<Message>, x: seq<Byte>, accepts: seq<Message> -> bool)
    requires WellFormed(p) && 2 <= |h| && |h| == Needed(h) && BaseHeaderOk(h, p.messageOpcode)
    requires FinishHeader(p, h).Some? && 0 < DeclaredLen(h) && 0 < |x| <= 8
    ensures var q, opcode := FinishHeader(p, h).value, h[0] as nat % 16;
            && WellFormed(q)
            && (Resume(q, delivered, x, accepts) == Open(q, delivered) <==>
                IsControl(opcode) && opcode != CLOSE && DeclaredLen(h) <= |x| && x[DeclaredLen(h)..] == h)
  {
    var q, len := FinishHeader(p, h).value, DeclaredLen(h);
    PayloadThenRest(q, delivered, x, accepts);
    if len <= |x| {
      var ripe, z := ReadPayload(q, x[..len]), x[len..];
      var c := Resume(ripe, delivered, [], accepts);
      FrameEnds(ripe, delivered, accepts);
      if c.Open? && z != [] {
        ConsumeGrows(c, z, accepts);
        if IsControl(q.phase.opcode) {
          RepeatedHeader(p, h, c, z, accepts);
        }
      }
    }
  }

  lemma RepeatedHeader(p: Parser, h: seq<Byte>, c: Conn, z: seq<Byte>, accepts: seq<Message> -> bool)
    requires WellFormed(p) && 2 <= |h| && |h| == Needed(h) && BaseHeaderOk(h, p.messageOpcode)
    requires FinishHeader(p, h).Some? && IsControl(h[0] as nat % 16) && h[0] as nat % 16 != CLOSE && 0 < DeclaredLen(h)
    requires AtHeader(c) && c.p == p.(phase := InHeader([])) && 0 < |z| <= 7
    ensures Consume(c, z, accepts) == Open(FinishHeader(p, h).value, c.delivered) <==> z == h
  {
    HeaderThenRest(c, z, accepts);
    if !Pending(z, p.messageOpcode) && BaseHeaderOk(z, p.messageOpcode) {
      var h' := z[..Needed(z)];
      FirstBytesDecide(h', z, p.messageOpcode);
      DeclaredByFirst(z);
      SameControlHeader(p, c.p, h, h');
      if FinishHeader(c.p, h').Some? {
        FrameThenFewBytes(FinishHeader(c.p, h').value, c.delivered, z[Needed(z)..], accepts);
        PayloadThenRest(FinishHeader(c.p, h').value, c.delivered, z[Needed(z)..], accepts);
      }
    }
  }

  /**
   Swallowing `x` behind the header `h` does no harm: the connection ends all the same, or the frame
   is empty and `x` a frame that leaves no trace, or the frame is a ping or pong that `x` completes and repeats.
   */
  predicate Harmless(p: Parser, delivered: seq<Message>, h: seq<Byte>, x: seq<Byte>, accepts: seq<Message> -> bool)
    requires 2 <= |h| && |h| == Needed(h)
  {
    var opcode, len := h[0] as nat % 16, DeclaredLen(h);
    var current := CurrentOpcode(p.messageOpcode, opcode);
    if IsControl(opcode) then
      if len == 0 then opcode == CLOSE || Silent(p, x) else opcode != CLOSE && len <= |x| && x[len..] == h
    else if TooLong(|p.message|, len) then true
    else if 0 < len then false
    else if 128 <= h[0] then
      !accepts(delivered + [Message(current == TEXT, p.message)]) || Silent(p.(message := [], messageOpcode := 0), x)
    else Silent(p.(messageOpcode := current), x)
  }

  /** What a late chunk does, by the two parsers. */
  lemma LateChunk(c: Conn, bytes: seq<Byte>, accepts: seq<Message> -> bool)
    requires c.Open? && AtRest(c) && Late(c.p, bytes)
    ensures match FinishHeader(c.p, LateHeader(c.p, bytes))
            case None => BlockConsume(c, bytes, accepts) == Consume(c, bytes, accepts)
            case Some(q) =>
              && WellFormed(q)
              && BlockConsume(c, bytes, accepts) == Resume(q, c.delivered, [], accepts)
              && Consume(c, bytes, accepts) == Resume(q, c.delivered, Surplus(c.p, bytes), accepts)
  {
    var p, x := c.p, Surplus(c.p, bytes);
    var f := FinishHeader(p, LateHeader(p, bytes));
    LateCutSwallowsSurplus(p, bytes);
    BytewiseReadsSurplus(p, bytes);
    if f.Some? {
      assert bytes[|bytes|..] == [];
      ResumeAtRest(p, c.delivered, bytes, accepts);
      ResumeLater(p, c.delivered, bytes, f.value, x, accepts);
      DeliverIgnoresCount(c.delivered, Parse(f.value, []), |bytes|, accepts);
    }
  }

  /** For every chunk whose header bytes fit the buffer, the exact condition under which the connection is right. */
  lemma LateCutExact(c: Conn, bytes: seq<Byte>, accepts: seq<Message> -> bool)
    requires c.Open? && AtRest(c) && InBuffer(c.p, |bytes|)
    ensures BlockConsume(c, bytes, accepts) == Consume(c, bytes, accepts) <==>
            ResumeOk(c.p, |bytes|) || Harmless(c.p, c.delivered, LateHeader(c.p, bytes), Surplus(c.p, bytes), accepts)
  {
    if ResumeOk(c.p, |bytes|) {
      BlockConsumeIsBytewise(c, bytes, accepts);
    } else {
      var h, x := LateHeader(c.p, bytes), Surplus(c.p, bytes);
      LateChunk(c, bytes, accepts);
      if FinishHeader(c.p, h).Some? {
        SwallowedExact(c.p, c.delivered, h, x, accepts);
      }
    }
  }

  lemma SwallowedExact(p: Parser, delivered: seq<Message>, h: seq<Byte>, x: seq<Byte>, accepts: seq<Message> -> bool)
    requires WellFormed(p) && 2 <= |h| && |h| == Needed(h) && BaseHeaderOk(h, p.messageOpcode)
    requires FinishHeader(p, h).Some? && 0 < |x| <= 8
    ensures var q := FinishHeader(p, h).value;
            && WellFormed(q)
            && (Resume(q, delivered, x, accepts) == Resume(q, delivered, [], accepts) <==>
                Harmless(p, delivered, h, x, accepts))
  {
    var q := FinishHeader(p, h).value;
    if 0 < DeclaredLen(h) {
      TwinExact(p, h, delivered, x, accepts);
      ResumeAtRest(q, delivered, [], accepts);
    } else {
      var c := Resume(q, delivered, [], accepts);
      FrameEnds(q, delivered, accepts);
      ResumeFirst(q, delivered, x, accepts);
      if c.Open? {
        SilentExact(c, x, accepts);
      }
    }
  }

  // ---------- What the parser notices ----------

  /** An empty data frame that is not final, and behind it nothing but an empty continuation that is not either. */
  predicate Unnoticed(p: Parser, h: seq<Byte>, x: seq<Byte>)
    requires 2 <= |h| && |h| == Needed(h)
  {
    var opcode := h[0] as nat % 16;
    && h[0] < 128 && DeclaredLen(h) == 0 && !TooLong(|p.message|, 0)
    && EmptyContinuation(x)
  }

  /** Result, state and count of a chunk agree with byte-wise parsing exactly under this condition. */
  lemma AttemptAgreesExactly(p: Parser, bytes: seq<Byte>)
    requires WellFormed(p) && InBuffer(p, |bytes|)
    ensures BlockParse(p, bytes) == Parse(p, bytes) <==>
            ResumeOk(p, |bytes|) || Unnoticed(p, LateHeader(p, bytes), Surplus(p, bytes))
  {
    if ResumeOk(p, |bytes|) {
      BlockIsBytewise(p, bytes);
    } else {
      var h, x := LateHeader(p, bytes), Surplus(p, bytes);
      LateCutSwallowsSurplus(p, bytes);
      BytewiseReadsSurplus(p, bytes);
      assert bytes[|bytes|..] == [];
      if FinishHeader(p, h).Some? {
        SurplusUnnoticed(p, h, x);
        var q := FinishHeader(p, h).value;
        assert Parse(p, bytes) == Parse(q, x).After(|bytes| - |x|);
        assert BlockParse(p, bytes) == Parse(q, []).After(|bytes|);
      }
    }
  }

  lemma SurplusUnnoticed(p: Parser, h: seq<Byte>, x: seq<Byte>)
    requires WellFormed(p) && 2 <= |h| && |h| == Needed(h) && BaseHeaderOk(h, p.messageOpcode)
    requires FinishHeader(p, h).Some? && 0 < |x| <= 8
    ensures var q := FinishHeader(p, h).value;
            WellFormed(q) && (Parse(q, x) == Parse(q, []).After(|x|) <==> Unnoticed(p, h, x))
  {
    var q := FinishHeader(p, h).value;
    if 0 < DeclaredLen(h) {
      TwinExact(p, h, [], x, _ => true);
      if Parse(q, x) == Parsed(Again, q, |x|) {
        assert Resume(q, [], x, _ => true) == Open(q, []);
        PayloadThenRest(q, [], x, _ => true);
        ControlIsDelivered(q, x);
      }
    } else if !IsControl(q.phase.opcode) && !q.phase.fin {
      var q' := Complete(q).1;
      assert Parse(q, []) == Parsed(Again, q', 0) && Parse(q, x) == Parse(q', x);
      IdleUnnoticed(q', x);
    }
  }

  lemma ControlIsDelivered(q: Parser, x: seq<Byte>)
    requires WellFormed(q) && q.phase.InPayload? && q.phase.read == 0 && IsControl(q.phase.opcode) && q.phase.len <= |x|
    ensures Parse(q, x).result.Delivered?
  {
    var a, rest := x[..q.phase.len], x[q.phase.len..];
    assert x == a + rest;
    PayloadBytesRead(q, a, rest);
  }

  lemma IdleUnnoticed(q: Parser, x: seq<Byte>)
    requires WellFormed(q) && q.phase == InHeader([]) && q.messageOpcode != 0 && 0 < |x| <= 8
    ensures Parse(q, x) == Parsed(Again, q, |x|) <==> EmptyContinuation(x) && !TooLong(|q.message|, 0)
  {
    if Parse(q, x) == Parsed(Again, q, |x|) {
      assert Silent(q, x) by {
        ConsumeOnce(Open(q, []), x, Parse(q, x), _ => true);
        SilentExact(Open(q, []), x, _ => true);
      }
      if IsControl(x[0] as nat % 16) {
        SilentControl(q, x);
      }
    } else if EmptyContinuation(x) && !TooLong(|q.message|, 0) {
      SilentContinuation(q, x);
    }
  }

  /** The whole of an empty continuation that is not final. */
  predicate EmptyContinuation(x: seq<Byte>) {
    6 <= |x| && x[0] == 0 && 128 <= x[1] && |x| == Needed(x) && DeclaredLen(x) == 0
  }

  lemma SilentControl(q: Parser, x: seq<Byte>)
    requires WellFormed(q) && q.phase == InHeader([]) && Silent(q, x) && IsControl(x[0] as nat % 16)
    ensures Parse(q, x).result.Delivered?
  {
    var h, rest := x[..Needed(x)], x[Needed(x)..];
    DeclaredByFirst(x);
    FirstBytesDecide(h, x, q.messageOpcode);
    assert x == h + rest;
    WholeHeader(q, h, rest);
    ControlIsDelivered(FinishHeader(q, h).value, rest);
  }

  lemma SilentContinuation(q: Parser, x: seq<Byte>)
    requires WellFormed(q) && q.phase == InHeader([]) && q.messageOpcode != 0
    requires EmptyContinuation(x) && !TooLong(|q.message|, 0)
    ensures Parse(q, x) == Parsed(Again, q, |x|)
  {
    assert x + [] == x;
    WholeHeader(q, x, []);
    var p := FinishHeader(q, x).value;
    assert Complete(p) == (None, q);
  }

  // ---------- A message that is lost ----------

  /** The rest of a final data frame arrives: the message is due, but the parser still waits for payload. */
  lemma LateCutLosesMessage(c: Conn, chunk: seq<Byte>, rest: seq<Byte>, accepts: seq<Message> -> bool)
    requires c.Open? && AtRest(c) && Late(c.p, chunk)
    requires var h := LateHeader(c.p, chunk);
             && 128 <= h[0] && !IsControl(h[0] as nat % 16) && !TooLong(|c.p.message|, DeclaredLen(h))
             && |Surplus(c.p, chunk)| + |rest| == DeclaredLen(h)
    ensures |Consume(Consume(c, chunk, accepts), rest, accepts).delivered| == |c.delivered| + 1
    ensures var r := BlockConsume(BlockConsume(c, chunk, accepts), rest, accepts);
            r.Open? && r.delivered == c.delivered && r.p.phase.InPayload? && r.p.phase.read == |rest| < r.p.phase.len
  {
    var q, x, d := FinishHeader(c.p, LateHeader(c.p, chunk)).value, Surplus(c.p, chunk), c.delivered;
    LateChunk(c, chunk, accepts);
    assert Consume(Consume(c, chunk, accepts), rest, accepts) == Resume(q, d, x + rest, accepts) by {
      ResumeAtRest(q, d, x, accepts);
      ResumeAtRest(q, d, x + rest, accepts);
      ConsumeSplit(Open(q, d), x, rest, accepts);
    }
    assert BlockConsume(c, chunk, accepts) == Open(q, d) by {
      ResumeAtRest(q, d, [], accepts);
    }
    BlockConsumeIsBytewise(Open(q, d), rest, accepts);
    ResumeAtRest(q, d, rest, accepts);
    PayloadThenRest(q, d, rest, accepts);
    PayloadThenRest(q, d, x + rest, accepts);
    FrameEnds(ReadPayload(q, (x + rest)[..q.phase.len]), d, accepts);
  }
}
