/**
 The receiver against the standard: whole frames as section 5.2 of RFC 6455 lays them out, and
 the fragmentation rules of section 5.4, compared with what the byte-wise parser delivers.
 */
module WsReassembly {
  import opened Bytes
  import opened WsFrame
  import opened WsStream

  datatype LenForm = Short | Medium | Long

  /** A masked frame as a client sends it; the sender may choose any length form that holds the length. */
  datatype Frame = Frame(fin: bool, opcode: nat, form: LenForm, key: seq<Byte>, payload: seq<Byte>)

  predicate Encodable(f: Frame) {
    && f.opcode < 16 && |f.key| == 4
    && |f.payload| < (match f.form case Short => 126 case Medium => 0x1_0000 case Long => LEGAL_LENGTH)
  }

  function FormBytes(form: LenForm): nat {
    match form case Short => 0 case Medium => 2 case Long => 8
  }

  function BaseHeader(f: Frame): seq<Byte>
    requires Encodable(f)
  {
    [((if f.fin then 128 else 0) + f.opcode) as Byte,
     (128 + match f.form case Short => |f.payload| case Medium => 126 case Long => 127) as Byte]
  }

  function FrameHeader(f: Frame): seq<Byte>
    requires Encodable(f)
  {
    BaseHeader(f) + ToBigEndian(|f.payload|, FormBytes(f.form)) + f.key
  }

  function Wire(f: Frame): seq<Byte>
    requires Encodable(f)
  {
    FrameHeader(f) + Mask(f.key, f.payload)
  }

  // ---------- The rules of the standard ----------

  datatype Partial = NoMessage | InProgress(text: bool, data: seq<Byte>) {
    function SoFar(): seq<Byte> {
      if NoMessage? then [] else data
    }
  }

  datatype Peer = Peer(partial: Partial, delivered: seq<Message>) | Gone(why: Reason, delivered: seq<Message>)

  /** Sections 5.4 and 5.5, and the configured limit on messages. */
  predicate Legal(f: Frame, partial: Partial) {
    if CLOSE <= f.opcode then
      f.opcode <= PONG && f.fin && f.form == Short && |f.payload| <= 125
    else
      && f.opcode <= BINARY
      && (f.opcode == CONTINUATION <==> partial.InProgress?)
      && |partial.SoFar()| + |f.payload| <= MAX_MESSAGE_LEN
  }

  /** One whole frame; a control frame between two fragments leaves the partial message untouched. */
  function Receive(s: Peer, f: Frame, accepts: seq<Message> -> bool): Peer {
    if s.Gone? then s
    else if !Legal(f, s.partial) then Gone(ProtocolError, s.delivered)
    else if f.opcode == CLOSE then Gone(PeerClosed, s.delivered)
    else if CLOSE <= f.opcode then s
    else
      var text := if f.opcode == CONTINUATION then s.partial.text else f.opcode == TEXT;
      var data := s.partial.SoFar() + f.payload;
      if !f.fin then Peer(InProgress(text, data), s.delivered)
      else
        var all := s.delivered + [Message(text, data)];
        if accepts(all) then Peer(NoMessage, all) else Gone(Rejected, all)
  }

  function ReceiveAll(s: Peer, frames: seq<Frame>, accepts: seq<Message> -> bool): Peer
    decreases |frames|
  {
    if frames == [] then s else ReceiveAll(Receive(s, frames[0], accepts), frames[1..], accepts)
  }

  // ---------- The parser follows them ----------

  function ToParser(partial: Partial): Parser {
    Parser(InHeader([]), partial.SoFar(), if partial.NoMessage? then 0 else if partial.text then TEXT else BINARY)
  }

  function ToConn(s: Peer): (c: Conn)
    ensures AtRest(c)
  {
    if s.Gone? then Closed(s.why, s.delivered) else Open(ToParser(s.partial), s.delivered)
  }

  predicate AllEncodable(frames: seq<Frame>) {
    forall i :: 0 <= i < |frames| ==> Encodable(frames[i])
  }

  function Wires(frames: seq<Frame>): seq<seq<Byte>>
    requires AllEncodable(frames)
  {
    if frames == [] then [] else [Wire(frames[0])] + Wires(frames[1..])
  }

  lemma HeaderFields(f: Frame)
    requires Encodable(f)
    ensures var h := FrameHeader(f);
            && 2 <= |h| && |h| == Needed(h) && h[..2] == BaseHeader(f)
            && h[0] as nat % 16 == f.opcode && (128 <= h[0] as nat <==> f.fin) && h[0] as nat / 16 % 8 == 0
            && h[1] as nat >= 128
            && Len7(h[1]) == (match f.form case Short => |f.payload| case Medium => 126 case Long => 127)
            && h[|h| - 4..] == f.key
            && DeclaredLen(h) == |f.payload|
  {
    var h := FrameHeader(f);
    var k := FormBytes(f.form);
    assert h[0] == BaseHeader(f)[0] && h[1] == BaseHeader(f)[1];
    if k > 0 {
      assert h[2..2 + k] == ToBigEndian(|f.payload|, k);
      TwoBytes(|f.payload|);
      EightBytes(|f.payload|);
      BigEndianRoundTrip(|f.payload|, k);
    }
  }

  /** The parser after the whole of a frame that it does not refuse. */
  function AfterPayload(p: Parser, f: Frame): Parser {
    p.(phase := InPayload(f.fin, f.opcode, f.key, |f.payload|, |f.payload|),
       message := if IsControl(f.opcode) then p.message else p.message + f.payload)
  }

  predicate Accepts(p: Parser, f: Frame)
    requires Encodable(f)
  {
    && BaseHeaderOk(BaseHeader(f), p.messageOpcode)
    && (IsControl(f.opcode) || |p.message| + |f.payload| <= MAX_MESSAGE_LEN)
  }

  function AfterHeader(p: Parser, f: Frame): Parser {
    p.(phase := InPayload(f.fin, f.opcode, f.key, |f.payload|, 0))
  }

  lemma HeaderParses(p: Parser, f: Frame, rest: seq<Byte>)
    requires Encodable(f) && WellFormed(p) && p.phase == InHeader([]) && |p.message| <= MAX_MESSAGE_LEN
    ensures var h := FrameHeader(f);
            if Accepts(p, f) then
              WellFormed(AfterHeader(p, f)) && Parse(p, h + rest) == Parse(AfterHeader(p, f), rest).After(|h|)
            else Parse(p, h + rest).result == Violation
  {
    HeaderFinishes(p, f);
    WholeHeader(p, FrameHeader(f), rest);
  }

  lemma HeaderFinishes(p: Parser, f: Frame)
    requires Encodable(f) && |p.message| <= MAX_MESSAGE_LEN
    ensures var h := FrameHeader(f);
            && 2 <= |h| && |h| == Needed(h)
            && (BaseHeaderOk(h, p.messageOpcode) <==> BaseHeaderOk(BaseHeader(f), p.messageOpcode))
            && FinishHeader(p, h) ==
                 if IsControl(f.opcode) || |p.message| + |f.payload| <= MAX_MESSAGE_LEN then Some(AfterHeader(p, f))
                 else None
  {
    HeaderFields(f);
  }

  lemma PayloadParses(p: Parser, f: Frame, rest: seq<Byte>)
    requires Encodable(f) && WellFormed(AfterHeader(p, f))
    ensures WellFormed(AfterPayload(p, f))
    ensures Parse(AfterHeader(p, f), Mask(f.key, f.payload) + rest) ==
            Parse(AfterPayload(p, f), rest).After(|f.payload|)
  {
    var masked := Mask(f.key, f.payload);
    PayloadBytesRead(AfterHeader(p, f), masked, rest);
    MaskTwice(f.key, f.payload);
    assert Unmask(f.key, 0, masked) == Mask(f.key, masked);
  }

  /** A frame's header and payload, read as one piece. */
  lemma FrameParses(p: Parser, f: Frame, rest: seq<Byte>)
    requires Encodable(f) && WellFormed(p) && p.phase == InHeader([]) && |p.message| <= MAX_MESSAGE_LEN
    ensures if Accepts(p, f) then
              && WellFormed(AfterPayload(p, f))
              && Parse(p, Wire(f) + rest) == Parse(AfterPayload(p, f), rest).After(|Wire(f)|)
            else Parse(p, Wire(f) + rest).result == Violation
  {
    var masked := Mask(f.key, f.payload);
    assert Wire(f) + rest == FrameHeader(f) + (masked + rest);
    assert if Accepts(p, f) then
             && WellFormed(AfterHeader(p, f))
             && Parse(p, Wire(f) + rest) == Parse(AfterHeader(p, f), masked + rest).After(|FrameHeader(f)|)
           else Parse(p, Wire(f) + rest).result == Violation by {
      HeaderParses(p, f, masked + rest);
    }
    if Accepts(p, f) {
      PayloadParses(p, f, rest);
      AfterAfter(Parse(AfterPayload(p, f), rest), |masked|, |FrameHeader(f)|);
    }
  }

  /** The decoder of section 5.2 reads a client's header back, whichever length form it uses. */
  lemma ClientHeaderDecodes(f: Frame, rest: seq<Byte>)
    requires Encodable(f)
    ensures DecodeHeader(FrameHeader(f) + rest) ==
            Some(Header(f.fin, 0, f.opcode, true, |f.payload|, f.key, |FrameHeader(f)|))
  {
    hide FromBigEndian, ToBigEndian;
    HeaderFields(f);
    var h := FrameHeader(f);
    var b, ext := h + rest, FormBytes(f.form);
    assert b[0] == h[0] == BaseHeader(f)[0] && b[1] == h[1] == BaseHeader(f)[1];
    assert b[2..2 + ext] == h[2..2 + ext] && b[2 + ext..|h|] == f.key;
  }

  lemma AfterAfter(r: Parsed, n: nat, m: nat)
    ensures r.After(n).After(m) == r.After(m + n)
  {
  }

  lemma LegalMatches(s: Peer, f: Frame)
    requires Encodable(f) && s.Peer?
    ensures var p := ToParser(s.partial);
            Legal(f, s.partial) <==> Accepts(p, f)
  {
    HeaderFields(f);
  }

  predicate Fits(s: Peer) {
    s.Peer? ==> |s.partial.SoFar()| <= MAX_MESSAGE_LEN
  }

  lemma ReceiveFits(s: Peer, f: Frame, accepts: seq<Message> -> bool)
    requires Fits(s)
    ensures Fits(Receive(s, f, accepts))
  {
  }

  /** A whole frame on the wire does to the connection what the standard says it does. */
  lemma FrameRefines(s: Peer, f: Frame, rest: seq<Byte>, accepts: seq<Message> -> bool)
    requires Encodable(f) && Fits(s)
    ensures Consume(ToConn(s), Wire(f) + rest, accepts) == Consume(ToConn(Receive(s, f, accepts)), rest, accepts)
  {
    if s.Peer? {
      var p, c := ToParser(s.partial), ToConn(s);
      var bytes := Wire(f) + rest;
      FrameParses(p, f, rest);
      LegalMatches(s, f);
      var whole := Parse(p, bytes);
      if !Legal(f, s.partial) {
        ConsumeOnce(c, bytes, whole, accepts);
      } else {
        var done := Complete(AfterPayload(p, f));
        if done.0.Some? {
          assert whole == Parsed(Delivered(done.0.value), done.1, |Wire(f)|);
          ConsumeOnce(c, bytes, whole, accepts);
          assert bytes[|Wire(f)|..] == rest;
          assert Deliver(c.delivered, whole, accepts) == ToConn(Receive(s, f, accepts));
        } else {
          UnfinishedFrame(s, f, rest, done.1, accepts);
        }
      }
    }
  }

  /** A frame that is not final only extends the partial message. */
  lemma UnfinishedFrame(s: Peer, f: Frame, rest: seq<Byte>, q: Parser, accepts: seq<Message> -> bool)
    requires Encodable(f) && s.Peer? && Legal(f, s.partial) && !IsControl(f.opcode) && !f.fin
    requires WellFormed(q) && Open(q, s.delivered) == ToConn(Receive(s, f, accepts))
    requires Parse(ToParser(s.partial), Wire(f) + rest) == Parse(q, rest).After(|Wire(f)|)
    ensures Consume(ToConn(s), Wire(f) + rest, accepts) == Consume(Open(q, s.delivered), rest, accepts)
  {
    var c, bytes := ToConn(s), Wire(f) + rest;
    var r := Parse(q, rest);
    assert bytes[r.n + |Wire(f)|..] == rest[r.n..];
    if rest == [] {
      ConsumeOnce(c, bytes, r.After(|Wire(f)|), accepts);
    } else {
      ConsumeAlike(c, bytes, Open(q, s.delivered), rest, r, |Wire(f)|, accepts);
    }
  }

  /** For every stream of masked frames the parser delivers exactly what the standard prescribes. */
  lemma {:induction false} StreamRefines(s: Peer, frames: seq<Frame>, tail: seq<Byte>, accepts: seq<Message> -> bool)
    requires AllEncodable(frames) && Fits(s)
    ensures Consume(ToConn(s), Concat(Wires(frames)) + tail, accepts)
         == Consume(ToConn(ReceiveAll(s, frames, accepts)), tail, accepts)
    decreases |frames|
  {
    if frames == [] {
      assert Concat(Wires(frames)) + tail == tail;
    } else {
      var f, more := frames[0], frames[1..];
      var rest := Concat(Wires(more)) + tail;
      assert Wires(frames)[1..] == Wires(more);
      assert Concat(Wires(frames)) + tail == Wire(f) + rest;
      FrameRefines(s, f, rest, accepts);
      ReceiveFits(s, f, accepts);
      StreamRefines(Receive(s, f, accepts), more, tail, accepts);
    }
  }

  // ---------- The limit on messages ----------

  /** The wrapped size check decides the limit exactly when the sum does not leave 64 bits. */
  lemma SizeCheckExact(buffered: nat, len: nat)
    requires buffered <= MAX_MESSAGE_LEN && len < SIZE_LIMIT
    ensures (TooLong(buffered, len) <==> buffered + len > MAX_MESSAGE_LEN) <==> buffered + len < SIZE_LIMIT
  {
  }

  /** The header of a final continuation frame that declares `SIZE_LIMIT - 1` bytes. */
  function HugeHeader(key: seq<Byte>): seq<Byte>
    requires |key| == 4
  {
    [128, 255] + ToBigEndian(SIZE_LIMIT - 1, 8) + key
  }

  /**
   A continuation that declares a length with the top bit set passes the check when one byte is
   buffered, and then all of its payload is: the message under way outgrows any limit.
   */
  lemma SizeCheckWraps(x: Byte, key: seq<Byte>, data: seq<Byte>)
    requires |key| == 4 && |data| < SIZE_LIMIT - 1
    ensures var p := Parser(InHeader([]), [x], TEXT);
            && WellFormed(p) && Bounded(p)
            && var r := Parse(p, HugeHeader(key) + data);
            r.result == Again && |r.p.message| == 1 + |data| && (MAX_MESSAGE_LEN <= |data| ==> !Bounded(r.p))
  {
    var p, h := Parser(InHeader([]), [x], TEXT), HugeHeader(key);
    var q := p.(phase := InPayload(true, CONTINUATION, key, SIZE_LIMIT - 1, 0));
    HugeHeaderFinishes(p, key);
    WholeHeader(p, h, data);
    PayloadBytesRead(q, data, []);
    assert data + [] == data;
  }

  lemma HugeHeaderFinishes(p: Parser, key: seq<Byte>)
    requires |key| == 4 && |p.message| == 1 && p.messageOpcode == TEXT
    ensures var h := HugeHeader(key);
            && |h| == Needed(h) == 14 && BaseHeaderOk(h, TEXT)
            && FinishHeader(p, h) == Some(p.(phase := InPayload(true, CONTINUATION, key, SIZE_LIMIT - 1, 0)))
  {
    var h := HugeHeader(key);
    EightBytes(SIZE_LIMIT - 1);
    BigEndianRoundTrip(SIZE_LIMIT - 1, 8);
    assert h[2..10] == ToBigEndian(SIZE_LIMIT - 1, 8);
    assert h[|h| - 4..] == key;
  }

  /** What a parser holds, and what the current data frame still adds, is within the limit. */
  predicate Bounded(p: Parser)
    requires WellFormed(p)
  {
    |p.message| + (if p.phase.InPayload? && !IsControl(p.phase.opcode) then p.phase.len - p.phase.read else 0)
      <= MAX_MESSAGE_LEN
  }

  /** Every length declared while parsing `bytes` keeps its top bit 0, as the standard requires. */
  predicate DeclaresLegal(p: Parser, bytes: seq<Byte>)
    requires WellFormed(p)
    decreases |bytes|, Ripe(p)
  {
    if Ripe(p) then Complete(p).0.Some? || DeclaresLegal(Complete(p).1, bytes)
    else if bytes == [] then true
    else
      match Step(p, bytes[0])
      case None => true
      case Some(q) => (q.phase.InPayload? ==> q.phase.len < LEGAL_LENGTH) && DeclaresLegal(q, bytes[1..])
  }

  lemma StepBounded(p: Parser, b: Byte)
    requires WellFormed(p) && !Ripe(p) && Bounded(p) && Step(p, b).Some?
    requires var q := Step(p, b).value; q.phase.InPayload? ==> q.phase.len < LEGAL_LENGTH
    ensures Bounded(Step(p, b).value)
  {
  }

  lemma {:induction false} ParseBounded(p: Parser, bytes: seq<Byte>)
    requires WellFormed(p) && Bounded(p) && DeclaresLegal(p, bytes)
    ensures Bounded(Parse(p, bytes).p)
    decreases |bytes|, Ripe(p)
  {
    if Ripe(p) {
      if Complete(p).0.None? {
        ParseBounded(Complete(p).1, bytes);
      }
    } else if bytes != [] && Step(p, bytes[0]).Some? {
      StepBounded(p, bytes[0]);
      ParseBounded(Step(p, bytes[0]).value, bytes[1..]);
    }
  }

  predicate StreamDeclaresLegal(c: Conn, bytes: seq<Byte>, accepts: seq<Message> -> bool)
    requires AtRest(c)
    decreases |bytes|
  {
    if c.Closed? || bytes == [] then true
    else
      var r := Parse(c.p, bytes);
      DeclaresLegal(c.p, bytes) && StreamDeclaresLegal(Deliver(c.delivered, r, accepts), bytes[r.n..], accepts)
  }

  predicate WithinLimit(c: Conn)
    requires AtRest(c)
  {
    && (c.Open? ==> Bounded(c.p))
    && forall i :: 0 <= i < |c.delivered| ==> |c.delivered[i].data| <= MAX_MESSAGE_LEN
  }

  /** Nothing longer than the limit is ever buffered or delivered, in any run with legal lengths. */
  lemma {:induction false} ConsumeWithinLimit(c: Conn, bytes: seq<Byte>, accepts: seq<Message> -> bool)
    requires AtRest(c) && WithinLimit(c) && StreamDeclaresLegal(c, bytes, accepts)
    ensures WithinLimit(Consume(c, bytes, accepts))
    decreases |bytes|
  {
    if c.Open? && bytes != [] {
      var r := Parse(c.p, bytes);
      ParseBounded(c.p, bytes);
      ConsumeWithinLimit(Deliver(c.delivered, r, accepts), bytes[r.n..], accepts);
    }
  }
}
