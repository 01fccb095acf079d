/**
 Receiving WebSocket data, one byte at a time: the meaning of a stream, which the reassembly rules
 of RFC 6455 are compared with. `WsBlocks` says when the block-wise parser agrees with it.
 */
module WsStream {
  import opened Bytes
  import opened WsFrame

  const MAX_MESSAGE_LEN: nat := 4 * 1024 * 1024

  datatype Phase =
    | InHeader(buf: seq<Byte>)
    | InPayload(fin: bool, opcode: nat, key: seq<Byte>, len: nat, read: nat)

  /** `message` accumulates data payloads; `messageOpcode` is 0 unless a fragmented message is in progress. */
  datatype Parser = Parser(phase: Phase, message: seq<Byte>, messageOpcode: nat)

  const IDLE := Parser(InHeader([]), [], 0)

  /** The rules of section 5.2 that the first two bytes of a frame must obey. */
  predicate BaseHeaderOk(h: seq<Byte>, messageOpcode: nat)
    requires 2 <= |h|
  {
    var b0, b1 := h[0] as nat, h[1] as nat;
    var opcode := b0 % 16;
    && b0 / 16 % 8 == 0
    && 128 <= b1
    && KnownOpcode(opcode)
    && (IsControl(opcode) ==> 128 <= b0 && Len7(h[1]) <= 125)
    && (opcode == CONTINUATION ==> messageOpcode != 0)
    && (opcode == TEXT || opcode == BINARY ==> messageOpcode == 0)
  }

  /** The length of the whole header, once its first two bytes are known. */
  function Needed(h: seq<Byte>): (n: nat)
    requires 2 <= |h|
    ensures 6 <= n <= 14
  {
    2 + ExtendedBytes(Len7(h[1])) + 4
  }

  predicate Pending(h: seq<Byte>, messageOpcode: nat) {
    |h| < 2 || (BaseHeaderOk(h, messageOpcode) && |h| < Needed(h))
  }

  predicate FrameFits(opcode: nat, fin: bool, messageOpcode: nat) {
    && KnownOpcode(opcode)
    && (IsControl(opcode) ==> fin)
    && (opcode == CONTINUATION ==> messageOpcode != 0)
    && (opcode == TEXT || opcode == BINARY ==> messageOpcode == 0)
  }

  predicate WellFormed(p: Parser) {
    && p.messageOpcode <= BINARY
    && match p.phase
       case InHeader(buf) => Pending(buf, p.messageOpcode)
       case InPayload(fin, opcode, key, len, read) =>
         |key| == 4 && read <= len && FrameFits(opcode, fin, p.messageOpcode)
  }

  /** All of a frame's payload has been read, but the frame is not finished yet. */
  predicate Ripe(p: Parser) {
    p.phase.InPayload? && p.phase.read == p.phase.len
  }

  function DeclaredLen(h: seq<Byte>): nat
    requires 2 <= |h| && |h| == Needed(h)
  {
    var ext := ExtendedBytes(Len7(h[1]));
    if ext == 0 then Len7(h[1]) else FromBigEndian(h[2..2 + ext])
  }

  /** The size check as computed: the sum is a 64-bit number and wraps. */
  predicate TooLong(buffered: nat, len: nat) {
    (buffered + len) % SIZE_LIMIT > MAX_MESSAGE_LEN
  }

  function FinishHeader(p: Parser, h: seq<Byte>): Option<Parser>
    requires 2 <= |h| && |h| == Needed(h)
  {
    var opcode := h[0] as nat % 16;
    if !IsControl(opcode) && TooLong(|p.message|, DeclaredLen(h)) then None
    else Some(p.(phase := InPayload(128 <= h[0] as nat, opcode, h[|h| - 4..], DeclaredLen(h), 0)))
  }

  /** One more byte; `None` is a protocol violation. */
  function Step(p: Parser, b: Byte): (r: Option<Parser>)
    requires WellFormed(p) && !Ripe(p)
    ensures r.Some? ==> WellFormed(r.value)
  {
    match p.phase
    case InHeader(buf) =>
      var h := buf + [b];
      if |h| < 2 then Some(p.(phase := InHeader(h)))
      else if !BaseHeaderOk(h, p.messageOpcode) then None
      else if |h| < Needed(h) then Some(p.(phase := InHeader(h)))
      else FinishHeader(p, h)
    case InPayload(fin, opcode, key, len, read) =>
      Some(p.(phase := InPayload(fin, opcode, key, len, read + 1),
              message := if IsControl(opcode) then p.message else p.message + [Xor(b, key[read % 4])]))
  }

  /** The end of a frame: control frames and final data frames are handed over. */
  function Complete(p: Parser): (r: (Option<FrameType>, Parser))
    requires WellFormed(p) && Ripe(p)
    ensures WellFormed(r.1) && !Ripe(r.1) && r.1.message == p.message
  {
    var opcode := p.phase.opcode;
    if IsControl(opcode) then
      (Some(if opcode == CLOSE then Close else if opcode == PING then Ping else Pong), p.(phase := InHeader([])))
    else
      var current := if opcode != CONTINUATION then opcode else p.messageOpcode;
      if p.phase.fin then
        (Some(if current == TEXT then Text else Binary), p.(phase := InHeader([]), messageOpcode := 0))
      else
        (None, p.(phase := InHeader([]), messageOpcode := current))
  }

  /** The type that a frame ends with: control frames by opcode, messages by that of their first frame. */
  lemma CompletedAs(p: Parser)
    requires WellFormed(p) && Ripe(p)
    ensures var (frame, q), opcode := Complete(p), p.phase.opcode;
            && (opcode == 8 ==> frame == Some(Close)) && (opcode == 9 ==> frame == Some(Ping))
            && (opcode == 10 ==> frame == Some(Pong))
            && (opcode < 8 && !p.phase.fin ==> frame == None)
            && (opcode < 8 && p.phase.fin ==>
                  frame == Some(if (if opcode == 0 then p.messageOpcode else opcode) == 1 then Text else Binary))
            && (opcode >= 8 ==> q.messageOpcode == p.messageOpcode)
  {
  }

  datatype Result = Again | Delivered(frame: FrameType) | Violation

  datatype Parsed = Parsed(result: Result, p: Parser, n: nat) {
    function After(k: nat): Parsed {
      this.(n := n + k)
    }
  }

  /** Reads up to the end of the next message or control frame; `n` counts the bytes taken. */
  function Parse(p: Parser, bytes: seq<Byte>): (r: Parsed)
    requires WellFormed(p)
    ensures WellFormed(r.p) && !Ripe(r.p) && r.n <= |bytes|
    ensures r.result == Again ==> r.n == |bytes|
    ensures !Ripe(p) && bytes != [] ==> 0 < r.n
    decreases |bytes|, Ripe(p)
  {
    if Ripe(p) then
      var (frame, p') := Complete(p);
      if frame.Some? then Parsed(Delivered(frame.value), p', 0) else Parse(p', bytes)
    else if bytes == [] then Parsed(Again, p, 0)
    else
      match Step(p, bytes[0])
      case None => Parsed(Violation, IDLE, 1)
      case Some(p') => Parse(p', bytes[1..]).After(1)
  }

  /** Byte by byte, a cut anywhere does not matter: an unfinished parse goes on where it stopped. */
  lemma {:induction false} ParseSplit(p: Parser, a: seq<Byte>, b: seq<Byte>)
    requires WellFormed(p)
    ensures var r := Parse(p, a);
            Parse(p, a + b) == if r.result == Again then Parse(r.p, b).After(|a|) else r
    decreases |a|, Ripe(p)
  {
    if Ripe(p) {
      if Complete(p).0.None? {
        ParseSplit(Complete(p).1, a, b);
      }
    } else if a == [] {
      assert a + b == b;
    } else {
      assert (a + b)[1..] == a[1..] + b;
      if Step(p, a[0]).Some? {
        ParseSplit(Step(p, a[0]).value, a[1..], b);
      }
    }
  }

  // ---------- The receiving side of a connection ----------

  datatype Message = Message(text: bool, data: seq<Byte>)

  datatype Reason = PeerClosed | ProtocolError | Rejected

  datatype Conn =
    | Open(p: Parser, delivered: seq<Message>)
    | Closed(why: Reason, delivered: seq<Message>)

  predicate AtRest(c: Conn) {
    c.Open? ==> WellFormed(c.p) && !Ripe(c.p)
  }

  /** What happens after the parser stops; `accepts` is the handler's answer to the newest message. */
  function Deliver(delivered: seq<Message>, r: Parsed, accepts: seq<Message> -> bool): (c: Conn)
    requires WellFormed(r.p) && !Ripe(r.p)
    ensures AtRest(c)
  {
    match r.result
    case Again => Open(r.p, delivered)
    case Violation => Closed(ProtocolError, delivered)
    case Delivered(frame) =>
      match frame
      case Close => Closed(PeerClosed, delivered)
      case Ping => Open(r.p, delivered)
      case Pong => Open(r.p, delivered)
      case _ =>
        var all := delivered + [Message(frame == Text, r.p.message)];
        if accepts(all) then Open(r.p.(message := []), all) else Closed(Rejected, all)
  }

  function Consume(c: Conn, bytes: seq<Byte>, accepts: seq<Message> -> bool): (r: Conn)
    requires AtRest(c)
    ensures AtRest(r)
    decreases |bytes|
  {
    if c.Closed? || bytes == [] then c
    else
      var r := Parse(c.p, bytes);
      Consume(Deliver(c.delivered, r, accepts), bytes[r.n..], accepts)
  }

  /** Byte by byte, fragmentation of the stream is unobservable, wherever it is cut. */
  lemma {:induction false} ConsumeSplit(c: Conn, a: seq<Byte>, b: seq<Byte>, accepts: seq<Message> -> bool)
    requires AtRest(c)
    ensures Consume(c, a + b, accepts) == Consume(Consume(c, a, accepts), b, accepts)
    decreases |a|
  {
    if a == [] {
      assert a + b == b;
    } else if c.Open? {
      var r := Parse(c.p, a);
      var next := Deliver(c.delivered, r, accepts);
      ConsumeOnce(c, a, r, accepts);
      if r.result == Again {
        assert a[r.n..] == [];
        if b == [] {
          assert a + b == a;
        } else {
          ConsumeResumes(c, a, b, next, Parse(r.p, b), accepts);
        }
      } else {
        ConsumeStops(c, a, b, r, accepts);
        ConsumeSplit(next, a[r.n..], b, accepts);
      }
    }
  }

  lemma ConsumeStops(c: Conn, a: seq<Byte>, b: seq<Byte>, r: Parsed, accepts: seq<Message> -> bool)
    requires AtRest(c) && c.Open? && a != [] && r == Parse(c.p, a) && r.result != Again
    ensures Consume(c, a + b, accepts) == Consume(Deliver(c.delivered, r, accepts), a[r.n..] + b, accepts)
  {
    assert Parse(c.p, a + b) == r by {
      ParseSplit(c.p, a, b);
    }
    ConsumeOnce(c, a + b, r, accepts);
    assert (a + b)[r.n..] == a[r.n..] + b;
  }

  lemma ConsumeOnce(c: Conn, bytes: seq<Byte>, r: Parsed, accepts: seq<Message> -> bool)
    requires AtRest(c) && c.Open? && bytes != [] && r == Parse(c.p, bytes)
    ensures Consume(c, bytes, accepts) == Consume(Deliver(c.delivered, r, accepts), bytes[r.n..], accepts)
  {
  }

  lemma DeliverIgnoresCount(delivered: seq<Message>, r: Parsed, k: nat, accepts: seq<Message> -> bool)
    requires WellFormed(r.p) && !Ripe(r.p)
    ensures Deliver(delivered, r.After(k), accepts) == Deliver(delivered, r, accepts)
  {
  }

  lemma ConsumeAlike(c: Conn, s: seq<Byte>, c': Conn, s': seq<Byte>, r: Parsed, k: nat, accepts: seq<Message> -> bool)
    requires AtRest(c) && AtRest(c') && c.Open? && c'.Open? && c.delivered == c'.delivered && s != [] && s' != []
    requires Parse(c'.p, s') == r && Parse(c.p, s) == r.After(k) && s[r.n + k..] == s'[r.n..]
    ensures Consume(c, s, accepts) == Consume(c', s', accepts)
  {
    var next := Deliver(c.delivered, r, accepts);
    assert Consume(c, s, accepts) == Consume(next, s[r.n + k..], accepts) by {
      DeliverIgnoresCount(c.delivered, r, k, accepts);
      ConsumeOnce(c, s, r.After(k), accepts);
    }
    assert Consume(c', s', accepts) == Consume(next, s'[r.n..], accepts) by {
      ConsumeOnce(c', s', r, accepts);
    }
  }

  lemma ParseResumes(p: Parser, a: seq<Byte>, b: seq<Byte>, q: Parser, r: Parsed)
    requires WellFormed(p) && WellFormed(q) && Parse(p, a) == Parsed(Again, q, |a|) && Parse(q, b) == r
    ensures Parse(p, a + b) == r.After(|a|)
  {
    ParseSplit(p, a, b);
  }

  lemma ConsumeResumes(c: Conn, a: seq<Byte>, b: seq<Byte>, q: Conn, r: Parsed, accepts: seq<Message> -> bool)
    requires AtRest(c) && c.Open? && AtRest(q) && q.Open? && q.delivered == c.delivered && a != [] && b != []
    requires Parse(c.p, a) == Parsed(Again, q.p, |a|) && Parse(q.p, b) == r
    ensures Consume(c, a + b, accepts) == Consume(q, b, accepts)
  {
    hide Parse;
    ParseResumes(c.p, a, b, q.p, r);
    assert (a + b)[r.n + |a|..] == b[r.n..];
    ConsumeAlike(c, a + b, q, b, r, |a|, accepts);
  }

  // ---------- Many bytes at once ----------

  lemma ParseStep(p: Parser, b: Byte, rest: seq<Byte>)
    requires WellFormed(p) && !Ripe(p)
    ensures Parse(p, [b] + rest) ==
      match Step(p, b)
      case None => Parsed(Violation, IDLE, 1)
      case Some(q) => Parse(q, rest).After(1)
  {
    assert ([b] + rest)[1..] == rest;
  }

  /** Header bytes that do not complete the header are only collected. */
  lemma {:induction false} HeaderBytesCollect(p: Parser, a: seq<Byte>, rest: seq<Byte>)
    requires WellFormed(p) && p.phase.InHeader? && Pending(p.phase.buf + a, p.messageOpcode)
    ensures var q := p.(phase := InHeader(p.phase.buf + a));
            WellFormed(q) && Parse(p, a + rest) == Parse(q, rest).After(|a|)
    decreases |a|
  {
    var buf := p.phase.buf;
    if a == [] {
      assert a + rest == rest && buf + a == buf;
    } else {
      var h := buf + [a[0]];
      assert buf + a == h + a[1..];
      assert (a + rest)[1..] == a[1..] + rest;
      assert Step(p, a[0]) == Some(p.(phase := InHeader(h)));
      HeaderBytesCollect(p.(phase := InHeader(h)), a[1..], rest);
    }
  }

  /** The last of several header bytes decides what comes next. */
  lemma LastHeaderByte(p: Parser, a: seq<Byte>, rest: seq<Byte>)
    requires WellFormed(p) && p.phase.InHeader? && a != []
    requires Pending(p.phase.buf + a[..|a| - 1], p.messageOpcode)
    ensures var k := |a| - 1;
            var q := p.(phase := InHeader(p.phase.buf + a[..k]));
            && WellFormed(q)
            && Parse(p, a + rest) ==
                 match Step(q, a[k])
                 case None => Parsed(Violation, IDLE, |a|)
                 case Some(q') => Parse(q', rest).After(|a|)
  {
    var k := |a| - 1;
    var q := p.(phase := InHeader(p.phase.buf + a[..k]));
    HeaderBytesCollect(p, a[..k], [a[k]] + rest);
    ParseStep(q, a[k], rest);
    assert a + rest == a[..k] + ([a[k]] + rest);
  }

  /** Two bytes that break a rule end the connection at once. */
  lemma BadHeaderStops(p: Parser, a: seq<Byte>, rest: seq<Byte>)
    requires WellFormed(p) && p.phase.InHeader? && a != []
    requires |p.phase.buf + a| == 2 && !BaseHeaderOk(p.phase.buf + a, p.messageOpcode)
    ensures Parse(p, a + rest) == Parsed(Violation, IDLE, |a|)
  {
    LastHeaderByte(p, a, rest);
    assert p.phase.buf + a == (p.phase.buf + a[..|a| - 1]) + [a[|a| - 1]];
  }

  /** The bytes that complete a header open the payload, unless the message gets too long. */
  lemma HeaderCompletes(p: Parser, a: seq<Byte>, rest: seq<Byte>)
    requires WellFormed(p) && p.phase.InHeader? && a != []
    requires var h := p.phase.buf + a;
             2 <= |h| && |h| == Needed(h) && BaseHeaderOk(h, p.messageOpcode)
    ensures var h := p.phase.buf + a;
            match FinishHeader(p, h)
            case None => Parse(p, a + rest) == Parsed(Violation, IDLE, |a|)
            case Some(q) => WellFormed(q) && Parse(p, a + rest) == Parse(q, rest).After(|a|)
  {
    var k := |a| - 1;
    var h := p.phase.buf + a;
    assert h == (p.phase.buf + a[..k]) + [a[k]];
    LastHeaderByte(p, a, rest);
    var q := p.(phase := InHeader(p.phase.buf + a[..k]));
    assert Step(q, a[k]) == FinishHeader(q, h) == FinishHeader(p, h);
  }

  /** A whole header at once, from a parser that waits for one. */
  lemma WholeHeader(p: Parser, h: seq<Byte>, rest: seq<Byte>)
    requires WellFormed(p) && p.phase == InHeader([]) && 2 <= |h| && |h| == Needed(h)
    ensures !BaseHeaderOk(h, p.messageOpcode) ==> Parse(p, h + rest).result == Violation
    ensures BaseHeaderOk(h, p.messageOpcode) ==>
              match FinishHeader(p, h)
              case None => Parse(p, h + rest).result == Violation
              case Some(q) => WellFormed(q) && Parse(p, h + rest) == Parse(q, rest).After(|h|)
  {
    if BaseHeaderOk(h, p.messageOpcode) {
      assert [] + h == h;
      HeaderCompletes(p, h, rest);
    } else {
      assert [] + h[..2] == h[..2] && h + rest == h[..2] + (h[2..] + rest);
      BadHeaderStops(p, h[..2], h[2..] + rest);
    }
  }

  function Unmask(key: seq<Byte>, read: nat, data: seq<Byte>): (m: seq<Byte>)
    requires |key| == 4
    ensures |m| == |data|
  {
    seq(|data|, i requires 0 <= i < |data| => Xor(data[i], key[(read + i) % 4]))
  }

  /** The parser after `a` more payload bytes. */
  function ReadPayload(p: Parser, a: seq<Byte>): Parser
    requires p.phase.InPayload? && |p.phase.key| == 4
  {
    p.(phase := p.phase.(read := p.phase.read + |a|),
       message := if IsControl(p.phase.opcode) then p.message else p.message + Unmask(p.phase.key, p.phase.read, a))
  }

  /** Bit by bit: what is stored is the exclusive or of the payload and the key, in step with what was read before. */
  lemma UnmaskBits(key: seq<Byte>, read: nat, data: seq<Byte>, i: nat, j: nat)
    requires |key| == 4 && i < |data| && j < 8
    ensures Bit(Unmask(key, read, data)[i] as nat, j) ==
            (Bit(data[i] as nat, j) + Bit(key[(read + i) % 4] as nat, j)) % 2
  {
    XorIsExclusiveOr(data[i], key[(read + i) % 4], j);
  }

  lemma UnmaskCons(key: seq<Byte>, read: nat, a: seq<Byte>)
    requires |key| == 4 && a != []
    ensures Unmask(key, read, a) == [Xor(a[0], key[read % 4])] + Unmask(key, read + 1, a[1..])
  {
  }

  lemma StepPayload(p: Parser, a: seq<Byte>)
    requires WellFormed(p) && p.phase.InPayload? && a != [] && p.phase.read + |a| <= p.phase.len
    ensures Step(p, a[0]).Some?
    ensures var q := Step(p, a[0]).value;
            && q.phase == p.phase.(read := p.phase.read + 1)
            && ReadPayload(q, a[1..]) == ReadPayload(p, a)
  {
    UnmaskCons(p.phase.key, p.phase.read, a);
  }

  lemma {:induction false} PayloadBytesRead(p: Parser, a: seq<Byte>, rest: seq<Byte>)
    requires WellFormed(p) && p.phase.InPayload? && p.phase.read + |a| <= p.phase.len
    ensures WellFormed(ReadPayload(p, a)) && Parse(p, a + rest) == Parse(ReadPayload(p, a), rest).After(|a|)
    decreases |a|
  {
    hide FrameFits, Parse, Step;
    if a == [] {
      assert a + rest == rest && ReadPayload(p, a) == p;
    } else {
      StepPayload(p, a);
      ParseStep(p, a[0], a[1..] + rest);
      assert a + rest == [a[0]] + (a[1..] + rest);
      PayloadBytesRead(Step(p, a[0]).value, a[1..], rest);
    }
  }
}
