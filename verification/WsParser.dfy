/** The incremental frame parser as it runs: header bytes collected in place, payloads unmasked in place. */
module WsParser {
  import opened Bytes
  import opened WsFrame
  import opened WsStream
  import opened WsBlocks

  /** Having taken `n` bytes, the parser in state `q` will finish what `p` would have done with all of `bytes`. */
  ghost predicate Continues(p: Parser, bytes: seq<Byte>, q: Parser, n: nat) {
    && WellFormed(p) && WellFormed(q) && n <= |bytes|
    && BlockParse(p, bytes) == BlockParse(q, bytes[n..]).After(n)
  }

  lemma ContinuesOn(p: Parser, bytes: seq<Byte>, q: Parser, n: nat, q': Parser, m: nat)
    requires Continues(p, bytes, q, n) && Continues(q, bytes[n..], q', m)
    ensures Continues(p, bytes, q', n + m)
  {
    assert bytes[n..][m..] == bytes[n + m..];
  }

  lemma ContinuesToEnd(p: Parser, bytes: seq<Byte>, q: Parser, n: nat, r: Parsed)
    requires Continues(p, bytes, q, n) && BlockParse(q, bytes[n..]) == r
    ensures BlockParse(p, bytes) == r.After(n)
  {
  }

  /** What an attempt leaves: a state that goes on with the other bytes, or the end of the parse. */
  ghost predicate Reaches(p: Parser, bytes: seq<Byte>, result: Result, v: Parser, n: nat) {
    if result == Again then Continues(p, bytes, v, n) else WellFormed(p) && BlockParse(p, bytes) == Parsed(result, v, n)
  }

  /** One more attempt, after those that took the first `n` bytes. */
  lemma Advances(p: Parser, bytes: seq<Byte>, q: Parser, n: nat, result: Result, v: Parser, m: nat, next: nat)
    requires Continues(p, bytes, q, n) && Reaches(q, bytes[n..], result, v, m) && next == n + m
    ensures Reaches(p, bytes, result, v, next)
  {
    if result == Again {
      ContinuesOn(p, bytes, q, n, v, m);
    } else {
      ContinuesToEnd(p, bytes, q, n, Parsed(result, v, m));
    }
  }

  lemma NothingLeft(p: Parser, bytes: seq<Byte>, v: Parser)
    requires Reaches(p, bytes, Again, v, |bytes|) && !Ripe(v)
    ensures BlockParse(p, bytes) == Parsed(Again, v, |bytes|)
  {
    BlockIsBytewise(v, []);
    ContinuesToEnd(p, bytes, v, |bytes|, Parsed(Again, v, 0));
  }

  /** Behind a header attempt comes payload, or nothing is left of the chunk. */
  lemma AttemptContinues(p: Parser, bytes: seq<Byte>)
    requires WellFormed(p) && p.phase.InHeader?
    ensures var r := HeaderAttempt(p, bytes);
            if r.result == Violation then BlockParse(p, bytes) == r
            else Continues(p, bytes, r.p, r.n) && InBuffer(r.p, |bytes| - r.n)
  {
    var r := HeaderAttempt(p, bytes);
    if r.result == Again {
      assert |bytes[r.n..]| == |bytes| - r.n;
      BlockIsBytewise(r.p, bytes[r.n..]);
    }
  }

  lemma PayloadContinues(p: Parser, bytes: seq<Byte>, n: nat)
    requires WellFormed(p) && p.phase.InPayload? && n <= |bytes| && p.phase.read + n <= p.phase.len
    ensures Continues(p, bytes, ReadPayload(p, bytes[..n]), n)
  {
    var q := ReadPayload(p, bytes[..n]);
    assert Parse(p, bytes) == Parse(q, bytes[n..]).After(n) && WellFormed(q) by {
      PayloadBytesRead(p, bytes[..n], bytes[n..]);
      assert bytes == bytes[..n] + bytes[n..];
    }
    BlockIsBytewise(p, bytes);
    BlockIsBytewise(q, bytes[n..]);
  }

  lemma AttemptMoves(p: Parser, bytes: seq<Byte>)
    requires WellFormed(p) && p.phase.InHeader?
    ensures var r := HeaderAttempt(p, bytes);
            r.result == Again ==> (r.n == 0 ==> bytes == []) && (bytes == [] ==> !Ripe(r.p))
  {
  }

  /** A frame that is complete: the parser goes on at the start of a header, or has something to deliver. */
  lemma RipeContinues(p: Parser, bytes: seq<Byte>, done: Option<FrameType>, q: Parser)
    requires WellFormed(p) && Ripe(p) && Complete(p) == (done, q)
    ensures match done
            case None => Continues(p, bytes, q, 0)
            case Some(frame) => BlockParse(p, bytes) == Parsed(Delivered(frame), q, 0)
  {
    if done == None {
      assert bytes[0..] == bytes;
      BlockIsBytewise(q, bytes);
    }
  }

  datatype HeaderStatus = Incomplete | Bad | HeaderDone

  class FrameParser {
    var inPayload: bool
    const headerBuf: array<Byte>
    var headerLen: nat
    var fin: bool
    var opcode: nat
    var maskKey: seq<Byte>
    var payloadLen: nat
    var payloadRead: nat
    var messageOpcode: nat
    var payload: seq<Byte>  // the message vector that the connection passes to every call

    constructor ()
      ensures Valid() && View() == IDLE && fresh(headerBuf)
    {
      headerBuf := new Byte[HEADER_BUF_LEN](_ => 0);
      inPayload, headerLen, fin, opcode, maskKey := false, 0, false, 0, [];
      payloadLen, payloadRead, messageOpcode, payload := 0, 0, 0, [];
      new;
      assert headerBuf[..0] == [];
    }

    ghost function View(): Parser
      requires headerLen <= headerBuf.Length
      reads this, headerBuf
    {
      Parser(
        if inPayload then InPayload(fin, opcode, maskKey, payloadLen, payloadRead)
        else InHeader(headerBuf[..headerLen]),
        payload, messageOpcode)
    }

    ghost predicate Valid()
      reads this, headerBuf
    {
      headerBuf.Length == HEADER_BUF_LEN && headerLen <= HEADER_BUF_LEN && WellFormed(View())
    }

    method FillHeader(data: array<Byte>, off: nat, len: nat, needed: nat) returns (n: nat)
      requires off + len <= data.Length && data != headerBuf && needed < SIZE_LIMIT
      requires headerBuf.Length == HEADER_BUF_LEN && headerLen <= headerBuf.Length
      requires headerLen + FillCount(headerLen, needed, len) <= headerBuf.Length
      modifies this`headerLen, headerBuf
      ensures n == FillCount(old(headerLen), needed, len) && headerLen == old(headerLen) + n
      ensures headerBuf[..headerLen] == old(headerBuf[..headerLen]) + data[off..off + n]
    {
      DifferenceWraps(needed, headerLen);
      var remaining := (needed - headerLen) % SIZE_LIMIT;
      n := if len < remaining then len else remaining;
      forall i | 0 <= i < n {
        headerBuf[headerLen + i] := data[off + i];
      }
      headerLen := headerLen + n;
    }

    method ValidateBaseHeader() returns (ok: bool, needed: nat)
      requires 2 <= headerLen <= headerBuf.Length
      ensures ok == BaseHeaderOk(headerBuf[..headerLen], messageOpcode)
      ensures ok ==> needed == Needed(headerBuf[..headerLen])
    {
      var byte0, byte1 := headerBuf[0] as nat, headerBuf[1] as nat;
      needed := 0;
      if byte0 / 16 % 8 != 0 {
        return false, 0;
      }
      if byte1 / 128 == 0 {
        return false, 0;
      }
      var op, final, len7 := byte0 % 16, byte0 / 128 != 0, byte1 % 128;
      if !KnownOpcode(op) {
        return false, 0;
      }
      if IsControl(op) && !final {
        return false, 0;
      }
      if IsControl(op) && len7 > 125 {
        return false, 0;
      }
      if op == CONTINUATION && messageOpcode == 0 {
        return false, 0;
      }
      if (op == TEXT || op == BINARY) && messageOpcode != 0 {
        return false, 0;
      }
      return true, 2 + (if len7 == 126 then 2 else if len7 == 127 then 8 else 0) + 4;
    }

    ghost predicate Separate()
      reads this`headerLen
    {
      headerBuf.Length == HEADER_BUF_LEN && headerLen <= HEADER_BUF_LEN
    }

    /** The header as far as its first two bytes ask for it; there may be more in the buffer. */
    ghost function Header(): (h: seq<Byte>)
      requires headerBuf.Length == HEADER_BUF_LEN
      reads headerBuf
      ensures 2 <= |h| && |h| == Needed(h)
    {
      headerBuf[..Needed(headerBuf[..])]
    }

    method ReadLength() returns (declared: nat)
      requires headerBuf.Length == HEADER_BUF_LEN
      ensures declared == DeclaredLen(Header())
    {
      ghost var h := Header();
      var len7 := headerBuf[1] as nat % 128;
      var ext := if len7 == 126 then 2 else if len7 == 127 then 8 else 0;
      if ext == 0 {
        return len7;
      }
      declared := 0;
      for i := 0 to ext
        invariant declared == FromBigEndian(h[2..2 + i])
      {
        assert h[2..2 + i + 1][..i] == h[2..2 + i] && h[2..2 + i + 1][i] == headerBuf[2 + i];
        declared := 256 * declared + headerBuf[2 + i] as nat;
      }
    }

    method ParseHeaderFields() returns (ok: bool)
      requires Separate() && !inPayload
      modifies this`inPayload, this`fin, this`opcode, this`maskKey, this`payloadLen, this`payloadRead
      ensures ok == FinishHeader(old(View()), Header()).Some?
      ensures ok ==> View() == FinishHeader(old(View()), Header()).value
    {
      ghost var h := Header();
      fin := headerBuf[0] as nat / 128 != 0;
      opcode := headerBuf[0] as nat % 16;
      var declared := ReadLength();
      if !IsControl(opcode) && (|payload| + declared) % SIZE_LIMIT > MAX_MESSAGE_LEN {
        return false;
      }
      var len7 := headerBuf[1] as nat % 128;
      var ext := if len7 == 126 then 2 else if len7 == 127 then 8 else 0;
      maskKey := headerBuf[2 + ext..2 + ext + 4];
      assert maskKey == h[|h| - 4..];
      payloadLen, payloadRead := declared, 0;
      inPayload := true;
      return true;
    }

    /** Takes bytes into the header buffer; the first two are checked as soon as they are there. */
    method CollectHeader(ghost bytes: seq<Byte>, data: array<Byte>, off: nat, len: nat)
      returns (status: HeaderStatus, parsed: nat)
      requires Valid() && !inPayload && off + len <= data.Length && data != headerBuf
      requires InBuffer(View(), len) && bytes == data[off..off + len]
      modifies this`headerLen, headerBuf
      ensures Separate() && parsed <= len
      ensures status == Incomplete ==> HeaderAttempt(old(View()), bytes) == Parsed(Again, View(), parsed)
      ensures status == Bad ==> HeaderAttempt(old(View()), bytes) == Parsed(Violation, IDLE, parsed)
      ensures status == HeaderDone ==>
                HeaderAttempt(old(View()), bytes) == Finished(old(View()), Header(), parsed)
    {
      hide Parse, BaseHeaderOk;
      ghost var buf := headerBuf[..headerLen];
      parsed := FillHeader(data, off, len, 2);
      JoinPieces(buf, bytes, data[..], off, 0, parsed);
      assert buf + bytes[..0] == buf;
      if headerLen < 2 {
        return Incomplete, parsed;
      }
      var valid, needed := ValidateBaseHeader();
      if !valid {
        return Bad, parsed;
      }
      status, parsed := ExtendHeader(old(View()), bytes, data, off, len, needed, parsed);
    }

    /** Takes the rest of a header whose first two bytes are valid; `first` bytes of the chunk are in it already. */
    method ExtendHeader(
      ghost p: Parser, ghost bytes: seq<Byte>, data: array<Byte>, off: nat, len: nat, needed: nat, first: nat)
      returns (status: HeaderStatus, parsed: nat)
      requires Separate() && !inPayload && off + len <= data.Length && data != headerBuf
      requires bytes == data[off..off + len] && first <= len
      requires WellFormed(p) && p == View().(phase := p.phase) && p.phase.InHeader? && InBuffer(p, len)
      requires headerBuf[..headerLen] == p.phase.buf + bytes[..first]
      requires 2 <= headerLen && (headerLen == 2 || first == len) && BaseHeaderOk(headerBuf[..headerLen], messageOpcode)
      requires needed == Needed(headerBuf[..headerLen])
      modifies this`headerLen, headerBuf
      ensures Separate() && parsed <= len
      ensures status == HeaderDone || status == Incomplete
      ensures RestAttempt(p, bytes, first, old(headerBuf[..headerLen])) ==
                if status == Incomplete then Parsed(Again, View(), parsed) else Finished(p, Header(), parsed)
    {
      hide InBuffer, Ripe, Valid, Finished, BaseHeaderOk;
      ghost var h := headerBuf[..headerLen];
      var more := FillHeader(data, off + first, len - first, needed);
      JoinPieces(p.phase.buf, bytes, data[..], off, first, more);
      parsed := first + more;
      ghost var whole := headerBuf[..headerLen];
      RestIs(p, bytes, first, h, whole, parsed);
      assert headerLen >= needed ==> whole[..needed] == Header();
      status := if headerLen < needed then Incomplete else HeaderDone;
    }

    static lemma JoinPieces(start: seq<Byte>, bytes: seq<Byte>, data: seq<Byte>, off: nat, n: nat, more: nat)
      requires n + more <= |bytes| && off + |bytes| <= |data| && bytes == data[off..off + |bytes|]
      ensures (start + bytes[..n]) + data[off + n..off + n + more] == start + bytes[..n + more]
    {
    }

    method DoHeader(ghost bytes: seq<Byte>, data: array<Byte>, off: nat, len: nat) returns (ok: bool, parsed: nat)
      requires Valid() && !inPayload && off + len <= data.Length && data != headerBuf
      requires InBuffer(View(), len) && bytes == data[off..off + len]
      modifies this, headerBuf
      ensures Separate() && parsed <= len && (ok ==> Valid())
      ensures HeaderAttempt(old(View()), bytes) ==
                if ok then Parsed(Again, View(), parsed) else Parsed(Violation, IDLE, parsed)
    {
      ghost var p := View();
      var status;
      status, parsed := CollectHeader(bytes, data, off, len);
      match status
      case Incomplete =>
        ok := true;
      case Bad =>
        ok := false;
      case HeaderDone =>
        assert FinishHeader(View(), Header()) == FinishHeader(p, Header());
        ok := ParseHeaderFields();
    }

    method FrameDone() returns (done: bool, frame: FrameType)
      requires Valid() && Ripe(View())
      modifies this`inPayload, this`headerLen, this`messageOpcode
      ensures Valid() && !inPayload && headerLen == 0
      ensures Complete(old(View())) == (if done then Some(frame) else None, View())
    {
      done, frame := false, Close;
      if IsControl(opcode) {
        frame := if opcode == CLOSE then Close else if opcode == PING then Ping else Pong;
        done := true;
      } else {
        if opcode != CONTINUATION {
          messageOpcode := opcode;
        }
        if fin {
          frame := if messageOpcode == TEXT then Text else Binary;
          messageOpcode := 0;
          done := true;
        }
      }
      inPayload := false;
      headerLen := 0;
      assert headerBuf[..0] == [];
    }

    /** Unmasks payload bytes where they lie and, for a data frame, appends them to the message. */
    method TakePayload(data: array<Byte>, off: nat, n: nat)
      requires Valid() && inPayload && payloadRead + n <= payloadLen
      requires off + n <= data.Length && data != headerBuf
      modifies this`payload, this`payloadRead, data
      ensures Valid() && View() == ReadPayload(old(View()), old(data[off..off + n]))
      ensures data[off..off + n] == Unmask(maskKey, old(payloadRead), old(data[off..off + n]))
      ensures forall j | 0 <= j < data.Length && !(off <= j < off + n) :: data[j] == old(data[j])
    {
      for i := 0 to n
        modifies data
        invariant forall j | off <= j < off + i :: data[j] == Xor(old(data[j]), maskKey[(payloadRead + j - off) % 4])
        invariant forall j | 0 <= j < data.Length && !(off <= j < off + i) :: data[j] == old(data[j])
      {
        data[off + i] := Xor(data[off + i], maskKey[(payloadRead + i) % 4]);
      }
      assert data[off..off + n] == Unmask(maskKey, payloadRead, old(data[off..off + n]));
      if !IsControl(opcode) {
        payload := payload + data[off..off + n];
      }
      payloadRead := payloadRead + n;
    }

    method DoPayload(ghost bytes: seq<Byte>, data: array<Byte>, off: nat, len: nat)
      returns (parsed: nat, done: bool, frame: FrameType)
      requires Valid() && inPayload && off + len <= data.Length && data != headerBuf && bytes == data[off..off + len]
      modifies this, data
      ensures Valid() && parsed <= len && (inPayload ==> parsed == len) && (!inPayload ==> headerLen == 0)
      ensures inPayload ==> !Ripe(View())
      ensures parsed == Min(len, old(payloadLen) - old(payloadRead))
      ensures done ==> !inPayload
      ensures !done ==> Continues(old(View()), bytes, View(), parsed)
      ensures done ==> BlockParse(old(View()), bytes) == Parsed(Delivered(frame), View(), parsed)
      ensures forall j | off + parsed <= j < off + len :: data[j] == old(data[j])
    {
      ghost var p := View();
      var remaining := payloadLen - payloadRead;
      parsed := if len < remaining then len else remaining;
      TakePayload(data, off, parsed);
      ghost var q := View();
      PayloadContinues(p, bytes, parsed);
      assert bytes[..parsed] == old(data[off..off + parsed]);
      done, frame := false, Close;
      if payloadRead == payloadLen {
        done, frame := FrameDone();
        RipeContinues(q, bytes[parsed..], if done then Some(frame) else None, View());
        if done {
          ContinuesToEnd(p, bytes, q, parsed, Parsed(Delivered(frame), View(), 0));
        } else {
          ContinuesOn(p, bytes, q, parsed, View(), 0);
        }
      }
    }

    /** One header or payload attempt; `Again` only says that no message is finished yet. */
    method ParseNext(ghost bytes: seq<Byte>, data: array<Byte>, at: nat, end: nat)
      returns (result: Result, parsed: nat, ghost v: Parser)
      requires Valid() && at <= end <= data.Length && data != headerBuf && InBuffer(View(), end - at)
      requires bytes == data[at..end]
      modifies this, headerBuf, data
      ensures Separate() && at + parsed <= end && Reaches(old(View()), bytes, result, v, parsed)
      ensures if result == Violation then v == IDLE else Valid() && View() == v
      ensures result.Delivered? ==> v.phase == InHeader([])
      ensures result == Again ==>
                && InBuffer(v, end - at - parsed)
                && (parsed == 0 ==> if at == end then !Ripe(v) else old(inPayload) && !inPayload)
      ensures data[at + parsed..end] == bytes[parsed..]
    {
      ghost var before := data[..];
      if inPayload {
        var done, frame;
        parsed, done, frame := DoPayload(bytes, data, at, end - at);
        result := if done then Delivered(frame) else Again;
      } else {
        AttemptContinues(View(), bytes);
        AttemptMoves(View(), bytes);
        var ok;
        ok, parsed := DoHeader(bytes, data, at, end - at);
        result := if ok then Again else Violation;
      }
      v := if result == Violation then IDLE else View();
      TailUntouched(before, data[..], at, parsed, end);
    }

    /** Bytes that were not parsed have not been unmasked either. */
    static lemma TailUntouched(before: seq<Byte>, after: seq<Byte>, at: nat, parsed: nat, end: nat)
      requires |before| == |after| && at + parsed <= end <= |before|
      requires forall j :: at + parsed <= j < end ==> after[j] == before[j]
      ensures after[at + parsed..end] == before[at..end][parsed..]
    {
    }

    /**
     Parses up to the end of the next message or control frame. A frame without payload makes no
     byte progress, which is why the state is part of the termination measure.
     */
    method ParseFrames(ghost bytes: seq<Byte>, data: array<Byte>, off: nat, end: nat)
      returns (result: Result, next: nat, ghost v: Parser)
      requires Valid() && off <= end <= data.Length && data != headerBuf && bytes == data[off..end]
      requires !Ripe(View()) && InBuffer(View(), end - off)
      modifies this, headerBuf, data
      ensures Separate() && off <= next <= end && BlockParse(old(View()), bytes) == Parsed(result, v, next - off)
      ensures WellFormed(v) && !Ripe(v)
      ensures if result == Violation then v == IDLE else Valid() && View() == v
      ensures result.Delivered? ==> v.phase == InHeader([])
      ensures data[next..end] == bytes[next - off..]
    {
      ghost var p := View();
      result, next, v := Again, off, p;
      assert bytes[0..] == bytes;
      while true
        invariant Valid() && View() == v && off <= next <= end && InBuffer(v, end - next)
        invariant Continues(p, bytes, v, next - off) && data[next..end] == bytes[next - off..]
        decreases end - next, inPayload
      {
        var before := next;
        result, next, v := Advance(p, bytes, data, off, next, end, v);
        if result == Violation || result.Delivered? {
          return;
        }
        if next == before && next == end {
          NothingLeft(p, bytes, v);
          return;
        }
      }
    }

    method Advance(
      ghost p: Parser, ghost bytes: seq<Byte>, data: array<Byte>, ghost off: nat, at: nat, end: nat, ghost q: Parser)
      returns (result: Result, next: nat, ghost v: Parser)
      requires Valid() && off <= at <= end <= data.Length && data != headerBuf && |bytes| == end - off
      requires q == View() && InBuffer(q, end - at) && Continues(p, bytes, q, at - off)
      requires data[at..end] == bytes[at - off..]
      modifies this, headerBuf, data
      ensures Separate() && at <= next <= end && Reaches(p, bytes, result, v, next - off)
      ensures if result == Violation then v == IDLE else Valid() && View() == v
      ensures result.Delivered? ==> v.phase == InHeader([])
      ensures result == Again ==>
                && InBuffer(v, end - next)
                && (next == at ==> if next == end then !Ripe(v) else old(inPayload) && !inPayload)
      ensures data[next..end] == bytes[next - off..]
    {
      var n;
      result, n, v := ParseNext(bytes[at - off..], data, at, end);
      next := at + n;
      assert bytes[at - off..][n..] == bytes[next - off..];
      assert Reaches(p, bytes, result, v, next - off) by {
        Advances(p, bytes, q, at - off, result, v, n, next - off);
      }
    }
  }

  /** The receiving half of a connection: the parser and the log of what the handler was given. */
  class Receiver {
    const parser: FrameParser
    var delivered: seq<Message>

    constructor ()
      ensures Valid() && fresh(parser) && fresh(parser.headerBuf) && View() == Open(IDLE, [])
    {
      parser := new FrameParser();
      delivered := [];
    }

    ghost predicate Valid()
      reads this, parser, parser.headerBuf
    {
      parser.Valid() && !Ripe(parser.View())
    }

    ghost function View(): Conn
      requires Valid()
      reads this, parser, parser.headerBuf
    {
      Open(parser.View(), delivered)
    }

    /** What the connection has become, by its own account or by the reason given for stopping. */
    ghost function Outcome(stop: Option<Reason>): Conn
      requires stop == None ==> Valid()
      reads this, parser, parser.headerBuf
    {
      if stop == None then View() else Closed(stop.value, delivered)
    }

    /**
     Consumes `len` received bytes; `accepts` is the handler's answer. Returns `None` to go on
     reading, or the reason to stop.
     */
    method Consume(data: array<Byte>, len: nat, accepts: seq<Message> -> bool) returns (stop: Option<Reason>)
      requires Valid() && len <= data.Length && data != parser.headerBuf
      requires InBuffer(parser.View(), len)
      modifies this, parser, parser.headerBuf, data
      ensures stop == None ==> Valid()
      ensures Outcome(stop) == BlockConsume(old(View()), old(data[..len]), accepts)
    {
      ghost var c, bytes := View(), data[..len];
      var off := 0;
      stop := None;
      while off < len && stop == None
        invariant off <= len && (stop == None ==> Valid() && InBuffer(parser.View(), len - off))
        invariant BlockConsume(c, bytes, accepts) == BlockConsume(Outcome(stop), bytes[off..], accepts)
        invariant bytes[off..] == data[off..len]
        decreases len - off, stop == None
      {
        stop, off := ConsumeOne(bytes, data, off, len, accepts);
      }
      assert stop == None ==> bytes[off..] == [];
    }

    method ConsumeOne(ghost bytes: seq<Byte>, data: array<Byte>, off: nat, len: nat, accepts: seq<Message> -> bool)
      returns (stop: Option<Reason>, next: nat)
      requires Valid() && off < len == |bytes| <= data.Length && data != parser.headerBuf
      requires InBuffer(parser.View(), len - off) && bytes[off..] == data[off..len]
      modifies this, parser, parser.headerBuf, data
      ensures off < next <= len && bytes[next..] == data[next..len]
      ensures stop == None ==> Valid() && InBuffer(parser.View(), len - next)
      ensures BlockConsume(old(View()), bytes[off..], accepts) == BlockConsume(Outcome(stop), bytes[next..], accepts)
    {
      ghost var v, rest := View(), bytes[off..];
      ghost var p;
      var result;
      result, next, p := parser.ParseFrames(rest, data, off, len);
      ghost var r := Parsed(result, p, next - off);
      assert rest[r.n..] == bytes[next..];
      assert BlockConsume(v, rest, accepts) ==
             BlockConsume(Deliver(v.delivered, r, accepts), bytes[next..], accepts) by {
        BlockConsumeOnce(v, rest, r, accepts);
      }
      stop := Handle(result, p, r.n, accepts);
    }

    /** Acts on what the parser found; the message vector is cleared once the handler has seen it. */
    method Handle(result: Result, ghost p: Parser, ghost n: nat, accepts: seq<Message> -> bool)
      returns (stop: Option<Reason>)
      requires WellFormed(p) && !Ripe(p) && (result != Violation ==> Valid() && parser.View() == p)
      modifies this`delivered, parser`payload
      ensures stop == None ==> Valid() && parser.View().phase == p.phase
      ensures Outcome(stop) == Deliver(old(delivered), Parsed(result, p, n), accepts)
    {
      match result
      case Again =>
        stop := None;
      case Violation =>
        stop := Some(ProtocolError);
      case Delivered(frame) =>
        stop := None;
        if frame == Close {
          return Some(PeerClosed);
        }
        if frame == Ping || frame == Pong {
          return None;
        }
        delivered := delivered + [Message(frame == Text, parser.payload)];
        parser.payload := [];
        if !accepts(delivered) {
          stop := Some(Rejected);
        }
    }
  }
}
