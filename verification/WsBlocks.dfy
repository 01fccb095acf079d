/**
 The frame parser as it takes a chunk, on values. Its header attempt asks for two bytes, and then
 for the rest of the header, whatever it holds already. All other attempts agree with the
 byte-wise parser of `WsStream`, so a chunk is one header attempt and then byte-wise parsing.
 */
module WsBlocks {
  import opened Bytes
  import opened WsFrame
  import opened WsStream

  const HEADER_BUF_LEN: nat := 14

  /** The difference of two `size_t` values, which has no sign. */
  function Difference(a: nat, b: nat): nat {
    if b <= a then a - b else if b - a <= SIZE_LIMIT then a + SIZE_LIMIT - b else 0
  }

  lemma DifferenceWraps(a: nat, b: nat)
    requires a < SIZE_LIMIT && b < SIZE_LIMIT
    ensures Difference(a, b) == (a - b) % SIZE_LIMIT
  {
  }

  /** How many of `len` bytes go into the header buffer. */
  function FillCount(headerLen: nat, needed: nat, len: nat): nat {
    Min(len, Difference(needed, headerLen))
  }

  /** One header attempt: `Again` when the header is finished or unfinished, the parser says which. */
  function HeaderAttempt(p: Parser, bytes: seq<Byte>): (r: Parsed)
    requires WellFormed(p) && p.phase.InHeader?
    ensures r.n <= |bytes| && r.result in {Again, Violation} && WellFormed(r.p)
    ensures r.p.phase.InHeader? ==> r.result == Violation || r.n == |bytes|
  {
    var buf := p.phase.buf;
    var first := FillCount(|buf|, 2, |bytes|);
    var h := buf + bytes[..first];
    if |h| < 2 then Parsed(Again, p.(phase := InHeader(h)), first)
    else if !BaseHeaderOk(h, p.messageOpcode) then Parsed(Violation, IDLE, first)
    else RestAttempt(p, bytes, first, h)
  }

  /** The second half of the attempt: the first `first` bytes of the chunk have made the buffer `h`. */
  function RestAttempt(p: Parser, bytes: seq<Byte>, first: nat, h: seq<Byte>): (r: Parsed)
    requires WellFormed(p) && p.phase.InHeader? && first <= |bytes|
    requires h == p.phase.buf + bytes[..first] && 2 <= |h| && BaseHeaderOk(h, p.messageOpcode)
    ensures r.n <= |bytes| && r.result in {Again, Violation} && WellFormed(r.p)
    ensures r.p.phase.InHeader? ==> r.result == Violation || r.n == |bytes|
  {
    var n := first + FillCount(|h|, Needed(h), |bytes| - first);
    var whole := p.phase.buf + bytes[..n];
    FirstBytesDecide(h, whole, p.messageOpcode);
    if |whole| < Needed(h) then Parsed(Again, p.(phase := InHeader(whole)), n)
    else Finished(p, whole[..Needed(h)], n)
  }

  /** A complete header opens the payload or is refused. */
  function Finished(p: Parser, h: seq<Byte>, n: nat): Parsed
    requires 2 <= |h| && |h| == Needed(h)
  {
    match FinishHeader(p, h)
    case None => Parsed(Violation, IDLE, n)
    case Some(q) => Parsed(Again, q, n)
  }

  /** ... by the bytes that are in the buffer afterwards. */
  lemma RestIs(p: Parser, bytes: seq<Byte>, first: nat, h: seq<Byte>, whole: seq<Byte>, n: nat)
    requires WellFormed(p) && p.phase.InHeader? && first <= n <= |bytes|
    requires h == p.phase.buf + bytes[..first] && 2 <= |h| && BaseHeaderOk(h, p.messageOpcode)
    requires n == first + FillCount(|h|, Needed(h), |bytes| - first) && whole == p.phase.buf + bytes[..n]
    ensures 2 <= |whole| && Needed(whole) == Needed(h)
    ensures |whole| < Needed(h) ==> RestAttempt(p, bytes, first, h) == Parsed(Again, p.(phase := InHeader(whole)), n)
    ensures Needed(h) <= |whole| ==>
              && Needed(whole[..Needed(h)]) == Needed(h)
              && RestAttempt(p, bytes, first, h) == Finished(p, whole[..Needed(h)], n)
  {
    FirstBytesDecide(h, whole, p.messageOpcode);
  }

  /** The first two bytes decide whether a header is valid and how long it is. */
  lemma FirstBytesDecide(h: seq<Byte>, longer: seq<Byte>, messageOpcode: nat)
    requires 2 <= |h| && h <= longer
    ensures BaseHeaderOk(longer, messageOpcode) == BaseHeaderOk(h, messageOpcode) && Needed(longer) == Needed(h)
  {
  }

  /** A chunk, read up to the end of the next message or control frame. */
  function BlockParse(p: Parser, bytes: seq<Byte>): (r: Parsed)
    requires WellFormed(p)
    ensures WellFormed(r.p) && !Ripe(r.p) && r.n <= |bytes|
    ensures r.result == Again ==> r.n == |bytes|
    ensures !Ripe(p) && bytes != [] ==> 0 < r.n
  {
    if p.phase.InPayload? then Parse(p, bytes)
    else
      var r := HeaderAttempt(p, bytes);
      if r.result == Violation then r else Parse(r.p, bytes[r.n..]).After(r.n)
  }

  function BlockConsume(c: Conn, bytes: seq<Byte>, accepts: seq<Message> -> bool): (r: Conn)
    requires AtRest(c)
    ensures AtRest(r)
  {
    if c.Closed? || bytes == [] then c
    else
      var r := BlockParse(c.p, bytes);
      Consume(Deliver(c.delivered, r, accepts), bytes[r.n..], accepts)
  }

  function BlockConsumeChunks(c: Conn, chunks: seq<seq<Byte>>, accepts: seq<Message> -> bool): (r: Conn)
    requires AtRest(c)
    ensures AtRest(r)
    decreases |chunks|
  {
    if chunks == [] then c else BlockConsumeChunks(BlockConsume(c, chunks[0], accepts), chunks[1..], accepts)
  }

  // ---------- Staying inside the header buffer ----------

  /** Where the header attempt stops writing. */
  function HeaderEnd(p: Parser, bytes: seq<Byte>): nat
    requires WellFormed(p) && p.phase.InHeader?
  {
    |p.phase.buf| + HeaderAttempt(p, bytes).n
  }

  predicate InBuffer(p: Parser, len: nat) {
    p.phase.InHeader? && 2 < |p.phase.buf| ==> |p.phase.buf| + len <= HEADER_BUF_LEN
  }

  /** The attempt stays inside the buffer exactly when at most two bytes were there or the chunk fits behind them. */
  lemma InBufferExact(p: Parser, bytes: seq<Byte>)
    requires WellFormed(p) && p.phase.InHeader? && |bytes| <= SIZE_LIMIT - HEADER_BUF_LEN
    ensures HeaderEnd(p, bytes) <= HEADER_BUF_LEN <==> InBuffer(p, |bytes|)
  {
    AttemptTakes(p, bytes);
  }

  /** A resumption that is exact: with more than 2 header bytes buffered, no byte may follow the header. */
  predicate ResumeOk(p: Parser, len: nat) {
    p.phase.InHeader? && 2 < |p.phase.buf| ==> |p.phase.buf| + len <= Needed(p.phase.buf)
  }

  /** What the attempt takes: with more than two bytes buffered everything, otherwise no more than the header needs. */
  lemma AttemptTakes(p: Parser, bytes: seq<Byte>)
    requires WellFormed(p) && p.phase.InHeader? && |bytes| <= SIZE_LIMIT - HEADER_BUF_LEN
    ensures 2 < |p.phase.buf| ==> HeaderAttempt(p, bytes).n == |bytes|
    ensures |p.phase.buf| <= 2 ==> HeaderEnd(p, bytes) <= HEADER_BUF_LEN
  {
    if 2 < |p.phase.buf| {
      assert FillCount(|p.phase.buf|, 2, |bytes|) == |bytes|;
    }
  }

  // ---------- Agreeing with the byte-wise parser ----------

  /** Exactly the header bytes that were missing are taken, as far as they came. */
  predicate TakesHeader(p: Parser, bytes: seq<Byte>, r: Parsed)
    requires WellFormed(p) && p.phase.InHeader? && r.n <= |bytes|
  {
    var h := p.phase.buf + bytes[..r.n];
    if Pending(h, p.messageOpcode) then r == Parsed(Again, p.(phase := InHeader(h)), |bytes|)
    else
      && 0 < r.n && 2 <= |h|
      && if !BaseHeaderOk(h, p.messageOpcode) then |h| == 2 && r == Parsed(Violation, IDLE, r.n)
         else
           && |h| == Needed(h)
           && match FinishHeader(p, h)
              case None => r == Parsed(Violation, IDLE, r.n)
              case Some(q) => r == Parsed(Again, q, r.n)
  }

  lemma AttemptExact(p: Parser, bytes: seq<Byte>)
    requires WellFormed(p) && p.phase.InHeader? && ResumeOk(p, |bytes|)
    ensures TakesHeader(p, bytes, HeaderAttempt(p, bytes))
  {
    var buf := p.phase.buf;
    var first := if 2 < |buf| then |bytes| else Min(|bytes|, 2 - |buf|);
    assert FillCount(|buf|, 2, |bytes|) == first;
    var h := buf + bytes[..first];
    if 2 <= |h| && BaseHeaderOk(h, p.messageOpcode) {
      if 2 < |buf| {
        FirstBytesDecide(buf, h, p.messageOpcode);
      }
      RestExact(p, bytes, first, h);
    }
  }

  lemma RestExact(p: Parser, bytes: seq<Byte>, first: nat, h: seq<Byte>)
    requires WellFormed(p) && p.phase.InHeader? && first <= |bytes|
    requires h == p.phase.buf + bytes[..first] && 2 <= |h| && BaseHeaderOk(h, p.messageOpcode) && |h| <= Needed(h)
    ensures TakesHeader(p, bytes, RestAttempt(p, bytes, first, h))
  {
    var n := first + Min(|bytes| - first, Needed(h) - |h|);
    var whole := p.phase.buf + bytes[..n];
    FirstBytesDecide(h, whole, p.messageOpcode);
    assert |whole| == Needed(h) ==> whole[..Needed(h)] == whole;
  }

  lemma TakenHeaderParses(p: Parser, bytes: seq<Byte>, r: Parsed)
    requires WellFormed(p) && p.phase.InHeader? && WellFormed(r.p) && r.n <= |bytes| && TakesHeader(p, bytes, r)
    ensures Parse(p, bytes) == if r.result == Violation then r else Parse(r.p, bytes[r.n..]).After(r.n)
  {
    var a, rest := bytes[..r.n], bytes[r.n..];
    var h := p.phase.buf + a;
    assert bytes == a + rest;
    if Pending(h, p.messageOpcode) {
      HeaderBytesCollect(p, a, rest);
    } else if BaseHeaderOk(h, p.messageOpcode) {
      HeaderCompletes(p, a, rest);
    } else {
      BadHeaderStops(p, a, rest);
    }
  }

  lemma BlockIsBytewise(p: Parser, bytes: seq<Byte>)
    requires WellFormed(p) && ResumeOk(p, |bytes|)
    ensures BlockParse(p, bytes) == Parse(p, bytes)
  {
    if p.phase.InHeader? {
      AttemptExact(p, bytes);
      TakenHeaderParses(p, bytes, HeaderAttempt(p, bytes));
    }
  }

  lemma BlockConsumeIsBytewise(c: Conn, bytes: seq<Byte>, accepts: seq<Message> -> bool)
    requires AtRest(c) && (c.Open? ==> ResumeOk(c.p, |bytes|))
    ensures BlockConsume(c, bytes, accepts) == Consume(c, bytes, accepts)
  {
    if c.Open? {
      BlockIsBytewise(c.p, bytes);
    }
  }

  /** Parsing stops at the start of a header, unless the chunk is used up. */
  lemma BlockConsumeOnce(c: Conn, bytes: seq<Byte>, r: Parsed, accepts: seq<Message> -> bool)
    requires AtRest(c) && c.Open? && bytes != [] && r == BlockParse(c.p, bytes)
    requires r.result.Delivered? ==> r.p.phase == InHeader([])
    ensures BlockConsume(c, bytes, accepts) == BlockConsume(Deliver(c.delivered, r, accepts), bytes[r.n..], accepts)
  {
    BlockConsumeIsBytewise(Deliver(c.delivered, r, accepts), bytes[r.n..], accepts);
  }
}
