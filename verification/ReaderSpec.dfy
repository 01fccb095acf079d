/**
 The receive loop of an HTTP connection on values: how parser, buffer indices and requested
 windows go together, and the verdict that a byte stream deserves however it arrives.
 */
module ReaderSpec {
  import opened Bytes
  import opened RequestSpec

  const SMALL_HEADER_LEN: nat := 1024
  const LARGE_HEADER_LEN: nat := 4 * 1024
  const MAX_BODY_LEN: nat := 4 * 1024 * 1024

  datatype Verdict = Complete(request: Request) | Rejected(error: Error)

  /** `held` are the received bytes that the parser has not consumed: `buf[parsed..read]`. */
  datatype Reader =
    | Reading(p: Parser, capacity: nat, parsed: nat, held: Text)
    | Finished(verdict: Verdict)

  function Start(capacity: nat): Reader {
    Reading(START, capacity, 0, [])
  }

  function ReadBytes(r: Reader): nat
    requires r.Reading?
  {
    r.parsed + |r.held|
  }

  /** The length of the requested window; it starts at `read`. */
  function WindowLen(r: Reader): int
    requires r.Reading?
  {
    if HeaderDone(r.p) then r.p.contentLen - |r.held| else r.capacity - ReadBytes(r)
  }

  /** What a receive may deliver: something, within the window, and all of it when a body is awaited. */
  predicate Delivers(r: Reader, chunk: Text) {
    && r.Reading? && Valid(r.p)
    && 0 < |chunk| <= WindowLen(r)
    && (HeaderDone(r.p) ==> |chunk| == WindowLen(r))
  }

  function Handle(c: Codecs, r: Reader, chunk: Text): Reader
    requires Delivers(r, chunk)
  {
    var data := r.held + chunk;
    match Parse(c, r.p, data)
    case Failed(e) => Finished(Rejected(e))
    case Parsed(q, n) =>
      if q.state == Done then Finished(Complete(q.request))
      else Continue(q, r.capacity, r.parsed + n, data[n..])
  }

  /** The request is not complete: make room and ask for more, or give up. */
  function Continue(q: Parser, capacity: nat, parsed: nat, held: Text): Reader {
    if !HeaderDone(q) then
      if parsed + |held| != capacity then Reading(q, capacity, parsed, held)
      else if capacity < LARGE_HEADER_LEN then Reading(q, LARGE_HEADER_LEN, parsed, held)
      else Finished(Rejected(FIELDS_TOO_LARGE))
    else if q.contentLen > MAX_BODY_LEN then Finished(Rejected(PAYLOAD_TOO_LARGE))
    else if parsed + q.contentLen > capacity then Reading(q, Max(capacity, q.contentLen), 0, held)
    else Reading(q, capacity, parsed, held)
  }

  // ---------- The verdict on a stream ----------

  /** How many bytes the header section may take in a buffer that starts with `capacity` bytes. */
  function Limit(capacity: nat): nat {
    Max(capacity, LARGE_HEADER_LEN)
  }

  function Head(stream: Text, limit: nat): Text {
    stream[..Min(limit, |stream|)]
  }

  /** What to answer to `stream`, or `None` while that is still open; it does not mention chunks. */
  function Judge(c: Codecs, stream: Text, limit: nat): Option<Verdict> {
    match Parse(c, START, Head(stream, limit))
    case Failed(e) => Some(Rejected(e))
    case Parsed(p, _) =>
      if p.state == Done then Some(Complete(p.request))
      else if !HeaderDone(p) then
        if limit <= |stream| then Some(Rejected(FIELDS_TOO_LARGE)) else None
      else if p.contentLen > MAX_BODY_LEN then Some(Rejected(PAYLOAD_TOO_LARGE))
      else
        match Parse(c, START, stream)
        case Failed(e) => Some(Rejected(e))
        case Parsed(p', _) => if p'.state == Done then Some(Complete(p'.request)) else None
  }

  /** The two limits: 4096 bytes of header section, or a larger first buffer, and 4194304 bytes of body. */
  lemma SizeLimits(c: Codecs, stream: Text, initial: nat)
    ensures var n := if initial < 4096 then 4096 else initial;
            n <= |stream| ==>
              var r := Parse(c, START, stream[..n]);
              && (r.Parsed? && r.p.state != InBody && r.p.state != Done ==>
                    Judge(c, stream, Limit(initial)) == Some(Rejected(Http(431))))
              && (r.Parsed? && r.p.state == InBody && 4194304 < r.p.contentLen ==>
                    Judge(c, stream, Limit(initial)) == Some(Rejected(Http(413))))
  {
    hide Parse;
  }

  lemma DoneStays(c: Codecs, p: Parser, data: Text)
    requires p.state == Done
    ensures Parse(c, p, data) == Parsed(p, 0)
  {
  }

  /** A parser that waits for the body changes in one way only: it finishes. */
  lemma BodyWaits(c: Codecs, p: Parser, data: Text)
    requires p.state == InBody && Valid(p)
    ensures |data| < p.contentLen ==> Parse(c, p, data) == Parsed(p, 0)
    ensures p.contentLen <= |data| ==>
              var r := Parse(c, p, data);
              r.Failed? || (r.p.state == Done && r.n == p.contentLen)
  {
  }

  /** An error or a finished request stays what it is when more bytes follow. */
  lemma DecisionStays(c: Codecs, a: Text, b: Text)
    ensures Parse(c, START, a).Failed? ==> Parse(c, START, a + b) == Parse(c, START, a)
    ensures Parse(c, START, a).Parsed? && Parse(c, START, a).p.state == Done ==>
              Parse(c, START, a + b) == Parse(c, START, a)
  {
    ParseResumes(c, START, a, b);
    var r := Parse(c, START, a);
    if r.Parsed? && r.p.state == Done {
      DoneStays(c, r.p, a[r.n..] + b);
    }
  }

  /** While a body is awaited, more bytes keep the parser as it is or finish the request. */
  lemma BodyStays(c: Codecs, a: Text, b: Text)
    requires Parse(c, START, a).Parsed? && Parse(c, START, a).p.state == InBody
    ensures var p, r := Parse(c, START, a).p, Parse(c, START, a + b);
            r.Failed? || r.p.state == Done || r.p == p
    ensures |a + b| < Parse(c, START, a).p.contentLen ==>
              Parse(c, START, a + b).Parsed? && Parse(c, START, a + b).p == Parse(c, START, a).p
  {
    ParseResumes(c, START, a, b);
    var r := Parse(c, START, a);
    BodyWaits(c, r.p, a[r.n..] + b);
  }

  /** What the reader knows about the stream received so far. */
  ghost predicate Inv(c: Codecs, initial: nat, r: Reader, stream: Text) {
    match r
    case Finished(v) => Judge(c, stream, Limit(initial)) == Some(v)
    case Reading(p, capacity, parsed, held) =>
      && Valid(p) && p.state != Done
      && capacity <= MAX_BODY_LEN
      && FeedBytes(c, Live(START, []), stream) == Live(p, held)
      && (!HeaderDone(p) ==> ReadBytes(r) == |stream| < capacity && initial <= capacity <= Limit(initial))
      && (HeaderDone(p) ==>
            && |held| < p.contentLen <= MAX_BODY_LEN && parsed + p.contentLen <= capacity
            && Limit(capacity) == Max(Limit(initial), p.contentLen)
            && |held| <= |stream|
            && exists k: nat :: HeaderEndsBy(c, stream, k, Limit(initial)))
  }

  ghost predicate HeaderEndsBy(c: Codecs, stream: Text, k: nat, limit: nat) {
    && k <= |stream| && k <= limit
    && Parse(c, START, stream[..k]).Parsed? && Parse(c, START, stream[..k]).p.state == InBody
  }

  // ---------- Every step keeps it ----------

  lemma {:induction false} ShortBodyLeft(c: Codecs, p: Parser, data: Text)
    requires Valid(p)
    ensures var r := Parse(c, p, data);
            r.Parsed? && r.p.state == InBody ==> |data| - r.n < r.p.contentLen
    decreases |data|
  {
    if data != [] {
      var a := ParseNext(c, p, data);
      if a.Advance? && a.p.state != Done {
        ShortBodyLeft(c, a.p, data[a.n..]);
      }
    }
  }

  /** The judgement once the header section has ended in time. */
  lemma JudgeInBody(c: Codecs, stream: Text, k: nat, limit: nat)
    requires HeaderEndsBy(c, stream, k, limit) && Parse(c, START, stream[..k]).p.contentLen <= MAX_BODY_LEN
    ensures Judge(c, stream, limit) ==
      match Parse(c, START, stream)
      case Failed(e) => Some(Rejected(e))
      case Parsed(p, _) => if p.state == Done then Some(Complete(p.request)) else None
  {
    hide Parse;
    var head, p := Head(stream, limit), Parse(c, START, stream[..k]).p;
    var h, r := Parse(c, START, head), Parse(c, START, stream);
    assert h.Failed? || h.p.state == Done || h.p == p by {
      assert head == stream[..k] + head[k..];
      BodyStays(c, stream[..k], head[k..]);
    }
    assert h.Failed? || h.p.state == Done ==> r == h by {
      assert stream == head + stream[|head|..];
      DecisionStays(c, head, stream[|head|..]);
    }
  }

  lemma HeaderPhaseStep(c: Codecs, initial: nat, r: Reader, stream: Text, chunk: Text)
    requires 0 < initial <= MAX_BODY_LEN && Inv(c, initial, r, stream) && Delivers(r, chunk) && !HeaderDone(r.p)
    requires FeedBytes(c, Live(START, []), stream + chunk) == ToFeed(r.held + chunk, Parse(c, r.p, r.held + chunk))
    ensures Inv(c, initial, Handle(c, r, chunk), stream + chunk)
  {
    hide Parse;
    var all, data := stream + chunk, r.held + chunk;
    assert [] + all == all && Head(all, Limit(initial)) == all && all[..|all|] == all;
    ShortBodyLeft(c, r.p, data);
    var s := Parse(c, r.p, data);
    if s.Parsed? && s.p.state == InBody {
      assert HeaderEndsBy(c, all, |all|, Limit(initial));
    }
  }

  lemma BodyPhaseStep(c: Codecs, initial: nat, r: Reader, stream: Text, chunk: Text)
    requires Inv(c, initial, r, stream) && Delivers(r, chunk) && HeaderDone(r.p)
    requires FeedBytes(c, Live(START, []), stream + chunk) == ToFeed(r.held + chunk, Parse(c, r.p, r.held + chunk))
    ensures Inv(c, initial, Handle(c, r, chunk), stream + chunk)
    ensures Handle(c, r, chunk).Finished?
  {
    var all, limit := stream + chunk, Limit(initial);
    assert [] + all == all;
    var k: nat :| HeaderEndsBy(c, stream, k, limit);
    BodyParserKnown(c, initial, r, stream, k);
    HeaderEndStays(c, stream, chunk, k, limit);
    JudgeInBody(c, all, k, limit);
    BodyWaits(c, r.p, r.held + chunk);
  }

  lemma HeaderEndStays(c: Codecs, stream: Text, chunk: Text, k: nat, limit: nat)
    requires HeaderEndsBy(c, stream, k, limit)
    ensures HeaderEndsBy(c, stream + chunk, k, limit) && (stream + chunk)[..k] == stream[..k]
  {
    assert (stream + chunk)[..k] == stream[..k];
  }

  /** The parser that waits for a body is the one that the end of the header section left. */
  lemma BodyParserKnown(c: Codecs, initial: nat, r: Reader, stream: Text, k: nat)
    requires Inv(c, initial, r, stream) && r.Reading? && HeaderDone(r.p) && HeaderEndsBy(c, stream, k, Limit(initial))
    ensures Parse(c, START, stream[..k]).p == r.p
  {
    hide Parse, Judge, Limit;
    assert [] + stream == stream;
    assert stream == stream[..k] + stream[k..];
    BodyStays(c, stream[..k], stream[k..]);
  }

  /** A request moves to the front of the buffer, which grows if it must, only to make room for its body. */
  lemma MovesToMakeRoom(c: Codecs, r: Reader, chunk: Text)
    requires Delivers(r, chunk)
    ensures var parsed, u := Parse(c, r.p, r.held + chunk), Handle(c, r, chunk);
            u.Reading? && HeaderDone(u.p) ==>
              var at := r.parsed + parsed.n;
              && u.parsed == (if at + u.p.contentLen <= r.capacity then at else 0)
              && u.capacity == (if r.capacity < u.p.contentLen then u.p.contentLen else r.capacity)
              && u.held == (r.held + chunk)[parsed.n..]
  {
    hide Parse;
  }

  /** Windows stay nonempty and inside the buffer, indices stay in step with the stream, verdicts are the stream's. */
  lemma HandleKeepsInv(c: Codecs, initial: nat, r: Reader, stream: Text, chunk: Text)
    requires 0 < initial <= MAX_BODY_LEN && Inv(c, initial, r, stream) && Delivers(r, chunk)
    ensures Inv(c, initial, Handle(c, r, chunk), stream + chunk)
  {
    FeedTwice(c, Live(START, []), stream, chunk);
    if HeaderDone(r.p) {
      BodyPhaseStep(c, initial, r, stream, chunk);
    } else {
      HeaderPhaseStep(c, initial, r, stream, chunk);
    }
  }

  /** Every window is nonempty and ends inside the buffer; a body window ends exactly with the body. */
  lemma WindowInBuffer(c: Codecs, initial: nat, r: Reader, stream: Text)
    requires Inv(c, initial, r, stream) && r.Reading?
    ensures 0 < WindowLen(r) && ReadBytes(r) + WindowLen(r) <= r.capacity
    ensures HeaderDone(r.p) ==> |r.held| + WindowLen(r) == r.p.contentLen
    ensures |r.held| <= |stream| && r.held == stream[|stream| - |r.held|..]
  {
    assert [] + stream == stream;
  }

  /** While the reader asks for more, the verdict on the stream is open. */
  lemma StillOpen(c: Codecs, initial: nat, r: Reader, stream: Text)
    requires Inv(c, initial, r, stream) && r.Reading?
    ensures Judge(c, stream, Limit(initial)) == None
  {
    assert [] + stream == stream && Head(stream, |stream|) == stream;
    if HeaderDone(r.p) {
      var k: nat :| HeaderEndsBy(c, stream, k, Limit(initial));
      BodyParserKnown(c, initial, r, stream, k);
      JudgeInBody(c, stream, k, Limit(initial));
    } else {
      assert Head(stream, Limit(initial)) == stream;
    }
  }

  // ---------- Runs ----------

  predicate IsRun(c: Codecs, r: Reader, chunks: seq<Text>)
    decreases |chunks|
  {
    chunks == [] || (Delivers(r, chunks[0]) && IsRun(c, Handle(c, r, chunks[0]), chunks[1..]))
  }

  function Run(c: Codecs, r: Reader, chunks: seq<Text>): Reader
    requires IsRun(c, r, chunks)
    decreases |chunks|
  {
    if chunks == [] then r else Run(c, Handle(c, r, chunks[0]), chunks[1..])
  }

  lemma {:induction false} RunKeepsInv(c: Codecs, initial: nat, r: Reader, stream: Text, chunks: seq<Text>)
    requires 0 < initial <= MAX_BODY_LEN && Inv(c, initial, r, stream) && IsRun(c, r, chunks)
    ensures Inv(c, initial, Run(c, r, chunks), stream + Concat(chunks))
    decreases |chunks|
  {
    if chunks == [] {
      assert stream + Concat(chunks) == stream;
    } else {
      var next, received := Handle(c, r, chunks[0]), stream + chunks[0];
      assert Inv(c, initial, next, received) by {
        HandleKeepsInv(c, initial, r, stream, chunks[0]);
      }
      RunKeepsInv(c, initial, next, received, chunks[1..]);
      Associate(stream, chunks[0], Concat(chunks[1..]));
    }
  }

  /** After any run the answer is given exactly when the stream has a verdict, and it is that verdict. */
  lemma AnswerIsJudgement(c: Codecs, initial: nat, chunks: seq<Text>)
    requires 0 < initial <= MAX_BODY_LEN && IsRun(c, Start(initial), chunks)
    ensures match Run(c, Start(initial), chunks)
            case Finished(v) => Judge(c, Concat(chunks), Limit(initial)) == Some(v)
            case Reading(_, _, _, _) => Judge(c, Concat(chunks), Limit(initial)) == None
  {
    RunKeepsInv(c, initial, Start(initial), [], chunks);
    assert [] + Concat(chunks) == Concat(chunks);
    var r := Run(c, Start(initial), chunks);
    if r.Reading? {
      StillOpen(c, initial, r, Concat(chunks));
    }
  }

  /** A verdict is final: more bytes do not change it. */
  lemma JudgementStays(c: Codecs, a: Text, b: Text, limit: nat)
    requires limit <= MAX_BODY_LEN && Judge(c, a, limit).Some?
    ensures Judge(c, a + b, limit) == Judge(c, a, limit)
  {
    var head, head' := Head(a, limit), Head(a + b, limit);
    assert head' == head + head'[|head|..];
    DecisionStays(c, head, head'[|head|..]);
    DecisionStays(c, a, b);
    if limit <= |a| {
      assert head' == head;
    } else {
      assert head == a;
      var r := Parse(c, START, a);
      if r.Parsed? && r.p.state == InBody {
        BodyStays(c, a, head'[|head|..]);
      }
    }
  }

  /** However the network cuts the same stream, every connection that gets an answer gets the same one. */
  lemma RunsAgree(c: Codecs, initial: nat, stream: Text, chunks: seq<Text>, chunks': seq<Text>)
    requires 0 < initial <= MAX_BODY_LEN
    requires IsRun(c, Start(initial), chunks) && IsRun(c, Start(initial), chunks')
    requires Concat(chunks) <= stream && Concat(chunks') <= stream
    requires Run(c, Start(initial), chunks).Finished? && Run(c, Start(initial), chunks').Finished?
    ensures Run(c, Start(initial), chunks) == Run(c, Start(initial), chunks')
  {
    AnswerIsJudgement(c, initial, chunks);
    AnswerIsJudgement(c, initial, chunks');
    var a, a' := Concat(chunks), Concat(chunks');
    assert stream == a + stream[|a|..] && stream == a' + stream[|a'|..];
    JudgementStays(c, a, stream[|a|..], Limit(initial));
    JudgementStays(c, a', stream[|a'|..], Limit(initial));
  }
}
