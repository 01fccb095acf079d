/**
 A whole connection on values: requests are received and answered one after the other, and the
 reader starts over after each answer. What the stream as a whole deserves is compared with it.
 */
module SessionSpec {
  import opened Bytes
  import opened RequestSpec
  import opened ReaderSpec
  import W = RequestRoundTrip

  /** `base` is the size that the buffer had when the request under way began. */
  datatype Session =
    | Serving(r: Reader, base: nat, answers: seq<Verdict>)
    | Closed(answers: seq<Verdict>)

  function Begin(capacity: nat, answers: seq<Verdict>): Session {
    Serving(Start(capacity), capacity, answers)
  }

  /** What a receive may deliver. */
  predicate Takes(s: Session, chunk: Text) {
    s.Serving? && Delivers(s.r, chunk)
  }

  /**
   One receive. After an answer the connection is closed, or the reader starts over in the same
   buffer, whatever else it holds; `keeps` says which, given all answers so far.
   */
  function Receive(c: Codecs, keeps: seq<Verdict> -> bool, s: Session, chunk: Text): Session
    requires Takes(s, chunk)
  {
    match Handle(c, s.r, chunk)
    case Finished(v) =>
      var all := s.answers + [v];
      if keeps(all) then Begin(s.r.capacity, all) else Closed(all)
    case r => s.(r := r)
  }

  // ---------- What a stream deserves ----------

  /** The least number of bytes, from `i` on, that settle the request at the front of `stream`. */
  function DueFrom(c: Codecs, stream: Text, limit: nat, i: nat): (n: Option<nat>)
    requires i <= |stream|
    ensures match n
            case None => forall m :: i <= m <= |stream| ==> Judge(c, stream[..m], limit).None?
            case Some(n) =>
              && i <= n <= |stream| && Judge(c, stream[..n], limit).Some?
              && forall m :: i <= m < n ==> Judge(c, stream[..m], limit).None?
    decreases |stream| - i
  {
    if Judge(c, stream[..i], limit).Some? then Some(i)
    else if i == |stream| then None
    else DueFrom(c, stream, limit, i + 1)
  }

  function Due(c: Codecs, stream: Text, limit: nat): Option<nat> {
    DueFrom(c, stream, limit, 0)
  }

  /** A body that was waited for may have enlarged the buffer, and with it the limit on the next header section. */
  function NextLimit(c: Codecs, request: Text, limit: nat): nat
    requires request != []
  {
    match Parse(c, START, request[..|request| - 1])
    case Parsed(p, _) => if p.state == InBody then Max(limit, p.contentLen) else limit
    case Failed(_) => limit
  }

  datatype Ideal =
    | Waiting(answers: seq<Verdict>, limit: nat, pending: Text)
    | Over(answers: seq<Verdict>)

  lemma NothingIsDue(c: Codecs, limit: nat)
    requires 0 < limit
    ensures Judge(c, [], limit) == None
  {
    assert ReaderSpec.Head([], limit) == [];
  }

  /** The answers to a stream that is cut where its requests end. It does not mention chunks. */
  function JudgeAll(c: Codecs, keeps: seq<Verdict> -> bool, limit: nat, answers: seq<Verdict>, stream: Text): Ideal
    requires 0 < limit
    decreases |stream|
  {
    match Due(c, stream, limit)
    case None => Waiting(answers, limit, stream)
    case Some(n) =>
      NothingIsDue(c, limit);
      assert stream[..0] == [];
      var request := stream[..n];
      var all := answers + [Judge(c, request, limit).value];
      if keeps(all) then JudgeAll(c, keeps, NextLimit(c, request, limit), all, stream[n..]) else Over(all)
  }

  lemma DueStays(c: Codecs, a: Text, b: Text, limit: nat)
    requires Due(c, a, limit).Some?
    ensures Due(c, a + b, limit) == Due(c, a, limit)
  {
    var n := Due(c, a, limit).value;
    forall m | 0 <= m <= n ensures (a + b)[..m] == a[..m] {
    }
  }

  /** More bytes are judged together with the pending ones. */
  lemma {:induction false} JudgeAllGrows(
    c: Codecs, keeps: seq<Verdict> -> bool, limit: nat, answers: seq<Verdict>, a: Text, b: Text)
    requires 0 < limit
    ensures match JudgeAll(c, keeps, limit, answers, a)
            case Over(all) => JudgeAll(c, keeps, limit, answers, a + b) == Over(all)
            case Waiting(all, l, pending) =>
              && 0 < l && Due(c, pending, l) == None
              && JudgeAll(c, keeps, limit, answers, a + b) == JudgeAll(c, keeps, l, all, pending + b)
    decreases |a|
  {
    if Due(c, a, limit).Some? {
      NothingIsDue(c, limit);
      DueStays(c, a, b, limit);
      var n := Due(c, a, limit).value;
      assert a[..0] == [];
      assert (a + b)[..n] == a[..n] && (a + b)[n..] == a[n..] + b;
      var all := answers + [Judge(c, a[..n], limit).value];
      if keeps(all) {
        JudgeAllGrows(c, keeps, NextLimit(c, a[..n], limit), all, a[n..], b);
      }
    }
  }

  // ---------- In step with the stream ----------

  /** The connection has given the answers that are due and holds exactly the bytes that are pending. */
  ghost predicate InStep(c: Codecs, s: Session, ideal: Ideal) {
    match ideal
    case Over(all) => s == Closed(all)
    case Waiting(all, limit, pending) =>
      && s.Serving? && s.answers == all && 0 < s.base <= MAX_BODY_LEN && limit == Limit(s.base)
      && Inv(c, s.base, s.r, pending)
  }

  /** The bytes reach past the end of a request after which the connection is kept. */
  predicate Overshoots(c: Codecs, keeps: seq<Verdict> -> bool, ideal: Ideal, chunk: Text) {
    ideal.Waiting? &&
    var stream := ideal.pending + chunk;
    match Due(c, stream, ideal.limit)
    case None => false
    case Some(n) => n < |stream| && keeps(ideal.answers + [Judge(c, stream[..n], ideal.limit).value])
  }

  /** While a body is incomplete nothing is due. */
  lemma BodyStaysOpen(c: Codecs, base: nat, r: Reader, pending: Text, part: Text)
    requires Inv(c, base, r, pending) && r.Reading? && HeaderDone(r.p) && |r.held| + |part| < r.p.contentLen
    ensures Judge(c, pending + part, Limit(base)) == None
    ensures Parse(c, START, pending + part).Parsed? && Parse(c, START, pending + part).p == r.p
  {
    var all, limit := pending + part, Limit(base);
    assert [] + pending == pending;
    ParseResumes(c, START, pending, part);
    BodyWaits(c, r.p, r.held + part);
    var k: nat :| HeaderEndsBy(c, pending, k, limit);
    BodyParserKnown(c, base, r, pending, k);
    HeaderEndStays(c, pending, part, k, limit);
    JudgeInBody(c, all, k, limit);
  }

  /** A verdict that comes with the last byte of a body comes with all of the body. */
  lemma BodyIsWithin(c: Codecs, a: Text, b: Byte, limit: nat)
    requires |a| <= limit && Judge(c, a, limit) == None && Judge(c, a + [b], limit).Some?
    requires Parse(c, START, a).Parsed? && Parse(c, START, a).p.state == InBody
    ensures Parse(c, START, a).p.contentLen <= |a| + 1
  {
    var r := Parse(c, START, a);
    assert ReaderSpec.Head(a, limit) == a;
    assert a[..|a|] == a == (a + [b])[..|a|];
    assert HeaderEndsBy(c, a + [b], |a|, limit);
    JudgeInBody(c, a + [b], |a|, limit);
    ParseResumes(c, START, a, [b]);
    BodyWaits(c, r.p, a[r.n..] + [b]);
  }

  /** An earlier verdict would still be the verdict. */
  lemma NothingDue(c: Codecs, stream: Text, limit: nat)
    requires limit <= MAX_BODY_LEN && Judge(c, stream, limit) == None
    ensures Due(c, stream, limit) == None
  {
    forall m | 0 <= m <= |stream| ensures Judge(c, stream[..m], limit).None? {
      if Judge(c, stream[..m], limit).Some? {
        assert stream == stream[..m] + stream[m..];
        JudgementStays(c, stream[..m], stream[m..], limit);
      }
    }
  }

  /** What is due is the verdict, and not before it is. */
  lemma SomethingDue(c: Codecs, stream: Text, limit: nat)
    requires 0 < limit <= MAX_BODY_LEN && Judge(c, stream, limit).Some?
    ensures var n := Due(c, stream, limit);
            && n.Some? && 0 < n.value <= |stream|
            && Judge(c, stream[..n.value], limit) == Judge(c, stream, limit)
            && Judge(c, stream[..n.value - 1], limit) == None
  {
    assert stream[..|stream|] == stream;
    NothingIsDue(c, limit);
    assert stream[..0] == [];
    var n := Due(c, stream, limit).value;
    assert stream == stream[..n] + stream[n..];
    JudgementStays(c, stream[..n], stream[n..], limit);
  }

  /** The buffer has grown as the request at hand asks for, however it came. */
  lemma LimitAtEnd(c: Codecs, base: nat, r: Reader, pending: Text, chunk: Text)
    requires 0 < base <= MAX_BODY_LEN && Inv(c, base, r, pending) && Delivers(r, chunk)
    requires Due(c, pending, Limit(base)) == None && Judge(c, pending + chunk, Limit(base)).Some?
    ensures var n := Due(c, pending + chunk, Limit(base));
            && n.Some? && 0 < n.value <= |pending + chunk|
            && Limit(r.capacity) == NextLimit(c, (pending + chunk)[..n.value], Limit(base))
            && (HeaderDone(r.p) ==> n.value == |pending + chunk|)
  {
    hide Parse;
    var all, limit := pending + chunk, Limit(base);
    SomethingDue(c, all, limit);
    var n := Due(c, all, limit).value;
    if HeaderDone(r.p) {
      BodyEndsLast(c, base, r, pending, chunk);
      LimitBehindBody(c, base, r, pending, chunk);
      assert all[..|all|] == all;
    } else {
      var a := all[..n - 1];
      assert all[..n][..n - 1] == a && all[..n] == a + [all[n - 1]];
      var s := Parse(c, START, a);
      if s.Parsed? && s.p.state == InBody {
        BodyIsWithin(c, a, all[n - 1], limit);
      }
    }
  }

  lemma OpenBefore(c: Codecs, base: nat, r: Reader, pending: Text, chunk: Text, m: nat)
    requires Inv(c, base, r, pending) && Delivers(r, chunk) && HeaderDone(r.p)
    requires Due(c, pending, Limit(base)) == None && m < |pending + chunk|
    ensures Judge(c, (pending + chunk)[..m], Limit(base)) == None
  {
    if m <= |pending| {
      assert (pending + chunk)[..m] == pending[..m];
    } else {
      var part := chunk[..m - |pending|];
      assert (pending + chunk)[..m] == pending + part;
      BodyStaysOpen(c, base, r, pending, part);
    }
  }

  lemma LimitBehindBody(c: Codecs, base: nat, r: Reader, pending: Text, chunk: Text)
    requires Inv(c, base, r, pending) && Delivers(r, chunk) && HeaderDone(r.p)
    ensures Limit(r.capacity) == NextLimit(c, pending + chunk, Limit(base))
  {
    var part := chunk[..|chunk| - 1];
    BodyStaysOpen(c, base, r, pending, part);
    assert (pending + chunk)[..|pending + chunk| - 1] == pending + part;
  }

  lemma BodyEndsLast(c: Codecs, base: nat, r: Reader, pending: Text, chunk: Text)
    requires Inv(c, base, r, pending) && Delivers(r, chunk) && HeaderDone(r.p) && 0 < Limit(base) <= MAX_BODY_LEN
    requires Due(c, pending, Limit(base)) == None && Judge(c, pending + chunk, Limit(base)).Some?
    ensures Due(c, pending + chunk, Limit(base)) == Some(|pending + chunk|)
  {
    hide Parse, Judge, Inv, DueFrom;
    SomethingDue(c, pending + chunk, Limit(base));
    forall m | 0 <= m < |pending + chunk| ensures Judge(c, (pending + chunk)[..m], Limit(base)) == None {
      OpenBefore(c, base, r, pending, chunk, m);
    }
  }

  lemma BeginInStep(c: Codecs, capacity: nat, answers: seq<Verdict>)
    requires 0 < capacity <= MAX_BODY_LEN
    ensures InStep(c, Begin(capacity, answers), Waiting(answers, Limit(capacity), []))
  {
    var nothing: Text := [];
    assert nothing + nothing == nothing;
  }

  lemma {:induction false} AnswersGrow(
    c: Codecs, keeps: seq<Verdict> -> bool, limit: nat, answers: seq<Verdict>, stream: Text)
    requires 0 < limit
    ensures var ideal := JudgeAll(c, keeps, limit, answers, stream);
            && answers <= ideal.answers
            && (ideal.answers == answers ==> ideal == Waiting(answers, limit, stream))
    decreases |stream|
  {
    if Due(c, stream, limit).Some? {
      NothingIsDue(c, limit);
      assert stream[..0] == [];
      var n := Due(c, stream, limit).value;
      var all := answers + [Judge(c, stream[..n], limit).value];
      if keeps(all) {
        AnswersGrow(c, keeps, NextLimit(c, stream[..n], limit), all, stream[n..]);
      }
    }
  }

  /** A connection that has started over holds nothing, so it is not in step with a stream that goes on. */
  lemma DroppedBytes(
    c: Codecs, keeps: seq<Verdict> -> bool, capacity: nat, limit: nat, answers: seq<Verdict>, rest: Text)
    requires 0 < limit && rest != []
    ensures !InStep(c, Begin(capacity, answers), JudgeAll(c, keeps, limit, answers, rest))
  {
    AnswersGrow(c, keeps, limit, answers, rest);
  }

  /** An answer is given with this receive. */
  lemma AnswerExactly(
    c: Codecs, keeps: seq<Verdict> -> bool, s: Session, limit: nat, pending: Text, chunk: Text)
    requires Takes(s, chunk) && InStep(c, s, Waiting(s.answers, limit, pending)) && Due(c, pending, limit) == None
    requires Handle(c, s.r, chunk).Finished?
    ensures InStep(c, Receive(c, keeps, s, chunk), JudgeAll(c, keeps, limit, s.answers, pending + chunk)) <==>
            !Overshoots(c, keeps, Waiting(s.answers, limit, pending), chunk)
  {
    var all, v := pending + chunk, Handle(c, s.r, chunk).verdict;
    HandleKeepsInv(c, s.base, s.r, pending, chunk);
    LimitAtEnd(c, s.base, s.r, pending, chunk);
    SomethingDue(c, all, limit);
    var n, answers := Due(c, all, limit).value, s.answers + [v];
    if keeps(answers) {
      var next, rest := NextLimit(c, all[..n], limit), all[n..];
      assert JudgeAll(c, keeps, limit, s.answers, all) == JudgeAll(c, keeps, next, answers, rest);
      if n < |all| {
        DroppedBytes(c, keeps, s.r.capacity, next, answers, rest);
      } else {
        BeginInStep(c, s.r.capacity, answers);
        NothingIsDue(c, next);
        assert rest == [];
        assert JudgeAll(c, keeps, next, answers, []) == Waiting(answers, next, []);
      }
    }
  }

  /** One receive keeps the connection in step exactly if it does not overshoot. */
  lemma ReceiveExactly(
    c: Codecs, keeps: seq<Verdict> -> bool, limit: nat, answers: seq<Verdict>, stream: Text, s: Session, chunk: Text)
    requires 0 < limit && Takes(s, chunk) && InStep(c, s, JudgeAll(c, keeps, limit, answers, stream))
    ensures InStep(c, Receive(c, keeps, s, chunk), JudgeAll(c, keeps, limit, answers, stream + chunk)) <==>
            !Overshoots(c, keeps, JudgeAll(c, keeps, limit, answers, stream), chunk)
  {
    var ideal := JudgeAll(c, keeps, limit, answers, stream);
    JudgeAllGrows(c, keeps, limit, answers, stream, chunk);
    if Handle(c, s.r, chunk).Finished? {
      AnswerExactly(c, keeps, s, ideal.limit, ideal.pending, chunk);
    } else {
      HandleKeepsInv(c, s.base, s.r, ideal.pending, chunk);
      StillOpen(c, s.base, Handle(c, s.r, chunk), ideal.pending + chunk);
      NothingDue(c, ideal.pending + chunk, ideal.limit);
    }
  }

  // ---------- Whole connections ----------

  predicate IsRun(c: Codecs, keeps: seq<Verdict> -> bool, s: Session, chunks: seq<Text>)
    decreases |chunks|
  {
    chunks == [] || (Takes(s, chunks[0]) && IsRun(c, keeps, Receive(c, keeps, s, chunks[0]), chunks[1..]))
  }

  function Run(c: Codecs, keeps: seq<Verdict> -> bool, s: Session, chunks: seq<Text>): Session
    requires IsRun(c, keeps, s, chunks)
    decreases |chunks|
  {
    if chunks == [] then s else Run(c, keeps, Receive(c, keeps, s, chunks[0]), chunks[1..])
  }

  /** No chunk that follows `stream` overshoots: a condition on the bytes and where they are cut. */
  predicate Aligned(c: Codecs, keeps: seq<Verdict> -> bool, limit: nat, stream: Text, chunks: seq<Text>)
    requires 0 < limit
    decreases |chunks|
  {
    chunks != [] ==>
      && !Overshoots(c, keeps, JudgeAll(c, keeps, limit, [], stream), chunks[0])
      && Aligned(c, keeps, limit, stream + chunks[0], chunks[1..])
  }

  /** In step now and after every receive. */
  ghost predicate StaysInStep(
    c: Codecs, keeps: seq<Verdict> -> bool, limit: nat, s: Session, stream: Text, chunks: seq<Text>)
    requires 0 < limit && IsRun(c, keeps, s, chunks)
    decreases |chunks|
  {
    && InStep(c, s, JudgeAll(c, keeps, limit, [], stream))
    && (chunks != [] ==>
          StaysInStep(c, keeps, limit, Receive(c, keeps, s, chunks[0]), stream + chunks[0], chunks[1..]))
  }

  lemma {:induction false} StaysInStepExactly(
    c: Codecs, keeps: seq<Verdict> -> bool, limit: nat, s: Session, stream: Text, chunks: seq<Text>)
    requires 0 < limit && IsRun(c, keeps, s, chunks) && InStep(c, s, JudgeAll(c, keeps, limit, [], stream))
    ensures StaysInStep(c, keeps, limit, s, stream, chunks) <==> Aligned(c, keeps, limit, stream, chunks)
    ensures Aligned(c, keeps, limit, stream, chunks) ==>
              InStep(c, Run(c, keeps, s, chunks), JudgeAll(c, keeps, limit, [], stream + Concat(chunks)))
    decreases |chunks|
  {
    if chunks == [] {
      assert stream + Concat(chunks) == stream;
    } else {
      var next := Receive(c, keeps, s, chunks[0]);
      ReceiveExactly(c, keeps, limit, [], stream, s, chunks[0]);
      if !Overshoots(c, keeps, JudgeAll(c, keeps, limit, [], stream), chunks[0]) {
        StaysInStepExactly(c, keeps, limit, next, stream + chunks[0], chunks[1..]);
        Associate(stream, chunks[0], Concat(chunks[1..]));
      }
    }
  }

  /**
   For a whole connection: its answers are the judgement of its whole stream, after every receive,
   exactly if no receive overshoots.
   */
  lemma ConnectionInStepExactly(c: Codecs, keeps: seq<Verdict> -> bool, initial: nat, chunks: seq<Text>)
    requires 0 < initial <= MAX_BODY_LEN && IsRun(c, keeps, Begin(initial, []), chunks)
    ensures StaysInStep(c, keeps, Limit(initial), Begin(initial, []), [], chunks) <==>
            Aligned(c, keeps, Limit(initial), [], chunks)
    ensures Aligned(c, keeps, Limit(initial), [], chunks) ==>
              Run(c, keeps, Begin(initial, []), chunks).answers ==
                JudgeAll(c, keeps, Limit(initial), [], Concat(chunks)).answers
  {
    StartsInStep(c, keeps, initial);
    StaysInStepExactly(c, keeps, Limit(initial), Begin(initial, []), [], chunks);
    assert [] + Concat(chunks) == Concat(chunks);
  }

  lemma StartsInStep(c: Codecs, keeps: seq<Verdict> -> bool, initial: nat)
    requires 0 < initial <= MAX_BODY_LEN
    ensures InStep(c, Begin(initial, []), JudgeAll(c, keeps, Limit(initial), [], []))
  {
    BeginInStep(c, initial, []);
    NothingIsDue(c, Limit(initial));
    var nothing: Text := [];
    assert nothing[..0] == nothing;
  }

  /** In step or not, the reader is a reader of some bytes. */
  ghost predicate Sound(c: Codecs, s: Session) {
    s.Serving? ==> 0 < s.base <= MAX_BODY_LEN && exists pending: Text :: Inv(c, s.base, s.r, pending)
  }

  lemma ReceiveKeepsSound(c: Codecs, keeps: seq<Verdict> -> bool, s: Session, chunk: Text)
    requires Sound(c, s) && Takes(s, chunk)
    ensures Sound(c, Receive(c, keeps, s, chunk))
    ensures s.r.Reading? && ReadBytes(s.r) + |chunk| <= s.r.capacity
  {
    var pending: Text :| Inv(c, s.base, s.r, pending);
    WindowInBuffer(c, s.base, s.r, pending);
    HandleKeepsInv(c, s.base, s.r, pending, chunk);
    BeginInStep(c, s.r.capacity, []);
  }

  /** Two connections that receive the same stream, cut differently but never overshooting, answer alike. */
  lemma ConnectionsAgree(
    c: Codecs, keeps: seq<Verdict> -> bool, initial: nat, chunks: seq<Text>, chunks': seq<Text>)
    requires 0 < initial <= MAX_BODY_LEN
    requires IsRun(c, keeps, Begin(initial, []), chunks) && IsRun(c, keeps, Begin(initial, []), chunks')
    requires Aligned(c, keeps, Limit(initial), [], chunks) && Aligned(c, keeps, Limit(initial), [], chunks')
    requires Concat(chunks) <= Concat(chunks')
    ensures Run(c, keeps, Begin(initial, []), chunks).answers <= Run(c, keeps, Begin(initial, []), chunks').answers
    ensures Concat(chunks) == Concat(chunks') ==>
              Run(c, keeps, Begin(initial, []), chunks).answers == Run(c, keeps, Begin(initial, []), chunks').answers
  {
    ConnectionInStepExactly(c, keeps, initial, chunks);
    ConnectionInStepExactly(c, keeps, initial, chunks');
    var limit, a, b := Limit(initial), Concat(chunks), Concat(chunks')[|Concat(chunks)|..];
    assert a + b == Concat(chunks');
    JudgeAllGrows(c, keeps, limit, [], a, b);
    var ideal := JudgeAll(c, keeps, limit, [], a);
    if ideal.Waiting? {
      AnswersGrow(c, keeps, ideal.limit, ideal.answers, ideal.pending + b);
    }
  }

  // ---------- A client that waits for its answers ----------

  predicate Nonempty(chunks: seq<Text>) {
    forall i :: 0 <= i < |chunks| ==> chunks[i] != []
  }

  /** Each request comes in its own chunks, and the next one only if the connection is kept. */
  predicate Waits(
    c: Codecs, keeps: seq<Verdict> -> bool, limit: nat, answers: seq<Verdict>, requests: seq<seq<Text>>)
    decreases |requests|
  {
    requests != [] ==>
      var wire := Concat(requests[0]);
      && wire != [] && Nonempty(requests[0]) && Due(c, wire, limit) == Some(|wire|)
      && var all := answers + [Judge(c, wire[..|wire|], limit).value];
         if keeps(all) then Waits(c, keeps, NextLimit(c, wire, limit), all, requests[1..]) else |requests| == 1
  }

  /** The chunks of one request, from its part `a` on, do not overshoot. */
  lemma {:induction false} RequestAligned(
    c: Codecs, keeps: seq<Verdict> -> bool, limit: nat, ideal: Ideal, stream: Text, a: Text, chunks: seq<Text>,
    wire: Text, more: seq<Text>)
    requires 0 < limit && JudgeAll(c, keeps, limit, [], stream) == ideal && ideal.Waiting? && ideal.pending == []
    requires a + Concat(chunks) == wire && Nonempty(chunks) && Due(c, wire, ideal.limit) == Some(|wire|)
    requires Aligned(c, keeps, limit, stream + wire, more)
    ensures Aligned(c, keeps, limit, stream + a, chunks + more)
    decreases |chunks|
  {
    if chunks == [] {
      assert a == wire && chunks + more == more;
    } else {
      var chunk, b := chunks[0], a + chunks[0];
      assert b + Concat(chunks[1..]) == wire;
      assert (chunks + more)[1..] == chunks[1..] + more;
      Associate(stream, a, chunk);
      NoOvershootInside(c, keeps, limit, ideal, stream, a, chunk, wire);
      RequestAligned(c, keeps, limit, ideal, stream, b, chunks[1..], wire, more);
    }
  }

  lemma NoOvershootInside(
    c: Codecs, keeps: seq<Verdict> -> bool, limit: nat, ideal: Ideal, stream: Text, a: Text, chunk: Text, wire: Text)
    requires 0 < limit && JudgeAll(c, keeps, limit, [], stream) == ideal && ideal.Waiting? && ideal.pending == []
    requires chunk != [] && a + chunk <= wire && Due(c, wire, ideal.limit) == Some(|wire|)
    ensures !Overshoots(c, keeps, JudgeAll(c, keeps, limit, [], stream + a), chunk)
  {
    JudgeAllGrows(c, keeps, limit, [], stream, a);
    assert [] + a == a;
    forall m | 0 <= m < |wire| && m <= |a + chunk|
      ensures (a + chunk)[..m] == wire[..m] && (m <= |a| ==> a[..m] == wire[..m])
    {
    }
    assert Due(c, a, ideal.limit) == None;
    assert JudgeAll(c, keeps, limit, [], stream + a) == Waiting(ideal.answers, ideal.limit, a);
  }

  lemma {:induction false} WaitingClientAligned(
    c: Codecs, keeps: seq<Verdict> -> bool, limit: nat, ideal: Ideal, stream: Text, requests: seq<seq<Text>>)
    requires 0 < limit && JudgeAll(c, keeps, limit, [], stream) == ideal && ideal.Waiting? && ideal.pending == []
    requires Waits(c, keeps, ideal.limit, ideal.answers, requests)
    ensures Aligned(c, keeps, limit, stream, Concat(requests))
    decreases |requests|
  {
    if requests != [] {
      var wire, more := Concat(requests[0]), requests[1..];
      assert wire[..|wire|] == wire && wire[|wire|..] == [] && stream + [] == stream && [] + wire == wire;
      var all := ideal.answers + [Judge(c, wire, ideal.limit).value];
      JudgeAllGrows(c, keeps, limit, [], stream, wire);
      if keeps(all) {
        NothingIsDue(c, NextLimit(c, wire, ideal.limit));
        NothingPends(c, keeps, NextLimit(c, wire, ideal.limit), all);
        WaitingClientAligned(c, keeps, limit, Waiting(all, NextLimit(c, wire, ideal.limit), []), stream + wire, more);
      } else {
        assert more == [];
      }
      RequestAligned(c, keeps, limit, ideal, stream, [], requests[0], wire, Concat(more));
    }
  }

  lemma NothingPends(c: Codecs, keeps: seq<Verdict> -> bool, limit: nat, answers: seq<Verdict>)
    requires 0 < limit
    ensures JudgeAll(c, keeps, limit, answers, []) == Waiting(answers, limit, [])
  {
    NothingIsDue(c, limit);
    var nothing: Text := [];
    assert nothing[..0] == nothing;
  }

  /** To a client that sends a request only when the one before is answered, the cuts are unobservable. */
  lemma WaitingClientIsServed(c: Codecs, keeps: seq<Verdict> -> bool, initial: nat, requests: seq<seq<Text>>)
    requires 0 < initial <= MAX_BODY_LEN && IsRun(c, keeps, Begin(initial, []), Concat(requests))
    requires Waits(c, keeps, Limit(initial), [], requests)
    ensures Run(c, keeps, Begin(initial, []), Concat(requests)).answers ==
            JudgeAll(c, keeps, Limit(initial), [], Concat(Concat(requests))).answers
  {
    NothingPends(c, keeps, Limit(initial), []);
    WaitingClientAligned(c, keeps, Limit(initial), Waiting([], Limit(initial), []), [], requests);
    ConnectionInStepExactly(c, keeps, initial, Concat(requests));
  }

  // ---------- Pipelined requests ----------

  predicate IsRequest(c: Codecs, wire: Text) {
    wire != [] && var r := Parse(c, START, wire); r.Parsed? && r.n == |wire| && r.p.state == Done
  }

  /** The header section ends within the limit, before the body does, and the body is not too long. */
  predicate InTime(c: Codecs, wire: Text, limit: nat) {
    |wire| <= limit ||
    var r := Parse(c, START, wire[..limit]);
    r.Parsed? && r.p.state == InBody && r.p.contentLen <= MAX_BODY_LEN
  }

  /** A part of a request is neither refused nor complete. */
  lemma PartIsOpen(c: Codecs, a: Text, b: Text)
    requires IsRequest(c, a + b) && b != []
    ensures Parse(c, START, a).Parsed? && Parse(c, START, a).p.state != Done
  {
    DecisionStays(c, a, b);
  }

  /** A body that is awaited somewhere in the request is not too long. */
  lemma BodyInTime(c: Codecs, a: Text, b: Text, limit: nat)
    requires IsRequest(c, a + b) && InTime(c, a + b, limit) && limit <= MAX_BODY_LEN
    requires Parse(c, START, a).Parsed? && Parse(c, START, a).p.state == InBody
    ensures Parse(c, START, a).p.contentLen <= MAX_BODY_LEN
  {
    hide Parse;
    var wire, r := a + b, Parse(c, START, a);
    if |wire| <= limit {
      ParseResumes(c, START, a, b);
      BodyWaits(c, r.p, a[r.n..] + b);
    } else if |a| <= limit {
      assert wire[..limit] == a + wire[|a|..limit];
      BodyStays(c, a, wire[|a|..limit]);
    } else {
      assert a == wire[..limit] + a[limit..];
      BodyStays(c, wire[..limit], a[limit..]);
    }
  }

  /** Nothing is due before the last byte of a request. */
  lemma OpenPrefix(c: Codecs, a: Text, b: Text, limit: nat)
    requires IsRequest(c, a + b) && b != [] && InTime(c, a + b, limit) && limit <= MAX_BODY_LEN
    ensures Judge(c, a, limit) == None
  {
    PartIsOpen(c, a, b);
    if Parse(c, START, a).p.state == InBody {
      BodyInTime(c, a, b, limit);
    }
    if |a| <= limit {
      assert ReaderSpec.Head(a, limit) == a;
      assert |a| == limit ==> (a + b)[..limit] == a;
    } else {
      assert a[..limit] == (a + b)[..limit];
      assert HeaderEndsBy(c, a, limit, limit);
      JudgeInBody(c, a, limit, limit);
    }
  }

  /** A request is answered as complete exactly if it is in time. */
  lemma CompleteExactly(c: Codecs, wire: Text, limit: nat)
    requires IsRequest(c, wire) && limit <= MAX_BODY_LEN
    ensures var v := Some(Complete(Parse(c, START, wire).p.request));
            Judge(c, wire, limit) == v <==> InTime(c, wire, limit)
  {
    if |wire| <= limit {
      assert ReaderSpec.Head(wire, limit) == wire;
    } else {
      assert ReaderSpec.Head(wire, limit) == wire[..limit];
      assert wire == wire[..limit] + wire[limit..];
      PartIsOpen(c, wire[..limit], wire[limit..]);
      if InTime(c, wire, limit) {
        assert HeaderEndsBy(c, wire, limit, limit);
        JudgeInBody(c, wire, limit, limit);
      }
    }
  }

  /** ... and then it is due with its last byte. */
  lemma RequestIsDue(c: Codecs, wire: Text, rest: Text, limit: nat)
    requires IsRequest(c, wire) && InTime(c, wire, limit) && 0 < limit <= MAX_BODY_LEN
    ensures var v := Some(Complete(Parse(c, START, wire).p.request));
            && Judge(c, wire, limit) == v && Judge(c, wire + rest, limit) == v
            && Due(c, wire + rest, limit) == Some(|wire|)
  {
    hide Parse, Judge, IsRequest, InTime, DueFrom;
    CompleteExactly(c, wire, limit);
    JudgementStays(c, wire, rest, limit);
    SomethingDue(c, wire + rest, limit);
    assert (wire + rest)[..|wire|] == wire;
    forall m | 0 <= m < |wire| ensures Judge(c, (wire + rest)[..m], limit) == None {
      assert (wire + rest)[..m] == wire[..m];
      assert wire == wire[..m] + wire[m..];
      OpenPrefix(c, wire[..m], wire[m..], limit);
    }
  }

  lemma NextLimitBounded(c: Codecs, wire: Text, limit: nat)
    requires IsRequest(c, wire) && InTime(c, wire, limit) && 0 < limit <= MAX_BODY_LEN
    ensures 0 < NextLimit(c, wire, limit) <= MAX_BODY_LEN
  {
    var a, b := wire[..|wire| - 1], wire[|wire| - 1..];
    assert wire == a + b;
    PartIsOpen(c, a, b);
    if Parse(c, START, a).p.state == InBody {
      BodyInTime(c, a, b, limit);
    }
  }

  /** Complete requests, each in chunks of its own and in time for the limit that those before it leave. */
  predicate AreRequests(c: Codecs, limit: nat, requests: seq<seq<Text>>)
    decreases |requests|
  {
    requests != [] ==>
      var wire := Concat(requests[0]);
      && IsRequest(c, wire) && Nonempty(requests[0]) && InTime(c, wire, limit)
      && AreRequests(c, NextLimit(c, wire, limit), requests[1..])
  }

  function Answers(c: Codecs, limit: nat, requests: seq<seq<Text>>): seq<Verdict>
    requires AreRequests(c, limit, requests)
    decreases |requests|
  {
    if requests == [] then []
    else
      var wire := Concat(requests[0]);
      [Complete(Parse(c, START, wire).p.request)] + Answers(c, NextLimit(c, wire, limit), requests[1..])
  }

  lemma {:induction false} RequestsWait(
    c: Codecs, keeps: seq<Verdict> -> bool, limit: nat, answers: seq<Verdict>, requests: seq<seq<Text>>)
    requires 0 < limit <= MAX_BODY_LEN && AreRequests(c, limit, requests) && forall all :: keeps(all)
    ensures Waits(c, keeps, limit, answers, requests)
    ensures JudgeAll(c, keeps, limit, answers, Concat(Concat(requests))).answers ==
            answers + Answers(c, limit, requests)
    decreases |requests|
  {
    hide Parse, Judge, InTime, Due, NextLimit;
    if requests == [] {
      NothingPends(c, keeps, limit, answers);
      assert answers + Answers(c, limit, requests) == answers;
    } else {
      var wire, rest := Concat(requests[0]), Concat(Concat(requests[1..]));
      var v, next := Complete(Parse(c, START, wire).p.request), NextLimit(c, wire, limit);
      RequestIsDue(c, wire, [], limit);
      RequestIsDue(c, wire, rest, limit);
      NextLimitBounded(c, wire, limit);
      RequestsWait(c, keeps, next, answers + [v], requests[1..]);
      assert wire + [] == wire && wire[..|wire|] == wire;
      ConcatAppend(requests[0], Concat(requests[1..]));
      assert Concat(Concat(requests)) == wire + rest;
      assert (wire + rest)[..|wire|] == wire && (wire + rest)[|wire|..] == rest;
      Associate(answers, [v], Answers(c, next, requests[1..]));
    }
  }

  /** Every request of a client that waits for its answers is answered, however each is cut. */
  lemma RequestsAnswered(c: Codecs, keeps: seq<Verdict> -> bool, initial: nat, requests: seq<seq<Text>>)
    requires 0 < initial <= MAX_BODY_LEN && AreRequests(c, Limit(initial), requests) && forall all :: keeps(all)
    requires IsRun(c, keeps, Begin(initial, []), Concat(requests))
    ensures Run(c, keeps, Begin(initial, []), Concat(requests)).answers == Answers(c, Limit(initial), requests)
  {
    RequestsWait(c, keeps, Limit(initial), [], requests);
    WaitingClientIsServed(c, keeps, initial, requests);
    assert [] + Answers(c, Limit(initial), requests) == Answers(c, Limit(initial), requests);
  }

  /**
   The same two requests, in one piece and in two: together they get one answer, apart two. The
   bytes behind the first request are dropped when the reader starts over.
   */
  lemma PipelinedRequestLost(c: Codecs, keeps: seq<Verdict> -> bool, wire: Text)
    requires IsRequest(c, wire) && 2 * |wire| <= SMALL_HEADER_LEN && forall all :: keeps(all)
    ensures var v, start := Complete(Parse(c, START, wire).p.request), Begin(SMALL_HEADER_LEN, []);
            && IsRun(c, keeps, start, [wire, wire]) && IsRun(c, keeps, start, [wire + wire])
            && Run(c, keeps, start, [wire, wire]).answers == [v, v]
            && Run(c, keeps, start, [wire + wire]).answers == [v]
  {
    var v, start := Complete(Parse(c, START, wire).p.request), Begin(SMALL_HEADER_LEN, []);
    OneReceive(c, keeps, [], wire, []);
    OneReceive(c, keeps, [v], wire, []);
    OneReceive(c, keeps, [], wire, wire);
    assert wire + [] == wire;
    assert [wire, wire][1..] == [wire] && [wire][1..] == [] && [wire + wire][1..] == [];
    var next := Begin(SMALL_HEADER_LEN, [v]);
    assert Receive(c, keeps, start, wire) == next;
    assert IsRun(c, keeps, Receive(c, keeps, next, wire), []);
    assert IsRun(c, keeps, next, [wire]) && Run(c, keeps, next, [wire]).answers == [v, v];
  }

  lemma OneReceive(c: Codecs, keeps: seq<Verdict> -> bool, answers: seq<Verdict>, wire: Text, rest: Text)
    requires IsRequest(c, wire) && |wire + rest| <= SMALL_HEADER_LEN && forall all :: keeps(all)
    ensures var v, s := Complete(Parse(c, START, wire).p.request), Begin(SMALL_HEADER_LEN, answers);
            && Takes(s, wire + rest)
            && Receive(c, keeps, s, wire + rest) == Begin(SMALL_HEADER_LEN, answers + [v])
  {
    hide ParseNext;
    DecisionStays(c, wire, rest);
    assert [] + (wire + rest) == wire + rest;
  }

  /** What a client writes as a request is one. */
  lemma WrittenIsRequest(c: Codecs, l: W.Line, verb: Method, hs: seq<Pair>, body: Text, request: Request)
    requires W.WellFormedLine(l) && c.findMethod(l.verb) == Some(verb) && W.WellFormedHeaders(hs)
    requires W.ApplyHeaders(c, W.AfterLine(c, l, verb), hs).Ok?
    requires var p := W.ApplyHeaders(c, W.AfterLine(c, l, verb), hs).value;
             p.contentLen == |body| && W.Finish(c, p, body) == Ok(request)
    ensures var wire := W.LineWire(l) + W.HeaderLines(hs) + W.CRLF + body;
            IsRequest(c, wire) && Parse(c, START, wire).p.request == request
  {
    var wire := W.LineWire(l) + W.HeaderLines(hs) + W.CRLF + body;
    W.RequestReadsBack(c, l, verb, hs, body, []);
    assert wire + [] == wire;
  }

  /** This happens to every request that a client can write in half the first buffer. */
  lemma WrittenRequestLost(
    c: Codecs, keeps: seq<Verdict> -> bool, l: W.Line, verb: Method, hs: seq<Pair>, body: Text, request: Request)
    requires W.WellFormedLine(l) && c.findMethod(l.verb) == Some(verb) && W.WellFormedHeaders(hs)
    requires W.ApplyHeaders(c, W.AfterLine(c, l, verb), hs).Ok?
    requires var p := W.ApplyHeaders(c, W.AfterLine(c, l, verb), hs).value;
             p.contentLen == |body| && W.Finish(c, p, body) == Ok(request)
    requires 2 * |W.LineWire(l) + W.HeaderLines(hs) + W.CRLF + body| <= SMALL_HEADER_LEN && forall all :: keeps(all)
    ensures var wire, start := W.LineWire(l) + W.HeaderLines(hs) + W.CRLF + body, Begin(SMALL_HEADER_LEN, []);
            && IsRun(c, keeps, start, [wire, wire]) && IsRun(c, keeps, start, [wire + wire])
            && |Run(c, keeps, start, [wire, wire]).answers| == 2
            && Run(c, keeps, start, [wire + wire]).answers == [Complete(request)]
  {
    WrittenIsRequest(c, l, verb, hs, body, request);
    PipelinedRequestLost(c, keeps, W.LineWire(l) + W.HeaderLines(hs) + W.CRLF + body);
  }
}
