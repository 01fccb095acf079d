/** With which result a transfer ends, read off what the sockets, the reactor and the resubmissions answer. */
module TransferResult {
  import opened Bytes
  import opened TransferSpec

  // ---------------------------------------------------------------- sending

  /** How many bytes an attempt may move: all that is left of the header, and at most 4 MiB of the file. */
  function Available(job: Job, pos: nat): nat {
    var header := if pos < Total(job.iov) then Total(job.iov) - pos else 0;
    var at := if pos < Total(job.iov) then 0 else pos - Total(job.iov);
    header + if job.WithFile? && job.offset + at < |job.file| && at < job.len
             then Min(Min(job.len - at, 4194304), |job.file| - job.offset - at) else 0
  }

  /** Waiting again is possible unless that fails. */
  function Resubmitted(submitted: Err): Option<Err> {
    if submitted == Ok then None else Some(submitted)
  }

  /** The result that an event gives to an operation that has none, when `pos` bytes are on the wire. */
  function Result(job: Job, pos: nat, event: Event): Option<Err> {
    match event
    case Abort(err) => Some(err)
    case Perform(Refused(err), submitted) => if err == WouldBlock then Resubmitted(submitted) else Some(err)
    case Perform(Moved(n), submitted) =>
      if pos + Min(n, Available(job, pos)) == Wanted(job) then Some(Ok) else Resubmitted(submitted)
  }

  /** The bytes that an event puts on the wire. */
  function MovedBy(job: Job, pos: nat, event: Event): nat {
    if event.Perform? && event.answer.Moved? then Min(event.answer.n, Available(job, pos)) else 0
  }

  lemma OfferSize(job: Job, s: Sending)
    requires ValidJob(job) && Progress(job, s.left, s.pos, s.wire)
    ensures |Offer(job, s)| == Available(job, s.pos)
  {
    LeftTotal(job, s);
  }

  lemma PieceFront(goal: seq<Byte>, pos: nat, k: nat, m: nat)
    requires pos + k <= |goal| && m <= k
    ensures goal[pos..pos + k][..m] == goal[pos..pos + m]
  {
  }

  /** An attempt that moves bytes succeeds exactly when all have been moved, and moves those that come next. */
  lemma MoveGives(job: Job, s: Sending, n: nat)
    requires ValidJob(job) && Progress(job, s.left, s.pos, s.wire)
    ensures var (u, err) := Attempt(job, s, Moved(n)); var m := Min(n, Available(job, s.pos));
      && err == (if s.pos + m == Wanted(job) then Ok else WouldBlock)
      && u.done == s.done && u.calls == s.calls && u.pos == s.pos + m
      && s.pos + m <= |Goal(job)| && u.wire == s.wire + Goal(job)[s.pos..s.pos + m]
  {
    hide Inside, Goal, Wanted;
    OfferSize(job, s);
    FinishedExactly(job, s, n);
    OfferIsNext(job, s);
    PieceFront(Goal(job), s.pos, |Offer(job, s)|, Min(n, Available(job, s.pos)));
  }

  /** An event gives the operation its result, or leaves it waiting, and sends the bytes that come next. */
  lemma StepGives(job: Job, s: Sending, event: Event)
    requires ValidJob(job) && Consistent(job, s) && Legal(s, event) && s.done.None?
    ensures var u, m := Step(job, s, event), MovedBy(job, s.pos, event);
      && u.done == Result(job, s.pos, event) && u.calls == s.calls && u.pos == s.pos + m
      && s.pos + m <= |Goal(job)| && u.wire == s.wire + Goal(job)[s.pos..s.pos + m]
  {
    hide Content, Goal, Available, Wanted;
    if event.Perform? && event.answer.Moved? {
      MoveGives(job, s, event.answer.n);
    } else {
      assert Goal(job)[s.pos..s.pos] == [] && s.wire + [] == s.wire;
    }
  }

  /** The operation has its result: only its callback is still to come. */
  lemma OnlyTold(job: Job, s: Sending, events: seq<Event>)
    requires ValidJob(job) && Consistent(job, s) && LegalRun(job, s, events) && s.done.Some? && s.calls == []
    ensures |events| <= 1
    ensures Run(job, s, events) == if events == [] then s else s.(calls := [(s.pos, s.done.value)])
  {
    if events != [] {
      var u := s.(calls := [(s.pos, s.done.value)]);
      assert s.calls + [(s.pos, s.done.value)] == u.calls;
      assert Step(job, s, events[0]) == u && LegalRun(job, u, events[1..]);
      assert events[1..] == [];
      assert Run(job, u, events[1..]) == u;
    }
  }

  /** The first result that the events of a run give, and the bytes on the wire by then. */
  function FirstResult(job: Job, pos: nat, events: seq<Event>): (nat, Option<Err>)
    decreases |events|
  {
    if events == [] then (pos, None)
    else
      var at := pos + MovedBy(job, pos, events[0]);
      var r := Result(job, pos, events[0]);
      if r.Some? then (at, r) else FirstResult(job, at, events[1..])
  }

  /** Over a run, the operation ends with the first result that an event gives, and the callback is told that one. */
  lemma {:induction false} FirstResultStands(job: Job, s: Sending, events: seq<Event>)
    requires ValidJob(job) && Consistent(job, s) && LegalRun(job, s, events) && s.done.None? && s.calls == []
    ensures var u := Run(job, s, events); var (pos, r) := FirstResult(job, s.pos, events);
      && u.done == r && |u.wire| == u.pos == pos
      && (u.calls == [] || (r.Some? && u.calls == [(pos, r.value)]))
    decreases |events|
  {
    hide Goal, Wanted, Result, Available, Attempt, Inside, ValidJob;
    RunKeepsConsistent(job, s, events);
    if events != [] {
      var u := Step(job, s, events[0]);
      StepGives(job, s, events[0]);
      StepKeepsConsistent(job, s, events[0]);
      if u.done.Some? {
        OnlyTold(job, u, events[1..]);
      } else {
        FirstResultStands(job, u, events[1..]);
      }
    }
  }

  /** A socket error ends the operation, whatever the resubmission would say. */
  lemma ErrorEnds(job: Job, s: Sending, err: Err, submitted: Err)
    requires ValidJob(job) && Consistent(job, s) && s.done.None? && s.calls == [] && err != Ok && err != WouldBlock
    ensures Step(job, s, Perform(Refused(err), submitted)) == s.(done := Some(err))
    ensures Step(job, s, Abort(err)) == s.(done := Some(err))
  {
  }

  // ---------------------------------------------------------------- receiving

  /** The result that an event gives to a receive with room for `room` more bytes. */
  function RecvResult(exact: bool, room: nat, event: RecvEvent): Option<Err> {
    match event
    case Drop(err) => Some(err)
    case Recv(NoData(err), submitted) => if err == WouldBlock then Resubmitted(submitted) else Some(err)
    case Recv(Data(bytes), submitted) => if exact && |bytes| < room then Resubmitted(submitted) else Some(Ok)
  }

  function RecvBy(room: nat, event: RecvEvent): seq<Byte> {
    if event.Recv? && event.arrival.Data? then event.arrival.bytes[..Min(|event.arrival.bytes|, room)] else []
  }

  /** An event gives the receive its result, or leaves it waiting, and puts its bytes behind the others. */
  lemma RecvGives(exact: bool, r: Receiving, event: RecvEvent)
    requires RecvConsistent(exact, r) && RecvLegal(r, event) && r.done.None?
    ensures var u, t := RecvStep(exact, r, event), RecvBy(|r.buf| - r.pos, event);
      && u.done == RecvResult(exact, |r.buf| - r.pos, event) && u.calls == r.calls
      && u.pos == r.pos + |t| && Wrote(r.buf, r.pos, t, u.buf)
  {
    RecvStepWrites(exact, r, event);
  }

  lemma OnlyToldReceived(exact: bool, r: Receiving, events: seq<RecvEvent>)
    requires RecvConsistent(exact, r) && RecvLegalRun(exact, r, events) && r.done.Some? && r.calls == []
    ensures |events| <= 1
    ensures RecvRun(exact, r, events) == if events == [] then r else r.(calls := [(r.pos, r.done.value)])
  {
    if events != [] {
      var u := r.(calls := [(r.pos, r.done.value)]);
      assert r.calls + [(r.pos, r.done.value)] == u.calls;
      assert RecvStep(exact, r, events[0]) == u && RecvLegalRun(exact, u, events[1..]);
      assert events[1..] == [];
      assert RecvRun(exact, u, events[1..]) == u;
    }
  }

  function FirstRecvResult(exact: bool, len: nat, pos: nat, events: seq<RecvEvent>): (nat, Option<Err>)
    requires pos <= len
    decreases |events|
  {
    if events == [] then (pos, None)
    else
      var at := pos + |RecvBy(len - pos, events[0])|;
      var r := RecvResult(exact, len - pos, events[0]);
      if r.Some? then (at, r) else FirstRecvResult(exact, len, at, events[1..])
  }

  /** Over a run, a receive ends with the first result that an event gives, and the callback is told that one. */
  lemma {:induction false} FirstRecvResultStands(exact: bool, r: Receiving, events: seq<RecvEvent>)
    requires RecvConsistent(exact, r) && RecvLegalRun(exact, r, events) && r.done.None? && r.calls == []
    ensures var u := RecvRun(exact, r, events); var (pos, result) := FirstRecvResult(exact, |r.buf|, r.pos, events);
      && u.done == result && u.pos == pos
      && (u.calls == [] || (result.Some? && u.calls == [(pos, result.value)]))
    decreases |events|
  {
    if events != [] {
      var u := RecvStep(exact, r, events[0]);
      RecvGives(exact, r, events[0]);
      RecvStepWrites(exact, r, events[0]);
      if u.done.Some? {
        OnlyToldReceived(exact, u, events[1..]);
      } else {
        FirstRecvResultStands(exact, u, events[1..]);
      }
    }
  }
}
