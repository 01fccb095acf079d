/**
 * Sending buffers and a file, and receiving into a buffer, over a socket that moves any part of what
 * it is offered: the operations as values, and what all their runs have in common.
 */
module TransferSpec {
  import opened Bytes

  datatype Err = Ok | WouldBlock | Code(n: int)

  /** A piece of memory: an address and a length. */
  datatype Iov = Iov(base: nat, len: nat)

  const CHUNK_LEN: nat := 4 * 1024 * 1024

  // ---------------------------------------------------------------- vectors

  ghost predicate Inside(mem: seq<Byte>, iov: seq<Iov>) {
    forall i :: 0 <= i < |iov| ==> iov[i].base + iov[i].len <= |mem|
  }

  function Total(iov: seq<Iov>): nat {
    if iov == [] then 0 else iov[0].len + Total(iov[1..])
  }

  /** The bytes that a vector describes. */
  function Content(mem: seq<Byte>, iov: seq<Iov>): (r: seq<Byte>)
    requires Inside(mem, iov)
    ensures |r| == Total(iov)
  {
    if iov == [] then [] else mem[iov[0].base..iov[0].base + iov[0].len] + Content(mem, iov[1..])
  }

  /** Entry by entry, the bytes at its address. */
  lemma {:induction false} ContentAt(mem: seq<Byte>, iov: seq<Iov>, j: nat, k: nat)
    requires Inside(mem, iov) && j < |iov| && k < iov[j].len
    ensures Total(iov[..j]) + k < |Content(mem, iov)|
    ensures Content(mem, iov)[Total(iov[..j]) + k] == mem[iov[j].base + k]
  {
    if j == 0 {
      assert iov[..0] == [];
    } else {
      ContentAt(mem, iov[1..], j - 1, k);
      assert iov[..j][1..] == iov[1..][..j - 1];
    }
  }

  /** What is left of a vector after `n` bytes. */
  function Rest(iov: seq<Iov>, n: nat): seq<Iov> {
    if iov == [] then []
    else if n < iov[0].len then [Iov(iov[0].base + n, iov[0].len - n)] + iov[1..]
    else Rest(iov[1..], n - iov[0].len)
  }

  /** Consuming drops exactly the first `n` bytes; nothing is left of the vector if there are no more. */
  lemma {:induction false} RestDrops(mem: seq<Byte>, iov: seq<Iov>, n: nat)
    requires Inside(mem, iov)
    ensures Inside(mem, Rest(iov, n))
    ensures Content(mem, Rest(iov, n)) == Content(mem, iov)[Min(n, Total(iov))..]
    ensures Rest(iov, n) == [] <==> Total(iov) <= n
  {
    if iov != [] {
      var first := iov[0];
      if n < first.len {
        var left := Rest(iov, n);
        assert left[1..] == iov[1..];
        assert mem[first.base..first.base + first.len][n..] == mem[first.base + n..first.base + first.len];
      } else {
        RestDrops(mem, iov[1..], n - first.len);
      }
    }
  }

  // ---------------------------------------------------------------- sending

  /** What is to be sent: buffers, or buffers followed by `len` bytes of a file from `offset` on. */
  datatype Job =
    | Buffers(mem: seq<Byte>, iov: seq<Iov>)
    | WithFile(mem: seq<Byte>, iov: seq<Iov>, file: seq<Byte>, offset: nat, len: nat)

  /**
   * The operation: the vector still to be sent, the bytes counted as sent, and its result once it has
   * completed. `wire` is what the peer received, `calls` what the callback was told.
   */
  datatype Sending = Sending(
    left: seq<Iov>, pos: nat, done: Option<Err>, wire: seq<Byte>, calls: seq<(nat, Err)>)

  /** What the socket does with an offer: it moves up to `n` bytes, or it reports an error. */
  datatype Answer = Moved(n: nat) | Refused(err: Err)

  /** The operation runs, with the result of resubmitting it if it has to wait, or is aborted. */
  datatype Event = Perform(answer: Answer, submitted: Err) | Abort(err: Err)

  /** The part of the file from `a` to `b`, as far as the file goes. */
  function Slice(file: seq<Byte>, a: nat, b: nat): (r: seq<Byte>)
    requires a <= b
    ensures |r| <= b - a
  {
    file[Min(a, |file|)..Min(b, |file|)]
  }

  ghost predicate ValidJob(job: Job) {
    Inside(job.mem, job.iov)
  }

  function Header(job: Job): seq<Byte>
    requires ValidJob(job)
  {
    Content(job.mem, job.iov)
  }

  function FilePart(job: Job): seq<Byte> {
    if job.WithFile? then Slice(job.file, job.offset, job.offset + job.len) else []
  }

  /** Everything that is to be sent, as far as the file goes. */
  function Goal(job: Job): seq<Byte>
    requires ValidJob(job)
  {
    Header(job) + FilePart(job)
  }

  /** The number of bytes that the operation wants to send. */
  function Wanted(job: Job): nat {
    Total(job.iov) + if job.WithFile? then job.len else 0
  }

  /** Byte by byte, what is to be sent: the buffers, and then the file from its offset on. */
  lemma GoalBytes(job: Job, i: nat)
    requires ValidJob(job) && i < |Goal(job)|
    ensures Goal(job)[i] ==
            if i < Total(job.iov) then Content(job.mem, job.iov)[i]
            else if job.WithFile? && job.offset + (i - Total(job.iov)) < |job.file|
            then job.file[job.offset + (i - Total(job.iov))] else 0
    ensures |Goal(job)| == Total(job.iov) +
              if job.WithFile? && job.offset < |job.file| then Min(job.len, |job.file| - job.offset) else 0
  {
  }

  function FilePos(job: Job, pos: nat): nat {
    if pos > Total(job.iov) then pos - Total(job.iov) else 0
  }

  /** The next chunk of the file. */
  function Chunk(job: Job, pos: nat): seq<Byte>
    requires pos <= Wanted(job)
  {
    if job.Buffers? then []
    else
      var filePos := FilePos(job, pos);
      Slice(job.file, job.offset + filePos, job.offset + filePos + Min(job.len - filePos, CHUNK_LEN))
  }

  /** What the socket is offered in one attempt. */
  function Offer(job: Job, s: Sending): seq<Byte>
    requires Inside(job.mem, s.left) && s.pos <= Wanted(job)
  {
    Content(job.mem, s.left) + Chunk(job, s.pos)
  }

  function Finished(job: Job, s: Sending): bool {
    if job.Buffers? then s.left == [] else s.pos == Wanted(job)
  }

  function Start(job: Job): Sending {
    Sending(job.iov, 0, None, [], [])
  }

  /** One attempt: the state after it, and its error. */
  function Attempt(job: Job, s: Sending, answer: Answer): (Sending, Err)
    requires Inside(job.mem, s.left) && s.pos <= Wanted(job)
  {
    match answer
    case Refused(err) => (s, err)
    case Moved(n) =>
      var offer := Offer(job, s);
      var m := Min(n, |offer|);
      var u := s.(pos := s.pos + m, left := Rest(s.left, m), wire := s.wire + offer[..m]);
      (u, if Finished(job, u) then Ok else WouldBlock)
  }

  function Step(job: Job, s: Sending, event: Event): Sending
    requires Inside(job.mem, s.left) && s.pos <= Wanted(job)
  {
    match event
    case Abort(err) => s.(done := Some(err))
    case Perform(answer, submitted) =>
      if s.done.Some? then s.(calls := s.calls + [(s.pos, s.done.value)])
      else
        var (u, err) := Attempt(job, s, answer);
        if err != WouldBlock then u.(done := Some(err))
        else if submitted == Ok then u
        else u.(done := Some(submitted))
  }

  /** What the reactor and the sockets do: errors are errors, and a completed operation is only finalized. */
  predicate Legal(s: Sending, event: Event) {
    match event
    case Abort(err) => err != Ok && s.done.None?
    case Perform(answer, _) => s.calls == [] && answer != Refused(Ok)
  }

  /** The vector and the count describe what has not been sent, and the wire what has. */
  ghost predicate Progress(job: Job, left: seq<Iov>, pos: nat, wire: seq<Byte>)
    requires ValidJob(job)
  {
    && Inside(job.mem, left)
    && pos <= |Goal(job)| <= Wanted(job)
    && wire == Goal(job)[..pos]
    && Content(job.mem, left) == Header(job)[Min(pos, Total(job.iov))..]
  }

  ghost predicate Consistent(job: Job, s: Sending)
    requires ValidJob(job)
  {
    && Progress(job, s.left, s.pos, s.wire)
    && (s.done == Some(Ok) ==> s.pos == Wanted(job))
    && (s.calls == [] || (s.done.Some? && s.calls == [(s.pos, s.done.value)]))
  }

  lemma PieceOfPiece(file: seq<Byte>, a: nat, b: nat, p: nat, q: nat)
    requires a <= b <= |file| && p <= q <= b - a
    ensures file[a..b][p..q] == file[a + p..a + q]
  {
    forall k | 0 <= k < q - p ensures file[a..b][p..q][k] == file[a + p..a + q][k] {
      assert file[a..b][p + k] == file[a + p + k];
    }
  }

  lemma SliceOfSlice(file: seq<Byte>, offset: nat, len: nat, p: nat, chunk: nat)
    requires p <= len && chunk <= len - p && p <= |Slice(file, offset, offset + len)|
    ensures var part, whole := Slice(file, offset + p, offset + p + chunk), Slice(file, offset, offset + len);
      p + |part| <= |whole| && part == whole[p..p + |part|]
  {
    var part, whole := Slice(file, offset + p, offset + p + chunk), Slice(file, offset, offset + len);
    if part == [] {
      assert whole[p..p] == [];
    } else {
      assert offset + p < |file|;
      assert part == file[offset + p..offset + p + |part|];
      assert whole == file[offset..offset + |whole|];
      PieceOfPiece(file, offset, offset + |whole|, p, p + |part|);
    }
  }

  lemma StartIsConsistent(job: Job)
    requires ValidJob(job)
    ensures Consistent(job, Start(job))
  {
    assert Header(job)[0..] == Header(job);
  }

  lemma PartIsNext(h: seq<Byte>, f: seq<Byte>, pos: nat, p: nat, part: seq<Byte>)
    requires p == (if pos > |h| then pos - |h| else 0) && p + |part| <= |f| && part == f[p..p + |part|]
    ensures var offer := h[Min(pos, |h|)..] + part;
      pos + |offer| <= |h + f| && offer == (h + f)[pos..pos + |offer|]
  {
    if pos < |h| {
      assert part == f[..|part|];
      assert (h + f)[pos..pos + |h[pos..] + part|] == h[pos..] + f[..|part|];
    } else {
      assert h[|h|..] + part == part;
      assert (h + f)[pos..pos + |part|] == f[p..p + |part|];
    }
  }

  lemma ChunkIsNext(job: Job, pos: nat)
    requires pos <= Total(job.iov) + |FilePart(job)| <= Wanted(job)
    ensures var p, part := FilePos(job, pos), Chunk(job, pos);
      p + |part| <= |FilePart(job)| && part == FilePart(job)[p..p + |part|]
  {
    if job.WithFile? {
      var p := FilePos(job, pos);
      SliceOfSlice(job.file, job.offset, job.len, p, Min(job.len - p, CHUNK_LEN));
    }
  }

  /** Whatever part of the offer the socket moves, it is what comes next. */
  lemma OfferIsNext(job: Job, s: Sending)
    requires ValidJob(job) && Progress(job, s.left, s.pos, s.wire)
    ensures var offer := Offer(job, s);
      s.pos + |offer| <= |Goal(job)| && offer == Goal(job)[s.pos..s.pos + |offer|]
  {
    ChunkIsNext(job, s.pos);
    PartIsNext(Header(job), FilePart(job), s.pos, FilePos(job, s.pos), Chunk(job, s.pos));
  }

  const MAX_SOCKET_IOV: nat := 64
  const BUFFERED_MAX: nat := 8 * 1024

  /** What the POSIX socket makes of the offer: at most 63 header entries, and then a little of the file. */
  function SocketOffer(job: Job, s: Sending): seq<Byte>
    requires Inside(job.mem, s.left) && s.pos <= Wanted(job)
  {
    if job.Buffers? then Content(job.mem, s.left)
    else
      var chunk := Chunk(job, s.pos);
      Content(job.mem, s.left[..Min(|s.left|, MAX_SOCKET_IOV - 1)]) + chunk[..Min(|chunk|, BUFFERED_MAX)]
  }

  /** As long as the header entries fit, it is the front part of the offer, so it moves what comes next. */
  lemma SocketOfferIsNext(job: Job, s: Sending)
    requires ValidJob(job) && Progress(job, s.left, s.pos, s.wire)
    requires job.WithFile? ==> |s.left| < MAX_SOCKET_IOV
    ensures var offer := SocketOffer(job, s);
      offer <= Offer(job, s) && s.pos + |offer| <= |Goal(job)| && offer == Goal(job)[s.pos..s.pos + |offer|]
  {
    OfferIsNext(job, s);
    assert s.left[..|s.left|] == s.left;
    var offer := SocketOffer(job, s);
    assert offer == Offer(job, s)[..|offer|];
  }

  lemma {:induction false} RestIsShorter(iov: seq<Iov>, n: nat)
    ensures |Rest(iov, n)| <= |iov|
  {
    if iov != [] && iov[0].len <= n {
      RestIsShorter(iov[1..], n - iov[0].len);
    }
  }

  /** The header bytes that it passes over. */
  function Skipped(job: Job, s: Sending): seq<Byte>
    requires Inside(job.mem, s.left)
  {
    Content(job.mem, s.left[Min(|s.left|, MAX_SOCKET_IOV - 1)..])
  }

  /**
   * The POSIX socket is offered what comes next if and only if the file's bytes happen to continue as
   * the passed-over header bytes do; so always when there are fewer than 64 header entries.
   */
  lemma SocketOfferExactly(job: Job, s: Sending)
    requires ValidJob(job) && Progress(job, s.left, s.pos, s.wire) && job.WithFile?
    ensures var chunk := Chunk(job, s.pos);
      SocketOffer(job, s) <= Offer(job, s) <==>
      chunk[..Min(|chunk|, BUFFERED_MAX)] <= Skipped(job, s) + chunk
    ensures |s.left| < MAX_SOCKET_IOV ==> SocketOffer(job, s) <= Offer(job, s)
  {
    var k, chunk := Min(|s.left|, MAX_SOCKET_IOV - 1), Chunk(job, s.pos);
    var front, taken := Content(job.mem, s.left[..k]), chunk[..Min(|chunk|, BUFFERED_MAX)];
    assert Content(job.mem, s.left) == front + Skipped(job, s) by {
      assert s.left == s.left[..k] + s.left[k..];
      ContentAppend(job.mem, s.left[..k], s.left[k..]);
    }
    Associate(front, Skipped(job, s), chunk);
    PrefixBehind(front, taken, Skipped(job, s) + chunk);
    if k == |s.left| {
      assert s.left[k..] == [] && Skipped(job, s) + chunk == chunk;
    }
  }

  /** It is not when the first byte that is passed over differs from the file's next one. */
  lemma SocketSkipsEntry(job: Job, s: Sending)
    requires ValidJob(job) && Progress(job, s.left, s.pos, s.wire) && job.WithFile?
    requires Skipped(job, s) != [] && Chunk(job, s.pos) != [] && Skipped(job, s)[0] != Chunk(job, s.pos)[0]
    ensures MAX_SOCKET_IOV <= |s.left|
    ensures !(SocketOffer(job, s) <= Offer(job, s))
  {
    SocketOfferExactly(job, s);
    var chunk := Chunk(job, s.pos);
    assert chunk[..Min(|chunk|, BUFFERED_MAX)][0] != (Skipped(job, s) + chunk)[0];
  }

  lemma PrefixBehind(a: seq<Byte>, b: seq<Byte>, c: seq<Byte>)
    ensures a + b <= a + c <==> b <= c
  {
    if a + b <= a + c {
      assert b == (a + b)[|a|..] && c == (a + c)[|a|..];
      assert (a + c)[|a|..|a + b|] == c[..|b|];
    }
  }

  lemma {:induction false} ContentAppend(mem: seq<Byte>, a: seq<Iov>, b: seq<Iov>)
    requires Inside(mem, a) && Inside(mem, b)
    ensures Inside(mem, a + b) && Content(mem, a + b) == Content(mem, a) + Content(mem, b)
  {
    if a == [] {
      assert a + b == b;
    } else {
      ContentAppend(mem, a[1..], b);
      assert (a + b)[1..] == a[1..] + b;
    }
  }

  lemma NextExtends(goal: seq<Byte>, pos: nat, offer: seq<Byte>, m: nat)
    requires pos + |offer| <= |goal| && offer == goal[pos..pos + |offer|] && m <= |offer|
    ensures goal[..pos] + offer[..m] == goal[..pos + m]
  {
  }

  lemma DropTwice(h: seq<Byte>, pos: nat, m: nat)
    ensures var left := h[Min(pos, |h|)..];
      left[Min(m, |left|)..] == h[Min(pos + m, |h|)..]
  {
  }

  /** Moving the first `m` bytes of what comes next is progress. */
  lemma MovedIsProgress(job: Job, s: Sending, offer: seq<Byte>, m: nat)
    requires ValidJob(job) && Progress(job, s.left, s.pos, s.wire) && m <= |offer|
    requires s.pos + |offer| <= |Goal(job)| && offer == Goal(job)[s.pos..s.pos + |offer|]
    ensures Progress(job, Rest(s.left, m), s.pos + m, s.wire + offer[..m])
  {
    hide Rest, Goal, Content;
    NextExtends(Goal(job), s.pos, offer, m);
    RestDrops(job.mem, s.left, m);
    DropTwice(Header(job), s.pos, m);
  }

  lemma AttemptKeepsProgress(job: Job, s: Sending, answer: Answer)
    requires ValidJob(job) && Progress(job, s.left, s.pos, s.wire)
    ensures var (u, err) := Attempt(job, s, answer);
      && u == s.(left := u.left, pos := u.pos, wire := u.wire)
      && Progress(job, u.left, u.pos, u.wire) && s.wire <= u.wire
  {
    if answer.Moved? {
      OfferIsNext(job, s);
      var offer := Offer(job, s);
      MovedIsProgress(job, s, offer, Min(answer.n, |offer|));
    }
  }

  lemma FinishedExactly(job: Job, s: Sending, n: nat)
    requires ValidJob(job) && Progress(job, s.left, s.pos, s.wire)
    ensures var (u, err) := Attempt(job, s, Moved(n));
      && (err == Ok <==> u.pos == Wanted(job)) && (err == Ok || err == WouldBlock)
      && u.pos == s.pos + Min(n, |Offer(job, s)|)
  {
    var u := Attempt(job, s, Moved(n)).0;
    assert Progress(job, u.left, u.pos, u.wire) && u.left == Rest(s.left, u.pos - s.pos) by {
      AttemptKeepsProgress(job, s, Moved(n));
    }
    LeftTotal(job, s);
    RestDrops(job.mem, s.left, u.pos - s.pos);
  }

  lemma LeftTotal(job: Job, s: Sending)
    requires ValidJob(job) && Progress(job, s.left, s.pos, s.wire)
    ensures Total(s.left) == if s.pos < Total(job.iov) then Total(job.iov) - s.pos else 0
  {
  }

  lemma StepKeepsConsistent(job: Job, s: Sending, event: Event)
    requires ValidJob(job) && Consistent(job, s) && Legal(s, event)
    ensures Consistent(job, Step(job, s, event))
    ensures s.wire <= Step(job, s, event).wire
  {
    if event.Perform? && s.done.None? {
      PerformKeepsConsistent(job, s, event.answer);
    }
  }

  lemma PerformKeepsConsistent(job: Job, s: Sending, answer: Answer)
    requires ValidJob(job) && Progress(job, s.left, s.pos, s.wire) && answer != Refused(Ok)
    ensures var (u, err) := Attempt(job, s, answer);
      && u == s.(left := u.left, pos := u.pos, wire := u.wire) && s.wire <= u.wire
      && Progress(job, u.left, u.pos, u.wire) && (err == Ok ==> u.pos == Wanted(job))
  {
    AttemptKeepsProgress(job, s, answer);
    if answer.Moved? {
      FinishedExactly(job, s, answer.n);
    }
  }

  /** Each event is one that the reactor and the sockets can bring about at that point. */
  ghost predicate LegalRun(job: Job, s: Sending, events: seq<Event>)
    requires ValidJob(job) && Consistent(job, s)
    decreases |events|
  {
    events != [] ==>
      && Legal(s, events[0])
      && (StepKeepsConsistent(job, s, events[0]);
          LegalRun(job, Step(job, s, events[0]), events[1..]))
  }

  ghost function Run(job: Job, s: Sending, events: seq<Event>): Sending
    requires ValidJob(job) && Consistent(job, s) && LegalRun(job, s, events)
    decreases |events|
  {
    if events == [] then s
    else
      StepKeepsConsistent(job, s, events[0]);
      Run(job, Step(job, s, events[0]), events[1..])
  }

  /** A run of the operation from its beginning. */
  ghost predicate IsRun(job: Job, events: seq<Event>) {
    ValidJob(job) && (StartIsConsistent(job); LegalRun(job, Start(job), events))
  }

  lemma {:induction false} RunKeepsConsistent(job: Job, s: Sending, events: seq<Event>)
    requires ValidJob(job) && Consistent(job, s) && LegalRun(job, s, events)
    ensures Consistent(job, Run(job, s, events))
    ensures s.wire <= Run(job, s, events).wire
    decreases |events|
  {
    if events != [] {
      StepKeepsConsistent(job, s, events[0]);
      RunKeepsConsistent(job, Step(job, s, events[0]), events[1..]);
    }
  }

  lemma StepNeverGrows(job: Job, s: Sending, event: Event)
    requires ValidJob(job) && Consistent(job, s)
    ensures |Step(job, s, event).left| <= |s.left|
  {
    hide Content, Offer, Rest;
    if event.Perform? && s.done.None? && event.answer.Moved? {
      RestIsShorter(s.left, Min(event.answer.n, |Offer(job, s)|));
    }
  }

  /** The vector never gets longer, so header entries that fit the POSIX socket at first always do. */
  lemma {:induction false} EntriesNeverGrow(job: Job, s: Sending, events: seq<Event>)
    requires ValidJob(job) && Consistent(job, s) && LegalRun(job, s, events)
    ensures |Run(job, s, events).left| <= |s.left|
    decreases |events|
  {
    if events != [] {
      StepKeepsConsistent(job, s, events[0]);
      StepNeverGrows(job, s, events[0]);
      EntriesNeverGrow(job, Step(job, s, events[0]), events[1..]);
    }
  }

  /**
   * Over every run, the wire holds a growing prefix of the header and the file's bytes. Completing
   * without an error means that every wanted byte was sent, once and in order, and the callback is
   * called at most once, with the number of bytes on the wire.
   */
  lemma SentExactlyOnce(job: Job, events: seq<Event>)
    requires IsRun(job, events)
    ensures Consistent(job, Start(job))
    ensures var s := Run(job, Start(job), events);
      && s.pos == |s.wire| && s.wire <= Goal(job)
      && Inside(job.mem, s.left)
      && Content(job.mem, s.left) == Header(job)[Min(s.pos, Total(job.iov))..]
      && (s.done == Some(Ok) ==> s.wire == Goal(job) && |s.wire| == Wanted(job))
      && |s.calls| <= 1
      && (s.calls != [] ==> s.done.Some? && s.calls[0] == (|s.wire|, s.done.value))
  {
    StartIsConsistent(job);
    RunKeepsConsistent(job, Start(job), events);
    ConsistentMeans(job, Run(job, Start(job), events));
  }

  lemma ConsistentMeans(job: Job, s: Sending)
    requires ValidJob(job) && Consistent(job, s)
    ensures s.pos == |s.wire| && s.wire <= Goal(job)
    ensures s.done == Some(Ok) ==> s.wire == Goal(job) && |s.wire| == Wanted(job)
  {
  }

  /** An attempt that moves bytes brings a started operation nearer to its end. */
  predicate Moves(event: Event) {
    event.Perform? && event.submitted == Ok && event.answer.Moved? && event.answer.n > 0
  }

  /** Something is offered as long as something is left of the header and the file. */
  lemma OfferLeft(job: Job, s: Sending)
    requires ValidJob(job) && Progress(job, s.left, s.pos, s.wire) && s.pos < |Goal(job)|
    ensures |Offer(job, s)| > 0
  {
    LeftTotal(job, s);
  }

  lemma AttemptAdvances(job: Job, s: Sending, n: nat)
    requires ValidJob(job) && Progress(job, s.left, s.pos, s.wire) && |Goal(job)| == Wanted(job) && n > 0
    ensures var (u, err) := Attempt(job, s, Moved(n));
      && (err == Ok || (err == WouldBlock && s.pos < u.pos))
      && (s.pos + 1 >= Wanted(job) ==> err == Ok)
  {
    FinishedExactly(job, s, n);
    assert s.pos <= Attempt(job, s, Moved(n)).0.pos <= Wanted(job) by {
      AttemptKeepsProgress(job, s, Moved(n));
    }
    if s.pos < Wanted(job) {
      OfferLeft(job, s);
    }
  }

  lemma MoveAdvances(job: Job, s: Sending, event: Event)
    requires ValidJob(job) && Consistent(job, s) && |Goal(job)| == Wanted(job)
    requires s.done.None? && s.calls == [] && Moves(event)
    ensures var u := Step(job, s, event);
      && Consistent(job, u) && u.calls == []
      && (u.done == Some(Ok) || (u.done.None? && s.pos < u.pos))
      && (s.pos + 1 >= Wanted(job) ==> u.done == Some(Ok))
  {
    StepKeepsConsistent(job, s, event);
    AttemptAdvances(job, s, event.answer.n);
  }

  ghost predicate Completes(job: Job, s: Sending, events: seq<Event>) {
    ValidJob(job) && Consistent(job, s) && LegalRun(job, s, events) && Run(job, s, events).done == Some(Ok)
  }

  lemma CompletesFirst(job: Job, s: Sending, events: seq<Event>)
    requires ValidJob(job) && Consistent(job, s) && events != [] && Legal(s, events[0])
    requires Completes(job, Step(job, s, events[0]), events[1..])
    ensures Completes(job, s, events)
  {
  }

  /**
   * An operation whose file is long enough completes, without an error, within as many attempts as
   * there are bytes, however few of them each attempt moves.
   */
  lemma {:induction false} SendingCompletes(job: Job, s: Sending, events: seq<Event>)
    requires ValidJob(job) && Consistent(job, s) && |Goal(job)| == Wanted(job) && s.done.None? && s.calls == []
    requires forall i :: 0 <= i < |events| ==> Moves(events[i])
    requires events != [] && Wanted(job) - s.pos <= |events|
    ensures exists k: nat :: k <= |events| && Completes(job, s, events[..k])
    decreases |events|
  {
    hide Attempt, Content, Rest;
    MoveAdvances(job, s, events[0]);
    var u := Step(job, s, events[0]);
    var k: nat := 0;
    if u.done.None? {
      SendingCompletes(job, u, events[1..]);
      k :| k <= |events[1..]| && Completes(job, u, events[1..][..k]);
    }
    assert events[..k + 1][1..] == events[1..][..k];
    CompletesFirst(job, s, events[..k + 1]);
  }

  /** On a shorter file an attempt leaves the operation waiting, with every byte sent that there was room for. */
  lemma ShortMoveWaits(job: Job, s: Sending, event: Event)
    requires ValidJob(job) && Consistent(job, s) && |Goal(job)| < Wanted(job)
    requires s.done.None? && s.calls == [] && Moves(event)
    ensures var u := Step(job, s, event);
      && Consistent(job, u) && u.done.None? && u.calls == []
      && (s.pos < |Goal(job)| ==> s.pos < u.pos)
  {
    StepKeepsConsistent(job, s, event);
    FinishedExactly(job, s, event.answer.n);
    assert s.pos <= |Goal(job)| && Step(job, s, event).pos <= |Goal(job)|;
    if s.pos < |Goal(job)| {
      OfferLeft(job, s);
    }
  }

  /**
   * If the file is shorter than announced, the operation never ends by itself: it sends what there
   * is, and every further attempt moves nothing and is submitted again.
   */
  lemma {:induction false} ShortFileNeverEnds(job: Job, s: Sending, events: seq<Event>)
    requires ValidJob(job) && Consistent(job, s) && |Goal(job)| < Wanted(job) && s.done.None? && s.calls == []
    requires forall i :: 0 <= i < |events| ==> Moves(events[i])
    ensures LegalRun(job, s, events)
    ensures var u := Run(job, s, events);
      u.done.None? && u.calls == [] && Min(s.pos + |events|, |Goal(job)|) <= u.pos
    decreases |events|
  {
    if events != [] {
      var u := Step(job, s, events[0]);
      assert Consistent(job, u) && u.done.None? && u.calls == [] && (s.pos < |Goal(job)| ==> s.pos < u.pos) by {
        ShortMoveWaits(job, s, events[0]);
      }
      ShortFileNeverEnds(job, u, events[1..]);
    }
  }

  /** The file holds the announced bytes. */
  predicate HoldsAll(job: Job) {
    job.WithFile? ==> job.len == 0 || job.offset + job.len <= |job.file|
  }

  lemma HoldsAllExactly(job: Job)
    requires ValidJob(job)
    ensures |Goal(job)| == Wanted(job) <==> HoldsAll(job)
    ensures |Goal(job)| <= Wanted(job)
  {
  }

  ghost predicate Ends(job: Job, s: Sending, events: seq<Event>) {
    ValidJob(job) && Consistent(job, s) && LegalRun(job, s, events) && Run(job, s, events).done.Some?
  }

  /**
   * Attempts that each move a byte if one is offered end the operation, within as many attempts as
   * there are bytes, if and only if the file holds the announced bytes; and then it ends with success.
   */
  lemma SendingEndsExactly(job: Job, s: Sending, events: seq<Event>)
    requires ValidJob(job) && Consistent(job, s) && s.done.None? && s.calls == []
    requires forall i :: 0 <= i < |events| ==> Moves(events[i])
    requires events != [] && Wanted(job) - s.pos <= |events|
    ensures (exists k: nat :: k <= |events| && Ends(job, s, events[..k])) <==> HoldsAll(job)
    ensures (exists k: nat :: k <= |events| && Completes(job, s, events[..k])) <==> HoldsAll(job)
  {
    HoldsAllExactly(job);
    if HoldsAll(job) {
      SendingCompletes(job, s, events);
      var k: nat :| k <= |events| && Completes(job, s, events[..k]);
      assert Ends(job, s, events[..k]);
    } else {
      forall k: nat | k <= |events|
        ensures !Ends(job, s, events[..k]) && !Completes(job, s, events[..k])
      {
        ShortFileNeverEnds(job, s, events[..k]);
      }
    }
  }

  // ---------------------------------------------------------------- receiving

  /** The receive operation: its buffer, the bytes received so far, and its result. */
  datatype Receiving = Receiving(buf: seq<Byte>, pos: nat, done: Option<Err>, calls: seq<(nat, Err)>)

  datatype Arrival = Data(bytes: seq<Byte>) | NoData(err: Err)

  datatype RecvEvent = Recv(arrival: Arrival, submitted: Err) | Drop(err: Err)

  /** The arrived bytes, as far as the buffer goes. */
  function Taken(r: Receiving, bytes: seq<Byte>): (t: seq<Byte>)
    requires r.pos <= |r.buf|
    ensures r.pos + |t| <= |r.buf|
  {
    bytes[..Min(|bytes|, |r.buf| - r.pos)]
  }

  function RecvStep(exact: bool, r: Receiving, event: RecvEvent): (u: Receiving)
    requires r.pos <= |r.buf|
    ensures u.pos <= |u.buf| == |r.buf|
  {
    match event
    case Drop(err) => r.(done := Some(err))
    case Recv(arrival, submitted) =>
      if r.done.Some? then r.(calls := r.calls + [(r.pos, r.done.value)])
      else
        var t := if arrival.Data? then Taken(r, arrival.bytes) else [];
        var u := r.(buf := r.buf[..r.pos] + t + r.buf[r.pos + |t|..], pos := r.pos + |t|);
        var err := if arrival.NoData? then arrival.err
                   else if !exact || u.pos == |u.buf| then Ok else WouldBlock;
        if err != WouldBlock then u.(done := Some(err))
        else if submitted == Ok then u
        else u.(done := Some(submitted))
  }

  predicate RecvLegal(r: Receiving, event: RecvEvent) {
    match event
    case Drop(err) => err != Ok && r.done.None?
    case Recv(arrival, _) => r.calls == [] && arrival != NoData(Ok)
  }

  /** The bytes that the socket hands over in one step. */
  function Handed(r: Receiving, event: RecvEvent): (t: seq<Byte>)
    requires r.pos <= |r.buf|
    ensures r.pos + |t| <= |r.buf|
  {
    if event.Recv? && r.done.None? && event.arrival.Data? then Taken(r, event.arrival.bytes) else []
  }

  /** The bytes that the socket hands over during a run. */
  function Delivered(exact: bool, r: Receiving, events: seq<RecvEvent>): seq<Byte>
    requires r.pos <= |r.buf|
    decreases |events|
  {
    if events == [] then []
    else Handed(r, events[0]) + Delivered(exact, RecvStep(exact, r, events[0]), events[1..])
  }

  function RecvRun(exact: bool, r: Receiving, events: seq<RecvEvent>): Receiving
    requires r.pos <= |r.buf|
    decreases |events|
  {
    if events == [] then r else RecvRun(exact, RecvStep(exact, r, events[0]), events[1..])
  }

  ghost predicate RecvLegalRun(exact: bool, r: Receiving, events: seq<RecvEvent>)
    requires r.pos <= |r.buf|
    decreases |events|
  {
    events != [] ==>
      RecvLegal(r, events[0]) && RecvLegalRun(exact, RecvStep(exact, r, events[0]), events[1..])
  }

  ghost predicate RecvConsistent(exact: bool, r: Receiving) {
    && r.pos <= |r.buf|
    && (exact && r.done == Some(Ok) ==> r.pos == |r.buf|)
    && (r.calls == [] || (r.done.Some? && r.calls == [(r.pos, r.done.value)]))
  }

  /** `bytes` have been written over `buf` from `pos` on. */
  predicate Wrote(buf: seq<Byte>, pos: nat, bytes: seq<Byte>, after: seq<Byte>) {
    pos + |bytes| <= |buf| && after == buf[..pos] + bytes + buf[pos + |bytes|..]
  }

  lemma WroteNothing(buf: seq<Byte>, pos: nat)
    requires pos <= |buf|
    ensures Wrote(buf, pos, [], buf)
  {
  }

  lemma WroteTwice(buf: seq<Byte>, pos: nat, a: seq<Byte>, once: seq<Byte>, b: seq<Byte>, twice: seq<Byte>)
    requires Wrote(buf, pos, a, once) && Wrote(once, pos + |a|, b, twice)
    ensures |once| == |buf| && Wrote(buf, pos, a + b, twice)
  {
    assert once[..pos + |a|] == buf[..pos] + a;
    assert once[pos + |a| + |b|..] == buf[pos + |a| + |b|..];
  }

  lemma RecvStepWrites(exact: bool, r: Receiving, event: RecvEvent)
    requires RecvConsistent(exact, r) && RecvLegal(r, event)
    ensures var u := RecvStep(exact, r, event); var t := Handed(r, event);
      RecvConsistent(exact, u) && u.pos == r.pos + |t| && Wrote(r.buf, r.pos, t, u.buf)
  {
    WroteNothing(r.buf, r.pos);
  }

  /**
   * Over every run, the buffer is its first content with the delivered bytes, in order, written over
   * its front; an exact receive only succeeds with a full buffer.
   */
  lemma {:induction false} ReceivedInOrder(exact: bool, r: Receiving, events: seq<RecvEvent>)
    requires RecvConsistent(exact, r) && RecvLegalRun(exact, r, events)
    ensures var u := RecvRun(exact, r, events); var bytes := Delivered(exact, r, events);
      RecvConsistent(exact, u) && u.pos == r.pos + |bytes| && Wrote(r.buf, r.pos, bytes, u.buf)
    decreases |events|
  {
    if events == [] {
      WroteNothing(r.buf, r.pos);
    } else {
      var u := RecvStep(exact, r, events[0]);
      RecvStepWrites(exact, r, events[0]);
      ReceivedInOrder(exact, u, events[1..]);
      WroteTwice(r.buf, r.pos, Handed(r, events[0]), u.buf, Delivered(exact, u, events[1..]),
                 RecvRun(exact, u, events[1..]).buf);
    }
  }
}
