/** With which error an operation ends, read off event bits, answers of the system, clock and cancellations. */
module Outcomes {
  import opened Bytes
  import H = HandleIndex
  import opened LoopSpec
  import opened ReactorSpec
  import opened SchedulerSpec
  import opened Completion

  // ---------- One attempt ----------

  /** The operation has ended with this error: it is queued, last, and nowhere else. */
  predicate EndedWith(l: Loop, l': Loop, id: OpId, err: Error)
    requires id in l.ops
  {
    && id in l'.ops && l'.ops[id].completed && l'.ops[id].err == err && l'.ops[id].calls == l.ops[id].calls
    && l'.queue == l.queue + [OpTask(id)] && l'.fds == l.fds && l.ops[id].slot !in l'.pending
  }

  /** The operation waits: it is parked in its slot, with one more entry. */
  predicate WaitsAgain(l: Loop, l': Loop, id: OpId)
    requires id in l.ops
  {
    var slot := l.ops[id].slot;
    && id in l'.ops && !l'.ops[id].completed && slot in l'.pending && l'.pending[slot] == id
    && l'.fds == l.fds + [slot] && l'.queue == l.queue
  }

  /** The other operations are as they were. */
  predicate OthersStay(l: Loop, l': Loop, id: OpId) {
    forall x :: x in l.ops && x != id ==> x in l'.ops && l'.ops[x] == l.ops[x]
  }

  /** What an attempt at an operation that is in no slot leads to. */
  lemma AttemptGives(l: Loop, id: OpId, a: Attempt, now: int)
    requires id in l.ops && l.ops[id].slot.fd in l.handles && l.ops[id].slot !in l.pending && !l.ops[id].completed
    ensures var l' := Perform(l, id, a, now);
            && id in l'.ops && l'.ops[id].slot == l.ops[id].slot && l'.ops[id].calls == l.ops[id].calls
            && l'.ops[id].attempts == l.ops[id].attempts + 1 && !l'.ops[id].immediate
            && OthersStay(l, l', id) && l'.numTasks == l.numTasks + 1
            && match a
               case Finished(err, _) => EndedWith(l, l', id, err)
               case WouldBlock(true) => WaitsAgain(l, l', id)
               case WouldBlock(false) => EndedWith(l, l', id, BadAlloc)
  {
    hide H.Add;
  }

  /** An accepted connection gets a handle of its own, which the index finds if it was right. */
  lemma AcceptedGetsHandle(l: Loop, id: OpId, err: Error, fd: int, now: int)
    requires id in l.ops && l.ops[id].slot.fd in l.handles && fd !in l.handles
    ensures var l' := Perform(l, id, Finished(err, Some(fd)), now);
            && l'.handles == l.handles[fd := Handle(false, 0)]
            && (Indexed(l) ==> Looked(l', fd))
  {
    hide H.Add, H.Finds, H.HandleAt;
    var l' := Perform(l, id, Finished(err, Some(fd)), now);
    if Indexed(l) {
      PerformKeepsIndexed(l, id, Finished(err, Some(fd)), now);
      LookedIsLive(l', fd);
    }
  }

  /** A live handle may be cancelled and its timeout switched; a free descriptor may get a new one. */
  lemma CallersMay(l: Loop, fd: int, enabled: bool)
    ensures fd in l.handles ==> Enabled(l, Cancel(fd)) && Enabled(l, EnableTimeout(fd, enabled))
    ensures fd !in l.handles ==> Enabled(l, Create(fd))
  {
  }

  // ---------- One poll entry ----------

  /** The entry's direction is among the reported bits. */
  predicate ReadyFor(typ: OpType, r: Revents) {
    match typ case Read => r.pin case Write => r.pout
  }

  /**
   The error that an entry's report means for the operation it leads to, if it ends it: that of a
   finished retry when it is ready, else that of the first of the other bits, else a timeout.
   */
  function ErrorSaid(typ: OpType, ready: Ready, late: bool): Option<Error> {
    var r := ready.revents;
    if (typ == Read && r.pin) || (typ == Write && r.pout) then
      match ready.attempt
      case Finished(err, _) => Some(err)
      case WouldBlock(pushOk) => if pushOk then None else Some(BadAlloc)
    else if r.hup then Some(EndOfFile)
    else if r.err || r.pri then Some(IoError)
    else if r.nval then Some(BadFd)
    else if r.pin || r.pout || r.other then Some(UnknownEvent)
    else if late then Some(TimedOut)
    else None
  }

  /** The handle's timeout is enabled and has passed. */
  predicate Late(l: Loop, fd: int, now: int) {
    fd in l.handles && l.handles[fd].timeoutEnabled && l.handles[fd].expire <= now
  }

  /** A ready entry makes its operation try again, once, whatever else is reported; the others are as they were. */
  lemma ReadyTriesAgain(l: Loop, slot: Slot, ready: Ready)
    requires Core(l) && Target(l, slot).Some? && ReadyFor(Target(l, slot).value.typ, ready.revents)
    ensures var (l', keep), id := Service(l, slot, ready), l.pending[Target(l, slot).value];
            && !keep && id in l.ops && id in l'.ops && l'.ops[id].attempts == l.ops[id].attempts + 1
            && OthersStay(l, l', id) && l'.numTasks == l.numTasks
            && match ready.attempt
               case Finished(err, _) => EndedWith(l, l', id, err)
               case WouldBlock(true) => WaitsAgain(l, l', id)
               case WouldBlock(false) => EndedWith(l, l', id, BadAlloc)
  {
    hide Perform, Lookup, Core;
    var at := Target(l, slot).value;
    UnparkCore(l, at);
    AttemptGives(Unpark(l, at), l.pending[at], ready.attempt, ready.now);
  }

  /** An entry that is not ready ends its operation, without a try, exactly if some bit is set or it is late. */
  lemma NotReadyGivesUp(l: Loop, slot: Slot, ready: Ready)
    requires Core(l) && Target(l, slot).Some? && !ReadyFor(Target(l, slot).value.typ, ready.revents)
    ensures var (l', keep), at := Service(l, slot, ready), Target(l, slot).value;
            var id, said := l.pending[at], ErrorSaid(at.typ, ready, Late(l, at.fd, ready.now));
            && id in l.ops
            && if said.None? then l' == l && keep
               else
                 && !keep && EndedWith(l, l', id, said.value) && l'.ops[id].attempts == l.ops[id].attempts
                 && OthersStay(l, l', id) && l'.numTasks == l.numTasks
  {
    hide Perform, Lookup, Core;
    UnparkCore(l, Target(l, slot).value);
  }

  /** An entry that leads to no operation does nothing and is dropped. */
  lemma NoTargetIsDropped(l: Loop, slot: Slot, ready: Ready)
    requires Core(l) && Target(l, slot) == None
    ensures Service(l, slot, ready) == (l, false)
  {
  }

  /** Serving an entry ends the operation it leads to exactly with the error that the report means. */
  lemma ServiceSays(l: Loop, slot: Slot, ready: Ready)
    requires Core(l) && Target(l, slot).Some?
    ensures var l', at := Service(l, slot, ready).0, Target(l, slot).value;
            var id, said := l.pending[at], ErrorSaid(at.typ, ready, Late(l, at.fd, ready.now));
            && id in l.ops && id in l'.ops
            && (said.Some? ==> EndedWith(l, l', id, said.value))
            && (said.None? ==> !l'.ops[id].completed && at in l'.pending && l'.pending[at] == id)
            && (ReadyFor(at.typ, ready.revents) ==> l'.ops[id].attempts == l.ops[id].attempts + 1)
  {
    hide Service, Lookup;
    UnparkCore(l, Target(l, slot).value);
    if ReadyFor(Target(l, slot).value.typ, ready.revents) {
      ReadyTriesAgain(l, slot, ready);
    } else {
      NotReadyGivesUp(l, slot, ready);
    }
  }

  // ---------- A whole run ----------

  /** The slot that entry `i` leads to when its turn comes. */
  ghost function TargetAt(l: Loop, entries: seq<Slot>, ready: seq<Ready>, i: nat): Option<Slot>
    requires Core(l) && |entries| == |ready| && i < |entries|
  {
    Target(Before(l, entries, ready, i), entries[i])
  }

  /** From the turn of entry `i` on, the rest of the run only adds. */
  lemma {:induction false} SweepGoesOn(l: Loop, entries: seq<Slot>, ready: seq<Ready>, i: nat)
    requires Core(l) && |entries| == |ready| && i < |entries|
    ensures Grows(l, Before(l, entries, ready, i))
    ensures Grows(Service(Before(l, entries, ready, i), entries[i], ready[i]).0, Sweep(l, entries, ready).l)
    decreases |entries|
  {
    var l1 := Service(l, entries[0], ready[0]).0;
    ServiceCore(l, entries[0], ready[0]);
    if i == 0 {
      assert entries[..0] == [] && ready[..0] == [];
      SweepGrows(l1, entries[1..], ready[1..]);
    } else {
      SweepGoesOn(l1, entries[1..], ready[1..], i - 1);
      BeforeStep(l, entries, ready, i);
      SweepGrows(l, entries[..i], ready[..i]);
    }
  }

  /** The operation that entry `i` leads to, when its turn comes, ends in this run with the error that is reported. */
  lemma RunSays(l: Loop, ready: seq<Ready>, i: nat)
    requires Core(l) && |ready| == |l.fds| && i < |l.fds| && TargetAt(l, l.fds, ready, i).Some?
    ensures var b, at := Before(l, l.fds, ready, i), TargetAt(l, l.fds, ready, i).value;
            var id, said := b.pending[at], ErrorSaid(at.typ, ready[i], Late(b, at.fd, ready[i].now));
            var l' := RunReactor(l, PollResult.Polled(ready));
            && id in b.ops && id in l'.ops
            && (said.Some? ==> l'.ops[id].completed && l'.ops[id].err == said.value && OpTask(id) in l'.queue)
            && (ReadyFor(at.typ, ready[i].revents) ==> b.ops[id].attempts < l'.ops[id].attempts)
  {
    hide Core, Service, Sweep, Lookup, ErrorSaid, Late;
    var b := Before(l, l.fds, ready, i);
    var l1 := Service(b, l.fds[i], ready[i]).0;
    ServiceSays(b, l.fds[i], ready[i]);
    SweepGoesOn(l, l.fds, ready, i);
    SweepGrows(l, l.fds, ready);
    var id := b.pending[TargetAt(l, l.fds, ready, i).value];
    if l1.queue == b.queue + [OpTask(id)] {
      assert l1.queue[|b.queue|] == OpTask(id);
    }
  }

  /**
   With a right index: a parked operation whose entry is ready is attempted again in this run, and one
   whose entry's report means an error ends with that error.
   */
  lemma EventSays(l: Loop, ready: seq<Ready>, i: nat)
    requires Inv(l) && |ready| == |l.fds| && i < |l.fds| && l.fds[i] in l.pending && l.fds[i] !in l.fds[..i]
    ensures var slot, l' := l.fds[i], RunReactor(l, PollResult.Polled(ready));
            var id := l.pending[slot];
            && id in l.ops && id in l'.ops
            && (ReadyFor(slot.typ, ready[i].revents) ==> l.ops[id].attempts < l'.ops[id].attempts)
            && forall err :: ErrorSaid(slot.typ, ready[i], false) == Some(err) ==>
                 l'.ops[id].completed && l'.ops[id].err == err
  {
    hide Grows, Core, Complete, H.Finds, Service, Sweep;
    var slot := l.fds[i];
    assert Parked(l, slot) by { UnparkCore(l, slot); }
    OthersLeave(l, l.fds[..i], ready[..i], slot);
    TargetIsOwn(Before(l, l.fds, ready, i), slot);
    RunSays(l, ready, i);
    SweepGoesOn(l, l.fds, ready, i);
  }

  // ---------- What callers do ----------

  /** A new operation is attempted at once; it ends, or waits, like any attempted one. */
  lemma StartGives(l: Loop, id: OpId, slot: Slot, a: Attempt, now: int)
    requires Core(l) && Enabled(l, StartOp(id, slot, a, now))
    ensures var l' := Apply(l, StartOp(id, slot, a, now));
            && id in l'.ops && l'.ops[id].slot == slot && l'.ops[id].attempts == 1 && l'.ops[id].calls == 0
            && OthersStay(l, l', id) && l'.numTasks == l.numTasks + 1
            && match a
               case WouldBlock(true) =>
                 && !l'.ops[id].completed && slot in l'.pending && l'.pending[slot] == id
                 && l'.fds == l.fds + [slot] && l'.queue == l.queue
               case _ =>
                 && l'.ops[id].completed && l'.ops[id].err == (if a.Finished? then a.err else BadAlloc)
                 && l'.queue == l.queue + [OpTask(id)] && l'.fds == l.fds && slot !in l'.pending
  {
    hide Perform, Located, Parked;
    AttemptGives(l.(ops := l.ops[id := Op(slot, true, false, NoError, 0, 0)]), id, a, now);
  }

  /** The operation parked in a slot, if any. */
  function ParkedAt(l: Loop, slot: Slot): seq<OpId> {
    if slot in l.pending then [l.pending[slot]] else []
  }

  function TasksOf(ids: seq<OpId>): seq<Task> {
    if ids == [] then [] else [OpTask(ids[0])] + TasksOf(ids[1..])
  }

  /** These operations have ended with Canceled, in this order, and no other has changed. */
  predicate Cancelled(l: Loop, l': Loop, ids: seq<OpId>) {
    && l'.queue == l.queue + TasksOf(ids)
    && l'.numTasks == l.numTasks && l'.fds == l.fds && l'.handles == l.handles
    && (forall x :: x in ids ==> x in l.ops)
    && (forall x :: x in l.ops ==> x in l'.ops)
    && (forall x :: x in l.ops ==>
          l'.ops[x] == if x in ids then l.ops[x].(completed := true, err := Canceled) else l.ops[x])
  }

  lemma CancelledTwice(l: Loop, l1: Loop, l2: Loop, a: seq<OpId>, b: seq<OpId>)
    requires Cancelled(l, l1, a) && Cancelled(l1, l2, b) && |a| <= 1
    requires forall x :: x in b ==> x in l.ops
    ensures Cancelled(l, l2, a + b)
  {
    TasksOfBoth(a, b);
    Associate(l.queue, TasksOf(a), TasksOf(b));
  }

  lemma BothCancelled(l: Loop, r: Slot, w: Slot, l1: Loop, l2: Loop)
    requires Core(l) && r != w && Core(l1)
    requires Cancelled(l, l1, ParkedAt(l, r)) && l1.pending == l.pending - {r}
    requires Cancelled(l1, l2, ParkedAt(l1, w)) && l2.pending == l1.pending - {w}
    ensures Cancelled(l, l2, ParkedAt(l, r) + ParkedAt(l, w)) && l2.pending == l.pending - {r, w}
  {
    hide Core, Cancelled;
    SlotsApart(l, r, w);
    CancelledTwice(l, l1, l2, ParkedAt(l, r), ParkedAt(l, w));
  }

  /** Cancelling ends what is parked at the descriptor, reading before writing, with Canceled, and nothing else. */
  lemma CancelGives(l: Loop, fd: int)
    requires Core(l) && Enabled(l, Cancel(fd))
    ensures var l' := Apply(l, Cancel(fd));
            && Cancelled(l, l', ParkedAt(l, Slot(fd, Read)) + ParkedAt(l, Slot(fd, Write)))
            && l'.pending == l.pending - {Slot(fd, Read), Slot(fd, Write)}
  {
    hide CancelSlot, Core, Cancelled, ParkedAt, Lookup;
    var r, w := Slot(fd, Read), Slot(fd, Write);
    CancelOneGives(l, r);
    var l1 := CancelSlot(l, r);
    CancelKeepsCore(l, r);
    CancelOneGives(l1, w);
    BothCancelled(l, r, w, l1, CancelSlot(l1, w));
  }

  /** No operation is parked in two slots. */
  lemma SlotsApart(l: Loop, a: Slot, b: Slot)
    requires Core(l) && a != b
    ensures forall x :: x in ParkedAt(l, a) ==> x in l.ops && x !in ParkedAt(l, b)
    ensures forall x :: x in ParkedAt(l, b) ==> x in l.ops
  {
    hide Located;
    assert a in l.pending ==> Parked(l, a);
    assert b in l.pending ==> Parked(l, b);
  }

  lemma TasksOfBoth(a: seq<OpId>, b: seq<OpId>)
    requires |a| <= 1
    ensures TasksOf(a + b) == TasksOf(a) + TasksOf(b)
  {
    if a == [] {
      assert a + b == b;
    } else {
      assert (a + b)[1..] == b && a[1..] == [];
    }
  }

  lemma CancelOneGives(l: Loop, slot: Slot)
    requires Core(l)
    ensures slot in l.pending ==> l.pending[slot] in l.ops
    ensures var l' := CancelSlot(l, slot);
            Cancelled(l, l', ParkedAt(l, slot)) && l'.pending == l.pending - {slot}
  {
    hide Located, Core;
    if slot in l.pending {
      UnparkCore(l, slot);
      assert TasksOf([l.pending[slot]]) == [OpTask(l.pending[slot])];
    } else {
      assert l.queue + [] == l.queue && l.pending - {slot} == l.pending;
    }
  }

  /** A new handle has no timeout; handles go away only when destroyed, and timeouts change only when set. */
  lemma HandlesGive(l: Loop, fd: int, enabled: bool)
    requires Core(l)
    ensures Enabled(l, Create(fd)) ==> Apply(l, Create(fd)).handles == l.handles[fd := Handle(false, 0)]
    ensures Enabled(l, Destroy(fd)) ==> Apply(l, Destroy(fd)).handles == l.handles - {fd}
    ensures Enabled(l, EnableTimeout(fd, enabled)) ==>
              Apply(l, EnableTimeout(fd, enabled)).handles ==
                l.handles[fd := Handle(enabled, l.handles[fd].expire)]
  {
    hide H.Add, H.Remove;
  }

  // ---------- The error stays until the callback ----------

  lemma StepKeepsResult(l: Loop, i: Input, id: OpId)
    requires InputOk(l, i) && id in l.ops && l.ops[id].completed
    ensures id in Step(l, i).ops && Step(l, i).ops[id].completed && Step(l, i).ops[id].err == l.ops[id].err
  {
    hide Core, Apply, Enabled;
    match i
    case Outside(a) => ApplyGrows(l, a);
    case Turn(p, script) =>
      if l.numTasks != 0 {
        if l.queue[0].OpTask? {
          QueueHead(l);
          TaskKeepsResult(l, script, id);
        } else {
          TurnKeepsResult(l, p, id);
          ReactorTurnKeeps(l, p);
          if |l.queue| > 1 {
            SecondTask(l, p);
            QueueHead(ReactorTurn(l, p));
            TaskKeepsResult(ReactorTurn(l, p), script, id);
          }
        }
      }
  }

  lemma TaskKeepsResult(l: Loop, script: seq<Action>, id: OpId)
    requires Idle(l) && l.queue[0].OpTask? && QueuedOk(l, l.queue[0]) && ScriptOk(Popped(l), script)
    requires id in l.ops && l.ops[id].completed
    ensures var l' := RunTask(l, script); id in l'.ops && l'.ops[id].completed && l'.ops[id].err == l.ops[id].err
  {
    hide Core, Apply;
    PoppedKeeps(l);
    ScriptKeeps(Popped(l), script);
  }

  lemma TurnKeepsResult(l: Loop, p: PollResult, id: OpId)
    requires Idle(l) && l.queue[0] == ReactorTask && Answers(p, l) && id in l.ops && l.ops[id].completed
    ensures var l' := ReactorTurn(l, p); id in l'.ops && l'.ops[id].completed && l'.ops[id].err == l.ops[id].err
  {
    hide Core, Service;
    PopReactorKeeps(l);
    var l1 := l.(queue := l.queue[1..]);
    if p.Polled? {
      SweepGrows(l1, l1.fds, p.ready);
    }
  }

  /** Over any run. */
  lemma {:induction false} ResultStays(l: Loop, inputs: seq<Input>, id: OpId)
    requires IsTrace(l, inputs) && id in l.ops && l.ops[id].completed
    ensures var l' := Trace(l, inputs); id in l'.ops && l'.ops[id].completed && l'.ops[id].err == l.ops[id].err
    decreases |inputs|
  {
    hide Step, InputOk;
    if inputs != [] {
      StepKeepsResult(l, inputs[0], id);
      ResultStays(Step(l, inputs[0]), inputs[1..], id);
    }
  }

  // ---------- From poll(2) to the callback ----------

  lemma EndsExactly(l: Loop, at: Slot, ready: Ready)
    requires at.fd in l.handles
    ensures Ends(l, at, ready) <==> ErrorSaid(at.typ, ready, Late(l, at.fd, ready.now)).Some?
  {
  }

  /** The error that entry `i` means for its own slot, when its turn comes in the reactor's run. */
  ghost function SaidAt(l: Loop, ready: seq<Ready>, i: nat): Option<Error>
    requires Idle(l) && l.queue[0] == ReactorTask && |ready| == |l.fds| && i < |l.fds|
  {
    PopReactorKeeps(l);
    var b := Before(l.(queue := l.queue[1..]), l.fds, ready, i);
    if l.fds[i].fd in b.handles then ErrorSaid(l.fds[i].typ, ready[i], Late(b, l.fds[i].fd, ready[i].now)) else None
  }

  lemma SaidEnds(l: Loop, ready: seq<Ready>, i: nat)
    requires Idle(l) && l.queue[0] == ReactorTask && |ready| == |l.fds| && i < |l.fds| && SaidAt(l, ready, i).Some?
    ensures ServedEnds(l, ready, i)
  {
    hide ErrorSaid, Late, Ends, Before, Core;
    TurnQueues(l, ready, i);
    EndsExactly(Before(l.(queue := l.queue[1..]), l.fds, ready, i), l.fds[i], ready[i]);
  }

  /** The poll that runs the reactor leaves the operation with the error that its entry means. */
  lemma TurnSays(l: Loop, ready: seq<Ready>, i: nat)
    requires Idle(l) && Inv(l) && l.queue[0] == ReactorTask && |ready| == |l.fds| && i < |l.fds|
    requires l.fds[i] in l.pending && l.fds[i] !in l.fds[..i] && SaidAt(l, ready, i).Some?
    ensures var l', id := ReactorTurn(l, PollResult.Polled(ready)), l.pending[l.fds[i]];
            id in l'.ops && l'.ops[id].completed && l'.ops[id].err == SaidAt(l, ready, i).value
  {
    hide Core, Service, Sweep, Lookup, ErrorSaid, Late, RunReactor;
    PopReactorKeeps(l);
    var l1, slot := l.(queue := l.queue[1..]), l.fds[i];
    OthersLeave(l1, l.fds[..i], ready[..i], slot);
    TargetIsOwn(Before(l1, l.fds, ready, i), slot);
    RunSays(l1, ready, i);
  }

  lemma PollSays(l: Loop, ready: seq<Ready>, script: seq<Action>, i: nat)
    requires Idle(l) && Inv(l) && l.queue[0] == ReactorTask && l.numTasks != 0
    requires PollOk(l, PollResult.Polled(ready), script) && |ready| == |l.fds| && i < |l.fds|
    requires l.fds[i] in l.pending && l.fds[i] !in l.fds[..i] && SaidAt(l, ready, i).Some?
    ensures var l', id := PollOnce(l, PollResult.Polled(ready), script).1, l.pending[l.fds[i]];
            id in l'.ops && l'.ops[id].completed && l'.ops[id].err == SaidAt(l, ready, i).value
  {
    hide Core, SaidAt, RunReactor, RunTask, ReactorTurn;
    var p := PollResult.Polled(ready);
    TurnSays(l, ready, i);
    if |l.queue| > 1 {
      ReactorTurnKeeps(l, p);
      SecondTask(l, p);
      QueueHead(ReactorTurn(l, p));
      TaskKeepsResult(ReactorTurn(l, p), script, l.pending[l.fds[i]]);
    }
  }

  /**
   In any run that destroys handles safely: a parked operation whose entry means an error in the
   reactor's next run keeps that error until its callback, which runs at the poll that its place tells.
   */
  lemma CallbackIsTold(
    start: Loop, before: seq<Input>, q: nat, ready: seq<Ready>, script: seq<Action>, i: nat,
    after: seq<Input>, last: Input)
    requires Idle(start) && Inv(start) && ReactorAt(start, q, start.reactorRuns)
    requires IsTrace(start, before) && SafeTrace(start, before) && Turns(before) == q
    requires (ReactorIsNext(start, before, q);
              var l := Trace(start, before);
              && InputOk(l, Turn(PollResult.Polled(ready), script)) && |ready| == |l.fds| && i < |l.fds|
              && l.fds[i] in l.pending && l.fds[i] !in l.fds[..i] && SaidAt(l, ready, i).Some?
              && var l1 := PollOnce(l, PollResult.Polled(ready), script).1;
              && IsTrace(l1, after) && Turns(after) == Place(l, ready, i)
              && last.Turn? && InputOk(Trace(l1, after), last))
    ensures (ReactorIsNext(start, before, q);
             var l := Trace(start, before);
             var l2 := Trace(PollOnce(l, PollResult.Polled(ready), script).1, after);
             var id := l.pending[l.fds[i]];
             && id in l2.ops && l2.ops[id].calls == 0
             && id in Step(l2, last).ops && Step(l2, last).ops[id].calls == 1
             && Step(l2, last).ops[id].err == SaidAt(l, ready, i).value)
  {
    hide Core, SaidAt, PollOnce, Place, ServedEnds, Step, InputOk, PollOk, RunReactor;
    hide Indexed, Covered;
    ReactorIsNext(start, before, q);
    var l := Trace(start, before);
    TraceKeepsInv(start, before);
    SaidEnds(l, ready, i);
    InputIs(l, PollResult.Polled(ready), script);
    ReportedIsFinalized(start, before, q, ready, script, i, after, last);
    OwnEnds(l, ready, i);
    PollSays(l, ready, script, i);
    var l1, id := PollOnce(l, PollResult.Polled(ready), script).1, l.pending[l.fds[i]];
    ResultStays(l1, after, id);
    StepKeepsResult(Trace(l1, after), last, id);
  }

  lemma InputIs(l: Loop, p: PollResult, script: seq<Action>)
    requires InputOk(l, Turn(p, script))
    ensures Idle(l) && PollOk(l, p, script)
  {
  }
}
