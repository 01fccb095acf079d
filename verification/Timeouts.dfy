/** When an operation times out: ten seconds after its handle was last armed, and not before. */
module Timeouts {
  import opened Bytes
  import H = HandleIndex
  import opened LoopSpec
  import opened ReactorSpec
  import opened SchedulerSpec
  import opened Completion
  import opened Outcomes

  // ---------- Arming ----------

  /** An attempt that has to wait arms the timer of its handle, if that has a timeout; no other handle is touched. */
  lemma AttemptArms(l: Loop, id: OpId, a: Attempt, now: int, fd: int)
    requires id in l.ops && l.ops[id].slot.fd in l.handles && fd in l.handles
    ensures var l', h := Perform(l, id, a, now), l.handles[fd];
            && fd in l'.handles
            && l'.handles[fd] ==
                 if a.WouldBlock? && fd == l.ops[id].slot.fd && h.timeoutEnabled then Handle(true, now + 10) else h
  {
    hide H.Add;
  }

  /** Registering a new operation arms its handle. */
  lemma StartArms(l: Loop, id: OpId, slot: Slot, pushOk: bool, now: int)
    requires Core(l) && Enabled(l, StartOp(id, slot, WouldBlock(pushOk), now)) && l.handles[slot.fd].timeoutEnabled
    ensures var l' := Apply(l, StartOp(id, slot, WouldBlock(pushOk), now));
            slot.fd in l'.handles && l'.handles[slot.fd] == Handle(true, now + 10)
  {
    hide Core, Perform;
    AttemptArms(l.(ops := l.ops[id := Op(slot, true, false, NoError, 0, 0)]), id, WouldBlock(pushOk), now, slot.fd);
  }

  /** ... and so does registering one again that was ready and has to wait. */
  lemma RetryArms(l: Loop, slot: Slot, ready: Ready)
    requires Core(l) && Target(l, slot).Some? && ReadyFor(Target(l, slot).value.typ, ready.revents)
    requires ready.attempt.WouldBlock? && l.handles[Target(l, slot).value.fd].timeoutEnabled
    ensures var l', fd := Service(l, slot, ready).0, Target(l, slot).value.fd;
            fd in l'.handles && l'.handles[fd] == Handle(true, ready.now + 10)
  {
    hide Core, Perform, Lookup;
    var at := Target(l, slot).value;
    UnparkCore(l, at);
    AttemptArms(Unpark(l, at), l.pending[at], ready.attempt, ready.now, at.fd);
  }

  // ---------- A timer that is left alone ----------

  /** The action neither registers anything at the handle nor sets or destroys it. */
  predicate SparesAction(a: Action, fd: int) {
    match a
    case StartOp(_, slot, _, _) => slot.fd != fd
    case EnableTimeout(f, _) => f != fd
    case Destroy(f) => f != fd
    case _ => true
  }

  predicate SparesScript(script: seq<Action>, fd: int) {
    forall i :: 0 <= i < |script| ==> SparesAction(script[i], fd)
  }

  /** Nothing is reported for the descriptor. */
  predicate SparesReport(entries: seq<Slot>, ready: seq<Ready>, fd: int) {
    |entries| == |ready| && forall i :: 0 <= i < |entries| && entries[i].fd == fd ==> !ready[i].revents.Any()
  }

  /** The handle is there, as it was. */
  predicate SameHandle(l: Loop, l': Loop, fd: int) {
    fd in l.handles && fd in l'.handles && l'.handles[fd] == l.handles[fd]
  }

  lemma ActionSpares(l: Loop, a: Action, fd: int)
    requires Core(l) && Enabled(l, a) && SparesAction(a, fd) && fd in l.handles
    ensures SameHandle(l, Apply(l, a), fd)
  {
    hide Core, Perform, Cancelled, H.Add, H.Remove, Lookup, CancelSlot;
    match a
    case StartOp(id, slot, attempt, now) =>
      AttemptArms(l.(ops := l.ops[id := Op(slot, true, false, NoError, 0, 0)]), id, attempt, now, fd);
    case Cancel(f) => CancelLeavesHandles(l, f);
    case _ =>
  }

  lemma CancelLeavesHandles(l: Loop, fd: int)
    requires Core(l) && Enabled(l, Cancel(fd))
    ensures Apply(l, Cancel(fd)).handles == l.handles
  {
    CancelGives(l, fd);
  }

  lemma {:induction false} ScriptSpares(l: Loop, script: seq<Action>, fd: int)
    requires Core(l) && ScriptOk(l, script) && SparesScript(script, fd) && fd in l.handles
    ensures SameHandle(l, AfterScript(l, script), fd)
    decreases |script|
  {
    hide Core, Apply, Enabled, SparesAction;
    if script != [] {
      ApplyKeepsCore(l, script[0]);
      ActionSpares(l, script[0], fd);
      assert forall i :: 0 <= i < |script[1..]| ==> script[1..][i] == script[i + 1];
      ScriptSpares(Apply(l, script[0]), script[1..], fd);
    }
  }

  lemma EntrySpares(l: Loop, slot: Slot, ready: Ready, fd: int)
    requires Core(l) && Indexed(l) && fd in l.handles && (slot.fd == fd ==> !ready.revents.Any())
    ensures SameHandle(l, Service(l, slot, ready).0, fd)
  {
    hide Core, Perform, Lookup, Indexed;
    TargetIsOwn(l, slot);
    if slot in l.pending {
      UnparkCore(l, slot);
      if ready.revents.Any() && Hit(ready.revents, slot.typ) {
        AttemptArms(Unpark(l, slot), l.pending[slot], ready.attempt, ready.now, fd);
      }
    }
  }

  lemma {:induction false} SweepSpares(l: Loop, entries: seq<Slot>, ready: seq<Ready>, fd: int)
    requires Core(l) && Indexed(l) && SparesReport(entries, ready, fd) && fd in l.handles
    ensures SameHandle(l, Sweep(l, entries, ready).l, fd)
    decreases |entries|
  {
    hide Core, Indexed, Service;
    if entries != [] {
      var l1 := Service(l, entries[0], ready[0]).0;
      ServiceCore(l, entries[0], ready[0]);
      ServiceKeepsIndexed(l, entries[0], ready[0]);
      EntrySpares(l, entries[0], ready[0], fd);
      assert forall i :: 0 <= i < |entries[1..]| ==>
          entries[1..][i] == entries[i + 1] && ready[1..][i] == ready[i + 1];
      SweepSpares(l1, entries[1..], ready[1..], fd);
    }
  }

  /** The poll, the callback included, leaves the timer alone. */
  ghost predicate SparesInput(l: Loop, i: Input, fd: int)
    requires InputOk(l, i)
  {
    match i
    case Outside(a) => SparesAction(a, fd)
    case Turn(p, script) =>
      && SparesScript(script, fd)
      && (l.numTasks != 0 && l.queue[0] == ReactorTask && p.Polled? ==> SparesReport(l.fds, p.ready, fd))
  }

  ghost predicate SparesTrace(l: Loop, inputs: seq<Input>, fd: int)
    requires IsTrace(l, inputs)
    decreases |inputs|
  {
    inputs != [] ==> SparesInput(l, inputs[0], fd) && SparesTrace(Step(l, inputs[0]), inputs[1..], fd)
  }

  lemma TaskSpares(l: Loop, script: seq<Action>, fd: int)
    requires Idle(l) && l.queue[0].OpTask? && QueuedOk(l, l.queue[0]) && ScriptOk(Popped(l), script)
    requires SparesScript(script, fd) && fd in l.handles
    ensures SameHandle(l, RunTask(l, script), fd)
  {
    hide Core;
    PoppedKeeps(l);
    ScriptSpares(Popped(l), script, fd);
  }

  lemma TurnSpares(l: Loop, p: PollResult, fd: int)
    requires Idle(l) && Inv(l) && l.queue[0] == ReactorTask && Answers(p, l)
    requires (p.Polled? ==> SparesReport(l.fds, p.ready, fd)) && fd in l.handles
    ensures SameHandle(l, ReactorTurn(l, p), fd)
  {
    hide Core, Indexed, Covered, Sweep, SparesReport;
    PopReactorKeeps(l);
    var l1 := l.(queue := l.queue[1..]);
    if p.Polled? {
      SameIndexed(l, l1);
      SweepSpares(l1, l1.fds, p.ready, fd);
    }
  }

  lemma SameIndexed(l: Loop, l1: Loop)
    requires Indexed(l) && l1.handles == l.handles && l1.index == l.index
    ensures Indexed(l1)
  {
    hide H.Finds;
  }

  lemma InputSpares(l: Loop, i: Input, fd: int)
    requires InputOk(l, i) && Inv(l) && SparesInput(l, i, fd) && fd in l.handles
    ensures SameHandle(l, Step(l, i), fd)
  {
    hide Core, Indexed, Covered, Apply, RunTask, ReactorTurn, SparesReport, SparesScript, SparesAction;
    match i
    case Outside(a) => ActionSpares(l, a, fd);
    case Turn(p, script) =>
      if l.numTasks != 0 {
        if l.queue[0].OpTask? {
          QueueHead(l);
          TaskSpares(l, script, fd);
        } else {
          TurnSpares(l, p, fd);
          ReactorTurnKeeps(l, p);
          if |l.queue| > 1 {
            SecondTask(l, p);
            QueueHead(ReactorTurn(l, p));
            TaskSpares(ReactorTurn(l, p), script, fd);
          }
        }
      }
  }

  /** Over any run in which nothing is reported for the descriptor and nobody touches its handle. */
  lemma {:induction false} TimerStays(l: Loop, inputs: seq<Input>, fd: int)
    requires Idle(l) && Inv(l) && IsTrace(l, inputs) && SafeTrace(l, inputs) && SparesTrace(l, inputs, fd)
    requires fd in l.handles
    ensures SameHandle(l, Trace(l, inputs), fd)
    decreases |inputs|
  {
    hide Core, Indexed, Covered, Step, InputOk, SparesInput, SafeInput;
    if inputs != [] {
      InputSpares(l, inputs[0], fd);
      StepKeepsSafe(l, inputs[0]);
      TimerStays(Step(l, inputs[0]), inputs[1..], fd);
    }
  }

  lemma StepKeepsSafe(l: Loop, i: Input)
    requires InputOk(l, i) && Inv(l) && SafeInput(l, i)
    ensures Idle(Step(l, i)) && Inv(Step(l, i))
  {
    hide Core, Indexed, Covered, PollOnce, Apply, PollOk, Enabled;
    StepKeepsIdle(l, i);
    match i
    case Turn(p, script) => PollKeepsInv(l, p, script);
    case Outside(a) => ApplyKeepsInv(l, a);
  }

  // ---------- The timeout ----------

  /**
   An operation whose handle was armed at `then` and left alone since, and for which nothing is
   reported, times out in the reactor's run if ten seconds have passed, and otherwise goes on waiting.
   */
  lemma TimesOutExactly(start: Loop, inputs: seq<Input>, ready: seq<Ready>, i: nat, armed: int)
    requires Idle(start) && Inv(start) && IsTrace(start, inputs) && SafeTrace(start, inputs)
    requires Idle(Trace(start, inputs)) && Trace(start, inputs).queue[0] == ReactorTask
    requires var l := Trace(start, inputs);
             && |ready| == |l.fds| && i < |l.fds| && l.fds[i] in l.pending && l.fds[i] !in l.fds[..i]
             && var fd := l.fds[i].fd;
             && fd in start.handles && start.handles[fd] == Handle(true, armed + 10)
             && SparesTrace(start, inputs, fd) && SparesReport(l.fds, ready, fd)
    ensures SaidAt(Trace(start, inputs), ready, i) ==
            if armed + 10 <= ready[i].now then Some(TimedOut) else None
  {
    hide Core, Indexed, Covered, Sweep, IsTrace, SafeTrace, SparesTrace, Trace;
    var l := Trace(start, inputs);
    var fd := l.fds[i].fd;
    TimerStays(start, inputs, fd);
    TraceKeepsInv(start, inputs);
    PopReactorKeeps(l);
    var l1 := l.(queue := l.queue[1..]);
    SameIndexed(l, l1);
    assert SparesReport(l.fds[..i], ready[..i], fd);
    SweepSpares(l1, l.fds[..i], ready[..i], fd);
  }

  /** Without a timeout nothing times out. */
  lemma NeverWithoutTimeout(l: Loop, slot: Slot, ready: Ready)
    requires Core(l) && Target(l, slot).Some? && !ready.revents.Any()
    requires !l.handles[Target(l, slot).value.fd].timeoutEnabled
    ensures Service(l, slot, ready) == (l, true)
  {
    NotReadyGivesUp(l, slot, ready);
  }
}
