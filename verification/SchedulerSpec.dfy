/** One poll of the event loop, and whole runs of it, on values. */
module SchedulerSpec {
  import opened Bytes
  import opened LoopSpec
  import opened ReactorSpec
  import H = HandleIndex

  // ---------- Finalizing one operation ----------

  /** Whether a callback may do these things, one after the other. */
  ghost predicate ScriptOk(l: Loop, script: seq<Action>)
    decreases |script|
  {
    script == [] || (Core(l) && Enabled(l, script[0]) && ScriptOk(Apply(l, script[0]), script[1..]))
  }

  ghost function AfterScript(l: Loop, script: seq<Action>): Loop
    requires ScriptOk(l, script)
    decreases |script|
  {
    if script == [] then l else AfterScript(Apply(l, script[0]), script[1..])
  }

  /** The operation at the head of the queue, popped, about to be finalized. */
  function Popped(l: Loop): Loop
    requires l.queue != [] && l.queue[0].OpTask? && l.queue[0].id in l.ops
  {
    var id := l.queue[0].id;
    l.(queue := l.queue[1..], running := Some(id), ops := l.ops[id := l.ops[id].(calls := l.ops[id].calls + 1)])
  }

  ghost function RunTask(l: Loop, script: seq<Action>): Loop
    requires l.queue != [] && l.queue[0].OpTask? && l.queue[0].id in l.ops && ScriptOk(Popped(l), script)
  {
    var l1 := AfterScript(Popped(l), script);
    l1.(running := None, numTasks := l1.numTasks - 1)
  }

  // ---------- One poll ----------

  /** Between polls nothing runs, and the reactor's own task is queued. */
  ghost predicate Idle(l: Loop) {
    Core(l) && l.running == None && ReactorTask in l.queue
  }

  /** The reactor's task popped, run and queued again. */
  ghost function ReactorTurn(l: Loop, p: PollResult): Loop
    requires Idle(l) && l.queue[0] == ReactorTask && Answers(p, l)
  {
    PopReactorKeeps(l);
    var l1 := RunReactor(l.(queue := l.queue[1..]), p);
    l1.(queue := l1.queue + [ReactorTask], reactorRuns := l1.reactorRuns + 1)
  }

  /** What the environment must supply for one poll. */
  ghost predicate PollOk(l: Loop, p: PollResult, script: seq<Action>)
    requires Idle(l)
  {
    if l.numTasks == 0 then true
    else if l.queue[0].OpTask? then QueueHead(l); ScriptOk(Popped(l), script)
    else
      && Answers(p, l)
      && (|l.queue| > 1 ==>
            (ReactorTurnKeeps(l, p); QueueHead(ReactorTurn(l, p)); ScriptOk(Popped(ReactorTurn(l, p)), script)))
  }

  datatype PollStatus = Polled | NothingLeft

  /** Runs one task; a reactor turn counts as one only when nothing else was queued. */
  ghost function PollOnce(l: Loop, p: PollResult, script: seq<Action>): (PollStatus, Loop)
    requires Idle(l) && PollOk(l, p, script)
  {
    if l.numTasks == 0 then (NothingLeft, l)
    else if l.queue[0].OpTask? then QueueHead(l); (PollStatus.Polled, RunTask(l, script))
    else if |l.queue| == 1 then (PollStatus.Polled, ReactorTurn(l, p))
    else
      ReactorTurnKeeps(l, p);
      QueueHead(ReactorTurn(l, p));
      (PollStatus.Polled, RunTask(ReactorTurn(l, p), script))
  }

  lemma QueueHead(l: Loop)
    requires Core(l) && l.queue != []
    ensures QueuedOk(l, l.queue[0])
  {
  }

  /** Popping the reactor's task leaves a state that the reactor can run in. */
  lemma PopReactorKeeps(l: Loop)
    requires Idle(l) && l.queue[0] == ReactorTask
    ensures Core(l.(queue := l.queue[1..])) && ReactorTask !in l.queue[1..]
  {
    var l1 := l.(queue := l.queue[1..]);
    assert l.queue == [ReactorTask] + l1.queue;
    forall id | id in l1.ops ensures Located(l1, id) {
      assert Located(l, id);
    }
    forall s | s in l1.pending ensures Parked(l1, s) {
      assert Parked(l, s);
    }
    forall i | 0 <= i < |l1.queue| ensures QueuedOk(l1, l1.queue[i]) && l1.queue[i] != ReactorTask {
      assert QueuedOk(l, l.queue[i + 1]) && l.queue[0] != l.queue[i + 1];
    }
    assert NoDuplicates(l1.queue) by {
      assert forall i :: 0 <= i < |l1.queue| ==> l1.queue[i] == l.queue[i + 1];
    }
  }

  lemma PushReactorKeeps(l: Loop)
    requires Core(l) && l.running == None && ReactorTask !in l.queue
    ensures Idle(l.(queue := l.queue + [ReactorTask], reactorRuns := l.reactorRuns + 1))
  {
    var l1 := l.(queue := l.queue + [ReactorTask], reactorRuns := l.reactorRuns + 1);
    assert l1.queue[|l.queue|] == ReactorTask;
    assert forall t :: t != ReactorTask ==> (t in l1.queue <==> t in l.queue);
    forall id | id in l1.ops ensures Located(l1, id) {
      assert Located(l, id);
    }
    forall s | s in l1.pending ensures Parked(l1, s) {
      assert Parked(l, s);
    }
    forall i | 0 <= i < |l1.queue| ensures QueuedOk(l1, l1.queue[i]) {
      assert i < |l.queue| ==> QueuedOk(l, l.queue[i]);
    }
  }

  lemma ReactorTurnKeeps(l: Loop, p: PollResult)
    requires Idle(l) && l.queue[0] == ReactorTask && Answers(p, l)
    ensures Idle(ReactorTurn(l, p))
    ensures |ReactorTurn(l, p).queue| >= |l.queue|
  {
    ReactorTurnGrows(l, p);
    AfterPopKeeps(l.(queue := l.queue[1..]), p);
  }

  lemma AfterPopKeeps(l: Loop, p: PollResult)
    requires Core(l) && l.running == None && ReactorTask !in l.queue && Answers(p, l)
    ensures var l' := RunReactor(l, p);
            Idle(l'.(queue := l'.queue + [ReactorTask], reactorRuns := l'.reactorRuns + 1))
  {
    hide RunReactor, Core;
    RunKeepsCore(l, p);
    PushReactorKeeps(RunReactor(l, p));
  }

  lemma ReactorTurnGrows(l: Loop, p: PollResult)
    requires Idle(l) && l.queue[0] == ReactorTask && Answers(p, l)
    ensures Core(l.(queue := l.queue[1..])) && ReactorTask !in l.queue[1..]
    ensures l.queue[1..] <= ReactorTurn(l, p).queue
    ensures |ReactorTurn(l, p).queue| >= |l.queue|
  {
    PopReactorKeeps(l);
    var l1 := l.(queue := l.queue[1..]);
    RunKeepsCore(l1, p);
    assert l1.queue <= RunReactor(l1, p).queue + [ReactorTask];
  }

  /** A popped operation is being finalized: it counts, but is nowhere else. */
  lemma PoppedKeeps(l: Loop)
    requires Idle(l) && l.queue[0].OpTask?
    ensures QueuedOk(l, l.queue[0]) && Core(Popped(l)) && ReactorTask in Popped(l).queue
  {
    QueueHead(l);
    var id, l1 := l.queue[0].id, Popped(l);
    PoppedQueue(l.queue, l1.queue);
    assert Located(l, id);
    forall x | x in l1.ops ensures Located(l1, x) {
      assert Located(l, x);
    }
    forall s | s in l1.pending ensures Parked(l1, s) {
      assert Parked(l, s);
    }
    forall i | 0 <= i < |l1.queue| ensures QueuedOk(l1, l1.queue[i]) {
      assert QueuedOk(l, l.queue[i + 1]);
      assert l1.queue[i] in l1.queue;
    }
  }

  /** The queue without its head. */
  lemma PoppedQueue(queue: seq<Task>, rest: seq<Task>)
    requires queue != [] && rest == queue[1..] && NoDuplicates(queue)
    ensures NoDuplicates(rest) && queue[0] !in rest
    ensures forall t :: t != queue[0] ==> (t in rest <==> t in queue)
  {
    assert queue == [queue[0]] + rest;
    forall i | 0 <= i < |rest| ensures rest[i] != queue[0] {
      assert rest[i] == queue[i + 1];
    }
    forall i, j | 0 <= i < j < |rest| ensures rest[i] != rest[j] {
      assert rest[i] == queue[i + 1] && rest[j] == queue[j + 1];
    }
  }

  lemma ApplyGrows(l: Loop, a: Action)
    requires Core(l) && Enabled(l, a)
    ensures Grows(l, Apply(l, a))
    ensures ReactorTask in Apply(l, a).queue <==> ReactorTask in l.queue
  {
    match a
    case StartOp(_, _, _, _) => StartGrows(l, a);
    case Cancel(fd) => CancelBothGrows(l, fd);
    case _ =>
  }

  lemma StartGrows(l: Loop, a: Action)
    requires Core(l) && Enabled(l, a) && a.StartOp?
    ensures Grows(l, Apply(l, a))
    ensures ReactorTask in Apply(l, a).queue <==> ReactorTask in l.queue
  {
    var l1 := l.(ops := l.ops[a.id := Op(a.slot, true, false, NoError, 0, 0)]);
    StartCore(l, a);
    PerformGrows(l1, a.id, a.attempt, a.now);
    GrowsOn(l, l1, Perform(l1, a.id, a.attempt, a.now));
  }

  lemma CancelBothGrows(l: Loop, fd: int)
    requires Core(l) && Enabled(l, Cancel(fd))
    ensures Grows(l, Apply(l, Cancel(fd)))
    ensures ReactorTask in Apply(l, Cancel(fd)).queue <==> ReactorTask in l.queue
  {
    CancelGrows(l, Slot(fd, Read));
    CancelKeepsCore(l, Slot(fd, Read));
    var l1 := CancelSlot(l, Slot(fd, Read));
    CancelGrows(l1, Slot(fd, Write));
    GrowsOn(l, l1, CancelSlot(l1, Slot(fd, Write)));
  }

  lemma CancelGrows(l: Loop, slot: Slot)
    requires Core(l)
    ensures slot in l.pending ==> l.pending[slot] in l.ops
    ensures Grows(l, CancelSlot(l, slot))
    ensures ReactorTask in CancelSlot(l, slot).queue <==> ReactorTask in l.queue
  {
    if slot in l.pending {
      UnparkCore(l, slot);
      CompleteGrows(Unpark(l, slot), l.pending[slot], Canceled);
    }
  }

  lemma {:induction false} ScriptKeeps(l: Loop, script: seq<Action>)
    requires Core(l) && ScriptOk(l, script)
    ensures Core(AfterScript(l, script)) && Grows(l, AfterScript(l, script))
    ensures ReactorTask in AfterScript(l, script).queue <==> ReactorTask in l.queue
    decreases |script|
  {
    if script != [] {
      ApplyKeepsCore(l, script[0]);
      ApplyGrows(l, script[0]);
      ScriptKeeps(Apply(l, script[0]), script[1..]);
      GrowsOn(l, Apply(l, script[0]), AfterScript(l, script));
    }
  }

  /** Once the callback has returned, its operation no longer counts. */
  lemma StopRunning(l: Loop)
    requires Core(l) && l.running.Some? && ReactorTask in l.queue
    ensures Idle(l.(running := None, numTasks := l.numTasks - 1))
  {
    var l1 := l.(running := None, numTasks := l.numTasks - 1);
    forall x | x in l1.ops ensures Located(l1, x) {
      assert Located(l, x);
    }
    forall s | s in l1.pending ensures Parked(l1, s) {
      assert Parked(l, s);
    }
    forall i | 0 <= i < |l1.queue| ensures QueuedOk(l1, l1.queue[i]) {
      assert QueuedOk(l, l.queue[i]);
    }
  }

  lemma RunTaskKeeps(l: Loop, script: seq<Action>)
    requires Idle(l) && l.queue[0].OpTask? && QueuedOk(l, l.queue[0]) && ScriptOk(Popped(l), script)
    ensures Idle(RunTask(l, script))
    ensures l.queue[1..] <= RunTask(l, script).queue
  {
    var l1 := Popped(l);
    PoppedKeeps(l);
    var l2 := AfterScript(l1, script);
    assert Core(l2) && Grows(l1, l2) && ReactorTask in l2.queue by {
      ScriptKeeps(l1, script);
    }
    StopRunning(l2);
  }

  /** The callback runs once, now, and no other operation's callback does. */
  lemma RunTaskCalls(l: Loop, script: seq<Action>)
    requires Idle(l) && l.queue[0].OpTask? && QueuedOk(l, l.queue[0]) && ScriptOk(Popped(l), script)
    ensures var l' := RunTask(l, script);
            forall id :: id in l.ops ==>
              id in l'.ops && l'.ops[id].calls == l.ops[id].calls + if id == l.queue[0].id then 1 else 0
  {
    PoppedKeeps(l);
    ScriptKeeps(Popped(l), script);
  }

  /** Every poll keeps the invariants. */
  lemma PollKeepsIdle(l: Loop, p: PollResult, script: seq<Action>)
    requires Idle(l) && PollOk(l, p, script)
    ensures Idle(PollOnce(l, p, script).1)
  {
    if l.numTasks != 0 {
      if l.queue[0].OpTask? {
        QueueHead(l);
        RunTaskKeeps(l, script);
      } else {
        ReactorTurnKeeps(l, p);
        if |l.queue| > 1 {
          SecondTask(l, p);
          QueueHead(ReactorTurn(l, p));
          RunTaskKeeps(ReactorTurn(l, p), script);
        }
      }
    }
  }

  /** Behind the reactor's task comes an operation: the loop goes round at most twice. */
  lemma SecondTask(l: Loop, p: PollResult)
    requires Idle(l) && l.queue[0] == ReactorTask && |l.queue| > 1 && Answers(p, l)
    ensures ReactorTurn(l, p).queue[0] == l.queue[1] && l.queue[1].OpTask?
  {
    ReactorTurnGrows(l, p);
    assert l.queue[1..][0] == l.queue[1] && l.queue[0] != l.queue[1];
  }

  /** The loop reports that nothing is left exactly when no operation is queued or parked. */
  lemma NothingLeftExact(l: Loop, p: PollResult, script: seq<Action>)
    requires Idle(l) && PollOk(l, p, script)
    ensures PollOnce(l, p, script).0 == NothingLeft <==> l.queue == [ReactorTask] && l.pending == map[]
  {
    assert |l.queue| == 1 ==> l.queue == [l.queue[0]];
    assert |l.pending| == 0 <==> l.pending == map[];
  }

  // ---------- Whole runs ----------

  /** A run is polls, and things done between them from outside the loop. */
  datatype Input = Turn(p: PollResult, script: seq<Action>) | Outside(a: Action)

  ghost predicate InputOk(l: Loop, i: Input) {
    && Idle(l)
    && match i
       case Turn(p, script) => PollOk(l, p, script)
       case Outside(a) => Enabled(l, a)
  }

  ghost function Step(l: Loop, i: Input): Loop
    requires InputOk(l, i)
  {
    match i
    case Turn(p, script) => PollOnce(l, p, script).1
    case Outside(a) => Apply(l, a)
  }

  ghost predicate IsTrace(l: Loop, inputs: seq<Input>)
    decreases |inputs|
  {
    inputs == [] || (InputOk(l, inputs[0]) && IsTrace(Step(l, inputs[0]), inputs[1..]))
  }

  ghost function Trace(l: Loop, inputs: seq<Input>): Loop
    requires IsTrace(l, inputs)
    decreases |inputs|
  {
    if inputs == [] then l else Trace(Step(l, inputs[0]), inputs[1..])
  }

  function Turns(inputs: seq<Input>): nat {
    if inputs == [] then 0 else (if inputs[0].Turn? then 1 else 0) + Turns(inputs[1..])
  }

  lemma StepKeepsIdle(l: Loop, i: Input)
    requires InputOk(l, i)
    ensures Idle(Step(l, i))
  {
    match i
    case Turn(p, script) => PollKeepsIdle(l, p, script);
    case Outside(a) =>
      ApplyKeepsCore(l, a);
      ApplyGrows(l, a);
  }

  lemma {:induction false} TraceKeepsIdle(l: Loop, inputs: seq<Input>)
    requires Idle(l) && IsTrace(l, inputs)
    ensures Idle(Trace(l, inputs))
    decreases |inputs|
  {
    if inputs != [] {
      StepKeepsIdle(l, inputs[0]);
      TraceKeepsIdle(Step(l, inputs[0]), inputs[1..]);
    }
  }

  /**
   In every state that any run reaches from the start, whatever handles it destroys: every operation
   has one place and has been finalized at most once, and the task count is right.
   */
  lemma EveryReachableState(inputs: seq<Input>)
    requires IsTrace(Init(), inputs)
    ensures var l := Trace(Init(), inputs);
            && (forall id :: id in l.ops ==> Located(l, id))
            && NoDuplicates(l.queue) && ReactorTask in l.queue
            && l.numTasks == |l.queue| - 1 + |l.pending|
  {
    assert Init().queue[0] == ReactorTask;
    TraceKeepsIdle(Init(), inputs);
  }

  // ---------- Runs that destroy handles safely ----------

  ghost predicate SafeScript(l: Loop, script: seq<Action>)
    requires ScriptOk(l, script)
    decreases |script|
  {
    script != [] ==> Safe(l, script[0]) && SafeScript(Apply(l, script[0]), script[1..])
  }

  ghost predicate SafePoll(l: Loop, p: PollResult, script: seq<Action>)
    requires Idle(l) && PollOk(l, p, script)
  {
    if l.numTasks == 0 then true
    else if l.queue[0].OpTask? then QueueHead(l); SafeScript(Popped(l), script)
    else
      |l.queue| > 1 ==>
        (ReactorTurnKeeps(l, p); QueueHead(ReactorTurn(l, p)); SafeScript(Popped(ReactorTurn(l, p)), script))
  }

  ghost predicate SafeInput(l: Loop, i: Input)
    requires InputOk(l, i)
  {
    match i
    case Turn(p, script) => SafePoll(l, p, script)
    case Outside(a) => Safe(l, a)
  }

  ghost predicate SafeTrace(l: Loop, inputs: seq<Input>)
    requires IsTrace(l, inputs)
    decreases |inputs|
  {
    inputs != [] ==> SafeInput(l, inputs[0]) && SafeTrace(Step(l, inputs[0]), inputs[1..])
  }

  lemma {:induction false} ScriptKeepsInv(l: Loop, script: seq<Action>)
    requires Inv(l) && ScriptOk(l, script) && SafeScript(l, script)
    ensures Inv(AfterScript(l, script))
    decreases |script|
  {
    if script != [] {
      ApplyKeepsInv(l, script[0]);
      ScriptKeepsInv(Apply(l, script[0]), script[1..]);
    }
  }

  lemma TaskKeepsInv(l: Loop, script: seq<Action>)
    requires Idle(l) && Inv(l) && l.queue[0].OpTask? && QueuedOk(l, l.queue[0])
    requires ScriptOk(Popped(l), script) && SafeScript(Popped(l), script)
    ensures Inv(RunTask(l, script))
  {
    PoppedKeeps(l);
    ScriptKeepsInv(Popped(l), script);
    RunTaskKeeps(l, script);
  }

  lemma TurnKeepsInv(l: Loop, p: PollResult)
    requires Idle(l) && Inv(l) && l.queue[0] == ReactorTask && Answers(p, l)
    ensures Inv(ReactorTurn(l, p))
  {
    PopReactorKeeps(l);
    RunKeepsInv(l.(queue := l.queue[1..]), p);
    ReactorTurnKeeps(l, p);
  }

  /** A poll whose callback destroys handles safely keeps the whole invariant. */
  lemma PollKeepsInv(l: Loop, p: PollResult, script: seq<Action>)
    requires Idle(l) && Inv(l) && PollOk(l, p, script) && SafePoll(l, p, script)
    ensures Inv(PollOnce(l, p, script).1)
  {
    if l.numTasks != 0 {
      if l.queue[0].OpTask? {
        QueueHead(l);
        TaskKeepsInv(l, script);
      } else {
        TurnKeepsInv(l, p);
        ReactorTurnKeeps(l, p);
        if |l.queue| > 1 {
          SecondTask(l, p);
          QueueHead(ReactorTurn(l, p));
          TaskKeepsInv(ReactorTurn(l, p), script);
        }
      }
    }
  }

  lemma {:induction false} TraceKeepsInv(l: Loop, inputs: seq<Input>)
    requires Idle(l) && Inv(l) && IsTrace(l, inputs) && SafeTrace(l, inputs)
    ensures Inv(Trace(l, inputs))
    decreases |inputs|
  {
    if inputs != [] {
      StepKeepsIdle(l, inputs[0]);
      match inputs[0] {
        case Turn(p, script) => PollKeepsInv(l, p, script);
        case Outside(a) => ApplyKeepsInv(l, a);
      }
      TraceKeepsInv(Step(l, inputs[0]), inputs[1..]);
    }
  }

  /**
   If the run destroys handles safely, then in every state besides no wakeup is lost and a lookup
   finds every live handle.
   */
  lemma EverySafeState(inputs: seq<Input>)
    requires IsTrace(Init(), inputs) && SafeTrace(Init(), inputs)
    ensures var l := Trace(Init(), inputs);
            && Covered(l.pending, l.fds)
            && (forall fd :: Looked(l, fd) <==> fd in l.handles)
  {
    assert Init().queue[0] == ReactorTask;
    InitIsRight();
    TraceKeepsInv(Init(), inputs);
    forall fd ensures Looked(Trace(Init(), inputs), fd) <==> fd in Trace(Init(), inputs).handles {
      LookedIsLive(Trace(Init(), inputs), fd);
    }
  }

  lemma InitIsRight()
    ensures Inv(Init())
  {
    H.EmptyFinds();
    assert Init().handles.Keys == {};
  }

  // ---------- Fairness ----------

  /** The queued operations, in order. */
  function OpsOf(queue: seq<Task>): seq<OpId> {
    if queue == [] then []
    else (if queue[0].OpTask? then [queue[0].id] else []) + OpsOf(queue[1..])
  }

  lemma {:induction false} OpsOfAppend(a: seq<Task>, b: seq<Task>)
    ensures OpsOf(a + b) == OpsOf(a) + OpsOf(b)
  {
    if a == [] {
      assert a + b == b;
    } else {
      OpsOfAppend(a[1..], b);
      assert (a + b)[1..] == a[1..] + b;
      Associate(if a[0].OpTask? then [a[0].id] else [], OpsOf(a[1..]), OpsOf(b));
    }
  }

  lemma OpsOfPrefix(a: seq<Task>, b: seq<Task>)
    requires a <= b
    ensures OpsOf(a) <= OpsOf(b)
  {
    assert b == a + b[|a|..];
    OpsOfAppend(a, b[|a|..]);
  }

  lemma {:induction false} OpsOfMember(queue: seq<Task>, k: nat)
    requires k < |OpsOf(queue)|
    ensures OpTask(OpsOf(queue)[k]) in queue
  {
    var head := if queue[0].OpTask? then [queue[0].id] else [];
    if k >= |head| {
      OpsOfMember(queue[1..], k - |head|);
    }
  }

  lemma {:induction false} OpsOfSize(queue: seq<Task>)
    ensures NoDuplicates(queue) ==> |OpsOf(queue)| == |queue| - (if ReactorTask in queue then 1 else 0)
  {
    if queue != [] && NoDuplicates(queue) {
      var rest := queue[1..];
      assert queue == [queue[0]] + rest;
      assert forall i :: 0 <= i < |rest| ==> rest[i] == queue[i + 1];
      OpsOfSize(rest);
      if queue[0] == ReactorTask {
        forall i | 0 <= i < |rest| ensures rest[i] != ReactorTask {
          assert queue[0] != queue[i + 1];
        }
      }
    }
  }

  /** The head operation is finalized, the others keep their order, new ones come last. */
  lemma HeadRunsFirst(l: Loop, script: seq<Action>)
    requires Idle(l) && l.queue[0].OpTask? && QueuedOk(l, l.queue[0]) && ScriptOk(Popped(l), script)
    ensures var l' := RunTask(l, script);
            && OpsOf(l.queue) == [l.queue[0].id] + OpsOf(l.queue[1..])
            && OpsOf(l.queue[1..]) <= OpsOf(l'.queue)
            && l.queue[0].id in l'.ops && l'.ops[l.queue[0].id].calls == 1
  {
    RunTaskKeeps(l, script);
    RunTaskCalls(l, script);
    OpsOfPrefix(l.queue[1..], RunTask(l, script).queue);
  }

  /** A poll that finds operations queued finalizes the first of them and only appends to the others. */
  lemma PollRunsFirst(l: Loop, p: PollResult, script: seq<Action>)
    requires Idle(l) && PollOk(l, p, script) && OpsOf(l.queue) != []
    ensures var (status, l') := PollOnce(l, p, script);
            && status == PollStatus.Polled
            && OpsOf(l.queue)[1..] <= OpsOf(l'.queue)
            && OpsOf(l.queue)[0] in l'.ops && l'.ops[OpsOf(l.queue)[0]].calls == 1
  {
    OpsOfSize(l.queue);
    if l.queue[0].OpTask? {
      QueueHead(l);
      HeadRunsFirst(l, script);
    } else {
      TurnThenFirst(l, p, script);
    }
  }

  lemma TurnThenFirst(l: Loop, p: PollResult, script: seq<Action>)
    requires Idle(l) && PollOk(l, p, script) && l.queue[0] == ReactorTask && |l.queue| > 1 && l.numTasks != 0
    ensures OpsOf(l.queue) == OpsOf(l.queue[1..]) != []
    ensures var l' := PollOnce(l, p, script).1;
            && OpsOf(l.queue)[1..] <= OpsOf(l'.queue)
            && OpsOf(l.queue)[0] in l'.ops && l'.ops[OpsOf(l.queue)[0]].calls == 1
  {
    hide RunReactor;
    var l1 := ReactorTurn(l, p);
    ReactorTurnKeeps(l, p);
    ReactorTurnGrows(l, p);
    SecondTask(l, p);
    QueueHead(l1);
    HeadRunsFirst(l1, script);
    OpsOfPrefix(l.queue[1..], l1.queue);
  }

  /** Operation `id` is queued behind `k` others. */
  predicate Behind(queue: seq<Task>, k: nat, id: OpId) {
    k < |OpsOf(queue)| && OpsOf(queue)[k] == id
  }

  /** The place after some polls. */
  function Left(k: nat, inputs: seq<Input>): nat
    requires Turns(inputs) <= k
  {
    k - Turns(inputs)
  }

  /** The place after one input: a poll brings everything one place forward. */
  function Next(k: nat, i: Input): nat
    requires i.Turn? ==> 0 < k
  {
    if i.Turn? then k - 1 else k
  }

  lemma StepKeepsOrder(l: Loop, i: Input, k: nat, id: OpId)
    requires InputOk(l, i) && Behind(l.queue, k, id) && (i.Turn? ==> 0 < k)
    ensures Behind(Step(l, i).queue, Next(k, i), id)
  {
    match i
    case Turn(p, script) => PollRunsFirst(l, p, script);
    case Outside(a) =>
      ApplyGrows(l, a);
      OpsOfPrefix(l.queue, Apply(l, a).queue);
  }

  lemma WaitingNotCalled(l: Loop, k: nat, id: OpId)
    requires Core(l) && Behind(l.queue, k, id)
    ensures id in l.ops && l.ops[id].calls == 0
  {
    OpsOfMember(l.queue, k);
    var j :| 0 <= j < |l.queue| && l.queue[j] == OpTask(id);
    assert QueuedOk(l, l.queue[j]);
  }

  lemma StillNotCalled(l: Loop, inputs: seq<Input>, k: nat, id: OpId)
    requires Idle(l) && IsTrace(l, inputs) && Behind(Trace(l, inputs).queue, k, id)
    ensures id in Trace(l, inputs).ops && Trace(l, inputs).ops[id].calls == 0
  {
    TraceKeepsIdle(l, inputs);
    WaitingNotCalled(Trace(l, inputs), k, id);
  }

  lemma {:induction false} TraceKeepsOrder(l: Loop, inputs: seq<Input>, k: nat, id: OpId)
    requires IsTrace(l, inputs) && Behind(l.queue, k, id) && Turns(inputs) <= k
    ensures Behind(Trace(l, inputs).queue, Left(k, inputs), id)
    decreases |inputs|
  {
    if inputs != [] {
      var l1, k1 := Step(l, inputs[0]), Next(k, inputs[0]);
      assert Behind(l1.queue, k1, id) by {
        StepKeepsOrder(l, inputs[0], k, id);
      }
      assert Left(k1, inputs[1..]) == Left(k, inputs);
      TraceKeepsOrder(l1, inputs[1..], k1, id);
    }
  }

  /** An operation queued behind `k` others is still waiting, behind `k - m`, after `m <= k` polls. */
  lemma WaitsItsTurn(l: Loop, inputs: seq<Input>, k: nat, id: OpId)
    requires Idle(l) && IsTrace(l, inputs) && Behind(l.queue, k, id) && Turns(inputs) <= k
    ensures Behind(Trace(l, inputs).queue, Left(k, inputs), id)
    ensures id in Trace(l, inputs).ops && Trace(l, inputs).ops[id].calls == 0
  {
    TraceKeepsOrder(l, inputs, k, id);
    StillNotCalled(l, inputs, Left(k, inputs), id);
  }

  /** ... and is finalized by the poll after those, the `k + 1`-th. */
  lemma RunsInTurn(l: Loop, inputs: seq<Input>, last: Input, k: nat, id: OpId)
    requires Idle(l) && IsTrace(l, inputs) && Behind(l.queue, k, id) && Turns(inputs) == k
    requires last.Turn? && InputOk(Trace(l, inputs), last)
    ensures id in Trace(l, inputs).ops && Trace(l, inputs).ops[id].calls == 0
    ensures var l' := Step(Trace(l, inputs), last); id in l'.ops && l'.ops[id].calls == 1
  {
    WaitsItsTurn(l, inputs, k, id);
    PollRunsFirst(Trace(l, inputs), last.p, last.script);
  }

  /** With `q` operations before it, the reactor's task has `q - m` before it after `m <= q` polls and has not run. */
  lemma {:induction false} ReactorWaits(l: Loop, inputs: seq<Input>, q: nat)
    requires IsTrace(l, inputs) && ReactorAt(l, q, l.reactorRuns) && Turns(inputs) <= q
    ensures ReactorAt(Trace(l, inputs), Left(q, inputs), l.reactorRuns)
    decreases |inputs|
  {
    if inputs != [] {
      var l1, q1 := Step(l, inputs[0]), Next(q, inputs[0]);
      assert ReactorAt(l1, q1, l.reactorRuns) by {
        ReactorStep(l, inputs[0], q);
      }
      assert Left(q1, inputs[1..]) == Left(q, inputs);
      ReactorWaits(l1, inputs[1..], q1);
    }
  }

  /** The reactor's task is at place `q` of the queue, and has run `runs` times. */
  predicate ReactorAt(l: Loop, q: nat, runs: nat) {
    q < |l.queue| && l.queue[q] == ReactorTask && l.reactorRuns == runs
  }

  lemma ReactorStep(l: Loop, i: Input, q: nat)
    requires InputOk(l, i) && ReactorAt(l, q, l.reactorRuns) && (i.Turn? ==> 0 < q)
    ensures ReactorAt(Step(l, i), Next(q, i), l.reactorRuns)
  {
    match i
    case Turn(p, script) => ReactorMovesUp(l, p, script, q);
    case Outside(a) => ApplyGrows(l, a);
  }

  /** A poll that finds an operation at the head brings the reactor's task one place forward. */
  lemma ReactorMovesUp(l: Loop, p: PollResult, script: seq<Action>, q: nat)
    requires Idle(l) && PollOk(l, p, script) && 0 < q < |l.queue| && l.queue[q] == ReactorTask
    ensures var l' := PollOnce(l, p, script).1;
            q - 1 < |l'.queue| && l'.queue[q - 1] == ReactorTask && l'.reactorRuns == l.reactorRuns
  {
    assert l.queue[0] != l.queue[q];
    assert l.numTasks != 0;
    QueueHead(l);
    RunTaskKeeps(l, script);
    TaskKeepsReactorRuns(l, script);
    assert l.queue[1..][q - 1] == ReactorTask;
  }

  lemma TaskKeepsReactorRuns(l: Loop, script: seq<Action>)
    requires Idle(l) && l.queue[0].OpTask? && QueuedOk(l, l.queue[0]) && ScriptOk(Popped(l), script)
    ensures RunTask(l, script).reactorRuns == l.reactorRuns
  {
    PoppedKeeps(l);
    ScriptKeeps(Popped(l), script);
  }

  /** ... so the next poll runs it, unless nothing is left to wait for. */
  lemma ReactorRunsInTurn(l: Loop, inputs: seq<Input>, last: Input, q: nat)
    requires Idle(l) && IsTrace(l, inputs) && ReactorAt(l, q, l.reactorRuns) && Turns(inputs) == q
    requires last.Turn? && InputOk(Trace(l, inputs), last) && Trace(l, inputs).numTasks != 0
    ensures Step(Trace(l, inputs), last).reactorRuns == l.reactorRuns + 1
  {
    ReactorWaits(l, inputs, q);
    TraceKeepsIdle(l, inputs);
    var l' := Trace(l, inputs);
    TurnRunsReactor(l', last.p);
    if |l'.queue| > 1 {
      var l1 := ReactorTurn(l', last.p);
      ReactorTurnKeeps(l', last.p);
      SecondTask(l', last.p);
      QueueHead(l1);
      TaskKeepsReactorRuns(l1, last.script);
    }
  }

  lemma TurnRunsReactor(l: Loop, p: PollResult)
    requires Idle(l) && l.queue[0] == ReactorTask && Answers(p, l)
    ensures ReactorTurn(l, p).reactorRuns == l.reactorRuns + 1
  {
    PopReactorKeeps(l);
    var l1 := l.(queue := l.queue[1..]);
    if p.Polled? {
      SweepGrows(l1, l1.fds, p.ready);
    }
  }
}
