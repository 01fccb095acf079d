/** From what poll(2) reports to the callback: the poll that finalizes an operation whose wait has ended. */
module Completion {
  import opened Bytes
  import H = HandleIndex
  import opened LoopSpec
  import opened ReactorSpec
  import opened SchedulerSpec

  // ---------- The run in which the wait ends ----------

  /** Serving the slot completes its operation: by an error, a finished retry, a failed registration or a timeout. */
  predicate Ends(l: Loop, at: Slot, ready: Ready)
    requires at.fd in l.handles
  {
    if ready.revents.Any() then Hit(ready.revents, at.typ) ==> ready.attempt.Finished? || !ready.attempt.pushOk
    else Expired(l, at, ready)
  }

  /** The operation that serving the entry completes. */
  function Ended(l: Loop, slot: Slot, ready: Ready): Option<OpId> {
    var target := Target(l, slot);
    if target.Some? && Ends(l, target.value, ready) then Some(l.pending[target.value]) else None
  }

  function Posted(ended: Option<OpId>): seq<Task> {
    if ended.Some? then [OpTask(ended.value)] else []
  }

  /** Serving an entry queues exactly that operation, last. */
  lemma ServiceQueues(l: Loop, slot: Slot, ready: Ready)
    requires Core(l)
    ensures Service(l, slot, ready).0.queue == l.queue + Posted(Ended(l, slot, ready))
  {
    hide H.HandleAt, H.Add;
    var target := Target(l, slot);
    assert l.queue + [] == l.queue;
    if target.Some? {
      var at := target.value;
      UnparkCore(l, at);
      if ready.revents.Any() && Hit(ready.revents, at.typ) {
        PerformQueues(Unpark(l, at), l.pending[at], ready.attempt, ready.now);
      }
    }
  }

  lemma PerformQueues(l: Loop, id: OpId, a: Attempt, now: int)
    requires id in l.ops && l.ops[id].slot.fd in l.handles
    ensures Perform(l, id, a, now).queue ==
            l.queue + if a.Finished? || !a.pushOk then [OpTask(id)] else []
  {
    hide H.Add;
    assert l.queue + [] == l.queue;
  }

  /** What the loop is like when the entry's turn in the run comes. */
  ghost function Before(l: Loop, entries: seq<Slot>, ready: seq<Ready>, i: nat): (b: Loop)
    requires Core(l) && |entries| == |ready| && i < |entries|
    ensures Core(b)
  {
    Sweep(l, entries[..i], ready[..i]).l
  }

  /** Behind the operations that the entries before it complete comes its own. */
  lemma {:induction false} SweepQueues(l: Loop, entries: seq<Slot>, ready: seq<Ready>, i: nat)
    requires Core(l) && |entries| == |ready| && i < |entries|
    ensures var b := Before(l, entries, ready, i);
            b.queue + Posted(Ended(b, entries[i], ready[i])) <= Sweep(l, entries, ready).l.queue
    decreases |entries|
  {
    var l1 := Service(l, entries[0], ready[0]).0;
    ServiceCore(l, entries[0], ready[0]);
    if i == 0 {
      assert entries[..0] == [] && ready[..0] == [];
      ServiceQueues(l, entries[0], ready[0]);
      SweepGrows(l1, entries[1..], ready[1..]);
    } else {
      SweepQueues(l1, entries[1..], ready[1..], i - 1);
      BeforeStep(l, entries, ready, i);
    }
  }

  lemma BeforeStep(l: Loop, entries: seq<Slot>, ready: seq<Ready>, i: nat)
    requires Core(l) && |entries| == |ready| && 0 < i < |entries|
    ensures Core(Service(l, entries[0], ready[0]).0)
    ensures Before(l, entries, ready, i) == Before(Service(l, entries[0], ready[0]).0, entries[1..], ready[1..], i - 1)
  {
    ServiceCore(l, entries[0], ready[0]);
    assert entries[..i][1..] == entries[1..][..i - 1] && ready[..i][1..] == ready[1..][..i - 1];
  }

  /** With a right index, entries of other slots leave an operation where it is. */
  lemma {:induction false} OthersLeave(l: Loop, entries: seq<Slot>, ready: seq<Ready>, slot: Slot)
    requires Core(l) && Indexed(l) && |entries| == |ready| && slot in l.pending && slot !in entries
    ensures var l' := Sweep(l, entries, ready).l;
            Indexed(l') && slot in l'.pending && l'.pending[slot] == l.pending[slot]
    decreases |entries|
  {
    if entries != [] {
      ServiceCore(l, entries[0], ready[0]);
      ServiceKeepsIndexed(l, entries[0], ready[0]);
      ServiceEffect(l, entries[0], ready[0]);
      TargetIsOwn(l, entries[0]);
      OthersLeave(Service(l, entries[0], ready[0]).0, entries[1..], ready[1..], slot);
    }
  }

  // ---------- The poll that runs the reactor ----------

  /** The reactor's turn leaves the operation behind those that were queued, or complete, before its entry is served. */
  lemma TurnQueues(l: Loop, ready: seq<Ready>, i: nat)
    requires Idle(l) && l.queue[0] == ReactorTask && |ready| == |l.fds| && i < |l.fds|
    ensures Core(l.(queue := l.queue[1..]))
    ensures var b := Before(l.(queue := l.queue[1..]), l.fds, ready, i);
            && l.queue[1..] <= b.queue
            && b.queue + Posted(Ended(b, l.fds[i], ready[i])) <= ReactorTurn(l, PollResult.Polled(ready)).queue
  {
    PopReactorKeeps(l);
    var l1 := l.(queue := l.queue[1..]);
    SweepQueues(l1, l.fds, ready, i);
    SweepGrows(l1, l.fds[..i], ready[..i]);
  }

  /** How many operations are in front of the one that entry `i` ends when the poll that serves it is over. */
  ghost function Place(l: Loop, ready: seq<Ready>, i: nat): (k: int)
    requires Idle(l) && l.queue[0] == ReactorTask && |ready| == |l.fds| && i < |l.fds|
  {
    TurnQueues(l, ready, i);
    |OpsOf(Before(l.(queue := l.queue[1..]), l.fds, ready, i).queue)| - if |l.queue| > 1 then 1 else 0
  }

  lemma PlaceInQueue(queue: seq<Task>, id: OpId, longer: seq<Task>)
    requires queue + [OpTask(id)] <= longer
    ensures Behind(longer, |OpsOf(queue)|, id)
  {
    OpsOfAppend(queue, [OpTask(id)]);
    OpsOfPrefix(queue + [OpTask(id)], longer);
    assert OpsOf([OpTask(id)]) == [id];
  }

  /** The operation that entry `i` leads to when its turn comes, if serving it ends its wait. */
  ghost function EndedAt(l: Loop, ready: seq<Ready>, i: nat): Option<OpId>
    requires Idle(l) && l.queue[0] == ReactorTask && |ready| == |l.fds| && i < |l.fds|
  {
    TurnQueues(l, ready, i);
    Ended(Before(l.(queue := l.queue[1..]), l.fds, ready, i), l.fds[i], ready[i])
  }

  /** After the reactor's turn, before the second task of the poll. */
  lemma TurnPlaces(l: Loop, ready: seq<Ready>, i: nat, id: OpId)
    requires Idle(l) && l.queue[0] == ReactorTask && |ready| == |l.fds| && i < |l.fds|
    requires EndedAt(l, ready, i) == Some(id)
    ensures 0 <= Place(l, ready, i)
    ensures Behind(ReactorTurn(l, PollResult.Polled(ready)).queue,
                   Place(l, ready, i) + if |l.queue| > 1 then 1 else 0, id)
  {
    hide Core, RunReactor, Sweep, Ended;
    TurnQueues(l, ready, i);
    var b := Before(l.(queue := l.queue[1..]), l.fds, ready, i);
    PlaceInQueue(b.queue, id, ReactorTurn(l, PollResult.Polled(ready)).queue);
    if |l.queue| > 1 {
      SecondTask(l, PollResult.Polled(ready));
      assert l.queue[1..][0] == l.queue[1];
      OpsOfPrefix(l.queue[1..], b.queue);
    }
  }

  lemma PollPlaces(l: Loop, ready: seq<Ready>, script: seq<Action>, i: nat, id: OpId)
    requires Idle(l) && l.queue[0] == ReactorTask && l.numTasks != 0 && PollOk(l, PollResult.Polled(ready), script)
    requires i < |l.fds| && EndedAt(l, ready, i) == Some(id)
    ensures 0 <= Place(l, ready, i)
    ensures Behind(PollOnce(l, PollResult.Polled(ready), script).1.queue, Place(l, ready, i), id)
  {
    hide Core, RunReactor, Sweep, Ended, EndedAt, Place, ReactorTurn, RunTask;
    TurnPlaces(l, ready, i, id);
    if |l.queue| > 1 {
      var p := PollResult.Polled(ready);
      var l1 := ReactorTurn(l, p);
      ReactorTurnKeeps(l, p);
      SecondTask(l, p);
      QueueHead(l1);
      HeadRunsFirst(l1, script);
    }
  }

  /**
   An operation whose wait ends in this poll, whatever the index is like, has not been finalized
   after as many more polls as there are operations in front of it, and is finalized by the next one.
   */
  lemma FinalizedInTurn(l: Loop, ready: seq<Ready>, script: seq<Action>, i: nat, id: OpId,
                        inputs: seq<Input>, last: Input)
    requires Idle(l) && l.queue[0] == ReactorTask && l.numTasks != 0 && PollOk(l, PollResult.Polled(ready), script)
    requires i < |l.fds| && EndedAt(l, ready, i) == Some(id)
    requires var l1 := PollOnce(l, PollResult.Polled(ready), script).1;
             && IsTrace(l1, inputs) && Turns(inputs) == Place(l, ready, i)
             && last.Turn? && InputOk(Trace(l1, inputs), last)
    ensures var l2 := Trace(PollOnce(l, PollResult.Polled(ready), script).1, inputs);
            && id in l2.ops && l2.ops[id].calls == 0
            && id in Step(l2, last).ops && Step(l2, last).ops[id].calls == 1
  {
    hide Core, RunReactor, Sweep, Ended, EndedAt, Place, ReactorTurn, RunTask, PollOnce, Step;
    PollPlaces(l, ready, script, i, id);
    PollKeepsIdle(l, PollResult.Polled(ready), script);
    RunsInTurn(PollOnce(l, PollResult.Polled(ready), script).1, inputs, last, Place(l, ready, i), id);
  }

  /** With a right index it is the entry's own operation that ends, if no entry before it is of the same slot. */
  lemma OwnEnds(l: Loop, ready: seq<Ready>, i: nat)
    requires Idle(l) && Inv(l) && l.queue[0] == ReactorTask && |ready| == |l.fds| && i < |l.fds|
    requires l.fds[i] in l.pending && l.fds[i] !in l.fds[..i]
    requires ServedEnds(l, ready, i)
    ensures EndedAt(l, ready, i) == Some(l.pending[l.fds[i]]) && l.numTasks != 0
  {
    TurnQueues(l, ready, i);
    var l1, slot := l.(queue := l.queue[1..]), l.fds[i];
    OthersLeave(l1, l.fds[..i], ready[..i], slot);
    TargetIsOwn(Before(l1, l.fds, ready, i), slot);
    assert l.pending != map[];
  }

  /** Serving entry `i` when its turn comes ends the wait of the operation in its own slot. */
  ghost predicate ServedEnds(l: Loop, ready: seq<Ready>, i: nat)
    requires Idle(l) && l.queue[0] == ReactorTask && |ready| == |l.fds| && i < |l.fds|
  {
    TurnQueues(l, ready, i);
    var b := Before(l.(queue := l.queue[1..]), l.fds, ready, i);
    l.fds[i].fd in b.handles && Ends(b, l.fds[i], ready[i])
  }

  lemma ReactorIsNext(start: Loop, before: seq<Input>, q: nat)
    requires Idle(start) && ReactorAt(start, q, start.reactorRuns) && IsTrace(start, before) && Turns(before) == q
    ensures Idle(Trace(start, before)) && Trace(start, before).queue[0] == ReactorTask
  {
    hide Core, InputOk, Step;
    ReactorWaits(start, before, q);
    TraceKeepsIdle(start, before);
  }

  /**
   From poll(2) to the callback, in any run that destroys handles safely: the reactor's task, queued
   behind `q` operations, runs in the poll after `q` others; a parked operation whose wait ends then
   is finalized by the poll that its place tells, and by no earlier one.
   */
  lemma ReportedIsFinalized(
    start: Loop, before: seq<Input>, q: nat, ready: seq<Ready>, script: seq<Action>, i: nat,
    after: seq<Input>, last: Input)
    requires Idle(start) && Inv(start) && ReactorAt(start, q, start.reactorRuns)
    requires IsTrace(start, before) && SafeTrace(start, before) && Turns(before) == q
    requires (ReactorIsNext(start, before, q);
              var l := Trace(start, before);
              && InputOk(l, Turn(PollResult.Polled(ready), script)) && |ready| == |l.fds| && i < |l.fds|
              && l.fds[i] in l.pending && l.fds[i] !in l.fds[..i] && ServedEnds(l, ready, i)
              && var l1 := PollOnce(l, PollResult.Polled(ready), script).1;
              && IsTrace(l1, after) && Turns(after) == Place(l, ready, i)
              && last.Turn? && InputOk(Trace(l1, after), last))
    ensures var l := Trace(start, before);
            var l2 := Trace(PollOnce(l, PollResult.Polled(ready), script).1, after);
            var id := l.pending[l.fds[i]];
            && id in l2.ops && l2.ops[id].calls == 0
            && id in Step(l2, last).ops && Step(l2, last).ops[id].calls == 1
  {
    var l := Trace(start, before);
    TraceKeepsInv(start, before);
    ReactorIsNext(start, before, q);
    OwnEnds(l, ready, i);
    FinalizedInTurn(l, ready, script, i, l.pending[l.fds[i]], after, last);
  }
}
