/** The event loop and its reactor as they run: slots, poll entries, queue and count updated in place. */
module EventLoop {
  import opened Bytes
  import H = HandleIndex
  import opened LoopSpec
  import opened ReactorSpec
  import opened SchedulerSpec

  /** `l` with other poll entries. */
  function WithEntries(l: Loop, fds: seq<Slot>): Loop {
    l.(fds := fds)
  }

  lemma SubmitIgnoresEntries(l: Loop, fds: seq<Slot>, id: OpId, pushOk: bool, now: int)
    requires id in l.ops && l.ops[id].slot.fd in l.handles
    ensures var l' := Submit(l, id, pushOk, now);
            && l.fds <= l'.fds
            && Submit(WithEntries(l, fds), id, pushOk, now) == WithEntries(l', fds + l'.fds[|l.fds|..])
  {
    var l', slot := Submit(l, id, pushOk, now), l.ops[id].slot;
    assert ArmTimer(WithEntries(l, fds), slot.fd, now) == WithEntries(ArmTimer(l, slot.fd, now), fds);
    if pushOk {
      assert l'.fds == l.fds + [slot] && l'.fds[|l.fds|..] == [slot];
    } else {
      assert l'.fds == l.fds && l.fds[|l.fds|..] == [] && fds + [] == fds;
    }
  }

  lemma PerformIgnoresEntries(l: Loop, fds: seq<Slot>, id: OpId, a: LoopSpec.Attempt, now: int)
    requires id in l.ops && l.ops[id].slot.fd in l.handles
    ensures var l' := LoopSpec.Perform(l, id, a, now);
            && l.fds <= l'.fds
            && LoopSpec.Perform(WithEntries(l, fds), id, a, now) == WithEntries(l', fds + l'.fds[|l.fds|..])
  {
    var l1 := Attempted(l, id);
    assert Attempted(WithEntries(l, fds), id) == WithEntries(l1, fds);
    match a
    case WouldBlock(pushOk) =>
      SubmitIgnoresEntries(l1, fds, id, pushOk, now);
    case Finished(err, created) =>
      var l2 := if created.Some? then CreateHandle(l1, created.value) else l1;
      assert l2.fds == l.fds && LoopSpec.Perform(l, id, a, now) == Complete(l2, id, err);
      assert LoopSpec.Perform(WithEntries(l, fds), id, a, now) == Complete(WithEntries(l2, fds), id, err);
      assert l.fds[|l.fds|..] == [] && fds + [] == fds;
  }

  lemma EntriesKeepCore(l: Loop, fds: seq<Slot>)
    requires Core(l)
    ensures Core(WithEntries(l, fds))
  {
    forall s | s in l.pending ensures s.fd in l.handles {
      assert Parked(l, s);
    }
    CoreFrame(l, WithEntries(l, fds));
  }

  /** The reactor does not look at entries other than the one it serves; new ones go to the end. */
  lemma ServiceIgnoresEntries(l: Loop, fds: seq<Slot>, slot: Slot, ready: Ready)
    requires Core(l) && Core(WithEntries(l, fds))
    ensures var (l', keep) := Service(l, slot, ready);
            && l.fds <= l'.fds
            && Service(WithEntries(l, fds), slot, ready) == (WithEntries(l', fds + l'.fds[|l.fds|..]), keep)
  {
    assert fds + [] == fds && l.fds[|l.fds|..] == [];
    var target := Target(l, slot);
    assert Target(WithEntries(l, fds), slot) == target;
    if target.Some? {
      var at := target.value;
      var l1 := Unpark(l, at);
      assert Unpark(WithEntries(l, fds), at) == WithEntries(l1, fds);
      if ready.revents.Any() && Hit(ready.revents, at.typ) {
        PerformIgnoresEntries(l1, fds, l.pending[at], ready.attempt, ready.now);
      }
    }
  }

  /** Serving the remaining entries leads to `whole`. */
  ghost predicate SweepsTo(l: Loop, entries: seq<Slot>, ready: seq<Ready>, kept: seq<Slot>, whole: Swept) {
    && Core(l) && |entries| == |ready|
    && whole == Swept(Sweep(l, entries, ready).l, kept + Sweep(l, entries, ready).kept)
  }

  /** Serving one more entry is one more step of the sweep. */
  lemma SweepStep(whole: Swept, l: Loop, kept: seq<Slot>, entries: seq<Slot>, ready: seq<Ready>)
    requires SweepsTo(l, entries, ready, kept, whole) && entries != []
    ensures var (l1, keep) := Service(l, entries[0], ready[0]);
            SweepsTo(l1, entries[1..], ready[1..], kept + Kept(keep, entries[0]), whole)
  {
    ServiceCore(l, entries[0], ready[0]);
    var (l1, keep) := Service(l, entries[0], ready[0]);
    Associate(kept, Kept(keep, entries[0]), Sweep(l1, entries[1..], ready[1..]).kept);
  }

  lemma SweepEnds(l: Loop, entries: seq<Slot>, ready: seq<Ready>, kept: seq<Slot>, whole: Swept)
    requires SweepsTo(l, entries, ready, kept, whole) && entries == []
    ensures whole == Swept(l, kept)
  {
    assert kept + [] == kept;
  }

  /**
   The vector while it is being compacted: the kept entries, then what is left of the polled ones,
   then those registered meanwhile; `i` of the polled entries `base` have been served.
   */
  ghost predicate Halfway(v: Loop, l: Loop, kept: seq<Slot>, base: seq<Slot>, ready: seq<Ready>, i: nat, whole: Swept) {
    && |kept| <= i <= |base| == |ready| && |base| <= |l.fds|
    && v == WithEntries(l, Compacting(kept, base, l.fds))
    && SweepsTo(l, base[i..], ready[i..], kept, whole)
  }

  lemma SweepBegins(l: Loop, ready: seq<Ready>)
    requires Core(l) && |ready| == |l.fds|
    ensures Halfway(l, l, [], l.fds, ready, 0, Sweep(l, l.fds, ready))
  {
    var whole := Sweep(l, l.fds, ready);
    assert l.fds[0..] == l.fds && ready[0..] == ready && [] + whole.kept == whole.kept;
    assert l.fds == [] + l.fds[0..] + l.fds[|l.fds|..];
  }

  /** The vector after entry `i` was served, with what the attempt registered at the end. */
  function Compacting(kept: seq<Slot>, base: seq<Slot>, fds: seq<Slot>): seq<Slot>
    requires |kept| <= |base| <= |fds|
  {
    kept + base[|kept|..] + fds[|base|..]
  }

  lemma CompactingGrows(kept: seq<Slot>, base: seq<Slot>, fds: seq<Slot>, fds': seq<Slot>)
    requires |kept| <= |base| <= |fds| && fds <= fds'
    ensures Compacting(kept, base, fds) + fds'[|fds|..] == Compacting(kept, base, fds')
  {
    assert fds'[|base|..] == fds[|base|..] + fds'[|fds|..];
  }

  lemma CompactingKeeps(kept: seq<Slot>, base: seq<Slot>, fds: seq<Slot>, slot: Slot)
    requires |kept| < |base| <= |fds|
    ensures Compacting(kept, base, fds)[|kept| := slot] == Compacting(kept + [slot], base, fds)
  {
  }

  /** Serving the next entry leads halfway again. */
  lemma HalfwayStep(v: Loop, l: Loop, kept: seq<Slot>, base: seq<Slot>, ready: seq<Ready>, i: nat, whole: Swept)
    requires Halfway(v, l, kept, base, ready, i, whole) && i < |base|
    ensures i < |v.fds| && v.fds[i] == base[i] && Core(v)
    ensures var (l1, keep) := Service(l, base[i], ready[i]); var kept1 := kept + Kept(keep, base[i]);
            && |kept1| <= |base| <= |l1.fds|
            && Service(v, base[i], ready[i]) == (WithEntries(l1, Compacting(kept, base, l1.fds)), keep)
            && Halfway(WithEntries(l1, Compacting(kept1, base, l1.fds)), l1, kept1, base, ready, i + 1, whole)
  {
    EntriesKeepCore(l, v.fds);
    ServiceIgnoresEntries(l, v.fds, base[i], ready[i]);
    var l1 := Service(l, base[i], ready[i]).0;
    CompactingGrows(kept, base, l.fds, l1.fds);
    SweepStep(whole, l, kept, base[i..], ready[i..]);
    assert base[i..][1..] == base[i + 1..] && ready[i..][1..] == ready[i + 1..];
  }

  lemma SweepDone(v: Loop, l: Loop, kept: seq<Slot>, base: seq<Slot>, ready: seq<Ready>, whole: Swept)
    requires Halfway(v, l, kept, base, ready, |base|, whole)
    ensures whole == Swept(l, kept) && |kept| <= |base| <= |l.fds|
    ensures v == WithEntries(l, Compacting(kept, base, l.fds))
  {
    SweepEnds(l, base[|base|..], ready[|base|..], kept, whole);
  }

  class EventLoop {
    var handles: map<int, Handle>
    var index: H.Index  // the hash index of the handles, as a value; `HandleMap` is its code
    var pending: map<Slot, OpId>
    var fds: seq<Slot>
    var queue: seq<Task>
    var numTasks: int
    var ops: map<OpId, Op>
    var running: Option<OpId>
    var reactorRuns: nat

    ghost function View(): Loop
      reads this
    {
      Loop(handles, index, pending, fds, queue, numTasks, ops, running, reactorRuns)
    }

    constructor ()
      ensures View() == Init()
    {
      handles, pending, fds, queue, numTasks := map[], map[], [], [ReactorTask], 0;
      ops, running, reactorRuns := map[], None, 0;
      index := H.EmptyIndex();
    }

    /** Creates the handle of a descriptor. */
    method NewHandle(fd: int)
      requires fd !in handles
      modifies this`handles, this`index
      ensures View() == CreateHandle(old(View()), fd)
    {
      index := H.Add(index, fd);
      handles := handles[fd := Handle(false, 0)];
    }

    /** Marks an operation completed and queues it. */
    method Post(id: OpId, err: Error)
      requires id in ops
      modifies this`ops, this`queue, this`numTasks
      ensures View() == Complete(old(View()), id, err)
    {
      ops := ops[id := ops[id].(completed := true, err := err)];
      numTasks := numTasks + 1;
      queue := queue + [OpTask(id)];
    }

    /** The end of `submit`, for an operation that has had its immediate attempt. */
    method Register(id: OpId, pushOk: bool, now: int)
      requires id in ops && ops[id].slot.fd in handles && ops[id].slot !in pending
      modifies this`handles, this`pending, this`fds, this`queue, this`numTasks, this`ops
      ensures View() == Submit(old(View()), id, pushOk, now)
    {
      var slot := ops[id].slot;
      pending := pending[slot := id];
      if handles[slot.fd].timeoutEnabled {
        handles := handles[slot.fd := handles[slot.fd].(expire := now + IO_TIMEOUT)];
      }
      assert handles == ArmTimer(old(View()), slot.fd, now).handles;
      if !pushOk {
        pending := pending - {slot};
        assert pending == old(pending);
        Post(id, BadAlloc);
        return;
      }
      fds := fds + [slot];
      numTasks := numTasks + 1;
    }

    /** One attempt at an operation: it completes, or waits for readiness. */
    method Attempt(id: OpId, a: LoopSpec.Attempt, now: int)
      requires id in ops && ops[id].slot.fd in handles && ops[id].slot !in pending
      modifies this`handles, this`pending, this`fds, this`queue, this`numTasks, this`ops, this`index
      ensures View() == LoopSpec.Perform(old(View()), id, a, now)
    {
      ops := ops[id := ops[id].(immediate := false, attempts := ops[id].attempts + 1)];
      match a
      case Finished(err, created) =>
        if created.Some? && created.value !in handles {
          NewHandle(created.value);
        }
        Post(id, err);
      case WouldBlock(pushOk) =>
        Register(id, pushOk, now);
    }

    method StartOp(id: OpId, slot: Slot, a: LoopSpec.Attempt, now: int)
      requires Core(View()) && Enabled(View(), Action.StartOp(id, slot, a, now))
      modifies this`handles, this`pending, this`fds, this`queue, this`numTasks, this`ops, this`index
      ensures View() == Apply(old(View()), Action.StartOp(id, slot, a, now)) && Core(View())
      ensures old(Inv(View())) ==> Inv(View())
    {
      hide Core, Inv, H.Add, Located, Parked;
      ApplyKeepsCore(View(), Action.StartOp(id, slot, a, now));
      if Inv(View()) {
        ApplyKeepsInv(View(), Action.StartOp(id, slot, a, now));
      }
      ops := ops[id := Op(slot, true, false, NoError, 0, 0)];
      Attempt(id, a, now);
    }

    /** Aborts whatever is parked at a handle. */
    method CancelAll(fd: int)
      requires Core(View()) && fd in handles
      modifies this`pending, this`queue, this`numTasks, this`ops
      ensures View() == Apply(old(View()), Cancel(fd)) && Core(View())
      ensures old(Inv(View())) ==> Inv(View())
    {
      ApplyKeepsCore(View(), Cancel(fd));
      if Inv(View()) {
        ApplyKeepsInv(View(), Cancel(fd));
      }
      CancelKeepsCore(View(), Slot(fd, Read));
      CancelOne(Slot(fd, Read));
      CancelKeepsCore(View(), Slot(fd, Write));
      CancelOne(Slot(fd, Write));
    }

    method CancelOne(slot: Slot)
      requires slot in pending ==> pending[slot] in ops
      modifies this`pending, this`queue, this`numTasks, this`ops
      ensures View() == CancelSlot(old(View()), slot)
    {
      if slot in pending {
        var id := pending[slot];
        pending := pending - {slot};
        Post(id, Canceled);
        numTasks := numTasks - 1;
      }
    }

    method CreateFor(fd: int)
      requires Core(View()) && fd !in handles
      modifies this`handles, this`index
      ensures View() == Apply(old(View()), Create(fd)) && Core(View())
      ensures old(Inv(View())) ==> Inv(View())
    {
      ApplyKeepsCore(View(), Create(fd));
      if Inv(View()) {
        ApplyKeepsInv(View(), Create(fd));
      }
      NewHandle(fd);
    }

    method DestroyFor(fd: int)
      requires Core(View()) && Enabled(View(), Destroy(fd))
      modifies this`handles, this`index
      ensures View() == Apply(old(View()), Destroy(fd)) && Core(View())
      ensures old(Inv(View())) ==> (Inv(View()) <==> old(Safe(View(), Destroy(fd))))
    {
      hide Core, Inv, Safe, H.Remove, H.HandleAt;
      DestroyKeepsCore(View(), fd);
      if Inv(View()) {
        ApplyKeepsInvExactly(View(), Destroy(fd));
      }
      index := H.Remove(index, fd);
      handles := handles - {fd};
    }

    method SetTimeout(fd: int, enabled: bool)
      requires Core(View()) && fd in handles
      modifies this`handles
      ensures View() == Apply(old(View()), EnableTimeout(fd, enabled)) && Core(View())
      ensures old(Inv(View())) ==> Inv(View())
    {
      ApplyKeepsCore(View(), EnableTimeout(fd, enabled));
      if Inv(View()) {
        ApplyKeepsInv(View(), EnableTimeout(fd, enabled));
      }
      handles := handles[fd := handles[fd].(timeoutEnabled := enabled)];
    }

    // ---------- The reactor ----------

    /** One polled entry; says whether it is to be kept. */
    method ServeEntry(slot: Slot, ready: Ready) returns (keep: bool)
      requires Core(View())
      modifies this`handles, this`pending, this`fds, this`queue, this`numTasks, this`ops, this`index
      ensures (View(), keep) == Service(old(View()), slot, ready)
    {
      var found := H.HandleAt(index, slot.fd);
      if found == None || found.value !in handles {
        return false;
      }
      var at := Slot(found.value, slot.typ);
      if at !in pending {
        return false;
      }
      assert Target(View(), slot) == Some(at);
      if ready.revents.Any() {
        DispatchEntry(at, ready);
        return false;
      }
      if handles[at.fd].timeoutEnabled && handles[at.fd].expire <= ready.now {
        GiveUp(at, TimedOut);
        return false;
      }
      return true;
    }

    /** Acts on the events that an entry of a parked operation reports. */
    method DispatchEntry(slot: Slot, ready: Ready)
      requires Core(View()) && slot in pending
      modifies this`handles, this`pending, this`fds, this`queue, this`numTasks, this`ops, this`index
      ensures View() == Dispatch(old(View()), slot, ready)
    {
      var revents := ready.revents;
      if Hit(revents, slot.typ) {
        Retry(slot, ready.attempt, ready.now);
      } else if revents.hup {
        GiveUp(slot, EndOfFile);
      } else if revents.err || revents.pri {
        GiveUp(slot, IoError);
      } else if revents.nval {
        GiveUp(slot, BadFd);
      } else {
        GiveUp(slot, UnknownEvent);
      }
    }

    /** Takes an operation out of its slot and attempts it again. */
    method Retry(slot: Slot, a: LoopSpec.Attempt, now: int)
      requires Core(View()) && slot in pending
      modifies this`handles, this`pending, this`fds, this`queue, this`numTasks, this`ops, this`index
      ensures var l, id := old(View()), old(pending)[slot];
              && id in l.ops && l.ops[id].slot.fd in l.handles
              && View() == LoopSpec.Perform(Unpark(l, slot), id, a, now)
    {
      hide Core, H.Add, CreateHandle, Conserved, NoDuplicates, Located, Parked, QueuedOk;
      UnparkCore(View(), slot);
      var id := pending[slot];
      pending := pending - {slot};
      numTasks := numTasks - 1;
      Attempt(id, a, now);
    }

    /** Takes an operation out of its slot and completes it with an error. */
    method GiveUp(slot: Slot, err: Error)
      requires Core(View()) && slot in pending
      modifies this`pending, this`queue, this`numTasks, this`ops
      ensures old(pending)[slot] in old(ops)
      ensures View() == Complete(Unpark(old(View()), slot), old(pending)[slot], err)
    {
      UnparkCore(View(), slot);
      var id := pending[slot];
      pending := pending - {slot};
      numTasks := numTasks - 1;
      Post(id, err);
    }

    /**
     Serves the polled entries and compacts the vector in place; entries that attempts push
     behind the polled ones while this goes on are moved down afterwards.
     */
    method React(p: PollResult)
      requires Core(View()) && Answers(p, View())
      modifies this`handles, this`pending, this`fds, this`queue, this`numTasks, this`ops, this`index
      ensures View() == RunReactor(old(View()), p)
      ensures old(Inv(View())) ==> Inv(View())
    {
      if Inv(View()) {
        RunKeepsInv(View(), p);
      }
      if p.Polled? {
        ghost var l, n := View(), |fds|;
        SweepGrows(l, fds, p.ready);
        var polled := |fds|;
        var reenqueue, whole := SweepInPlace(p.ready);
        Compact(whole.kept, whole.l.fds[n..], polled, reenqueue);
      }
    }

    /** The first loop: the kept entries end up in front. */
    method SweepInPlace(ready: seq<Ready>) returns (reenqueue: nat, ghost whole: Swept)
      requires Core(View()) && |ready| == |fds|
      modifies this`handles, this`pending, this`fds, this`queue, this`numTasks, this`ops, this`index
      ensures whole == Sweep(old(View()), old(fds), ready)
      ensures reenqueue == |whole.kept| <= |old(fds)| <= |whole.l.fds|
      ensures View() == WithEntries(whole.l, whole.kept + old(fds)[reenqueue..] + whole.l.fds[|old(fds)|..])
    {
      ghost var base := fds;
      whole := Sweep(View(), base, ready);
      ghost var swept, kept := View(), [];
      SweepBegins(View(), ready);
      var n := |fds|;
      reenqueue := 0;
      for i := 0 to n
        invariant reenqueue == |kept|
        invariant Halfway(View(), swept, kept, base, ready, i, whole)
      {
        swept, kept, reenqueue := ServePolled(swept, kept, base, ready, i, reenqueue, whole);
      }
      SweepDone(View(), swept, kept, base, ready, whole);
    }

    /** Serves entry `i` and moves it down if it is kept. */
    method ServePolled(ghost l: Loop, ghost kept: seq<Slot>, ghost base: seq<Slot>, ready: seq<Ready>,
                       i: nat, reenqueue: nat, ghost whole: Swept)
      returns (ghost l': Loop, ghost kept': seq<Slot>, next: nat)
      requires Halfway(View(), l, kept, base, ready, i, whole) && i < |base| && reenqueue == |kept|
      modifies this`handles, this`pending, this`fds, this`queue, this`numTasks, this`ops, this`index
      ensures Halfway(View(), l', kept', base, ready, i + 1, whole) && next == |kept'|
    {
      HalfwayStep(View(), l, kept, base, ready, i, whole);
      var slot := fds[i];
      var keep := ServeEntry(slot, ready[i]);
      l', kept', next := Service(l, slot, ready[i]).0, kept + Kept(keep, slot), reenqueue;
      if keep {
        CompactingKeeps(kept, base, l'.fds, slot);
        KeepEntry(reenqueue, i, slot);
        next := reenqueue + 1;
      } else {
        assert kept + [] == kept;
      }
    }

    /** Copies a kept entry down. */
    method KeepEntry(reenqueue: nat, i: nat, slot: Slot)
      requires reenqueue <= i < |fds| && fds[i] == slot
      modifies this`fds
      ensures fds == old(fds)[reenqueue := slot]
    {
      if reenqueue < i {
        fds := fds[reenqueue := slot];
      }
    }

    /** Moves the entries behind `n` down to `reenqueue` and drops what is left over. */
    method Compact(ghost kept: seq<Slot>, ghost pushed: seq<Slot>, n: nat, reenqueue: nat)
      requires reenqueue == |kept| <= n <= |fds|
      requires fds[..reenqueue] == kept && fds[n..] == pushed
      modifies this`fds
      ensures fds == kept + pushed
    {
      var total, to := |fds|, reenqueue;
      for i := n to total
        invariant |fds| == total && to == reenqueue + (i - n)
        invariant fds[..to] == kept + pushed[..i - n]
        invariant fds[i..] == pushed[i - n..]
      {
        assert pushed[i - n..][0] == fds[i];
        assert pushed[..i - n + 1] == pushed[..i - n] + [fds[i]];
        if to < i {
          fds := fds[to := fds[i]];
        }
        to := to + 1;
      }
      fds := fds[..to];
    }

    // ---------- The loop ----------

    /** What a callback does. */
    method RunScript(script: seq<Action>)
      requires ScriptOk(View(), script)
      modifies this`handles, this`pending, this`fds, this`queue, this`numTasks, this`ops, this`index
      ensures View() == SchedulerSpec.AfterScript(old(View()), script)
    {
      assert script[0..] == script;
      for i := 0 to |script|
        invariant ScriptOk(View(), script[i..])
        invariant SchedulerSpec.AfterScript(old(View()), script) == SchedulerSpec.AfterScript(View(), script[i..])
      {
        assert script[i..][0] == script[i] && script[i..][1..] == script[i + 1..];
        match script[i]
        case Create(fd) => CreateFor(fd);
        case Destroy(fd) => DestroyFor(fd);
        case EnableTimeout(fd, enabled) => SetTimeout(fd, enabled);
        case StartOp(id, slot, attempt, now) => StartOp(id, slot, attempt, now);
        case Cancel(fd) => CancelAll(fd);
      }
      assert script[|script|..] == [];
    }

    /** Runs the popped reactor task and queues it again. */
    method TakeReactorTurn(p: PollResult)
      requires Idle(View()) && queue[0] == ReactorTask && Answers(p, View())
      modifies this`handles, this`pending, this`fds, this`queue, this`numTasks, this`ops, this`reactorRuns, this`index
      ensures View() == ReactorTurn(old(View()), p)
    {
      PopReactorKeeps(View());
      queue := queue[1..];
      React(p);
      queue := queue + [ReactorTask];
      reactorRuns := reactorRuns + 1;
    }

    /** Finalizes the popped operation; whatever its callback starts or cancels happens before it stops counting. */
    method Finalize(script: seq<Action>)
      requires queue != [] && queue[0].OpTask? && queue[0].id in ops && ScriptOk(Popped(View()), script)
      modifies this
      ensures View() == RunTask(old(View()), script)
    {
      PopTask();
      RunScript(script);
      running := None;
      numTasks := numTasks - 1;
    }

    method PopTask()
      requires queue != [] && queue[0].OpTask? && queue[0].id in ops
      modifies this`queue, this`running, this`ops
      ensures View() == Popped(old(View()))
    {
      var id := queue[0].id;
      queue := queue[1..];
      running := Some(id);
      ops := ops[id := ops[id].(calls := ops[id].calls + 1)];
    }

    /** Runs one queued operation, giving the reactor a turn first if its task is at the head. */
    method Poll(p: PollResult, script: seq<Action>) returns (status: PollStatus)
      requires Idle(View()) && PollOk(View(), p, script)
      modifies this
      ensures (status, View()) == PollOnce(old(View()), p, script) && Idle(View())
      ensures old(Inv(View()) && SafePoll(View(), p, script)) ==> Inv(View())
    {
      hide Inv, SafePoll, Core, ScriptOk, RunReactor;
      PollKeepsIdle(View(), p, script);
      if Inv(View()) && SafePoll(View(), p, script) {
        PollKeepsInv(View(), p, script);
      }
      if numTasks == 0 {
        return NothingLeft;
      }
      ghost var turned := false;
      while true
        invariant Idle(View())
        invariant !turned ==> View() == old(View())
        invariant turned ==>
                    && old(queue)[0] == ReactorTask && |old(queue)| > 1 && queue[0].OpTask?
                    && View() == ReactorTurn(old(View()), p)
        decreases !turned
      {
        var empty := |queue| == 1;
        if queue[0] == ReactorTask {
          ReactorTurnKeeps(View(), p);
          TakeReactorTurn(p);
          if empty {
            return PollStatus.Polled;
          }
          SecondTask(old(View()), p);
          turned := true;
        } else {
          QueueHead(View());
          Finalize(script);
          return PollStatus.Polled;
        }
      }
    }
  }
}
