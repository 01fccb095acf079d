/** What a reactor run does when the index misses a live handle, and a run in which that happens. */
module LostWakeup {
  import opened Bytes
  import H = HandleIndex
  import HashGrowth
  import opened LoopSpec
  import opened ReactorSpec
  import SchedulerSpec

  /** The entry reports nothing and the handle that it leads to has not timed out. */
  predicate Quiet(l: Loop, slot: Slot, ready: Ready) {
    && !ready.revents.Any()
    && (Target(l, slot).Some? ==> !Expired(l, Target(l, slot).value, ready))
  }

  ghost predicate AllQuiet(l: Loop, entries: seq<Slot>, ready: seq<Ready>) {
    |entries| == |ready| && forall i :: 0 <= i < |entries| ==> Quiet(l, entries[i], ready[i])
  }

  /** A quiet sweep keeps exactly the entries that lead to a parked operation. */
  lemma {:induction false} QuietSweep(l: Loop, entries: seq<Slot>, ready: seq<Ready>)
    requires Core(l) && AllQuiet(l, entries, ready)
    ensures Sweep(l, entries, ready).l == l
    ensures forall s :: s in Sweep(l, entries, ready).kept <==> s in entries && Target(l, s).Some?
    decreases |entries|
  {
    hide Core, Lookup, Target;
    if entries != [] {
      var e := entries[0];
      assert entries == [e] + entries[1..];
      assert Quiet(l, entries[0], ready[0]);
      assert AllQuiet(l, entries[1..], ready[1..]) by {
        assert forall i :: 0 <= i < |entries[1..]| ==>
            entries[1..][i] == entries[i + 1] && ready[1..][i] == ready[i + 1];
      }
      assert Service(l, e, ready[0]) == (l, Target(l, e).Some?);
      QuietSweep(l, entries[1..], ready[1..]);
    }
  }

  /**
   * After a quiet run every parked operation still has its entry if and only if each of these leads to
   * a parked operation.
   */
  lemma QuietRunCoversExactly(l: Loop, ready: seq<Ready>)
    requires Core(l) && Covered(l.pending, l.fds) && AllQuiet(l, l.fds, ready)
    ensures var l' := RunReactor(l, Polled(ready));
            && l'.pending == l.pending
            && (Covered(l'.pending, l'.fds) <==> forall slot :: slot in l.pending ==> Target(l, slot).Some?)
  {
    QuietSweep(l, l.fds, ready);
    assert l.fds[|l.fds|..] == [];
  }

  /**
   * After a handle has been destroyed, a quiet run keeps the entries of all parked operations if and
   * only if none of their descriptors was cut off.
   */
  lemma DestroyLosesExactly(l: Loop, fd: int, ready: seq<Ready>)
    requires Inv(l) && Enabled(l, Destroy(fd)) && AllQuiet(Apply(l, Destroy(fd)), l.fds, ready)
    ensures Core(Apply(l, Destroy(fd)))
    ensures var l' := RunReactor(Apply(l, Destroy(fd)), Polled(ready));
            Covered(l'.pending, l'.fds) <==> forall slot :: slot in l.pending ==> !H.Hides(l.index, fd, slot.fd)
  {
    hide H.Remove, H.HandleAt, Lookup, RunReactor, AllQuiet, H.Hides;
    DestroyKeepsCore(l, fd);
    QuietRunCoversExactly(Apply(l, Destroy(fd)), ready);
    forall slot | slot in l.pending
      ensures Target(Apply(l, Destroy(fd)), slot).Some? <==> !H.Hides(l.index, fd, slot.fd)
    {
      ParkedElsewhere(l, fd, slot);
      DestroyHidesExactly(l, fd, slot.fd);
      assert slot == Slot(slot.fd, slot.typ);
    }
  }

  lemma ParkedElsewhere(l: Loop, fd: int, slot: Slot)
    requires Core(l) && Enabled(l, Destroy(fd)) && slot in l.pending
    ensures slot.fd in l.handles && slot.fd != fd
  {
    assert Parked(l, slot);
    match slot.typ
    case Read => assert slot == Slot(slot.fd, Read);
    case Write => assert slot == Slot(slot.fd, Write);
  }

  /** An operation is parked, the lookup of its descriptor leads to no handle, and no entry leads to its handle. */
  predicate Missed(l: Loop, entries: seq<Slot>, slot: Slot) {
    && slot in l.pending
    && Lookup(l, slot.fd) == None
    && forall i :: 0 <= i < |entries| ==> Lookup(l, entries[i].fd) != Some(slot.fd)
  }

  /** No attempt at another entry accepts a connection, whose handle would change the index. */
  predicate NoneAccepted(entries: seq<Slot>, ready: seq<Ready>, slot: Slot) {
    && |entries| == |ready|
    && forall i :: 0 <= i < |entries| && entries[i] != slot && ready[i].attempt.Finished? ==>
         ready[i].attempt.created.None?
  }

  /** What an attempt that accepts nothing does to slots, entries and index. */
  lemma PerformShape(l: Loop, id: OpId, a: Attempt, now: int)
    requires id in l.ops && l.ops[id].slot.fd in l.handles && (a.Finished? ==> a.created.None?)
    ensures var l', e := Perform(l, id, a, now), l.ops[id].slot;
            && l'.index == l.index && l'.handles.Keys == l.handles.Keys
            && (if a.WouldBlock? && a.pushOk then l'.pending == l.pending[e := id] && l'.fds == l.fds + [e]
                else l'.pending == l.pending && l'.fds == l.fds)
  {
    assert ArmTimer(Attempted(l, id), l.ops[id].slot.fd, now).handles.Keys == l.handles.Keys;
  }

  /** Serving an entry that accepts nothing leaves index and handles, and every slot but the one it leads to. */
  lemma ServiceShape(l: Loop, e: Slot, ready: Ready)
    requires Core(l) && Target(l, e).Some? && (ready.attempt.Finished? ==> ready.attempt.created.None?)
    ensures var l1, at := Service(l, e, ready).0, Target(l, e).value;
            && l1.index == l.index && l1.handles.Keys == l.handles.Keys
            && (forall s :: s in l.pending && s != at ==> s in l1.pending)
            && (l1.fds == l.fds || l1.fds == l.fds + [at])
  {
    hide Core, H.Add, H.HandleAt, Perform, Lookup, Parked, Located;
    var at := Target(l, e).value;
    UnparkCore(l, at);
    if ready.revents.Any() && Hit(ready.revents, at.typ) {
      PerformShape(Unpark(l, at), l.pending[at], ready.attempt, ready.now);
    }
  }

  /** Serving one entry neither brings the handle back nor touches the operation; its own entry is not kept. */
  lemma ServiceLeavesMissed(l: Loop, entries: seq<Slot>, ready: Ready, slot: Slot)
    requires Core(l) && entries != [] && Missed(l, entries, slot)
    requires entries[0] != slot && ready.attempt.Finished? ==> ready.attempt.created.None?
    ensures var (l1, keep) := Service(l, entries[0], ready);
            && Missed(l1, entries[1..], slot) && (keep ==> entries[0] != slot)
            && l.fds <= l1.fds && slot !in l1.fds[|l.fds|..]
  {
    hide Core, H.HandleAt, Dispatch;
    var l1 := Service(l, entries[0], ready).0;
    if Target(l, entries[0]).Some? {
      assert Target(l, entries[0]).value != slot && entries[0] != slot;
      ServiceShape(l, entries[0], ready);
    }
    forall i | 0 <= i < |entries[1..]| ensures Lookup(l1, entries[1..][i].fd) != Some(slot.fd) {
      assert entries[1..][i] == entries[i + 1];
    }
  }

  /** Entries pushed behind `a` are those pushed behind `b` and the ones between. */
  lemma PushedSince(a: seq<Slot>, b: seq<Slot>, c: seq<Slot>, slot: Slot)
    requires a <= b <= c && slot !in b[|a|..] && slot !in c[|b|..]
    ensures slot !in c[|a|..]
  {
    assert c[|a|..] == b[|a|..] + c[|b|..];
  }

  lemma {:induction false} SweepDropsMissed(l: Loop, entries: seq<Slot>, ready: seq<Ready>, slot: Slot)
    requires Core(l) && Missed(l, entries, slot) && NoneAccepted(entries, ready, slot)
    ensures var s := Sweep(l, entries, ready);
            && slot in s.l.pending && slot !in s.kept
            && l.fds <= s.l.fds && slot !in s.l.fds[|l.fds|..]
    decreases |entries|
  {
    hide Core, Lookup, Service;
    if entries != [] {
      var l1 := Service(l, entries[0], ready[0]).0;
      assert Core(l1) by {
        ServiceCore(l, entries[0], ready[0]);
      }
      assert Missed(l1, entries[1..], slot) && l.fds <= l1.fds && slot !in l1.fds[|l.fds|..]
        && (Service(l, entries[0], ready[0]).1 ==> entries[0] != slot) by {
        ServiceLeavesMissed(l, entries, ready[0], slot);
      }
      SweepDropsMissed(l1, entries[1..], ready[1..], slot);
      PushedSince(l.fds, l1.fds, Sweep(l1, entries[1..], ready[1..]).l.fds, slot);
    }
  }

  /**
   * The entry of a parked operation whose handle no lookup leads to is gone after the next run,
   * whatever it reports, and the operation is still parked.
   */
  lemma MissedIsDropped(l: Loop, slot: Slot, ready: seq<Ready>)
    requires Core(l) && Missed(l, l.fds, slot) && NoneAccepted(l.fds, ready, slot)
    ensures var l' := RunReactor(l, Polled(ready));
            slot in l'.pending && slot !in l'.fds
  {
    SweepDropsMissed(l, l.fds, ready, slot);
  }

  // ---------- A run in which that happens ----------

  const WAITING := Slot(14, Read)

  const IDLE_HANDLE := Handle(false, 0)

  /** Handles for the descriptors 6, 7 and 14. */
  function ThreeHandles(): Loop {
    Loop(map[6 := IDLE_HANDLE, 7 := IDLE_HANDLE, 14 := IDLE_HANDLE], H.Index(HashGrowth.Crowded(), [6, 7, 14]),
         map[], [], [ReactorTask], 0, map[], None, 0)
  }

  /** An operation waits at the third. */
  function Waiting14(): Loop {
    ThreeHandles().(pending := map[WAITING := 0], fds := [WAITING], numTasks := 1,
                    ops := map[0 := Op(WAITING, false, false, NoError, 1, 0)])
  }

  lemma ThreeCreated()
    ensures Inv(ThreeHandles())
    ensures ThreeHandles() == CreateHandle(CreateHandle(CreateHandle(Init(), 6), 7), 14)
  {
    ThreeAre();
    var l1 := CreateHandle(Init(), 6);
    var l2 := CreateHandle(l1, 7);
    assert Inv(l1) by {
      SchedulerSpec.InitIsRight();
      ApplyKeepsInv(Init(), Create(6));
    }
    assert Inv(l2) by { ApplyKeepsInv(l1, Create(7)); }
    assert Inv(CreateHandle(l2, 14)) by { ApplyKeepsInv(l2, Create(14)); }
  }

  lemma ThreeAre()
    ensures ThreeHandles() == CreateHandle(CreateHandle(CreateHandle(Init(), 6), 7), 14)
    ensures CreateHandle(Init(), 6).handles == map[6 := IDLE_HANDLE]
    ensures CreateHandle(CreateHandle(Init(), 6), 7).handles == map[6 := IDLE_HANDLE, 7 := IDLE_HANDLE]
  {
    hide H.Add;
    H.CrowdedIndex();
  }

  /** Starting an operation that has to wait, as the first one. */
  lemma StartedIs(l: Loop, slot: Slot)
    requires Core(l) && l.ops == map[] && l.pending == map[] && l.fds == [] && l.numTasks == 0
    requires slot.fd in l.handles && l.handles[slot.fd] == IDLE_HANDLE
    ensures Apply(l, StartOp(0, slot, WouldBlock(true), 0)) ==
              l.(pending := map[slot := 0], fds := [slot], numTasks := 1,
                 ops := map[0 := Op(slot, false, false, NoError, 1, 0)])
  {
    var l1 := l.(ops := l.ops[0 := Op(slot, true, false, NoError, 0, 0)]);
    var l2 := Attempted(l1, 0);
    assert l2.ops == map[0 := Op(slot, false, false, NoError, 1, 0)];
    assert ArmTimer(l2, slot.fd, 0).handles == l.handles;
    assert l2.pending[slot := 0] == map[slot := 0];
  }

  lemma OneStarted()
    ensures Inv(Waiting14())
    ensures Core(ThreeHandles()) && Enabled(ThreeHandles(), StartOp(0, WAITING, WouldBlock(true), 0))
    ensures Waiting14() == Apply(ThreeHandles(), StartOp(0, WAITING, WouldBlock(true), 0))
  {
    assert Inv(ThreeHandles()) by { ThreeCreated(); }
    StartedIs(ThreeHandles(), WAITING);
    ApplyKeepsInv(ThreeHandles(), StartOp(0, WAITING, WouldBlock(true), 0));
  }

  /**
   * Destroying the handle of descriptor 6, which has nothing pending, makes the next reactor run drop
   * the entry of the operation that waits at descriptor 14: its wakeup is lost.
   */
  lemma WakeupLost(ready: Ready)
    ensures Inv(Waiting14()) && Enabled(Waiting14(), Destroy(6)) && !Safe(Waiting14(), Destroy(6))
    ensures var l := Apply(Waiting14(), Destroy(6));
            && Core(l) && |l.fds| == 1
            && var l' := RunReactor(l, Polled([ready]));
            WAITING in l'.pending && 14 in l'.handles && l'.fds == []
  {
    SixDestroyed();
    SoleEntryDropped(Apply(Waiting14(), Destroy(6)), WAITING, ready);
  }

  lemma SixDestroyed()
    ensures Inv(Waiting14()) && Enabled(Waiting14(), Destroy(6)) && !Safe(Waiting14(), Destroy(6))
    ensures var l := Apply(Waiting14(), Destroy(6));
            Core(l) && Missed(l, l.fds, WAITING) && l.fds == [WAITING] && 14 in l.handles
  {
    hide H.Remove, H.Sees, H.SafeToRemove, Core, H.HandleAt, Lookup;
    assert Inv(Waiting14()) by { OneStarted(); }
    assert Enabled(Waiting14(), Destroy(6)) by { DestroyIsEnabled(Waiting14(), 6); }
    assert !Safe(Waiting14(), Destroy(6)) && !H.Sees(H.Remove(Waiting14().index, 6), 14) by { H.RemoveHides(); }
    HiddenIsMissed(Waiting14(), 6, WAITING);
  }

  lemma DestroyIsEnabled(l: Loop, fd: int)
    requires Inv(l) && fd in l.handles && Slot(fd, Read) !in l.pending && Slot(fd, Write) !in l.pending
    ensures Enabled(l, Destroy(fd))
  {
    LookedIsLive(l, fd);
  }

  lemma HiddenIsMissed(l: Loop, fd: int, slot: Slot)
    requires Inv(l) && Enabled(l, Destroy(fd)) && slot in l.pending && l.fds == [slot]
    requires !H.Sees(H.Remove(l.index, fd), slot.fd)
    ensures var l' := Apply(l, Destroy(fd));
            Core(l') && Missed(l', l'.fds, slot) && l'.fds == l.fds && slot.fd in l'.handles
  {
    hide H.Remove, H.HandleAt, H.Hides;
    DestroyKeepsCore(l, fd);
    DestroyHidesExactly(l, fd, slot.fd);
    assert Parked(Apply(l, Destroy(fd)), slot);
  }

  lemma SoleEntryDropped(l: Loop, slot: Slot, ready: Ready)
    requires Core(l) && l.fds == [slot] && Missed(l, l.fds, slot)
    ensures RunReactor(l, Polled([ready])) == l.(fds := [])
  {
    assert l.fds[1..] == [] && l.fds[0] == slot;
    assert Service(l, slot, ready) == (l, false);
    assert Sweep(l, l.fds, [ready]) == Swept(l, []);
  }

  lemma SeenIsLooked(l: Loop, fd: int)
    requires Core(l) && Enabled(l, Destroy(fd))
    requires forall x :: H.Sees(H.Remove(l.index, fd), x) <==> x in l.handles && x != fd
    ensures var l' := Apply(l, Destroy(fd)); forall x :: Looked(l', x) <==> x in l'.handles
  {
  }

  /** Destroying the handle of descriptor 7 is not safe either, and yet no handle is missed. */
  lemma UnsafeMissesNothing()
    ensures Inv(ThreeHandles()) && Enabled(ThreeHandles(), Destroy(7)) && !Safe(ThreeHandles(), Destroy(7))
    ensures var l := Apply(ThreeHandles(), Destroy(7)); !Inv(l) && forall fd :: Looked(l, fd) <==> fd in l.handles
  {
    hide H.Remove, H.Sees, H.SafeToRemove, Core, H.HandleAt;
    var l := ThreeHandles();
    assert Inv(l) by { ThreeCreated(); }
    assert Enabled(l, Destroy(7)) by { DestroyIsEnabled(l, 7); }
    assert !H.SafeToRemove(l.index, 7) && forall x :: H.Sees(H.Remove(l.index, 7), x) <==> x in [6, 14] by {
      H.UnsafeHidesNothing();
    }
    SeenIsLooked(l, 7);
    ApplyKeepsInvExactly(l, Destroy(7));
  }
}
