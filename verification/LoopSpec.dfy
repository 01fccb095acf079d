/**
 The event loop and the poll reactor on values: operations are parked in the slots of handles,
 mirrored in a vector of poll entries, completed into a task queue and finalized from it, one per poll.
 */
module LoopSpec {
  import opened Bytes
  import H = HandleIndex

  datatype OpType = Read | Write

  /** A `pending[]` slot of a handle; also a poll entry, whose `events` are determined by the type. */
  datatype Slot = Slot(fd: int, typ: OpType)

  type OpId = nat

  datatype Error =
    | NoError | Canceled | TimedOut | EndOfFile | IoError | BadFd | UnknownEvent | BadAlloc
    | Failure(code: int)

  /** `attempts` and `calls` count performs and finalizations; they are history. */
  datatype Op = Op(slot: Slot, immediate: bool, completed: bool, err: Error, attempts: nat, calls: nat)

  datatype Handle = Handle(timeoutEnabled: bool, expire: int)

  datatype Task = ReactorTask | OpTask(id: OpId)

  /**
   `index` is what handles are looked up in, the live ones are in `handles`. `running` is the
   operation whose task is being completed, `reactorRuns` counts reactor runs.
   */
  datatype Loop = Loop(
    handles: map<int, Handle>, index: H.Index, pending: map<Slot, OpId>, fds: seq<Slot>,
    queue: seq<Task>, numTasks: int, ops: map<OpId, Op>, running: Option<OpId>, reactorRuns: nat)

  const IO_TIMEOUT: int := 10

  function Init(): Loop {
    Loop(map[], H.EmptyIndex(), map[], [], [ReactorTask], 0, map[], None, 0)
  }

  // ---------- Operations ----------

  /** Posts an operation to be finalized from the queue. */
  function Complete(l: Loop, id: OpId, err: Error): Loop
    requires id in l.ops
  {
    l.(ops := l.ops[id := l.ops[id].(completed := true, err := err)],
       queue := l.queue + [OpTask(id)], numTasks := l.numTasks + 1)
  }

  /** Waits for readiness of an operation that has been attempted; registering it may fail. */
  function Submit(l: Loop, id: OpId, pushOk: bool, now: int): Loop
    requires id in l.ops && l.ops[id].slot.fd in l.handles
  {
    var slot := l.ops[id].slot;
    var l1 := ArmTimer(l, slot.fd, now);
    if pushOk then l1.(pending := l1.pending[slot := id], fds := l1.fds + [slot], numTasks := l1.numTasks + 1)
    else Complete(l1, id, BadAlloc)
  }

  function ArmTimer(l: Loop, fd: int, now: int): Loop
    requires fd in l.handles
  {
    var h := l.handles[fd];
    l.(handles := l.handles[fd := if h.timeoutEnabled then h.(expire := now + IO_TIMEOUT) else h])
  }

  /** What the attempted system call says; an accepted connection comes with a new descriptor. */
  datatype Attempt = Finished(err: Error, created: Option<int>) | WouldBlock(pushOk: bool)

  ghost function CreateHandle(l: Loop, fd: int): Loop {
    if fd in l.handles then l
    else l.(handles := l.handles[fd := Handle(false, 0)], index := H.Add(l.index, fd))
  }

  ghost function Perform(l: Loop, id: OpId, a: Attempt, now: int): Loop
    requires id in l.ops && l.ops[id].slot.fd in l.handles
  {
    var l1 := Attempted(l, id);
    match a
    case Finished(err, created) =>
      Complete(if created.Some? then CreateHandle(l1, created.value) else l1, id, err)
    case WouldBlock(pushOk) => Submit(l1, id, pushOk, now)
  }

  /** The first thing an attempt does is to clear `immediate`. */
  function Attempted(l: Loop, id: OpId): Loop
    requires id in l.ops
  {
    l.(ops := l.ops[id := l.ops[id].(immediate := false, attempts := l.ops[id].attempts + 1)])
  }

  /** Takes an operation out of its slot. */
  function Unpark(l: Loop, slot: Slot): Loop {
    l.(pending := l.pending - {slot}, numTasks := l.numTasks - 1)
  }

  function CancelSlot(l: Loop, slot: Slot): Loop
    requires slot in l.pending ==> l.pending[slot] in l.ops
  {
    if slot in l.pending then Complete(Unpark(l, slot), l.pending[slot], Canceled) else l
  }

  // ---------- What callers may do ----------

  datatype Action =
    | Create(fd: int)
    | Destroy(fd: int)
    | EnableTimeout(fd: int, enabled: bool)
    | StartOp(id: OpId, slot: Slot, attempt: Attempt, now: int)
    | Cancel(fd: int)

  /** The descriptor of the live handle that a lookup in the index leads to. */
  function Lookup(l: Loop, fd: int): Option<int> {
    var found := H.HandleAt(l.index, fd);
    if found.Some? && found.value in l.handles then found else None
  }

  /** The lookup finds the descriptor's own handle. */
  predicate Looked(l: Loop, fd: int) {
    Lookup(l, fd) == Some(fd)
  }

  /**
   A handle is created for a descriptor that has none, destroyed when nothing is pending and the index
   finds it, as the code asserts, and has one operation per type.
   */
  predicate Enabled(l: Loop, a: Action) {
    match a
    case Create(fd) => fd !in l.handles
    case Destroy(fd) => Looked(l, fd) && Slot(fd, Read) !in l.pending && Slot(fd, Write) !in l.pending
    case EnableTimeout(fd, _) => fd in l.handles
    case StartOp(id, slot, _, _) => id !in l.ops && slot.fd in l.handles && slot !in l.pending
    case Cancel(fd) => fd in l.handles
  }

  /** Destroying a handle keeps the invariant of the index. */
  ghost predicate Safe(l: Loop, a: Action) {
    a.Destroy? ==> H.SafeToRemove(l.index, a.fd)
  }

  ghost function Apply(l: Loop, a: Action): Loop
    requires Core(l) && Enabled(l, a)
  {
    match a
    case Create(fd) => CreateHandle(l, fd)
    case Destroy(fd) => l.(handles := l.handles - {fd}, index := H.Remove(l.index, fd))
    case EnableTimeout(fd, b) => l.(handles := l.handles[fd := l.handles[fd].(timeoutEnabled := b)])
    case StartOp(id, slot, attempt, now) =>
      Perform(l.(ops := l.ops[id := Op(slot, true, false, NoError, 0, 0)]), id, attempt, now)
    case Cancel(fd) =>
      var l1 := CancelSlot(l, Slot(fd, Read));
      CancelKeepsCore(l, Slot(fd, Read));
      CancelSlot(l1, Slot(fd, Write))
  }

  // ---------- Invariants ----------

  predicate NoDuplicates<T(==)>(s: seq<T>) {
    forall i, j :: 0 <= i < j < |s| ==> s[i] != s[j]
  }

  /** An operation is parked, or queued once, or has been finalized once; it is in one place only. */
  predicate Located(l: Loop, id: OpId)
    requires id in l.ops
  {
    var op := l.ops[id];
    && op.calls <= 1
    && (op.calls == 1 ==> op.completed && OpTask(id) !in l.queue)
    && (op.calls == 0 && op.completed ==> OpTask(id) in l.queue)
    && (!op.completed ==> op.slot in l.pending && l.pending[op.slot] == id && !op.immediate)
  }

  predicate Parked(l: Loop, slot: Slot)
    requires slot in l.pending
  {
    && slot.fd in l.handles
    && l.pending[slot] in l.ops
    && l.ops[l.pending[slot]].slot == slot
    && !l.ops[l.pending[slot]].completed
  }

  /** How many tasks of the queue are operations. */
  function QueuedOps(l: Loop): int {
    |l.queue| - (if ReactorTask in l.queue then 1 else 0)
  }

  /** `numTasks` counts queued operations, parked operations and the one being finalized. */
  predicate Conserved(l: Loop) {
    l.numTasks == QueuedOps(l) + |l.pending| + (if l.running.Some? then 1 else 0)
  }

  /** What is queued has completed and has not been finalized. */
  predicate QueuedOk(l: Loop, t: Task) {
    t.OpTask? ==> t.id in l.ops && l.ops[t.id].completed && l.ops[t.id].calls == 0
  }

  predicate Core(l: Loop) {
    && (forall slot :: slot in l.pending ==> Parked(l, slot))
    && (forall id :: id in l.ops ==> Located(l, id))
    && (forall i :: 0 <= i < |l.queue| ==> QueuedOk(l, l.queue[i]))
    && NoDuplicates(l.queue)
    && Conserved(l)
  }

  /** No lost wakeups: each parked operation has a poll entry for its descriptor and direction. */
  predicate Covered(pending: map<Slot, OpId>, entries: seq<Slot>) {
    forall slot :: slot in pending ==> slot in entries
  }

  /** The index finds exactly the live handles. */
  ghost predicate Indexed(l: Loop) {
    H.Finds(l.index, l.handles.Keys)
  }

  ghost predicate Inv(l: Loop) {
    Core(l) && Covered(l.pending, l.fds) && Indexed(l)
  }

  // ---------- They are kept ----------

  lemma MapRemoveSize<K, V>(m: map<K, V>, k: K)
    requires k in m
    ensures |m - {k}| == |m| - 1
  {
    assert (m - {k}).Keys == m.Keys - {k};
  }

  lemma UnparkSize(l: Loop, slot: Slot)
    requires slot in l.pending
    ensures |Unpark(l, slot).pending| == |l.pending| - 1
  {
    MapRemoveSize(l.pending, slot);
  }

  /** The state in which only operation `id` has no place: it was taken out, or has not been put anywhere yet. */
  predicate CoreBut(l: Loop, id: OpId) {
    && id in l.ops && !l.ops[id].completed && l.ops[id].calls == 0 && l.ops[id].slot.fd in l.handles
    && l.ops[id].slot !in l.pending
    && (forall slot :: slot in l.pending ==> Parked(l, slot) && l.pending[slot] != id)
    && (forall x :: x in l.ops && x != id ==> Located(l, x))
    && (forall i :: 0 <= i < |l.queue| ==> QueuedOk(l, l.queue[i]))
    && NoDuplicates(l.queue)
    && Conserved(l)
  }

  lemma UnparkCore(l: Loop, slot: Slot)
    requires Core(l) && slot in l.pending
    ensures Parked(l, slot) && Located(l, l.pending[slot])
    ensures CoreBut(Unpark(l, slot), l.pending[slot])
  {
    UnparkSize(l, slot);
    var id, l1 := l.pending[slot], Unpark(l, slot);
    assert Parked(l, slot) && Located(l, id);
    forall x | x in l1.ops && x != id ensures Located(l1, x) {
      assert Located(l, x);
    }
    forall s | s in l1.pending ensures Parked(l1, s) && l1.pending[s] != id {
      assert Parked(l, s);
    }
    forall i | 0 <= i < |l1.queue| ensures QueuedOk(l1, l1.queue[i]) {
      assert QueuedOk(l, l.queue[i]);
    }
  }

  lemma CompleteCore(l: Loop, id: OpId, err: Error)
    requires CoreBut(l, id)
    ensures Core(Complete(l, id, err))
  {
    var l1 := Complete(l, id, err);
    assert OpTask(id) == l1.queue[|l.queue|];
    forall x | x in l1.ops ensures Located(l1, x) {
      if x != id {
        assert Located(l, x);
        assert OpTask(x) in l.queue ==> OpTask(x) in l1.queue;
      }
    }
    forall s | s in l1.pending ensures Parked(l1, s) {
      assert Parked(l, s);
    }
    forall i | 0 <= i < |l1.queue| ensures QueuedOk(l1, l1.queue[i]) {
      assert i < |l.queue| ==> QueuedOk(l, l.queue[i]);
    }
    assert ReactorTask in l1.queue <==> ReactorTask in l.queue;
    forall i, j | 0 <= i < j < |l1.queue| ensures l1.queue[i] != l1.queue[j] {
      if j == |l.queue| {
        assert QueuedOk(l, l.queue[i]);
      }
    }
  }

  lemma ParkCore(l: Loop, id: OpId)
    requires CoreBut(l, id) && !l.ops[id].immediate
    ensures var slot := l.ops[id].slot;
            Core(l.(pending := l.pending[slot := id], numTasks := l.numTasks + 1))
  {
    var slot := l.ops[id].slot;
    var l1 := l.(pending := l.pending[slot := id], numTasks := l.numTasks + 1);
    assert |l1.pending| == |l.pending| + 1;
    forall x | x in l1.ops ensures Located(l1, x) {
      if x != id {
        assert Located(l, x);
      }
    }
    forall s | s in l1.pending ensures Parked(l1, s) {
      assert s in l.pending ==> Parked(l, s);
    }
    forall i | 0 <= i < |l1.queue| ensures QueuedOk(l1, l1.queue[i]) {
      assert QueuedOk(l, l.queue[i]);
    }
  }

  /** Neither poll entries nor handles matter to the core, as long as no handle goes away under a parked operation. */
  lemma CoreFrame(l: Loop, l': Loop)
    requires Core(l)
    requires l' == l.(handles := l'.handles, index := l'.index, fds := l'.fds, reactorRuns := l'.reactorRuns)
    requires forall slot :: slot in l.pending ==> slot.fd in l'.handles
    ensures Core(l')
  {
    forall x | x in l'.ops ensures Located(l', x) {
      assert Located(l, x);
    }
    forall s | s in l'.pending ensures Parked(l', s) {
      assert Parked(l, s);
    }
    forall i | 0 <= i < |l'.queue| ensures QueuedOk(l', l'.queue[i]) {
      assert QueuedOk(l, l.queue[i]);
    }
  }

  lemma CoreButFrame(l: Loop, l': Loop, id: OpId)
    requires CoreBut(l, id)
    requires l' == l.(handles := l'.handles, index := l'.index, ops := l'.ops)
    requires forall fd :: fd in l.handles ==> fd in l'.handles
    requires id in l'.ops && l'.ops == l.ops[id := l'.ops[id]]
    requires !l'.ops[id].completed && l'.ops[id].calls == 0 && l'.ops[id].slot == l.ops[id].slot
    ensures CoreBut(l', id)
  {
    forall x | x in l'.ops && x != id ensures Located(l', x) {
      assert Located(l, x);
    }
    forall s | s in l'.pending ensures Parked(l', s) && l'.pending[s] != id {
      assert Parked(l, s);
    }
    forall i | 0 <= i < |l'.queue| ensures QueuedOk(l', l'.queue[i]) {
      assert QueuedOk(l, l.queue[i]);
    }
  }

  /** What an attempt may do to the parked operations and poll entries: nothing, or park and register one more. */
  predicate Parks(l: Loop, l': Loop, slot: Slot) {
    || (l'.pending == l.pending && l'.fds == l.fds)
    || (l'.pending == l.pending[slot := if slot in l'.pending then l'.pending[slot] else 0] && l'.fds == l.fds + [slot])
  }

  lemma AttemptedCore(l: Loop, id: OpId)
    requires CoreBut(l, id)
    ensures CoreBut(Attempted(l, id), id)
  {
    CoreButFrame(l, Attempted(l, id), id);
  }

  lemma SubmitCore(l: Loop, id: OpId, pushOk: bool, now: int)
    requires CoreBut(l, id) && !l.ops[id].immediate
    ensures Core(Submit(l, id, pushOk, now))
    ensures Parks(l, Submit(l, id, pushOk, now), l.ops[id].slot)
  {
    var slot := l.ops[id].slot;
    var l1 := ArmTimer(l, slot.fd, now);
    assert CoreBut(l1, id) by {
      CoreButFrame(l, l1, id);
    }
    if pushOk {
      var l2 := l1.(pending := l1.pending[slot := id], numTasks := l1.numTasks + 1);
      assert Core(l2) by {
        ParkCore(l1, id);
      }
      assert forall s :: s in l2.pending ==> Parked(l2, s);
      CoreFrame(l2, l2.(fds := l2.fds + [slot]));
    } else {
      CompleteCore(l1, id, BadAlloc);
    }
  }

  lemma PerformCore(l: Loop, id: OpId, a: Attempt, now: int)
    requires CoreBut(l, id)
    ensures Core(Perform(l, id, a, now))
    ensures Parks(l, Perform(l, id, a, now), l.ops[id].slot)
  {
    var l1 := Attempted(l, id);
    AttemptedCore(l, id);
    match a
    case Finished(err, created) =>
      var l2 := if created.Some? then CreateHandle(l1, created.value) else l1;
      assert CoreBut(l2, id) by {
        CoreButFrame(l1, l2, id);
      }
      CompleteCore(l2, id, err);
    case WouldBlock(pushOk) =>
      SubmitCore(l1, id, pushOk, now);
  }

  lemma CreateKeepsIndexed(l: Loop, fd: int)
    requires Indexed(l)
    ensures Indexed(CreateHandle(l, fd))
  {
    hide H.Add, H.Finds;
    if fd !in l.handles {
      var keys := l.handles[fd := Handle(false, 0)].Keys;
      assert keys == l.handles.Keys + {fd};
      H.AddFinds(l.index, l.handles.Keys, fd);
      assert CreateHandle(l, fd).index == H.Add(l.index, fd) && CreateHandle(l, fd).handles.Keys == keys;
    }
  }

  /** What an attempt does to handles and index: a connection it accepts gets a handle. */
  lemma PerformKeepsIndexed(l: Loop, id: OpId, a: Attempt, now: int)
    requires id in l.ops && l.ops[id].slot.fd in l.handles && Indexed(l)
    ensures Indexed(Perform(l, id, a, now))
  {
    var l1 := Attempted(l, id);
    match a
    case Finished(err, created) =>
      if created.Some? {
        CreateKeepsIndexed(l1, created.value);
      }
    case WouldBlock(pushOk) =>
      var fd := l.ops[id].slot.fd;
      assert ArmTimer(l1, fd, now).handles.Keys == l.handles.Keys;
  }

  lemma CancelKeepsCore(l: Loop, slot: Slot)
    requires Core(l)
    ensures slot in l.pending ==> l.pending[slot] in l.ops
    ensures Core(CancelSlot(l, slot))
  {
    if slot in l.pending {
      UnparkCore(l, slot);
      CompleteCore(Unpark(l, slot), l.pending[slot], Canceled);
    }
  }

  lemma StartCore(l: Loop, a: Action)
    requires Core(l) && Enabled(l, a) && a.StartOp?
    ensures CoreBut(l.(ops := l.ops[a.id := Op(a.slot, true, false, NoError, 0, 0)]), a.id)
  {
    var l' := l.(ops := l.ops[a.id := Op(a.slot, true, false, NoError, 0, 0)]);
    forall x | x in l'.ops && x != a.id ensures Located(l', x) {
      assert Located(l, x);
    }
    forall s | s in l'.pending ensures Parked(l', s) && l'.pending[s] != a.id {
      assert Parked(l, s);
    }
    forall i | 0 <= i < |l'.queue| ensures QueuedOk(l', l'.queue[i]) {
      assert QueuedOk(l, l.queue[i]);
    }
  }

  /** Destroying a handle with nothing pending leaves no operation behind, whatever it does to the index. */
  lemma DestroyKeepsCore(l: Loop, fd: int)
    requires Core(l) && Enabled(l, Destroy(fd))
    ensures Core(Apply(l, Destroy(fd)))
  {
    forall slot | slot in l.pending ensures slot.fd in l.handles - {fd} {
      assert Parked(l, slot);
      match slot.typ
      case Read => assert slot == Slot(slot.fd, Read);
      case Write => assert slot == Slot(slot.fd, Write);
    }
    CoreFrame(l, Apply(l, Destroy(fd)));
  }

  /** Whatever a caller does, every operation keeps its one place and the count stays right. */
  lemma ApplyKeepsCore(l: Loop, a: Action)
    requires Core(l) && Enabled(l, a)
    ensures Core(Apply(l, a))
  {
    match a
    case Create(fd) =>
      ParkedIsLive(l);
      CoreFrame(l, CreateHandle(l, fd));
    case Destroy(fd) =>
      DestroyKeepsCore(l, fd);
    case EnableTimeout(fd, b) =>
      ParkedIsLive(l);
      CoreFrame(l, Apply(l, a));
    case StartOp(id, slot, attempt, now) =>
      StartCore(l, a);
      PerformCore(l.(ops := l.ops[id := Op(slot, true, false, NoError, 0, 0)]), id, attempt, now);
    case Cancel(fd) =>
      CancelKeepsCore(l, Slot(fd, Read));
      CancelKeepsCore(CancelSlot(l, Slot(fd, Read)), Slot(fd, Write));
  }

  lemma ParkedIsLive(l: Loop)
    requires Core(l)
    ensures forall slot :: slot in l.pending ==> slot.fd in l.handles
  {
    forall slot | slot in l.pending ensures slot.fd in l.handles {
      assert Parked(l, slot);
    }
  }

  /** If it destroys handles safely, no wakeup is lost either, and the index stays right. */
  lemma ApplyKeepsInv(l: Loop, a: Action)
    requires Inv(l) && Enabled(l, a) && Safe(l, a)
    ensures Inv(Apply(l, a))
  {
    hide Core, H.Add, H.Remove, H.Finds, H.SafeToRemove, H.HandleAt;
    ApplyKeepsCore(l, a);
    match a
    case Create(fd) =>
      CreateKeepsIndexed(l, fd);
    case Destroy(fd) =>
      H.RemoveFinds(l.index, l.handles.Keys, fd);
      assert (l.handles - {fd}).Keys == l.handles.Keys - {fd};
    case EnableTimeout(fd, b) =>
      assert Apply(l, a).handles.Keys == l.handles.Keys;
    case StartOp(id, slot, attempt, now) =>
      var l1 := l.(ops := l.ops[id := Op(slot, true, false, NoError, 0, 0)]);
      StartCore(l, a);
      PerformKeepsIndexed(l1, id, attempt, now);
      PerformCore(l1, id, attempt, now);
    case Cancel(fd) =>
  }

  /** The invariant survives an action exactly if the action is safe. */
  lemma ApplyKeepsInvExactly(l: Loop, a: Action)
    requires Inv(l) && Enabled(l, a)
    ensures Inv(Apply(l, a)) <==> Safe(l, a)
  {
    hide Core, H.Add, H.Remove, H.HandleAt;
    if Safe(l, a) {
      ApplyKeepsInv(l, a);
    } else {
      H.PositionIs(l.index, a.fd);
      H.PositionsExact(l.index.order);
      H.RemoveIsRightExactly(l.index, a.fd);
    }
  }
}
