/** One run of the poll reactor, and one poll of the loop, on values. */
module ReactorSpec {
  import opened Bytes
  import opened LoopSpec
  import H = HandleIndex

  // ---------- The reactor ----------

  /** The event bits that poll(2) reports for an entry. */
  datatype Revents = Revents(pin: bool, pout: bool, hup: bool, err: bool, pri: bool, nval: bool, other: bool) {
    predicate Any() {
      pin || pout || hup || err || pri || nval || other
    }
  }

  predicate Hit(r: Revents, typ: OpType) {
    if typ == Read then r.pin else r.pout
  }

  /** What the environment does for one entry: its event bits, the answer to an attempt, and the clock. */
  datatype Ready = Ready(revents: Revents, attempt: Attempt, now: int)

  /** The error with which an entry that is not readable or writable is given up. */
  function AbortError(r: Revents): Error {
    if r.hup then EndOfFile else if r.err || r.pri then IoError else if r.nval then BadFd else UnknownEvent
  }

  /** Handles the operation of a slot that reported events. */
  ghost function Dispatch(l: Loop, slot: Slot, ready: Ready): Loop
    requires Core(l) && slot in l.pending
  {
    var id := l.pending[slot];
    UnparkCore(l, slot);
    if Hit(ready.revents, slot.typ) then Perform(Unpark(l, slot), id, ready.attempt, ready.now)
    else Complete(Unpark(l, slot), id, AbortError(ready.revents))
  }

  /** With a right index every live handle is found, and nothing else. */
  lemma LookedIsLive(l: Loop, fd: int)
    requires Indexed(l)
    ensures Lookup(l, fd) == if fd in l.handles then Some(fd) else None
  {
    H.PositionIs(l.index, fd);
  }

  /** What destroying a handle, safe or not, does to the lookups: exactly what it cuts off is missed. */
  lemma DestroyHidesExactly(l: Loop, fd: int, x: int)
    requires Inv(l) && Enabled(l, Destroy(fd))
    ensures Lookup(Apply(l, Destroy(fd)), x) ==
            if x in l.handles && x != fd && !H.Hides(l.index, fd, x) then Some(x) else None
  {
    H.PositionIs(l.index, x);
    H.RemoveSeesExactly(l.index, fd, x);
  }

  /** The slot that an entry leads to, if an operation is parked there; with a right index it is the entry's own. */
  function Target(l: Loop, slot: Slot): Option<Slot> {
    var found := Lookup(l, slot.fd);
    if found.Some? && Slot(found.value, slot.typ) in l.pending then Some(Slot(found.value, slot.typ)) else None
  }

  lemma TargetIsOwn(l: Loop, slot: Slot)
    requires Core(l) && Indexed(l)
    ensures Target(l, slot) == if slot in l.pending then Some(slot) else None
  {
    LookedIsLive(l, slot.fd);
    if slot in l.pending {
      assert Parked(l, slot);
    }
    assert slot == Slot(slot.fd, slot.typ);
  }

  /** One poll entry; the second component says whether it is kept for the next poll. */
  ghost function Service(l: Loop, slot: Slot, ready: Ready): (Loop, bool)
    requires Core(l)
  {
    match Target(l, slot)
    case None => (l, false)
    case Some(at) =>
      if ready.revents.Any() then (Dispatch(l, at, ready), false)
      else if Expired(l, at, ready) then
        UnparkCore(l, at);
        (Complete(Unpark(l, at), l.pending[at], TimedOut), false)
      else (l, true)
  }

  predicate Expired(l: Loop, at: Slot, ready: Ready)
    requires at.fd in l.handles
  {
    l.handles[at.fd].timeoutEnabled && l.handles[at.fd].expire <= ready.now
  }

  function Kept(keep: bool, slot: Slot): seq<Slot> {
    if keep then [slot] else []
  }

  datatype Swept = Swept(l: Loop, kept: seq<Slot>)

  /** The polled entries in order; entries registered meanwhile are at the end of `fds`. */
  ghost function Sweep(l: Loop, entries: seq<Slot>, ready: seq<Ready>): (r: Swept)
    requires Core(l) && |entries| == |ready|
    ensures Core(r.l)
    decreases |entries|
  {
    if entries == [] then Swept(l, [])
    else
      ServiceCore(l, entries[0], ready[0]);
      var (l1, keep) := Service(l, entries[0], ready[0]);
      var rest := Sweep(l1, entries[1..], ready[1..]);
      Swept(rest.l, Kept(keep, entries[0]) + rest.kept)
  }

  datatype PollResult = PollFailed | Polled(ready: seq<Ready>)

  predicate Answers(p: PollResult, l: Loop) {
    p.Polled? ==> |p.ready| == |l.fds|
  }

  /** After a run, the entries are those that were kept and then those registered during the run. */
  ghost function RunReactor(l: Loop, p: PollResult): Loop
    requires Core(l) && Answers(p, l)
  {
    match p
    case PollFailed => l
    case Polled(ready) =>
      var s := Sweep(l, l.fds, ready);
      SweepGrows(l, l.fds, ready);
      s.l.(fds := s.kept + s.l.fds[|l.fds|..])
  }

  // ---------- What a step leaves alone ----------

  /** Operations never vanish, results are final, and nothing but a queue drain finalizes one. */
  predicate Grows(l: Loop, l': Loop) {
    && l.fds <= l'.fds
    && l.queue <= l'.queue
    && l'.running == l.running && l'.reactorRuns == l.reactorRuns
    && forall id :: id in l.ops ==>
         && id in l'.ops
         && l'.ops[id].slot == l.ops[id].slot
         && l'.ops[id].calls == l.ops[id].calls
         && l.ops[id].attempts <= l'.ops[id].attempts
         && (l.ops[id].completed ==> l'.ops[id].completed && l'.ops[id].err == l.ops[id].err)
  }

  lemma PerformGrows(l: Loop, id: OpId, a: Attempt, now: int)
    requires CoreBut(l, id)
    ensures Grows(l, Perform(l, id, a, now))
    ensures l.ops[id].attempts < Perform(l, id, a, now).ops[id].attempts
    ensures ReactorTask in Perform(l, id, a, now).queue <==> ReactorTask in l.queue
  {
  }

  lemma CompleteGrows(l: Loop, id: OpId, err: Error)
    requires CoreBut(l, id)
    ensures Grows(l, Complete(l, id, err))
    ensures ReactorTask in Complete(l, id, err).queue <==> ReactorTask in l.queue
  {
  }

  lemma ServiceCore(l: Loop, slot: Slot, ready: Ready)
    requires Core(l)
    ensures Core(Service(l, slot, ready).0)
  {
    var target := Target(l, slot);
    if target.Some? {
      var at := target.value;
      UnparkCore(l, at);
      var id, l1 := l.pending[at], Unpark(l, at);
      if ready.revents.Any() {
        if Hit(ready.revents, at.typ) {
          PerformCore(l1, id, ready.attempt, ready.now);
        } else {
          CompleteCore(l1, id, AbortError(ready.revents));
        }
      } else if Expired(l, at, ready) {
        CompleteCore(l1, id, TimedOut);
      }
    }
  }

  /** Only the slot itself changes, and it is occupied again only with a new entry. */
  ghost predicate OnlySlot(l: Loop, l': Loop, slot: Slot) {
    && (forall s :: s != slot ==> (s in l'.pending <==> s in l.pending))
    && (forall s :: s != slot && s in l.pending && s in l'.pending ==> l'.pending[s] == l.pending[s])
    && (slot in l'.pending ==> l'.fds == l.fds + [slot])
  }

  lemma DispatchEffect(l: Loop, slot: Slot, ready: Ready)
    requires Core(l) && slot in l.pending
    ensures var l' := Dispatch(l, slot, ready);
            Grows(l, l') && OnlySlot(l, l', slot) && (ReactorTask in l'.queue <==> ReactorTask in l.queue)
  {
    UnparkCore(l, slot);
    var id, l1 := l.pending[slot], Unpark(l, slot);
    if Hit(ready.revents, slot.typ) {
      PerformCore(l1, id, ready.attempt, ready.now);
      PerformGrows(l1, id, ready.attempt, ready.now);
    } else {
      CompleteGrows(l1, id, AbortError(ready.revents));
    }
  }

  lemma GiveUpEffect(l: Loop, slot: Slot, err: Error)
    requires Core(l) && slot in l.pending
    ensures l.pending[slot] in l.ops
    ensures var l' := Complete(Unpark(l, slot), l.pending[slot], err);
            Grows(l, l') && OnlySlot(l, l', slot) && (ReactorTask in l'.queue <==> ReactorTask in l.queue)
  {
    UnparkCore(l, slot);
    CompleteGrows(Unpark(l, slot), l.pending[slot], err);
  }

  /** What one entry changes: at most the slot it leads to, which is then either empty or registered anew. */
  lemma ServiceEffect(l: Loop, slot: Slot, ready: Ready)
    requires Core(l)
    ensures var (l', keep) := Service(l, slot, ready);
            && Grows(l, l')
            && (ReactorTask in l'.queue <==> ReactorTask in l.queue)
            && (keep ==> l' == l)
            && (l' == l || (Target(l, slot).Some? && OnlySlot(l, l', Target(l, slot).value)))
  {
    var target := Target(l, slot);
    if target.Some? {
      if ready.revents.Any() {
        DispatchEffect(l, target.value, ready);
      } else {
        GiveUpEffect(l, target.value, TimedOut);
      }
    }
  }

  /** With a right index, an entry is given up only when its slot is empty, or after it was served. */
  lemma ServiceGivesUp(l: Loop, slot: Slot, ready: Ready)
    requires Core(l) && Indexed(l)
    ensures var (l', keep) := Service(l, slot, ready); slot in l'.pending && !keep ==> l' != l
  {
    TargetIsOwn(l, slot);
    if slot in l.pending {
      ServiceServes(l, slot, ready);
    }
  }

  lemma ServiceKeepsIndexed(l: Loop, slot: Slot, ready: Ready)
    requires Core(l) && Indexed(l)
    ensures Indexed(Service(l, slot, ready).0)
  {
    TargetIsOwn(l, slot);
    if slot in l.pending {
      UnparkCore(l, slot);
      if ready.revents.Any() && Hit(ready.revents, slot.typ) {
        PerformKeepsIndexed(Unpark(l, slot), l.pending[slot], ready.attempt, ready.now);
      }
    }
  }

  lemma GrowsOn(a: Loop, b: Loop, c: Loop)
    requires Grows(a, b) && Grows(b, c)
    ensures Grows(a, c)
  {
  }

  lemma {:induction false} SweepGrows(l: Loop, entries: seq<Slot>, ready: seq<Ready>)
    requires Core(l) && |entries| == |ready|
    ensures Grows(l, Sweep(l, entries, ready).l)
    ensures ReactorTask in Sweep(l, entries, ready).l.queue <==> ReactorTask in l.queue
    decreases |entries|
  {
    if entries != [] {
      ServiceCore(l, entries[0], ready[0]);
      ServiceEffect(l, entries[0], ready[0]);
      var l1 := Service(l, entries[0], ready[0]).0;
      SweepGrows(l1, entries[1..], ready[1..]);
      GrowsOn(l, l1, Sweep(l1, entries[1..], ready[1..]).l);
    }
  }

  // ---------- No lost wakeups ----------

  /** A parked operation's entry is among those already kept, those still to be visited, or those registered since. */
  predicate CoveredBy(l: Loop, kept: seq<Slot>, entries: seq<Slot>, base: nat)
    requires base <= |l.fds|
  {
    forall slot :: slot in l.pending ==> slot in kept || slot in entries || slot in l.fds[base..]
  }

  lemma CoverStep(pending: set<Slot>, pending': set<Slot>, fds: seq<Slot>, fds': seq<Slot>,
                  kept: seq<Slot>, entries: seq<Slot>, keep: bool, base: nat)
    requires entries != [] && base <= |fds| && fds <= fds'
    requires forall s :: s in pending ==> s in kept || s in entries || s in fds[base..]
    requires forall s :: s in pending' && s != entries[0] ==> s in pending
    requires entries[0] in pending' && !keep ==> fds' == fds + [entries[0]]
    ensures forall s :: s in pending' ==> s in kept + Kept(keep, entries[0]) || s in entries[1..] || s in fds'[base..]
  {
    var e := entries[0];
    assert entries == [e] + entries[1..];
    assert fds[base..] <= fds'[base..];
    if e in pending' && !keep {
      assert fds'[base..] == fds[base..] + [e];
    }
  }

  lemma ServiceCovers(l: Loop, kept: seq<Slot>, entries: seq<Slot>, ready: Ready, base: nat)
    requires Core(l) && Indexed(l) && entries != [] && base <= |l.fds| && CoveredBy(l, kept, entries, base)
    ensures var (l1, keep) := Service(l, entries[0], ready);
            base <= |l1.fds| && CoveredBy(l1, kept + Kept(keep, entries[0]), entries[1..], base)
  {
    TargetIsOwn(l, entries[0]);
    ServiceEffect(l, entries[0], ready);
    ServiceGivesUp(l, entries[0], ready);
    var (l1, keep) := Service(l, entries[0], ready);
    CoverStep(l.pending.Keys, l1.pending.Keys, l.fds, l1.fds, kept, entries, keep, base);
  }

  lemma {:induction false} SweepCovers(l: Loop, kept: seq<Slot>, entries: seq<Slot>, ready: seq<Ready>, base: nat)
    requires Core(l) && Indexed(l) && |entries| == |ready| && base <= |l.fds| && CoveredBy(l, kept, entries, base)
    ensures var s := Sweep(l, entries, ready);
            Indexed(s.l) && base <= |s.l.fds| && CoveredBy(s.l, kept + s.kept, [], base)
    decreases |entries|
  {
    if entries == [] {
      assert kept + [] == kept;
    } else {
      var e, more := entries[0], entries[1..];
      ServiceCore(l, e, ready[0]);
      ServiceKeepsIndexed(l, e, ready[0]);
      var l1, kept1 := Service(l, e, ready[0]).0, kept + Kept(Service(l, e, ready[0]).1, e);
      assert base <= |l1.fds| && CoveredBy(l1, kept1, more, base) by {
        ServiceCovers(l, kept, entries, ready[0], base);
      }
      var rest := Sweep(l1, more, ready[1..]);
      assert Indexed(rest.l) && base <= |rest.l.fds| && CoveredBy(rest.l, kept1 + rest.kept, [], base) by {
        SweepCovers(l1, kept1, more, ready[1..], base);
      }
      Associate(kept, Kept(Service(l, e, ready[0]).1, e), rest.kept);
    }
  }

  /** A reactor run with any index keeps every operation in its one place, and the count. */
  lemma RunKeepsCore(l: Loop, p: PollResult)
    requires Core(l) && Answers(p, l)
    ensures Core(RunReactor(l, p))
    ensures RunReactor(l, p).running == l.running
    ensures ReactorTask in RunReactor(l, p).queue <==> ReactorTask in l.queue
    ensures l.queue <= RunReactor(l, p).queue
  {
    if p.Polled? {
      var s := Sweep(l, l.fds, p.ready);
      SweepGrows(l, l.fds, p.ready);
      ParkedIsLive(s.l);
      CoreFrame(s.l, RunReactor(l, p));
    }
  }

  /** With a right index it keeps everything: in particular every operation still parked has a poll entry afterwards. */
  lemma RunKeepsInv(l: Loop, p: PollResult)
    requires Inv(l) && Answers(p, l)
    ensures Inv(RunReactor(l, p))
  {
    RunKeepsCore(l, p);
    if p.Polled? {
      var s := Sweep(l, l.fds, p.ready);
      SweepGrows(l, l.fds, p.ready);
      SweepCovers(l, [], l.fds, p.ready, |l.fds|);
      assert [] + s.kept == s.kept;
    }
  }

  /** The operation has completed, or has at least been attempted again. */
  predicate Served(l: Loop, l': Loop, id: OpId) {
    id in l.ops && id in l'.ops && (l'.ops[id].completed || l.ops[id].attempts < l'.ops[id].attempts)
  }

  lemma ServedStays(l: Loop, l1: Loop, l': Loop, id: OpId)
    requires Served(l, l1, id) && Grows(l1, l')
    ensures Served(l, l', id)
  {
  }

  /** An entry whose operation leaves its slot, or that reports events, has served the operation. */
  lemma ServiceServes(l: Loop, slot: Slot, ready: Ready)
    requires Core(l) && Target(l, slot) == Some(slot)
    ensures var l1 := Service(l, slot, ready).0;
            Served(l, l1, l.pending[slot]) || (l1 == l && !ready.revents.Any())
  {
    UnparkCore(l, slot);
    if ready.revents.Any() && Hit(ready.revents, slot.typ) {
      PerformGrows(Unpark(l, slot), l.pending[slot], ready.attempt, ready.now);
    }
  }

  /** A reported event reaches the operation: it completes in this run, or is attempted again in it. */
  lemma {:induction false} SweepServices(l: Loop, entries: seq<Slot>, ready: seq<Ready>, i: nat)
    requires Core(l) && Indexed(l) && |entries| == |ready| && i < |entries|
    requires entries[i] in l.pending && ready[i].revents.Any()
    ensures Served(l, Sweep(l, entries, ready).l, l.pending[entries[i]])
    decreases |entries|
  {
    var slot := entries[i];
    var id := l.pending[slot];
    var l1 := Service(l, entries[0], ready[0]).0;
    ServiceCore(l, entries[0], ready[0]);
    ServiceEffect(l, entries[0], ready[0]);
    ServiceKeepsIndexed(l, entries[0], ready[0]);
    TargetIsOwn(l, entries[0]);
    if entries[0] == slot {
      ServiceServes(l, slot, ready[0]);
    }
    if Served(l, l1, id) {
      SweepGrows(l1, entries[1..], ready[1..]);
      ServedStays(l, l1, Sweep(l1, entries[1..], ready[1..]).l, id);
    } else {
      assert slot in l1.pending && l1.pending[slot] == id;
      SweepServices(l1, entries[1..], ready[1..], i - 1);
    }
  }

  lemma EventIsServiced(l: Loop, ready: seq<Ready>, i: nat)
    requires Inv(l) && |ready| == |l.fds| && i < |l.fds| && l.fds[i] in l.pending && ready[i].revents.Any()
    ensures Served(l, RunReactor(l, Polled(ready)), l.pending[l.fds[i]])
  {
    SweepServices(l, l.fds, ready, i);
  }
}
