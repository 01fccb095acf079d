/**
 * The reactor's index of handles on values: a hash table from descriptors to positions, and the
 * descriptors of the handles in the dense array.
 */
module HandleIndex {
  import opened Bytes
  import opened HashGrowth
  import opened HashSpec

  datatype Index = Index(table: RegularTable, order: seq<int>)

  function EmptyIndex(): Index {
    Index(EmptyTable(0), [])
  }

  // ---------------------------------------------------------------- operations

  /** The position that the table gives for a descriptor. */
  function PositionOf(ix: Index, fd: int): Option<nat> {
    Get(ix.table, IntHash, fd)
  }

  /** The descriptor of the handle that the lookup of a descriptor leads to. */
  function HandleAt(ix: Index, fd: int): Option<int> {
    var found := PositionOf(ix, fd);
    if found.Some? && found.value < |ix.order| then Some(ix.order[found.value]) else None
  }

  /** The lookup of a descriptor finds its handle. */
  predicate Sees(ix: Index, fd: int) {
    HandleAt(ix, fd) == Some(fd)
  }

  /** Adds a handle at the end, or puts it where the table says that one is; the table may fail to grow. */
  function Enter(ix: Index, fd: int, allocOk: bool): Index {
    match PositionOf(ix, fd)
    case Some(i) => if i < |ix.order| then ix.(order := ix.order[i := fd]) else ix
    case None =>
      Index(if allocOk || !HalfFull(ix.table) then Stored(ix.table, IntHash, fd, |ix.order|) else ix.table,
            ix.order + [fd])
  }

  function Add(ix: Index, fd: int): Index {
    Enter(ix, fd, true)
  }

  /** The table with a new position for a descriptor, if it is found. */
  function Moved(t: Table, fd: int, pos: nat): (u: Table)
    requires Regular(t)
    ensures Regular(u) && u.size == t.size
  {
    SeekHits(t, IntHash, fd);
    var found := Seek(t, IntHash, fd);
    if found.Some? then RevaluedIsRegular(t, found.value, pos); Revalued(t, found.value, pos) else t
  }

  /** Moves the last handle into the place of the removed one. */
  function Remove(ix: Index, fd: int): Index {
    match PositionOf(ix, fd)
    case None => ix
    case Some(i) =>
      if |ix.order| == 0 then ix.(table := Unindexed(ix.table, fd, i, None))
      else
        Index(Unindexed(ix.table, fd, i, Last(ix.order, i)), Dropped(ix.order, i))
  }

  /** The last descriptor, unless it is the one at `idx`. */
  function Last(order: seq<int>, idx: nat): Option<int>
    requires order != []
  {
    if idx != |order| - 1 then Some(order[|order| - 1]) else None
  }

  /** The table after a removal, when the last handle, if it is another one, moves to `idx`. */
  function Unindexed(t: RegularTable, fd: int, idx: nat, last: Option<int>): RegularTable {
    RemovedIsRegular(t, IntHash, fd);
    var u := Removed(t, IntHash, fd);
    match last
    case None => u
    case Some(moved) => Moved(u, moved, idx)
  }

  // ---------------------------------------------------------------- the dense array

  predicate Distinct(order: seq<int>) {
    forall i, j :: 0 <= i < j < |order| ==> order[i] != order[j]
  }

  /** Where each descriptor is. */
  function Positions(order: seq<int>): map<int, nat> {
    if order == [] then map[] else Positions(order[..|order| - 1])[order[|order| - 1] := |order| - 1]
  }

  lemma {:induction false} PositionsExact(order: seq<int>)
    requires Distinct(order)
    ensures forall i :: 0 <= i < |order| ==> order[i] in Positions(order) && Positions(order)[order[i]] == i
    ensures forall fd :: fd in Positions(order) ==>
                           Positions(order)[fd] < |order| && order[Positions(order)[fd]] == fd
  {
    if order != [] {
      var rest := order[..|order| - 1];
      PositionsExact(rest);
      assert forall i :: 0 <= i < |rest| ==> rest[i] == order[i];
    }
  }

  /** The array after the last descriptor has moved to position `idx`. */
  function Swapped(order: seq<int>, idx: nat): seq<int>
    requires idx < |order|
  {
    order[idx := order[|order| - 1]][..|order| - 1]
  }

  /** ... which may be behind the array if an earlier removal went wrong. */
  function Dropped(order: seq<int>, idx: nat): seq<int>
    requires order != []
  {
    if idx < |order| then Swapped(order, idx) else order[..|order| - 1]
  }

  lemma SwappedMembers(order: seq<int>, idx: nat)
    requires Distinct(order) && idx < |order|
    ensures forall fd :: fd in Swapped(order, idx) <==> fd in order && fd != order[idx]
  {
    var swapped, last := Swapped(order, idx), |order| - 1;
    forall fd
      ensures fd in swapped <==> fd in order && fd != order[idx]
    {
      if fd in order && fd != order[idx] {
        var i :| 0 <= i < |order| && order[i] == fd;
        assert swapped[if i == last then idx else i] == fd;
      }
    }
  }

  ghost predicate Inverse(order: seq<int>, m: map<int, nat>) {
    && (forall i :: 0 <= i < |order| ==> order[i] in m && m[order[i]] == i)
    && (forall fd :: fd in m ==> m[fd] < |order| && order[m[fd]] == fd)
  }

  lemma InverseIsPositions(order: seq<int>, m: map<int, nat>)
    requires Distinct(order) && Inverse(order, m)
    ensures Positions(order) == m
  {
    PositionsExact(order);
    var p := Positions(order);
    forall fd
      ensures fd in p <==> fd in m
      ensures fd in m ==> p[fd] == m[fd]
    {
      if fd in m {
        assert order[m[fd]] == fd;
      }
    }
  }

  /** The map after the swap. */
  function SwappedMap(order: seq<int>, m: map<int, nat>, idx: nat): map<int, nat>
    requires idx < |order|
  {
    var last := |order| - 1;
    if idx == last then m - {order[idx]} else (m - {order[idx]})[order[last] := idx]
  }

  lemma SwappedPositions(order: seq<int>, idx: nat)
    requires Distinct(order) && idx < |order|
    ensures Distinct(Swapped(order, idx))
    ensures Positions(Swapped(order, idx)) == SwappedMap(order, Positions(order), idx)
  {
    PositionsExact(order);
    assert Distinct(Swapped(order, idx));
    SwappedInverse(order, Positions(order), idx);
    InverseIsPositions(Swapped(order, idx), SwappedMap(order, Positions(order), idx));
  }

  lemma SwappedInverse(order: seq<int>, m: map<int, nat>, idx: nat)
    requires Distinct(order) && Inverse(order, m) && idx < |order|
    ensures Inverse(Swapped(order, idx), SwappedMap(order, m, idx))
  {
    var swapped, expected, last := Swapped(order, idx), SwappedMap(order, m, idx), |order| - 1;
    forall i | 0 <= i < |swapped|
      ensures swapped[i] in expected && expected[swapped[i]] == i
    {
      assert swapped[i] == if i == idx then order[last] else order[i];
      assert order[i] in m && order[last] in m;
    }
    forall fd | fd in expected
      ensures expected[fd] < |swapped| && swapped[expected[fd]] == fd
    {
      assert fd in m ==> order[m[fd]] == fd;
      assert fd in m && fd != order[idx] ==> m[fd] != idx;
    }
  }

  // ---------------------------------------------------------------- invariant

  /** Table and array are inverse to each other. */
  ghost predicate Right(ix: Index) {
    Distinct(ix.order) && Refines(ix.table, IntHash, Positions(ix.order))
  }

  /** The index finds exactly these descriptors. */
  ghost predicate Finds(ix: Index, fds: set<int>) {
    Right(ix) && Positions(ix.order).Keys == fds
  }

  /** Removing a descriptor keeps the table's invariant. */
  ghost predicate SafeToRemove(ix: Index, fd: int) {
    SafeRemove(ix.table, IntHash, fd)
  }

  /** What the table gives is the position in the array. */
  lemma PositionIs(ix: Index, fd: int)
    requires Right(ix)
    ensures PositionOf(ix, fd) == if fd in Positions(ix.order) then Some(Positions(ix.order)[fd]) else None
    ensures Sees(ix, fd) <==> fd in ix.order
    ensures Sees(ix, fd) <==> PositionOf(ix, fd).Some?
  {
    PositionsExact(ix.order);
  }

  lemma EmptyFinds()
    ensures Finds(EmptyIndex(), {})
  {
  }

  lemma PositionsSnoc(order: seq<int>, fd: int)
    requires Distinct(order) && fd !in order
    ensures Distinct(order + [fd]) && Positions(order + [fd]) == Positions(order)[fd := |order|]
  {
    var longer := order + [fd];
    assert longer[..|longer| - 1] == order && longer[|longer| - 1] == fd;
    assert Positions(longer) == Positions(order)[fd := |order|];
  }

  /** An index that does not find a descriptor finds it, and what it found before, after adding it. */
  lemma AddFinds(ix: Index, fds: set<int>, fd: int)
    requires Finds(ix, fds)
    ensures Finds(Add(ix, fd), fds + {fd})
  {
    hide Refines, HomeIn;
    var m := Positions(ix.order);
    assert PositionOf(ix, fd).Some? <==> fd in m by { PositionIs(ix, fd); }
    assert Sees(ix, fd) <==> fd in m by { PositionIs(ix, fd); }
    if fd !in m {
      assert fd !in ix.order by { PositionIs(ix, fd); }
      PositionsSnoc(ix.order, fd);
      assert Refines(Stored(ix.table, IntHash, fd, |ix.order|), IntHash, m[fd := |ix.order|]) by {
        PutRefines(ix.table, IntHash, m, fd, |ix.order|);
      }
    } else {
      assert ix.order[PositionOf(ix, fd).value := fd] == ix.order;
    }
  }

  /** Without memory, a new handle is found exactly if the table need not grow; it is in the array all the same. */
  lemma EnterWithoutMemory(ix: Index, fd: int)
    requires Right(ix) && fd !in ix.order
    ensures var u := Enter(ix, fd, false);
      && u.order == ix.order + [fd]
      && (Sees(u, fd) <==> ix.table.size < |ix.table.slots| / 2)
      && (|ix.table.slots| / 2 <= ix.table.size ==> u.table == ix.table)
  {
    PositionIs(ix, fd);
    if ix.table.size < |ix.table.slots| / 2 {
      assert Enter(ix, fd, false) == Add(ix, fd);
      AddFinds(ix, Positions(ix.order).Keys, fd);
      PositionIs(Add(ix, fd), fd);
    }
  }

  /** A handle whose descriptor has a position, stale or not, is put there, and nothing else changes. */
  lemma EnterAtPosition(ix: Index, fd: int, allocOk: bool, k: nat)
    requires PositionOf(ix, fd).Some? && PositionOf(ix, fd).value < |ix.order| && k < |ix.order|
    ensures var u := Enter(ix, fd, allocOk);
      && u.table == ix.table && |u.order| == |ix.order|
      && u.order[k] == (if k == PositionOf(ix, fd).value then fd else ix.order[k])
      && Sees(u, fd)
  {
  }

  /** A removal at a stale position, behind the handles in use, drops the last handle. */
  lemma StaleRemoval(ix: Index, fd: int, k: nat)
    requires PositionOf(ix, fd).Some? && |ix.order| <= PositionOf(ix, fd).value && k + 1 < |ix.order|
    ensures |Remove(ix, fd).order| == |ix.order| - 1 && Remove(ix, fd).order[k] == ix.order[k]
  {
  }

  lemma RevaluedRefines(t: Table, m: map<int, nat>, pos: nat, value: nat)
    requires Refines(t, IntHash, m) && pos < |t.slots| && t.slots[pos].Used?
    ensures Refines(Revalued(t, pos, value), IntHash, m[t.slots[pos].key := value])
  {
    var u, key := Revalued(t, pos, value), t.slots[pos].key;
    UpdateSize(m, key, value);
    RevaluedIsGood(t, IntHash, pos, value);
    forall k
      ensures Get(u, IntHash, k) == if k == key then Some(value) else Get(t, IntHash, k)
    {
      RevaluedIsUpdate(t, IntHash, pos, value, k);
    }
    GetsOfUpdate(t, u, IntHash, m, key, value);
    assert t.slots[pos] == Used(key, t.slots[pos].value);
    GetExact(t, IntHash, key, t.slots[pos].value);
  }

  lemma RevaluedIsRegular(t: Table, pos: nat, value: nat)
    requires Regular(t) && pos < |t.slots| && t.slots[pos].Used?
    ensures Regular(Revalued(t, pos, value))
  {
    CountUpdate(t.slots, pos, Used(t.slots[pos].key, value));
  }

  lemma MovedRefines(t: Table, m: map<int, nat>, fd: int, pos: nat)
    requires Refines(t, IntHash, m) && fd in m
    ensures Refines(Moved(t, fd, pos), IntHash, m[fd := pos])
  {
    SeekHits(t, IntHash, fd);
    assert Get(t, IntHash, fd) == Some(m[fd]);
    RevaluedRefines(t, m, Seek(t, IntHash, fd).value, pos);
  }

  /** A safe removal keeps the index right, and it then finds the other descriptors. */
  lemma RemoveFinds(ix: Index, fds: set<int>, fd: int)
    requires Finds(ix, fds) && SafeToRemove(ix, fd)
    ensures Finds(Remove(ix, fd), fds - {fd})
  {
    PositionIs(ix, fd);
    if Sees(ix, fd) {
      RemoveRefines(ix, fd);
      PositionsExact(ix.order);
    }
  }

  lemma RemoveRefines(ix: Index, fd: int)
    requires Right(ix) && SafeToRemove(ix, fd) && fd in Positions(ix.order)
    ensures var m := Positions(ix.order);
      m[fd] < |ix.order| && ix.order[m[fd]] == fd && Right(Remove(ix, fd))
      && Positions(Remove(ix, fd).order) == SwappedMap(ix.order, m, m[fd])
  {
    var m := Positions(ix.order);
    var idx, last := m[fd], |ix.order| - 1;
    assert idx <= last && ix.order[idx] == fd && PositionOf(ix, fd) == Some(idx) by {
      PositionIs(ix, fd);
    }
    assert ix.order[last] in m by {
      PositionsExact(ix.order);
    }
    SwappedPositions(ix.order, idx);
    TableAfterRemoval(ix.table, m, fd, ix.order[last], idx);
  }

  /** The table after a removal, when the last descriptor moves to `idx`. */
  lemma TableAfterRemoval(t: Table, m: map<int, nat>, fd: int, last: int, idx: nat)
    requires Refines(t, IntHash, m) && SafeRemove(t, IntHash, fd) && last in m
    ensures Refines(Removed(t, IntHash, fd), IntHash, m - {fd})
    ensures last != fd ==> Refines(Moved(Removed(t, IntHash, fd), last, idx), IntHash, (m - {fd})[last := idx])
  {
    DelRefines(t, IntHash, m, fd);
    if last != fd {
      MovedRefines(Removed(t, IntHash, fd), m - {fd}, last, idx);
    }
  }

  /** An unsafe removal leaves an index that is no longer right: the condition is exact. */
  lemma RemoveIsRightExactly(ix: Index, fd: int)
    requires Right(ix) && Sees(ix, fd)
    ensures Right(Remove(ix, fd)) <==> SafeToRemove(ix, fd)
  {
    if SafeToRemove(ix, fd) {
      RemoveFinds(ix, Positions(ix.order).Keys, fd);
    } else {
      UnsafeIsNotRight(ix, fd);
    }
  }

  lemma UnsafeIsNotRight(ix: Index, fd: int)
    requires Right(ix) && Sees(ix, fd) && !SafeToRemove(ix, fd)
    ensures !GoodTable(Remove(ix, fd).table, IntHash)
  {
    hide GoodTable, Removed, Moved;
    var t, idx, last := Removed(ix.table, IntHash, fd), PositionOf(ix, fd).value, |ix.order| - 1;
    RemovedIsRegular(ix.table, IntHash, fd);
    assert !GoodTable(t, IntHash) by {
      RemovedIsGood(ix.table, IntHash, fd);
    }
    if idx != last && GoodTable(Moved(t, ix.order[last], idx), IntHash) {
      UnmovedIsGood(t, ix.order[last], idx);
    }
  }

  /** Removing `fd` cuts `x` off, by the table before it. */
  ghost predicate Hides(ix: Index, fd: int, x: int) {
    CutOff(ix.table, IntHash, fd, x)
  }

  /**
   * What a removal does to the lookups, whether it is safe or not: a descriptor leads to its handle
   * afterwards if that was there, is not the removed one, and has not been cut off, and otherwise nowhere.
   */
  lemma RemoveSeesExactly(ix: Index, fd: int, x: int)
    requires Right(ix) && Sees(ix, fd)
    ensures HandleAt(Remove(ix, fd), x) == if x in ix.order && x != fd && !Hides(ix, fd, x) then Some(x) else None
  {
    var t := Removed(ix.table, IntHash, fd);
    var idx, last := PositionOf(ix, fd).value, |ix.order| - 1;
    RemovedIsRegular(ix.table, IntHash, fd);
    PositionIs(ix, fd);
    RemoveKeepsOthers(ix, fd, x);
    RemovedGetsExactly(ix.table, IntHash, fd, x);
    PositionIs(ix, x);
    PositionsExact(ix.order);
    MovedGets(t, ix.order[last], idx, x);
  }

  lemma MovedGets(t: Table, fd: int, pos: nat, x: int)
    requires Regular(t)
    ensures Get(Moved(t, fd, pos), IntHash, x) ==
            if x == fd && Get(t, IntHash, fd).Some? then Some(pos) else Get(t, IntHash, x)
  {
    SeekHits(t, IntHash, fd);
    SeekHits(t, IntHash, x);
    if Seek(t, IntHash, fd).Some? {
      RevaluedGets(t, IntHash, Seek(t, IntHash, fd).value, pos, x);
    }
  }

  lemma RemoveKeepsOthers(ix: Index, fd: int, x: int)
    requires Right(ix) && Sees(ix, fd)
    ensures x in Remove(ix, fd).order <==> x in ix.order && x != fd
  {
    PositionIs(ix, fd);
    SwappedMembers(ix.order, PositionOf(ix, fd).value);
  }

  /** Changing a position does not make a table good. */
  lemma UnmovedIsGood(t: Table, fd: int, pos: nat)
    requires Regular(t) && GoodTable(Moved(t, fd, pos), IntHash)
    ensures GoodTable(t, IntHash)
  {
    SeekHits(t, IntHash, fd);
    var found := Seek(t, IntHash, fd);
    if found.Some? {
      var at := found.value;
      RevaluedIsGood(Moved(t, fd, pos), IntHash, at, t.slots[at].value);
      assert Revalued(Moved(t, fd, pos), at, t.slots[at].value).slots == t.slots;
    }
  }

  // ---------------------------------------------------------------- a hidden descriptor

  lemma AddNew(ix: Index, fd: int, table: RegularTable)
    requires Get(ix.table, IntHash, fd) == None && Stored(ix.table, IntHash, fd, |ix.order|) == table
    ensures Add(ix, fd) == Index(table, ix.order + [fd])
  {
  }

  lemma AddSix()
    ensures Add(EmptyIndex(), 6) == Index(One(), [6])
  {
    StoreFirst();
    AddNew(EmptyIndex(), 6, One());
    assert [] + [6] == [6];
  }

  lemma FreshSeven()
    ensures var t := One(); GoodTable(t, IntHash) && Get(t, IntHash, 7) == None
    ensures Get(One(), IntHash, 14) == None
  {
    StoreFirst();
    StoredIsUpdate(EmptyTable(0), IntHash, 6, 0, 7);
    StoredIsUpdate(EmptyTable(0), IntHash, 6, 0, 14);
  }

  lemma AddSeven()
    ensures Add(Index(One(), [6]), 7) == Index(Two(), [6, 7])
  {
    assert Get(One(), IntHash, 7) == None by { FreshSeven(); }
    assert Stored(One(), IntHash, 7, 1) == Two() by { StoreSecond(); }
    AddNew(Index(One(), [6]), 7, Two());
    assert [6] + [7] == [6, 7];
  }

  lemma FreshFourteen()
    ensures var t := Two(); GoodTable(t, IntHash) && Get(t, IntHash, 14) == None
  {
    FreshSeven();
    var t := One();
    assert Stored(t, IntHash, 7, 1) == Two() by { StoreSecond(); }
    StoredIsUpdate(t, IntHash, 7, 1, 14);
  }

  lemma AddFourteen()
    ensures Add(Index(Two(), [6, 7]), 14) == Index(Crowded(), [6, 7, 14])
  {
    assert Get(Two(), IntHash, 14) == None by { FreshFourteen(); }
    assert Stored(Two(), IntHash, 14, 2) == Crowded() by { StoreThird(); }
    AddNew(Index(Two(), [6, 7]), 14, Crowded());
    assert [6, 7] + [14] == [6, 7, 14];
  }

  /** Adding descriptors 6, 7 and 14 leads to the crowded table. */
  lemma CrowdedIndex()
    ensures Add(Add(Add(EmptyIndex(), 6), 7), 14) == Index(Crowded(), [6, 7, 14])
  {
    assert Add(EmptyIndex(), 6) == Index(One(), [6]) by { AddSix(); }
    assert Add(Add(EmptyIndex(), 6), 7) == Index(Two(), [6, 7]) by { AddSeven(); }
    AddFourteen();
  }

  lemma CrowdedFinds()
    ensures Right(Index(Crowded(), [6, 7, 14]))
    ensures forall fd :: Sees(Index(Crowded(), [6, 7, 14]), fd) <==> fd in [6, 7, 14]
  {
    var ix := Index(Crowded(), [6, 7, 14]);
    assert Right(ix) by {
      EmptyFinds();
      AddFinds(EmptyIndex(), {}, 6);
      AddFinds(Add(EmptyIndex(), 6), {} + {6}, 7);
      AddFinds(Add(Add(EmptyIndex(), 6), 7), {} + {6} + {7}, 14);
      CrowdedIndex();
    }
    forall fd
      ensures Sees(ix, fd) <==> fd in [6, 7, 14]
    {
      PositionIs(ix, fd);
    }
  }

  /** Removing descriptor 6 then hides descriptor 14, whose handle is still in the array. */
  lemma RemoveHides()
    ensures var ix := Index(Crowded(), [6, 7, 14]);
      !SafeToRemove(ix, 6) && !Sees(Remove(ix, 6), 14) && 14 in Remove(ix, 6).order
  {
    var ix := Index(Crowded(), [6, 7, 14]);
    CrowdedFinds();
    assert !SafeToRemove(ix, 6) && CutOff(Crowded(), IntHash, 6, 14) by {
      EraseLosesWrapped();
      RemovedGetsExactly(Crowded(), IntHash, 6, 14);
    }
    RemoveSeesExactly(ix, 6, 14);
    RemoveKeepsOthers(ix, 6, 14);
  }

  /** Removing descriptor 7 is not safe either, but hides none. */
  lemma UnsafeHidesNothing()
    ensures var ix := Index(Crowded(), [6, 7, 14]);
      !SafeToRemove(ix, 7) && forall fd :: Sees(Remove(ix, 7), fd) <==> fd in [6, 14]
  {
    hide Remove, Crowded, Right;
    var ix := Index(Crowded(), [6, 7, 14]);
    CrowdedFinds();
    UnsafeCutsNothing();
    forall fd
      ensures Sees(Remove(ix, 7), fd) <==> fd in [6, 14]
    {
      RemoveSeesExactly(ix, 7, fd);
    }
  }
}
