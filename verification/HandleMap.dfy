/** The reactor's dense array of handles, indexed by descriptor through the hash map. */
module HandleMap {
  import opened Bytes
  import opened HandleIndex
  import opened HashGrowth
  import opened HashSpec
  import HM = HashMap

  class Handle {
    const fd: int

    constructor (fd: int)
      ensures this.fd == fd
    {
      this.fd := fd;
    }
  }

  /** Every position in the table is one of `bound` slots. */
  ghost predicate Below(t: Table, bound: nat) {
    forall p :: 0 <= p < |t.slots| && t.slots[p].Used? ==> t.slots[p].value < bound
  }

  lemma StoredIsBelow(t: Table, fd: int, value: nat, bound: nat)
    requires Regular(t) && Below(t, bound) && value < bound
    ensures Below(Stored(t, IntHash, fd, value), bound)
  {
    var u := Stored(t, IntHash, fd, value);
    forall p | 0 <= p < |u.slots| && u.slots[p].Used?
      ensures u.slots[p].value < bound
    {
      assert u.slots[p] == Used(u.slots[p].key, u.slots[p].value);
      StoredAddsNothing(t, IntHash, fd, value, u.slots[p].key, u.slots[p].value);
    }
  }

  lemma RemovedIsBelow(t: Table, fd: int, bound: nat)
    requires Regular(t) && Below(t, bound)
    ensures Below(Removed(t, IntHash, fd), bound)
  {
    SeekHits(t, IntHash, fd);
    var found, u := Seek(t, IntHash, fd), Removed(t, IntHash, fd);
    forall p | 0 <= p < |u.slots| && u.slots[p].Used?
      ensures u.slots[p].value < bound
    {
      assert u.slots[p] == Used(u.slots[p].key, u.slots[p].value);
      if found.Some? {
        EraseAddsNothing(t, HomeIn(IntHash, |t.slots|), found.value, u.slots[p].key, u.slots[p].value);
      }
    }
  }

  lemma MovedIsBelow(t: Table, fd: int, pos: nat, bound: nat)
    requires Regular(t) && Below(t, bound) && pos < bound
    ensures Below(Moved(t, fd, pos), bound)
  {
    SeekHits(t, IntHash, fd);
  }

  lemma UnindexedFits(t: Table, fd: int, idx: nat, last: Option<int>, bound: nat)
    requires Regular(t) && Below(t, bound) && Get(t, IntHash, fd) == Some(idx) && idx < bound
    ensures var u := Unindexed(t, fd, idx, last);
      Regular(u) && Below(u, bound) && u.size + 1 == t.size
  {
    SeekHits(t, IntHash, fd);
    RemovedIsRegular(t, IntHash, fd);
    RemovedIsBelow(t, fd, bound);
    if last.Some? {
      MovedIsBelow(Removed(t, IntHash, fd), last.value, idx, bound);
    }
  }

  class HandleMap {
    const table: HM.HashMap  // descriptor to position
    var handles: array<Handle?>
    var size: nat
    ghost var order: seq<int>  // the descriptors of the handles

    /** What every operation keeps, also after a removal that has cut a descriptor off. */
    ghost predicate Valid()
      reads this, table, table.entries, handles
    {
      && table.hash == IntHash && Regular(table.View()) && Below(table.View(), handles.Length)
      && table.size <= size == |order| <= handles.Length && Ordered()
    }

    ghost predicate Ordered()
      reads this`handles, this`order, handles
    {
      && |order| <= handles.Length
      && forall i :: 0 <= i < |order| ==> handles[i] != null && (handles[i] as Handle).fd == order[i]
    }

    ghost function View(): Index
      requires Valid()
      reads this, table, table.entries, handles
    {
      Index(table.View(), order)
    }

    ghost function Items(): seq<Handle?>
      requires size <= handles.Length
      reads this, handles
    {
      handles[..size]
    }

    constructor ()
      ensures Valid() && View() == EmptyIndex() && Items() == []
      ensures fresh(table) && fresh(table.entries) && fresh(handles)
    {
      table := new HM.HashMap(IntHash);
      handles := new Handle?[0];
      size, order := 0, [];
    }

    method Grow()
      requires size == handles.Length
      modifies this`handles
      ensures fresh(handles) && old(handles).Length < handles.Length && handles[..size] == old(handles[..size])
    {
      var capacity := if handles.Length == 0 then 16 else handles.Length * 2;
      var grown := new Handle?[capacity](_ => null);
      forall i | 0 <= i < size {
        grown[i] := handles[i];
      }
      handles := grown;
    }

    /** The position that the table gives. */
    method Lookup(fd: int) returns (pos: Option<nat>)
      requires Valid()
      ensures pos == PositionOf(View(), fd)
      ensures pos.Some? ==> pos.value < handles.Length && 0 < size
    {
      SeekHits(table.View(), IntHash, fd);
      var found := table.TryGet(fd);
      pos := if found.Some? then Some(table.entries[found.value].value) else None;
    }

    /** The handle that the table points to, if it knows the descriptor. */
    method TryGet(fd: int) returns (handle: Handle?)
      requires Valid()
      ensures match PositionOf(View(), fd)
              case None => handle == null
              case Some(i) => i < handles.Length && handle == handles[i]
      ensures Sees(View(), fd) ==> handle != null && (handle as Handle).fd == fd
      ensures Right(View()) ==> (handle != null <==> fd in order)
    {
      var found := Lookup(fd);
      if Right(View()) {
        PositionIs(View(), fd);
      }
      handle := if found.Some? then handles[found.value] else null;
    }

    /**
     * Adds the handle of a descriptor, or puts it where the table points to. Without memory for the
     * array nothing happens; without memory for the table the handle is stored, but not indexed.
     */
    method Set(fd: int, handle: Handle, arrayOk: bool, tableOk: bool)
      requires Valid() && handle.fd == fd
      modifies this, handles, table, table.entries
      ensures Valid() && (handles == old(handles) || fresh(handles))
      ensures table.entries == old(table.entries) || fresh(table.entries)
      ensures if old(PositionOf(View(), fd).None? && size == handles.Length) && !arrayOk
              then View() == old(View()) && Items() == old(Items())
              else View() == Enter(old(View()), fd, tableOk)
                   && Items() == Entered(old(Items()), old(PositionOf(View(), fd)), handle)
    {
      var found := Lookup(fd);
      if found.Some? {
        Replace(found.value, handle);
        return;
      }
      if size == handles.Length {
        if !arrayOk {
          return;
        }
        Grow();
      }
      Insert(fd, handle, tableOk);
    }

    static function Entered(items: seq<Handle?>, pos: Option<nat>, handle: Handle): seq<Handle?> {
      match pos
      case None => items + [handle]
      case Some(i) => if i < |items| then items[i := handle] else items
    }

    method Insert(fd: int, handle: Handle, tableOk: bool)
      requires Valid() && handle.fd == fd && size < handles.Length && PositionOf(View(), fd) == None
      modifies this`size, this`order, handles, table, table.entries
      ensures Valid() && (table.entries == old(table.entries) || fresh(table.entries))
      ensures View() == Enter(old(View()), fd, tableOk) && Items() == old(Items()) + [handle]
    {
      hide FirstOpen, Stored, WithRoom, Exact, PositionOf, Count;
      StoredIsBelow(table.View(), fd, size, handles.Length);
      var _ := table.Set(fd, size, tableOk);
      handles[size] := handle;
      size, order := size + 1, order + [fd];
    }

    method Replace(idx: nat, handle: Handle)
      requires Valid() && PositionOf(View(), handle.fd) == Some(idx) && idx < handles.Length
      modifies this`order, handles
      ensures Valid() && View() == Enter(old(View()), handle.fd, true)
      ensures Items() == Entered(old(Items()), Some(idx), handle)
    {
      handles[idx] := handle;
      if idx < size {
        order := order[idx := handle.fd];
      }
    }

    /** Removes the handle that the table points to; the last handle takes its place. */
    method Remove(fd: int)
      requires Valid()
      modifies this`size, this`order, handles, table, table.entries
      ensures Valid() && table.entries == old(table.entries)
      ensures View() == HandleIndex.Remove(old(View()), fd)
      ensures match old(PositionOf(View(), fd))
              case None => Items() == old(Items())
              case Some(i) => old(size) > 0 && Items() == Left(old(Items()), i)
      ensures old(Right(View()) && Sees(View(), fd)) ==> (Right(View()) <==> old(SafeToRemove(View(), fd)))
    {
      ghost var ix := View();
      if Right(ix) && Sees(ix, fd) {
        RemoveIsRightExactly(ix, fd);
      }
      var found := table.TryGet(fd);
      if found.Some? {
        SeekHits(ix.table, IntHash, fd);
        TakeOut(fd, found.value);
      }
    }

    static function Left(items: seq<Handle?>, i: nat): seq<Handle?>
      requires items != []
    {
      (if i < |items| then items[i := items[|items| - 1]] else items)[..|items| - 1]
    }

    method TakeOut(fd: int, at: nat)
      requires Valid() && Seek(table.View(), IntHash, fd) == Some(at) && 0 < size
      modifies this`size, this`order, handles, table, table.entries
      ensures Valid() && table.entries == old(table.entries)
      ensures View() == HandleIndex.Remove(old(View()), fd)
      ensures var i := old(PositionOf(View(), fd)); i.Some? && Items() == Left(old(Items()), i.value)
    {
      SeekHits(table.View(), IntHash, fd);
      var idx := table.entries[at].value;
      ghost var t, last := table.View(), Last(order, idx);
      UnindexedFits(t, fd, idx, last, handles.Length);
      Unindex(fd, at, idx, t);
      DropHandle(idx);
    }

    /** The changes to the table. */
    method Unindex(fd: int, at: nat, idx: nat, ghost t: Table)
      requires Ordered() && 0 < size == |order| && table.hash == IntHash
      requires t == table.View() && Regular(t) && Seek(t, IntHash, fd) == Some(at)
      modifies table, table.entries
      ensures table.entries == old(table.entries)
      ensures table.View() == Unindexed(t, fd, idx, Last(order, idx))
    {
      hide Regular, Removed, Find;
      table.EraseFound(fd, at, t);
      if idx != size - 1 {
        RemovedIsRegular(t, IntHash, fd);
        MoveInTable((handles[size - 1] as Handle).fd, idx, table.View());
      }
    }

    /** Gives a descriptor a new position, if the table finds it. */
    method MoveInTable(fd: int, idx: nat, ghost t: RegularTable)
      requires t == table.View() && table.hash == IntHash
      modifies table.entries
      ensures table.View() == Moved(t, fd, idx)
    {
      SeekHits(t, IntHash, fd);
      var found := table.TryGet(fd);
      if found.Some? {
        table.SetValue(found.value, idx);
      }
    }

    method DropHandle(idx: nat)
      requires Ordered() && 0 < size == |order| && idx < handles.Length
      modifies this`size, this`order, handles
      ensures Ordered() && size == |order| == old(size) - 1
      ensures order == Dropped(old(order), idx) && Items() == Left(old(Items()), idx)
    {
      handles[idx] := handles[size - 1];
      order := Dropped(order, idx);
      size := size - 1;
    }
  }
}
