/**
 * Open addressing with linear probing: the table as a value, its operations, and what they keep.
 * `home` gives each key the slot that its probing starts at.
 */
module HashSpec {
  import opened Bytes

  datatype Entry = Free | Used(key: int, value: nat)

  /** The slots, the window `[begin, end)` that the used ones lie in, and their number. */
  datatype Table = Table(slots: seq<Entry>, begin: nat, end: nat, size: nat)

  /** How a scan of consecutive slots ends: at the key, at a free slot, or past the last slot. */
  datatype Scanned = At(pos: nat) | Gap | Past

  // ---------------------------------------------------------------- operations

  function Scan(slots: seq<Entry>, key: int, i: nat, limit: nat): Scanned
    requires limit <= |slots|
    decreases limit - i
  {
    if i >= limit then Past
    else if slots[i].Free? then Gap
    else if slots[i].key == key then At(i)
    else Scan(slots, key, i + 1, limit)
  }

  function Find(t: Table, home: int -> nat, key: int): Option<nat>
    requires t.end <= |t.slots| && home(key) < |t.slots|
  {
    if t.size == 0 then None
    else
      var first := Scan(t.slots, key, home(key), t.end);
      if first.At? then Some(first.pos)
      else if first.Gap? then None
      else
        var second := Scan(t.slots, key, t.begin, home(key));
        if second.At? then Some(second.pos) else None
  }

  /** The first slot from `i` on that is free or holds the key. */
  function FirstOpen(slots: seq<Entry>, key: int, i: nat, limit: nat): (r: Option<nat>)
    requires limit <= |slots|
    ensures r.Some? ==> i <= r.value < limit
    decreases limit - i
  {
    if i >= limit then None
    else if slots[i].Free? || slots[i].key == key then Some(i)
    else FirstOpen(slots, key, i + 1, limit)
  }

  function Place(slots: seq<Entry>, key: int, h: nat): (r: Option<nat>)
    requires h < |slots|
    ensures r.Some? ==> r.value < |slots|
  {
    var first := FirstOpen(slots, key, h, |slots|);
    if first.Some? then first else FirstOpen(slots, key, 0, h)
  }

  /** The table with one more used slot counted, at index `i`. */
  function Widen(t: Table, i: nat): Table {
    if t.size == 0 then t.(size := 1, begin := i, end := i + 1)
    else t.(size := t.size + 1,
            begin := if i < t.begin then i else t.begin,
            end := if i + 1 > t.end then i + 1 else t.end)
  }

  /** Setting a key without growing the table; `None` means that there was no room. */
  function Set(t: Table, home: int -> nat, key: int, value: nat): Option<Table>
    requires home(key) < |t.slots|
  {
    var place := Place(t.slots, key, home(key));
    if place.None? then None
    else
      var i := place.value;
      var slots := t.slots[i := Used(key, value)];
      if t.slots[i].Free? then Some(Widen(t.(slots := slots), i)) else Some(t.(slots := slots))
  }

  /**
   * Closing the hole at `z`: each following entry that may sit in the hole moves there and leaves
   * a new hole. The result is the slots and the last hole.
   */
  function Shift(slots: seq<Entry>, home: int -> nat, z: nat, i: nat, end: nat): (r: (seq<Entry>, nat))
    requires z < i && z < |slots| && end <= |slots|
    ensures |r.0| == |slots| && z <= r.1 < |slots|
    decreases end - i
  {
    if i >= end || slots[i].Free? then (slots, z)
    else if home(slots[i].key) <= z then
      Shift(slots[z := slots[i]][i := Free], home, i, i + 1, end)
    else Shift(slots, home, z, i + 1, end)
  }

  /** The last used slot before `i`. */
  function LastUsed(slots: seq<Entry>, i: nat): nat
    requires i <= |slots|
  {
    if i == 0 then 0 else if slots[i - 1].Used? then i - 1 else LastUsed(slots, i - 1)
  }

  /** The first used slot from `i` on. */
  function NextUsed(slots: seq<Entry>, i: nat): nat
    requires i <= |slots|
    decreases |slots| - i
  {
    if i == |slots| || slots[i].Used? then i else NextUsed(slots, i + 1)
  }

  /** The window after slot `z` has become free. */
  function Narrow(t: Table, z: nat): Table
    requires t.end <= |t.slots| && z < |t.slots|
  {
    if t.size == 0 then t.(begin := 0, end := 0)
    else if z + 1 == t.end then t.(end := LastUsed(t.slots, z) + 1)
    else if z == t.begin then t.(begin := NextUsed(t.slots, z + 1))
    else t
  }

  function Erase(t: Table, home: int -> nat, e: nat): Table
    requires e < |t.slots| && t.end <= |t.slots| && t.size > 0
  {
    var shifted := Shift(t.slots[e := Free], home, e, e + 1, t.end);
    Narrow(t.(slots := shifted.0, size := t.size - 1), shifted.1)
  }

  function Lookup(t: Table, home: int -> nat, key: int): Option<nat>
    requires t.end <= |t.slots| && home(key) < |t.slots|
  {
    var found := Find(t, home, key);
    if found.Some? && found.value < |t.slots| && t.slots[found.value].Used? then
      Some(t.slots[found.value].value)
    else None
  }

  // ---------------------------------------------------------------- invariants

  function Count(slots: seq<Entry>): nat {
    if slots == [] then 0 else Count(slots[1..]) + if slots[0].Used? then 1 else 0
  }

  ghost predicate Fits(home: int -> nat, n: nat) {
    forall k :: home(k) < n
  }

  ghost predicate UsedRun(slots: seq<Entry>, a: nat, b: nat)
    requires b <= |slots|
  {
    forall q :: a <= q < b ==> slots[q].Used?
  }

  ghost predicate Unique(slots: seq<Entry>) {
    forall i, j :: 0 <= i < j < |slots| && slots[i].Used? && slots[j].Used? ==> slots[i].key != slots[j].key
  }

  /** The size is the number of used slots, and the window is as narrow as it can be. */
  ghost predicate Exact(t: Table) {
    && t.size == Count(t.slots)
    && t.begin <= t.end <= |t.slots|
    && (t.size == 0 ==> t.begin == t.end == 0)
    && (t.size > 0 ==> t.begin < t.end && t.slots[t.begin].Used? && t.slots[t.end - 1].Used?)
    && (forall i :: 0 <= i < |t.slots| && t.slots[i].Used? ==> t.begin <= i < t.end)
  }

  /** The entry sits before its home slot: its probing went past the last slot. */
  predicate Wrapped(slots: seq<Entry>, home: int -> nat, p: nat)
    requires p < |slots|
  {
    slots[p].Used? && p < home(slots[p].key)
  }

  ghost predicate NoWrap(slots: seq<Entry>, home: int -> nat) {
    forall p :: 0 <= p < |slots| ==> !Wrapped(slots, home, p)
  }

  /** No gap between the home slot of an entry and the entry, where it did not wrap. */
  ghost predicate Near(slots: seq<Entry>, home: int -> nat) {
    forall p :: 0 <= p < |slots| && slots[p].Used? ==> UsedRun(slots, home(slots[p].key), p)
  }

  /** No gap on the way of a wrapped entry that goes up to `hi` and continues from `lo`. */
  ghost predicate Far(slots: seq<Entry>, home: int -> nat, lo: nat, hi: nat)
    requires hi <= |slots|
  {
    forall p :: 0 <= p < |slots| && Wrapped(slots, home, p) ==>
      UsedRun(slots, home(slots[p].key), hi) && UsedRun(slots, lo, p)
  }

  /** The invariant of the table. */
  ghost predicate Sound(t: Table, home: int -> nat) {
    && Fits(home, |t.slots|) && Unique(t.slots) && Exact(t)
    && Near(t.slots, home) && Far(t.slots, home, 0, |t.slots|)
  }

  ghost predicate AllFound(t: Table, home: int -> nat)
    requires t.end <= |t.slots| && Fits(home, |t.slots|)
  {
    forall p :: 0 <= p < |t.slots| && t.slots[p].Used? ==> Find(t, home, t.slots[p].key) == Some(p)
  }

  ghost predicate Has(slots: seq<Entry>, key: int, value: nat) {
    exists i :: 0 <= i < |slots| && slots[i] == Used(key, value)
  }

  // ---------------------------------------------------------------- counting

  lemma {:induction false} CountUpdate(slots: seq<Entry>, i: nat, e: Entry)
    requires i < |slots|
    ensures Count(slots[i := e]) + (if slots[i].Used? then 1 else 0) == Count(slots) + if e.Used? then 1 else 0
    decreases |slots|
  {
    if i == 0 {
      assert slots[i := e][1..] == slots[1..];
    } else {
      CountUpdate(slots[1..], i - 1, e);
      assert slots[i := e][1..] == slots[1..][i - 1 := e];
    }
  }

  lemma {:induction false} CountZero(slots: seq<Entry>)
    ensures Count(slots) == 0 <==> forall i :: 0 <= i < |slots| ==> slots[i].Free?
    ensures Count(slots) <= |slots|
    ensures Count(slots) == |slots| <==> UsedRun(slots, 0, |slots|)
  {
    if slots != [] {
      CountZero(slots[1..]);
      assert forall i :: 1 <= i < |slots| ==> slots[i] == slots[1..][i - 1];
      assert forall i :: 0 <= i < |slots[1..]| ==> slots[1..][i] == slots[i + 1];
    }
  }

  // ---------------------------------------------------------------- finding

  lemma {:induction false} ScanExact(slots: seq<Entry>, key: int, a: nat, limit: nat)
    requires limit <= |slots|
    ensures var r := Scan(slots, key, a, limit);
      && (r.At? ==> a <= r.pos < limit && slots[r.pos].Used? && slots[r.pos].key == key && UsedRun(slots, a, r.pos))
      && (r.Past? ==> UsedRun(slots, a, limit) && forall p :: a <= p < limit ==> slots[p].key != key)
      && (r.Gap? ==>
            exists g :: a <= g < limit && slots[g].Free?
                        && forall p :: a <= p < g ==> slots[p].Used? && slots[p].key != key)
    decreases limit - a
  {
    if a < limit && slots[a].Used? && slots[a].key != key {
      ScanExact(slots, key, a + 1, limit);
    }
  }

  /** An entry is found exactly when the slots on its way are all used. */
  lemma FoundExactly(t: Table, home: int -> nat, p: nat)
    requires Fits(home, |t.slots|) && Unique(t.slots) && Exact(t)
    requires p < |t.slots| && t.slots[p].Used?
    ensures Find(t, home, t.slots[p].key) == Some(p) <==>
            (UsedRun(t.slots, home(t.slots[p].key), p)
             && (Wrapped(t.slots, home, p) ==>
                   UsedRun(t.slots, home(t.slots[p].key), t.end) && UsedRun(t.slots, t.begin, p)))
  {
    var key := t.slots[p].key;
    CountZero(t.slots);
    ScanExact(t.slots, key, home(key), t.end);
    ScanExact(t.slots, key, t.begin, home(key));
  }

  /** All entries are found if and only if no probe path has a gap inside the window. */
  lemma AllFoundExactly(t: Table, home: int -> nat)
    requires Fits(home, |t.slots|) && Unique(t.slots) && Exact(t)
    ensures AllFound(t, home) <==> Near(t.slots, home) && Far(t.slots, home, t.begin, t.end)
  {
    forall p | 0 <= p < |t.slots| && t.slots[p].Used?
      ensures Find(t, home, t.slots[p].key) == Some(p) <==>
              (UsedRun(t.slots, home(t.slots[p].key), p)
               && (Wrapped(t.slots, home, p) ==>
                     UsedRun(t.slots, home(t.slots[p].key), t.end) && UsedRun(t.slots, t.begin, p)))
    {
      FoundExactly(t, home, p);
    }
  }

  /** A sound table finds exactly the entries that it holds. */
  lemma LookupExact(t: Table, home: int -> nat, key: int, value: nat)
    requires Sound(t, home)
    ensures Lookup(t, home, key) == Some(value) <==> Has(t.slots, key, value)
  {
    hide Unique, Scan, Wrapped, Count;
    ScanExact(t.slots, key, home(key), t.end);
    ScanExact(t.slots, key, t.begin, home(key));
    if Has(t.slots, key, value) {
      var p :| 0 <= p < |t.slots| && t.slots[p] == Used(key, value);
      FoundExactly(t, home, p);
    }
  }

  /** A key that is not found in a sound table is in none of its slots. */
  lemma MissIsAbsent(t: Table, home: int -> nat, key: int)
    requires Sound(t, home)
    ensures var r := Find(t, home, key);
      && (r.Some? ==> r.value < |t.slots| && t.slots[r.value].Used? && t.slots[r.value].key == key)
      && (r.None? ==> forall p :: 0 <= p < |t.slots| && t.slots[p].Used? ==> t.slots[p].key != key)
  {
    FindHits(t, home, key);
    forall p | 0 <= p < |t.slots| && t.slots[p].Used? && t.slots[p].key == key
      ensures Find(t, home, key).Some?
    {
      FoundExactly(t, home, p);
    }
  }

  // ---------------------------------------------------------------- setting

  lemma {:induction false} FirstOpenExact(slots: seq<Entry>, key: int, a: nat, limit: nat)
    requires limit <= |slots|
    ensures var r := FirstOpen(slots, key, a, limit);
      var stop := if r.Some? then r.value else limit;
      && UsedRun(slots, a, stop)
      && (forall p :: a <= p < stop ==> slots[p].key != key)
      && (r.Some? ==> slots[stop].Free? || slots[stop].key == key)
    decreases limit - a
  {
    if a < limit && slots[a].Used? && slots[a].key != key {
      FirstOpenExact(slots, key, a + 1, limit);
    }
  }

  /** A free place is only taken when the key is nowhere in the table. */
  lemma PlaceIsRight(t: Table, home: int -> nat, key: int)
    requires Sound(t, home)
    ensures var place := Place(t.slots, key, home(key));
      && (place.None? ==> UsedRun(t.slots, 0, |t.slots|))
      && (place.None? || t.slots[place.value].Free? ==>
            forall p :: 0 <= p < |t.slots| && t.slots[p].Used? ==> t.slots[p].key != key)
  {
    FirstOpenExact(t.slots, key, home(key), |t.slots|);
    FirstOpenExact(t.slots, key, 0, home(key));
  }

  /** Filling a slot at the end of its entry's way leaves no gaps. */
  lemma FillKeepsNear(slots: seq<Entry>, home: int -> nat, i: nat, x: Entry)
    requires Near(slots, home) && i < |slots| && x.Used? && UsedRun(slots, home(x.key), i)
    ensures Near(slots[i := x], home)
  {
    var filled := slots[i := x];
    forall p | 0 <= p < |filled| && filled[p].Used?
      ensures UsedRun(filled, home(filled[p].key), p)
    {
      assert p != i ==> filled[p] == slots[p];
    }
  }

  lemma FillKeepsPaths(slots: seq<Entry>, home: int -> nat, i: nat, x: Entry)
    requires Fits(home, |slots|) && Near(slots, home) && Far(slots, home, 0, |slots|)
    requires i < |slots| && x.Used? && UsedRun(slots, home(x.key), i)
    requires i < home(x.key) ==> UsedRun(slots, home(x.key), |slots|) && UsedRun(slots, 0, i)
    ensures var filled := slots[i := x]; Near(filled, home) && Far(filled, home, 0, |filled|)
  {
    FillKeepsNear(slots, home, i, x);
    var filled := slots[i := x];
    forall p | 0 <= p < |filled| && Wrapped(filled, home, p)
      ensures UsedRun(filled, home(filled[p].key), |filled|) && UsedRun(filled, 0, p)
    {
      assert p != i ==> filled[p] == slots[p] && Wrapped(slots, home, p);
    }
  }

  lemma WidenIsExact(t: Table, i: nat, x: Entry)
    requires Exact(t) && i < |t.slots| && x.Used?
    ensures Exact(if t.slots[i].Free? then Widen(t.(slots := t.slots[i := x]), i) else t.(slots := t.slots[i := x]))
  {
    CountUpdate(t.slots, i, x);
    CountZero(t.slots);
  }

  /** Whatever else is wrong with a table, setting a key keeps its size and window exact. */
  lemma SetIsExact(t: Table, home: int -> nat, key: int, value: nat)
    requires Exact(t) && home(key) < |t.slots| && Set(t, home, key, value).Some?
    ensures var u := Set(t, home, key, value).value;
      && Exact(u) && |u.slots| == |t.slots| && t.size <= u.size <= t.size + 1
  {
    WidenIsExact(t, Place(t.slots, key, home(key)).value, Used(key, value));
  }

  /** A table that is not full has a place for any key. */
  lemma HasRoom(t: Table, home: int -> nat, key: int, value: nat)
    requires Exact(t) && t.size < |t.slots| && home(key) < |t.slots|
    ensures Set(t, home, key, value).Some?
  {
    CountZero(t.slots);
    FirstOpenExact(t.slots, key, home(key), |t.slots|);
    FirstOpenExact(t.slots, key, 0, home(key));
  }

  /** Setting a key puts nothing else into the table. */
  lemma SetAddsNothing(t: Table, home: int -> nat, key: int, value: nat, k: int, v: nat)
    requires home(key) < |t.slots| && Set(t, home, key, value).Some?
    requires Has(Set(t, home, key, value).value.slots, k, v)
    ensures (k == key && v == value) || Has(t.slots, k, v)
  {
    var i := Place(t.slots, key, home(key)).value;
    assert forall p :: 0 <= p < |t.slots| && p != i ==> t.slots[i := Used(key, value)][p] == t.slots[p];
  }

  /** Setting a key keeps the invariant; a table without wrapped entries keeps that if it can. */
  lemma SetKeepsSound(t: Table, home: int -> nat, key: int, value: nat)
    requires Sound(t, home) && Set(t, home, key, value).Some?
    ensures var u := Set(t, home, key, value).value;
      && Sound(u, home) && |u.slots| == |t.slots|
      && (NoWrap(t.slots, home) && Place(t.slots, key, home(key)).value >= home(key) ==> NoWrap(u.slots, home))
  {
    hide Near, Far, Count, FirstOpen, UsedRun;
    var i, x := Place(t.slots, key, home(key)).value, Used(key, value);
    var filled := t.slots[i := x];
    SetIsExact(t, home, key, value);
    assert Near(filled, home) && Far(filled, home, 0, |filled|) by {
      FirstOpenExact(t.slots, key, home(key), |t.slots|);
      FirstOpenExact(t.slots, key, 0, home(key));
      FillKeepsPaths(t.slots, home, i, x);
    }
    assert Unique(filled) by {
      FirstOpenExact(t.slots, key, home(key), |t.slots|);
      FirstOpenExact(t.slots, key, 0, home(key));
      PlaceIsRight(t, home, key);
    }
    assert forall p :: 0 <= p < |filled| && p != i && Wrapped(filled, home, p) ==> Wrapped(t.slots, home, p);
  }

  /** Setting a key leaves the entries of all other keys. */
  lemma SetKeepsOthers(t: Table, home: int -> nat, key: int, value: nat, k: int, v: nat)
    requires Sound(t, home) && Set(t, home, key, value).Some?
    ensures var slots := Set(t, home, key, value).value.slots;
      && Has(slots, key, value)
      && (k != key ==> (Has(slots, k, v) <==> Has(t.slots, k, v)))
  {
    var i := Place(t.slots, key, home(key)).value;
    FirstOpenExact(t.slots, key, home(key), |t.slots|);
    FirstOpenExact(t.slots, key, 0, home(key));
    var slots := t.slots[i := Used(key, value)];
    assert slots[i] == Used(key, value);
    assert forall p :: 0 <= p < |t.slots| && p != i ==> slots[p] == t.slots[p];
  }

  /** Setting a key is setting it in the map that the table stands for. */
  lemma SetIsUpdate(t: Table, home: int -> nat, key: int, value: nat, k: int)
    requires Sound(t, home) && Set(t, home, key, value).Some?
    ensures var u := Set(t, home, key, value).value;
      && Sound(u, home)
      && Lookup(u, home, k) == if k == key then Some(value) else Lookup(t, home, k)
  {
    var u := Set(t, home, key, value).value;
    SetKeepsSound(t, home, key, value);
    forall v
      ensures Has(u.slots, key, value) && (k != key ==> (Has(u.slots, k, v) <==> Has(t.slots, k, v)))
    {
      SetKeepsOthers(t, home, key, value, k, v);
    }
    if k == key {
      assert Has(u.slots, key, value) by { SetKeepsOthers(t, home, key, value, key, value); }
      LookupExact(u, home, key, value);
    } else {
      SameLookup(t, u, home, k);
    }
  }

  lemma SameLookup(t: Table, u: Table, home: int -> nat, k: int)
    requires Sound(t, home) && Sound(u, home)
    requires forall v :: Has(u.slots, k, v) <==> Has(t.slots, k, v)
    ensures Lookup(u, home, k) == Lookup(t, home, k)
  {
    var a, b := Lookup(t, home, k), Lookup(u, home, k);
    if a.Some? {
      LookupExact(t, home, k, a.value);
      LookupExact(u, home, k, a.value);
    } else if b.Some? {
      LookupExact(t, home, k, b.value);
      LookupExact(u, home, k, b.value);
    }
  }

  /** There is no room exactly when every slot is used and none by the key. */
  lemma SetFailsExactly(t: Table, home: int -> nat, key: int, value: nat)
    requires Sound(t, home)
    ensures Set(t, home, key, value).None? <==> t.size == |t.slots| && Lookup(t, home, key).None?
  {
    PlaceIsRight(t, home, key);
    CountZero(t.slots);
    FirstOpenExact(t.slots, key, home(key), |t.slots|);
    FirstOpenExact(t.slots, key, 0, home(key));
    if Lookup(t, home, key).Some? {
      LookupExact(t, home, key, Lookup(t, home, key).value);
    } else {
      forall p | 0 <= p < |t.slots| && t.slots[p].Used?
        ensures t.slots[p].key != key
      {
        var value := t.slots[p].value;
        LookupExact(t, home, key, value);
        assert t.slots[p] != Used(key, value);
      }
    }
  }

  // ---------------------------------------------------------------- erasing

  /** What holds while a hole is being closed: only entries from `i` on may miss slot `z`. */
  ghost predicate Closing(slots: seq<Entry>, home: int -> nat, z: nat, i: nat, end: nat) {
    && z < i && z < end <= |slots| && i <= end
    && slots[z].Free? && Unique(slots)
    && (forall p :: end <= p < |slots| ==> slots[p].Free?)
    && (forall p :: z < p < i ==> slots[p].Used? && z < home(slots[p].key))
    && (forall p, q :: 0 <= p < |slots| && slots[p].Used? && home(slots[p].key) <= q < p ==>
          slots[q].Used? || (q == z && i <= p))
  }

  lemma MoveKeepsClosing(slots: seq<Entry>, home: int -> nat, z: nat, i: nat, end: nat)
    requires Closing(slots, home, z, i, end) && i < end && slots[i].Used? && home(slots[i].key) <= z
    ensures Closing(slots[z := slots[i]][i := Free], home, i, i + 1, end)
  {
  }

  /** Closing a hole leaves no gaps before unwrapped entries. */
  lemma {:induction false} ShiftCloses(slots: seq<Entry>, home: int -> nat, z: nat, i: nat, end: nat)
    requires Closing(slots, home, z, i, end)
    ensures var r := Shift(slots, home, z, i, end);
      Unique(r.0) && Near(r.0, home)
    decreases end - i
  {
    if i < end && slots[i].Used? {
      if home(slots[i].key) <= z {
        MoveKeepsClosing(slots, home, z, i, end);
        ShiftCloses(slots[z := slots[i]][i := Free], home, i, i + 1, end);
      } else {
        ShiftCloses(slots, home, z, i + 1, end);
      }
    } else {
      NothingLeftToMove(slots, home, z, i, end);
    }
  }

  lemma NothingLeftToMove(slots: seq<Entry>, home: int -> nat, z: nat, i: nat, end: nat)
    requires Closing(slots, home, z, i, end) && (i == end || slots[i].Free?)
    ensures Near(slots, home)
  {
    forall p | 0 <= p < |slots| && slots[p].Used?
      ensures UsedRun(slots, home(slots[p].key), p)
    {
      assert p > i ==> i < home(slots[p].key);
    }
  }

  /** Closing a hole moves no wrapped entry, and makes none. */
  lemma {:induction false} ShiftLeavesWrapped(slots: seq<Entry>, home: int -> nat, z: nat, i: nat, end: nat, q: nat)
    requires z < i && end <= |slots| && z < end && slots[z].Free? && q < |slots|
    ensures var r := Shift(slots, home, z, i, end);
      && (Wrapped(r.0, home, q) <==> Wrapped(slots, home, q))
      && (Wrapped(slots, home, q) ==> r.0[q] == slots[q])
    decreases end - i
  {
    if i < end && slots[i].Used? {
      if home(slots[i].key) <= z {
        ShiftLeavesWrapped(slots[z := slots[i]][i := Free], home, i, i + 1, end, q);
      } else {
        ShiftLeavesWrapped(slots, home, z, i + 1, end, q);
      }
    }
  }

  /** Closing a hole neither loses nor invents an entry. */
  lemma {:induction false} ShiftKeepsEntries(
    slots: seq<Entry>, home: int -> nat, z: nat, i: nat, end: nat, k: int, v: nat)
    requires z < i && z < |slots| && end <= |slots| && slots[z].Free?
    ensures Has(Shift(slots, home, z, i, end).0, k, v) <==> Has(slots, k, v)
    decreases end - i
  {
    if i < end && slots[i].Used? {
      if home(slots[i].key) <= z {
        var moved := slots[z := slots[i]][i := Free];
        ShiftKeepsEntries(moved, home, i, i + 1, end, k, v);
        assert moved[z] == slots[i];
        assert forall p :: 0 <= p < |slots| && p != z && p != i ==> moved[p] == slots[p];
      } else {
        ShiftKeepsEntries(slots, home, z, i + 1, end, k, v);
      }
    }
  }

  lemma {:induction false} LastUsedIs(slots: seq<Entry>, i: nat, b: nat)
    requires b < i <= |slots| && slots[b].Used?
    ensures var r := LastUsed(slots, i); b <= r < i && slots[r].Used? && forall p :: r < p < i ==> slots[p].Free?
  {
    if slots[i - 1].Free? {
      LastUsedIs(slots, i - 1, b);
    }
  }

  lemma {:induction false} NextUsedIs(slots: seq<Entry>, i: nat, b: nat)
    requires i <= b < |slots| && slots[b].Used?
    ensures var r := NextUsed(slots, i); i <= r <= b && slots[r].Used? && forall p :: i <= p < r ==> slots[p].Free?
    decreases |slots| - i
  {
    if slots[i].Free? {
      NextUsedIs(slots, i + 1, b);
    }
  }

  /** Narrowing makes the window exact again when one slot of it has become free. */
  lemma NarrowIsExact(t: Table, slots: seq<Entry>, z: nat)
    requires Exact(t) && |slots| == |t.slots| && z < |slots| && t.size > 0
    requires Count(slots) == t.size - 1
    requires forall q :: 0 <= q < |slots| ==> (slots[q].Used? <==> q != z && t.slots[q].Used?)
    requires t.begin <= z < t.end
    ensures Exact(Narrow(t.(slots := slots, size := t.size - 1), z))
  {
    CountZero(slots);
    if t.size > 1 {
      if z + 1 == t.end {
        LastUsedIs(slots, z, t.begin);
      } else if z == t.begin {
        NextUsedIs(slots, z + 1, t.end - 1);
      }
    }
  }

  /** Whatever the table, closing a hole trades the first hole for the last, and drops no entry. */
  lemma {:induction false} ShiftTrades(slots: seq<Entry>, home: int -> nat, z: nat, i: nat, end: nat)
    requires z < i && z < end <= |slots| && slots[z].Free?
    ensures var r := Shift(slots, home, z, i, end);
      && r.1 < end && Count(r.0) == Count(slots)
      && (forall q :: 0 <= q < |slots| ==> (r.0[q].Used? <==> q != r.1 && (slots[q].Used? || q == z)))
    decreases end - i
  {
    if i < end && slots[i].Used? {
      if home(slots[i].key) <= z {
        CountUpdate(slots, z, slots[i]);
        CountUpdate(slots[z := slots[i]], i, Free);
        ShiftTrades(slots[z := slots[i]][i := Free], home, i, i + 1, end);
      } else {
        ShiftTrades(slots, home, z, i + 1, end);
      }
    }
  }

  /** Whatever else is wrong with a table, an erasure keeps its size and window exact. */
  lemma EraseExact(t: Table, home: int -> nat, e: nat)
    requires Exact(t) && e < |t.slots| && t.slots[e].Used?
    ensures t.size > 0
    ensures var u := Erase(t, home, e); var z := Shift(t.slots[e := Free], home, e, e + 1, t.end).1;
      && |u.slots| == |t.slots| && u.size == t.size - 1 && Exact(u)
      && t.begin <= e <= z < t.end
      && (forall q :: 0 <= q < |t.slots| ==> (u.slots[q].Used? <==> q != z && t.slots[q].Used?))
  {
    var start := t.slots[e := Free];
    CountUpdate(t.slots, e, Free);
    ShiftTrades(start, home, e, e + 1, t.end);
    var shifted := Shift(start, home, e, e + 1, t.end);
    assert Narrow(t.(slots := shifted.0, size := t.size - 1), shifted.1) == Erase(t, home, e);
    NarrowIsExact(t, shifted.0, shifted.1);
  }

  /** Every entry of the used run behind slot `z` has its home behind `z`: a hole at `z` stays there. */
  ghost predicate Settles(t: Table, home: int -> nat, z: nat)
    requires t.end <= |t.slots|
  {
    forall p :: z < p < t.end && UsedRun(t.slots, z + 1, p + 1) ==> z < home(t.slots[p].key)
  }

  /** The first slot from `z` on at which a hole stays; it is read off the table before the erasure. */
  ghost function FinalHole(t: Table, home: int -> nat, z: nat): (r: nat)
    requires t.end <= |t.slots|
    ensures z <= r && (r < t.end ==> Settles(t, home, r))
    ensures forall y :: z <= y < r ==> !Settles(t, home, y)
    decreases t.end - z
  {
    if z >= t.end || Settles(t, home, z) then z else FinalHole(t, home, z + 1)
  }

  /** A hole moves to the final hole. */
  lemma {:induction false} ShiftSettles(t: Table, home: int -> nat, slots: seq<Entry>, z: nat, i: nat)
    requires t.end <= |t.slots| == |slots| && z < i <= t.end
    requires slots[z].Free? && forall p :: z < p < |slots| ==> slots[p] == t.slots[p]
    requires forall p :: z < p < i ==> t.slots[p].Used? && z < home(t.slots[p].key)
    ensures Shift(slots, home, z, i, t.end).1 == FinalHole(t, home, z)
    decreases t.end - i
  {
    if i < t.end && slots[i].Used? {
      if home(slots[i].key) <= z {
        NothingSettles(t, home, z, i);
        ShiftSettles(t, home, slots[z := slots[i]][i := Free], i, i + 1);
      } else {
        ShiftSettles(t, home, slots, z, i + 1);
      }
    } else {
      assert i < t.end ==> t.slots[i].Free?;
      assert Settles(t, home, z);
    }
  }

  /** An entry that may sit at `z` keeps every slot up to it from being the final hole. */
  lemma {:induction false} NothingSettles(t: Table, home: int -> nat, z: nat, i: nat)
    requires z < i < t.end <= |t.slots| && UsedRun(t.slots, z + 1, i + 1) && home(t.slots[i].key) <= z
    ensures FinalHole(t, home, z) == FinalHole(t, home, i)
    decreases i - z
  {
    assert !Settles(t, home, z);
    if z + 1 < i {
      assert UsedRun(t.slots, z + 2, i + 1);
      NothingSettles(t, home, z + 1, i);
    }
  }

  lemma StartsClosing(t: Table, home: int -> nat, e: nat)
    requires Exact(t) && Unique(t.slots) && Near(t.slots, home) && e < |t.slots| && t.slots[e].Used?
    ensures t.begin <= e < t.end && Closing(t.slots[e := Free], home, e, e + 1, t.end)
  {
    var start := t.slots[e := Free];
    forall p, q | 0 <= p < |start| && start[p].Used? && home(start[p].key) <= q < p
      ensures start[q].Used? || (q == e && e + 1 <= p)
    {
      assert start[p] == t.slots[p] && UsedRun(t.slots, home(t.slots[p].key), p);
    }
  }

  /** The facts about an erasure that hold in every table without gaps before unwrapped entries. */
  lemma EraseShape(t: Table, home: int -> nat, e: nat)
    requires Exact(t) && Unique(t.slots) && Near(t.slots, home) && e < |t.slots| && t.slots[e].Used?
    ensures t.size > 0
    ensures var u := Erase(t, home, e); var z := FinalHole(t, home, e);
      && |u.slots| == |t.slots| && u.size == t.size - 1
      && Unique(u.slots) && Exact(u) && Near(u.slots, home)
      && t.begin <= e <= z < t.end
      && (forall q :: 0 <= q < |t.slots| ==> (u.slots[q].Used? <==> q != z && t.slots[q].Used?))
  {
    EraseExact(t, home, e);
    StartsClosing(t, home, e);
    ShiftCloses(t.slots[e := Free], home, e, e + 1, t.end);
    ShiftSettles(t, home, t.slots[e := Free], e, e + 1);
  }

  /** The window can be narrowed by scanning: unless nothing is left, a used slot stops the scan. */
  ghost predicate Anchored(t: Table, z: nat) {
    t.size > 0 ==>
      && t.begin < t.end <= |t.slots| && !(t.begin == z == t.end - 1)
      && (t.begin != z ==> t.slots[t.begin].Used?)
      && (t.end - 1 != z ==> t.slots[t.end - 1].Used?)
      && t.begin <= z < t.end
  }

  /** Hence the backward scan of an erasure never runs past the first slot. */
  lemma EraseAnchored(t: Table, home: int -> nat, e: nat)
    requires Exact(t) && e < |t.slots| && t.slots[e].Used?
    ensures t.size > 0
    ensures var r := Shift(t.slots[e := Free], home, e, e + 1, t.end);
      Anchored(t.(slots := r.0, size := t.size - 1), r.1)
  {
    EraseExact(t, home, e);
    var u := Erase(t, home, e);
    assert u.size > 0 ==> u.slots[u.begin].Used?;
  }

  lemma EraseLeavesWrapped(t: Table, home: int -> nat, e: nat, q: nat)
    requires Exact(t) && e < |t.slots| && t.slots[e].Used? && q < |t.slots|
    ensures t.size > 0
    ensures var u := Erase(t, home, e);
      && |u.slots| == |t.slots|
      && (Wrapped(u.slots, home, q) <==> q != e && Wrapped(t.slots, home, q))
      && (Wrapped(u.slots, home, q) ==> u.slots[q] == t.slots[q])
  {
    EraseExact(t, home, e);
    ShiftLeavesWrapped(t.slots[e := Free], home, e, e + 1, t.end, q);
  }

  /** The final hole lies strictly inside the window and on the way of a wrapped entry. */
  predicate Cuts(t: Table, home: int -> nat, z: nat, p: nat)
    requires p < |t.slots|
  {
    Wrapped(t.slots, home, p) && (home(t.slots[p].key) <= z < t.end - 1 || t.begin < z < p)
  }

  /**
   * After erasing slot `e`, the other entries are all still found if and only if the final hole does
   * not cut the way of a wrapped entry.
   */
  lemma EraseExactly(t: Table, home: int -> nat, e: nat)
    requires Sound(t, home) && e < |t.slots| && t.slots[e].Used?
    ensures t.size > 0 && Erase(t, home, e).end <= |Erase(t, home, e).slots| == |t.slots|
    ensures AllFound(Erase(t, home, e), home) <==>
            forall p :: 0 <= p < |t.slots| && p != e ==> !Cuts(t, home, FinalHole(t, home, e), p)
  {
    EraseCutsExactly(t, home, e);
    EraseShape(t, home, e);
    AllFoundExactly(Erase(t, home, e), home);
  }

  lemma EraseCutsExactly(t: Table, home: int -> nat, e: nat)
    requires Sound(t, home) && e < |t.slots| && t.slots[e].Used?
    ensures t.size > 0
    ensures var u := Erase(t, home, e);
      && u.end <= |u.slots| == |t.slots|
      && (Far(u.slots, home, u.begin, u.end) <==>
          forall p :: 0 <= p < |t.slots| && p != e ==> !Cuts(t, home, FinalHole(t, home, e), p))
  {
    hide FinalHole, Erase, UsedRun;
    EraseExact(t, home, e);
    var u, z := Erase(t, home, e), FinalHole(t, home, e);
    if p :| 0 <= p < |t.slots| && p != e && Cuts(t, home, z, p) {
      EraseLeavesWrapped(t, home, e, p);
      CutExactly(t, home, e, p);
      assert !Far(u.slots, home, u.begin, u.end);
    } else {
      forall p | 0 <= p < |u.slots| && Wrapped(u.slots, home, p)
        ensures UsedRun(u.slots, home(u.slots[p].key), u.end) && UsedRun(u.slots, u.begin, p)
      {
        EraseLeavesWrapped(t, home, e, p);
        assert !Cuts(t, home, z, p);
        CutExactly(t, home, e, p);
      }
      assert Far(u.slots, home, u.begin, u.end);
    }
  }

  /** Entry by entry: it is still found if and only if the final hole does not cut its way. */
  lemma FoundAfterExactly(t: Table, home: int -> nat, e: nat, p: nat)
    requires Sound(t, home) && e < |t.slots| && t.slots[e].Used?
    requires p < |t.slots| && t.slots[p].Used? && p != e
    ensures t.size > 0
    ensures var u := Erase(t, home, e);
      && u.end <= |u.slots| == |t.slots|
      && Lookup(u, home, t.slots[p].key) ==
           if Cuts(t, home, FinalHole(t, home, e), p) then None else Some(t.slots[p].value)
  {
    EraseShape(t, home, e);
    var u, key, value := Erase(t, home, e), t.slots[p].key, t.slots[p].value;
    assert Has(u.slots, key, value) by {
      assert t.slots[p] == Used(key, value);
      EraseKeepsOthers(t, home, e, key, value);
    }
    var q :| 0 <= q < |u.slots| && u.slots[q] == Used(key, value);
    EraseLeavesWrapped(t, home, e, q);
    EraseLeavesWrapped(t, home, e, p);
    if Wrapped(t.slots, home, p) {
      assert q == p;
      CutExactly(t, home, e, p);
    }
    FoundExactly(u, home, q);
    OnlyOneFound(u, home, q);
  }

  /** A lookup finds the entry of the key or none. */
  lemma OnlyOneFound(u: Table, home: int -> nat, q: nat)
    requires Fits(home, |u.slots|) && Unique(u.slots) && Exact(u) && q < |u.slots| && u.slots[q].Used?
    ensures Lookup(u, home, u.slots[q].key) ==
            if Find(u, home, u.slots[q].key) == Some(q) then Some(u.slots[q].value) else None
  {
    FindHits(u, home, u.slots[q].key);
  }

  lemma CutExactly(t: Table, home: int -> nat, e: nat, p: nat)
    requires Sound(t, home) && e < |t.slots| && t.slots[e].Used? && p < |t.slots| && p != e
    requires Wrapped(t.slots, home, p)
    ensures t.size > 0
    ensures var u := Erase(t, home, e);
      && u.end <= |u.slots| == |t.slots| && u.slots[p] == t.slots[p]
      && ((UsedRun(u.slots, home(u.slots[p].key), u.end) && UsedRun(u.slots, u.begin, p))
          <==> !Cuts(t, home, FinalHole(t, home, e), p))
  {
    EraseShape(t, home, e);
    var u, z, h := Erase(t, home, e), FinalHole(t, home, e), home(t.slots[p].key);
    EraseLeavesWrapped(t, home, e, p);
    assert UsedRun(t.slots, h, |t.slots|) && UsedRun(t.slots, 0, p);
    assert t.slots[|t.slots| - 1].Used?;
    assert t.begin == 0 && t.end == |t.slots|;
    assert u.size > 0 by { CountZero(u.slots); }
    RunWithHole(t.slots, u.slots, z, h, u.end);
    RunWithHole(t.slots, u.slots, z, u.begin, p);
  }

  /** Which entries are left: all but the erased one. */
  lemma EraseKeepsOthers(t: Table, home: int -> nat, e: nat, k: int, v: nat)
    requires Exact(t) && Unique(t.slots) && e < |t.slots| && t.slots[e].Used?
    ensures t.size > 0
    ensures Has(Erase(t, home, e).slots, k, v) <==> k != t.slots[e].key && Has(t.slots, k, v)
  {
    EraseExact(t, home, e);
    var start := t.slots[e := Free];
    ShiftKeepsEntries(start, home, e, e + 1, t.end, k, v);
    assert forall p :: 0 <= p < |t.slots| && p != e ==> start[p] == t.slots[p];
  }

  /** No wrapped entry has the final hole anywhere on its way. */
  ghost predicate SafeErase(t: Table, home: int -> nat, e: nat)
    requires e < |t.slots| && t.end <= |t.slots|
  {
    forall p :: 0 <= p < |t.slots| && p != e && Wrapped(t.slots, home, p) ==>
      p <= FinalHole(t, home, e) < home(t.slots[p].key)
  }

  /** Erasing keeps the invariant exactly when it is safe, as it is where nothing has wrapped. */
  lemma EraseKeepsSound(t: Table, home: int -> nat, e: nat)
    requires Sound(t, home) && e < |t.slots| && t.slots[e].Used?
    ensures t.size > 0
    ensures Sound(Erase(t, home, e), home) <==> SafeErase(t, home, e)
    ensures NoWrap(t.slots, home) ==> SafeErase(t, home, e) && NoWrap(Erase(t, home, e).slots, home)
  {
    EraseShape(t, home, e);
    var u := Erase(t, home, e);
    assert Far(u.slots, home, 0, |u.slots|) <==> SafeErase(t, home, e) by {
      EraseKeepsFar(t, home, e);
    }
    if NoWrap(t.slots, home) {
      forall p | 0 <= p < |t.slots|
        ensures !Wrapped(u.slots, home, p)
      {
        EraseLeavesWrapped(t, home, e, p);
      }
    }
  }

  lemma EraseKeepsFar(t: Table, home: int -> nat, e: nat)
    requires Sound(t, home) && e < |t.slots| && t.slots[e].Used?
    ensures t.size > 0
    ensures var u := Erase(t, home, e);
      |u.slots| == |t.slots| && (Far(u.slots, home, 0, |u.slots|) <==> SafeErase(t, home, e))
  {
    hide Count, Narrow, Near, Erase;
    EraseShape(t, home, e);
    var u, z := Erase(t, home, e), FinalHole(t, home, e);
    forall p | 0 <= p < |t.slots|
      ensures Wrapped(u.slots, home, p) <==> p != e && Wrapped(t.slots, home, p)
      ensures Wrapped(u.slots, home, p) ==>
                (UsedRun(u.slots, home(u.slots[p].key), |u.slots|) && UsedRun(u.slots, 0, p)
                 <==> p <= z < home(t.slots[p].key))
    {
      EraseLeavesWrapped(t, home, e, p);
      if p != e && Wrapped(t.slots, home, p) {
        RunWithHole(t.slots, u.slots, z, home(t.slots[p].key), |t.slots|);
        RunWithHole(t.slots, u.slots, z, 0, p);
      }
    }
  }

  /**
   * What an unsafe erasure spoils: it is one after which setting some key that is still in the table
   * does not update its entry.
   */
  lemma SafeIsSetInPlace(t: Table, home: int -> nat, e: nat)
    requires Sound(t, home) && e < |t.slots| && t.slots[e].Used?
    ensures t.size > 0
    ensures var u := Erase(t, home, e);
      && |u.slots| == |t.slots|
      && (SafeErase(t, home, e) <==>
          forall p :: 0 <= p < |u.slots| && u.slots[p].Used? ==>
            Place(u.slots, u.slots[p].key, home(u.slots[p].key)) == Some(p))
  {
    EraseKeepsFar(t, home, e);
    assert Unique(Erase(t, home, e).slots) && Near(Erase(t, home, e).slots, home) by {
      EraseShape(t, home, e);
    }
    AllPlacedExactly(Erase(t, home, e).slots, home);
  }

  lemma AllPlacedExactly(slots: seq<Entry>, home: int -> nat)
    requires Fits(home, |slots|) && Unique(slots) && Near(slots, home)
    ensures Far(slots, home, 0, |slots|) <==>
            forall p :: 0 <= p < |slots| && slots[p].Used? ==> Place(slots, slots[p].key, home(slots[p].key)) == Some(p)
  {
    forall p | 0 <= p < |slots| && slots[p].Used?
      ensures Place(slots, slots[p].key, home(slots[p].key)) == Some(p) <==>
              (Wrapped(slots, home, p) ==> UsedRun(slots, home(slots[p].key), |slots|) && UsedRun(slots, 0, p))
    {
      PlacedExactly(slots, home, p);
    }
  }

  lemma PlacedExactly(slots: seq<Entry>, home: int -> nat, p: nat)
    requires Fits(home, |slots|) && Unique(slots) && Near(slots, home) && p < |slots| && slots[p].Used?
    ensures Place(slots, slots[p].key, home(slots[p].key)) == Some(p) <==>
            (Wrapped(slots, home, p) ==> UsedRun(slots, home(slots[p].key), |slots|) && UsedRun(slots, 0, p))
  {
    var key := slots[p].key;
    FirstOpenExact(slots, key, home(key), |slots|);
    FirstOpenExact(slots, key, 0, home(key));
  }

  lemma RunWithHole(slots: seq<Entry>, after: seq<Entry>, z: nat, a: nat, b: nat)
    requires |slots| == |after| && b <= |slots| && z < |slots| && UsedRun(slots, a, b)
    requires forall q :: 0 <= q < |slots| ==> (after[q].Used? <==> q != z && slots[q].Used?)
    ensures UsedRun(after, a, b) <==> !(a <= z < b)
  {
    assert !after[z].Used?;
  }

  /** Where it is safe, erasing is removing the key from the map that the table stands for. */
  lemma EraseIsRemoval(t: Table, home: int -> nat, e: nat, k: int)
    requires Sound(t, home) && e < |t.slots| && t.slots[e].Used? && SafeErase(t, home, e)
    ensures t.size > 0
    ensures var u := Erase(t, home, e);
      && Sound(u, home) && |u.slots| == |t.slots|
      && Lookup(u, home, k) == if k == t.slots[e].key then None else Lookup(t, home, k)
  {
    EraseShape(t, home, e);
    EraseKeepsSound(t, home, e);
    var u := Erase(t, home, e);
    forall v
      ensures Has(u.slots, k, v) <==> k != t.slots[e].key && Has(t.slots, k, v)
    {
      EraseKeepsOthers(t, home, e, k, v);
    }
    if k != t.slots[e].key {
      SameLookup(t, u, home, k);
    } else if Lookup(u, home, k).Some? {
      LookupExact(u, home, k, Lookup(u, home, k).value);
    }
  }

  // ---------------------------------------------------------------- sizes and lookups

  lemma SetSize(t: Table, home: int -> nat, key: int, value: nat)
    requires Sound(t, home) && Set(t, home, key, value).Some?
    ensures Set(t, home, key, value).value.size == t.size + if Lookup(t, home, key).Some? then 0 else 1
  {
    var i := Place(t.slots, key, home(key)).value;
    PlaceIsRight(t, home, key);
    FirstOpenExact(t.slots, key, home(key), |t.slots|);
    FirstOpenExact(t.slots, key, 0, home(key));
    if t.slots[i].Used? {
      assert t.slots[i] == Used(key, t.slots[i].value);
      LookupExact(t, home, key, t.slots[i].value);
    } else if Lookup(t, home, key).Some? {
      LookupExact(t, home, key, Lookup(t, home, key).value);
    }
  }

  /** What is found holds the key. */
  lemma FindHits(t: Table, home: int -> nat, key: int)
    requires t.begin <= t.end <= |t.slots| && home(key) < |t.slots|
    ensures var r := Find(t, home, key);
      && (r.Some? ==> r.value < |t.slots| && t.slots[r.value].Used? && t.slots[r.value].key == key)
      && (r.None? <==> Lookup(t, home, key).None?)
  {
    ScanExact(t.slots, key, home(key), t.end);
    ScanExact(t.slots, key, t.begin, home(key));
  }

  function EmptyTable(capacity: nat): Table {
    Table(seq(capacity, _ => Free), 0, 0, 0)
  }

  lemma EmptyIsSound(capacity: nat, home: int -> nat)
    requires Fits(home, capacity)
    ensures Sound(EmptyTable(capacity), home)
  {
    CountZero(EmptyTable(capacity).slots);
  }
}
