/**
 * The hash map with growth: a table that is half full is extended to twice its capacity, and its
 * entries are taken out and set again one after the other, in place.
 */
module HashGrowth {
  import opened Bytes
  import opened HashSpec

  /** The home slots in a table of `n` slots: the code masks the hash with `n - 1`, where `n` is a power of two. */
  function HomeIn(hash: int -> nat, n: nat): (home: int -> nat)
    requires 0 < n
    ensures Fits(home, n) && forall k :: home(k) == Slot(hash(k), n)
  {
    var home := (k: int) => Slot(hash(k), n);
    assert forall k :: home(k) == Slot(hash(k), n);
    home
  }

  lemma HomeIs(hash: int -> nat, n: nat, k: int)
    requires 0 < n
    ensures HomeIn(hash, n)(k) == hash(k) % n < n
  {
    SlotIsMod(hash(k), n);
    assert HomeIn(hash, n)(k) == Slot(hash(k), n);
  }

  /** A key whose home does not move to the upper half keeps its home when the capacity doubles. */
  lemma {:induction false} SlotHalf(p: nat, n: nat)
    requires 0 < n
    ensures Slot(p, 2 * n) < n ==> Slot(p, n) == Slot(p, 2 * n)
    decreases p
  {
    if p >= 2 * n {
      SlotHalf(p - 2 * n, n);
      assert Slot(p, n) == Slot(p - n, n) == Slot(p - n - n, n);
    } else if p >= n {
      assert Slot(p, 2 * n) == p;
    }
  }

  // ---------------------------------------------------------------- capacities

  predicate Pow2(n: nat) {
    n == 1 || (n > 1 && n % 2 == 0 && Pow2(n / 2))
  }

  /** The least power of two that is not below `n`. */
  function NextPow2(n: nat): (r: nat)
    requires 0 < n
    ensures Pow2(r) && n <= r < 2 * n
    decreases n
  {
    if n == 1 then 1 else
      var half := NextPow2((n + 1) / 2);
      assert 2 * half / 2 == half;
      2 * half
  }

  lemma {:induction false} NextPow2Fixed(n: nat)
    requires Pow2(n)
    ensures NextPow2(n) == n
    decreases n
  {
    if n > 1 {
      assert (n + 1) / 2 == n / 2;
      NextPow2Fixed(n / 2);
    }
  }

  lemma Pow2Doubles(n: nat)
    requires Pow2(n)
    ensures Pow2(2 * n) && NextPow2(2 * n) == 2 * n
  {
    assert 2 * n / 2 == n;
    NextPow2Fixed(2 * n);
  }

  /** What every operation keeps, whatever erasures have cut off. */
  ghost predicate Regular(t: Table) {
    Exact(t) && (|t.slots| > 0 ==> Pow2(|t.slots|))
  }

  type RegularTable = t: Table | Regular(t) witness EmptyTable(0)

  // ---------------------------------------------------------------- growing

  /** The slots and then free ones. */
  function Padded(slots: seq<Entry>, n: nat): (r: seq<Entry>)
    requires |slots| <= n
    ensures |r| == n && r[..|slots|] == slots && forall p :: |slots| <= p < n ==> r[p] == Free
  {
    slots + seq(n - |slots|, _ => Free)
  }

  function Extended(t: Table): Table {
    t.(slots := Padded(t.slots, 2 * |t.slots|))
  }

  /**
   * What holds while slots `0..n` of `2 * n` are visited and `i` is next: an entry that sits before its
   * home outside the slots still to be visited has no gap on its way.
   */
  ghost predicate Rehashing(t: Table, home: int -> nat, i: nat, n: nat) {
    && i <= n && |t.slots| == 2 * n && Fits(home, 2 * n)
    && Unique(t.slots) && Exact(t) && Near(t.slots, home) && t.size <= n
    && (forall p :: 0 <= p < 2 * n && !(i <= p < n) && Wrapped(t.slots, home, p) ==> PathUsed(t.slots, home, p))
  }

  ghost predicate PathUsed(slots: seq<Entry>, home: int -> nat, p: nat)
    requires p < |slots| && slots[p].Used?
  {
    UsedRun(slots, home(slots[p].key), |slots|) && UsedRun(slots, 0, p)
  }

  /** Taking the entry of slot `i` out and setting it again. */
  function Reset(t: Table, home: int -> nat, i: nat): Table
    requires Exact(t) && Fits(home, |t.slots|) && i < |t.slots| && t.slots[i].Used?
  {
    ResetIsExact(t, home, i);
    Set(Erase(t, home, i), home, t.slots[i].key, t.slots[i].value).value
  }

  lemma ResetIsExact(t: Table, home: int -> nat, i: nat)
    requires Exact(t) && Fits(home, |t.slots|) && i < |t.slots| && t.slots[i].Used?
    ensures t.size > 0
    ensures var u := Erase(t, home, i);
      && |u.slots| == |t.slots| && Exact(u)
      && var w := Set(u, home, t.slots[i].key, t.slots[i].value);
         w.Some? && Exact(w.value) && |w.value.slots| == |t.slots| && w.value.size <= t.size
  {
    EraseExact(t, home, i);
    CountZero(t.slots);
    HasRoom(Erase(t, home, i), home, t.slots[i].key, t.slots[i].value);
    SetIsExact(Erase(t, home, i), home, t.slots[i].key, t.slots[i].value);
  }

  /** All slots from `i` on. */
  function Rehash(t: Table, home: int -> nat, i: nat, n: nat): (u: Table)
    requires Exact(t) && Fits(home, |t.slots|) && i <= n <= |t.slots|
    ensures Exact(u) && |u.slots| == |t.slots| && u.size <= t.size
    decreases n - i
  {
    if i == n then t
    else if t.slots[i].Free? then Rehash(t, home, i + 1, n)
    else
      ResetIsExact(t, home, i);
      Rehash(Reset(t, home, i), home, i + 1, n)
  }

  lemma {:induction false} RehashKeeps(t: Table, home: int -> nat, i: nat, n: nat)
    requires Rehashing(t, home, i, n)
    ensures Rehashing(Rehash(t, home, i, n), home, n, n) && Rehash(t, home, i, n).size == t.size
    decreases n - i
  {
    if i < n {
      if t.slots[i].Free? {
        RehashKeeps(t, home, i + 1, n);
      } else {
        var w := Reset(t, home, i);
        assert Rehashing(w, home, i + 1, n) && w.size == t.size by {
          ResetKeeps(t, home, i, n);
        }
        RehashKeeps(w, home, i + 1, n);
        assert Rehash(t, home, i, n) == Rehash(w, home, i + 1, n);
      }
    }
  }

  /** Rehashing puts nothing else into the table. */
  lemma {:induction false} RehashAddsNothing(t: Table, home: int -> nat, i: nat, n: nat, k: int, v: nat)
    requires Exact(t) && Fits(home, |t.slots|) && i <= n <= |t.slots|
    requires Has(Rehash(t, home, i, n).slots, k, v)
    ensures Has(t.slots, k, v)
    decreases n - i
  {
    if i < n {
      if t.slots[i].Free? {
        RehashAddsNothing(t, home, i + 1, n, k, v);
      } else {
        ResetIsExact(t, home, i);
        RehashAddsNothing(Reset(t, home, i), home, i + 1, n, k, v);
        ResetAddsNothing(t, home, i, k, v);
      }
    }
  }

  lemma ResetAddsNothing(t: Table, home: int -> nat, i: nat, k: int, v: nat)
    requires Exact(t) && Fits(home, |t.slots|) && i < |t.slots| && t.slots[i].Used?
    requires Has(Reset(t, home, i).slots, k, v)
    ensures Has(t.slots, k, v)
  {
    ResetIsExact(t, home, i);
    SetAddsNothing(Erase(t, home, i), home, t.slots[i].key, t.slots[i].value, k, v);
    if Has(Erase(t, home, i).slots, k, v) {
      EraseAddsNothing(t, home, i, k, v);
    } else {
      assert t.slots[i] == Used(k, v);
    }
  }

  lemma EraseAddsNothing(t: Table, home: int -> nat, e: nat, k: int, v: nat)
    requires Exact(t) && e < |t.slots| && t.slots[e].Used? && t.size > 0 && Has(Erase(t, home, e).slots, k, v)
    ensures Has(t.slots, k, v)
  {
    var start := t.slots[e := Free];
    ShiftKeepsEntries(start, home, e, e + 1, t.end, k, v);
    var p :| 0 <= p < |start| && start[p] == Used(k, v);
    assert t.slots[p] == Used(k, v);
  }

  /** A run of used slots counts. */
  lemma {:induction false} CountRun(slots: seq<Entry>, a: nat, b: nat)
    requires a <= b <= |slots| && UsedRun(slots, a, b)
    ensures Count(slots) >= b - a
    decreases |slots|
  {
    if slots != [] {
      var rest := slots[1..];
      assert forall q :: 0 <= q < |rest| ==> rest[q] == slots[q + 1];
      if b > 0 {
        CountRun(rest, if a > 0 then a - 1 else 0, b - 1);
      }
    }
  }

  lemma ResetHasRoom(t: Table, home: int -> nat, i: nat, n: nat)
    requires Rehashing(t, home, i, n) && i < n && t.slots[i].Used?
    ensures t.size > 0
    ensures var u := Erase(t, home, i);
      && |u.slots| == 2 * n && u.size == t.size - 1 && Exact(u) && Unique(u.slots) && Near(u.slots, home)
      && Set(u, home, t.slots[i].key, t.slots[i].value).Some?
  {
    EraseShape(t, home, i);
    ResetIsExact(t, home, i);
  }

  /** All slots from the erased one to the final hole are used. */
  lemma RunToHole(t: Table, home: int -> nat, e: nat)
    requires t.end <= |t.slots| && e < t.end && t.slots[e].Used? && FinalHole(t, home, e) < t.end
    ensures UsedRun(t.slots, e, FinalHole(t, home, e) + 1)
  {
    forall q | e < q <= FinalHole(t, home, e)
      ensures t.slots[q].Used?
    {
      NextToUnsettled(t, home, q - 1);
    }
  }

  lemma NextToUnsettled(t: Table, home: int -> nat, y: nat)
    requires t.end <= |t.slots| && !Settles(t, home, y)
    ensures y + 1 < t.end && t.slots[y + 1].Used?
  {
  }

  /** Taking an entry out cuts no way outside the slots still to be visited: there are too few entries for that. */
  lemma ErasedKeepsPath(t: Table, home: int -> nat, i: nat, n: nat, p: nat)
    requires Rehashing(t, home, i, n) && i < n && t.slots[i].Used? && p < 2 * n && !(i <= p < n)
    requires Wrapped(t.slots, home, p)
    ensures t.size > 0 && |Erase(t, home, i).slots| == 2 * n
    ensures Erase(t, home, i).slots[p] == t.slots[p] && PathUsed(Erase(t, home, i).slots, home, p)
  {
    EraseShape(t, home, i);
    EraseLeavesWrapped(t, home, i, p);
    var u, z, h := Erase(t, home, i), FinalHole(t, home, i), home(t.slots[p].key);
    HoleBeforeHome(t, home, i, n, p);
    RunWithHole(t.slots, u.slots, z, h, 2 * n);
    RunWithHole(t.slots, u.slots, z, 0, p);
  }

  lemma HoleBeforeHome(t: Table, home: int -> nat, i: nat, n: nat, p: nat)
    requires Rehashing(t, home, i, n) && i < n && t.slots[i].Used? && p < 2 * n && !(i <= p < n)
    requires Wrapped(t.slots, home, p)
    ensures PathUsed(t.slots, home, p)
    ensures p < i <= FinalHole(t, home, i) < home(t.slots[p].key)
  {
    assert PathUsed(t.slots, home, p);
    if p >= n {
      RunIsShort(t, home, i, n, 0, p + 1);
    }
    HoleBeforeRun(t, home, i, n, home(t.slots[p].key));
  }

  /** The hole does not come to lie in a used run that goes up to the last slot. */
  lemma HoleBeforeRun(t: Table, home: int -> nat, i: nat, n: nat, h: nat)
    requires Rehashing(t, home, i, n) && i < n && t.slots[i].Used? && h <= 2 * n && UsedRun(t.slots, h, 2 * n)
    ensures i <= FinalHole(t, home, i) < h
  {
    var z := FinalHole(t, home, i);
    assert i <= z < t.end && i < t.end by {
      EraseShape(t, home, i);
    }
    if h <= z {
      RunToHole(t, home, i);
      RunIsShort(t, home, i, n, i, 2 * n);
    }
  }

  lemma RunIsShort(t: Table, home: int -> nat, i: nat, n: nat, a: nat, b: nat)
    requires Rehashing(t, home, i, n) && a <= b <= 2 * n && UsedRun(t.slots, a, b)
    ensures b - a <= n
  {
    CountRun(t.slots, a, b);
  }

  lemma ErasedIsGone(t: Table, home: int -> nat, e: nat)
    requires Exact(t) && Unique(t.slots) && e < |t.slots| && t.slots[e].Used?
    ensures t.size > 0
    ensures var u := Erase(t, home, e);
      forall p :: 0 <= p < |u.slots| && u.slots[p].Used? ==> u.slots[p].key != t.slots[e].key
  {
    EraseExact(t, home, e);
    var u := Erase(t, home, e);
    forall p | 0 <= p < |u.slots| && u.slots[p].Used?
      ensures u.slots[p].key != t.slots[e].key
    {
      EraseKeepsOthers(t, home, e, u.slots[p].key, u.slots[p].value);
      assert Has(u.slots, u.slots[p].key, u.slots[p].value);
    }
  }

  /** Setting a key that a table without near gaps does not hold. */
  lemma SetFresh(u: Table, home: int -> nat, key: int, value: nat)
    requires Exact(u) && Unique(u.slots) && Near(u.slots, home) && Fits(home, |u.slots|)
    requires forall p :: 0 <= p < |u.slots| && u.slots[p].Used? ==> u.slots[p].key != key
    requires Set(u, home, key, value).Some?
    ensures var w := Set(u, home, key, value).value; var j := Place(u.slots, key, home(key)).value;
      && w.slots == u.slots[j := Used(key, value)] && u.slots[j].Free? && w.size == u.size + 1
      && Exact(w) && Unique(w.slots) && Near(w.slots, home)
      && (j < home(key) ==> UsedRun(u.slots, home(key), |u.slots|) && UsedRun(u.slots, 0, j))
  {
    var j, x := Place(u.slots, key, home(key)).value, Used(key, value);
    FirstOpenExact(u.slots, key, home(key), |u.slots|);
    FirstOpenExact(u.slots, key, 0, home(key));
    WidenIsExact(u, j, x);
    FillKeepsNear(u.slots, home, j, x);
  }

  lemma ResetKeeps(t: Table, home: int -> nat, i: nat, n: nat)
    requires Rehashing(t, home, i, n) && i < n && t.slots[i].Used?
    ensures Rehashing(Reset(t, home, i), home, i + 1, n) && Reset(t, home, i).size == t.size
  {
    hide Erase, Near, Unique, Place, Widen, Count, Closing;
    ResetHasRoom(t, home, i, n);
    ErasedIsGone(t, home, i);
    var u, key, value := Erase(t, home, i), t.slots[i].key, t.slots[i].value;
    SetFresh(u, home, key, value);
    var w, j := Reset(t, home, i), Place(u.slots, key, home(key)).value;
    forall p | 0 <= p < 2 * n && !(i + 1 <= p < n) && Wrapped(w.slots, home, p)
      ensures PathUsed(w.slots, home, p)
    {
      if p != j {
        assert Wrapped(u.slots, home, p);
        EraseLeavesWrapped(t, home, i, p);
        ErasedKeepsPath(t, home, i, n, p);
        assert w.slots[p] == u.slots[p];
      }
    }
  }

  lemma {:induction false} CountFree(slots: seq<Entry>, k: nat)
    ensures Count(slots + seq(k, _ => Free)) == Count(slots)
  {
    var more := slots + seq(k, _ => Free);
    if slots == [] {
      CountZero(more);
    } else {
      CountFree(slots[1..], k);
      assert more[1..] == slots[1..] + seq(k, _ => Free);
    }
  }

  /** A sound table can be rehashed in place after it was extended. */
  lemma ExtendedStarts(t: Table, hash: int -> nat)
    requires |t.slots| > 0 && Sound(t, HomeIn(hash, |t.slots|))
    ensures Rehashing(Extended(t), HomeIn(hash, 2 * |t.slots|), 0, |t.slots|)
  {
    var n, e := |t.slots|, Extended(t);
    var old', new' := HomeIn(hash, n), HomeIn(hash, 2 * n);
    CountFree(t.slots, n);
    CountZero(t.slots);
    forall p | 0 <= p < |e.slots| && e.slots[p].Used?
      ensures UsedRun(e.slots, new'(e.slots[p].key), p)
    {
      var key := t.slots[p].key;
      SlotHalf(hash(key), n);
      assert UsedRun(t.slots, old'(key), p);
    }
  }

  /** Once all slots have been visited, the table is sound at its new capacity. */
  lemma RehashedIsSound(t: Table, home: int -> nat, n: nat)
    requires Rehashing(t, home, n, n)
    ensures Sound(t, home)
  {
    forall p | 0 <= p < |t.slots| && Wrapped(t.slots, home, p)
      ensures UsedRun(t.slots, home(t.slots[p].key), |t.slots|) && UsedRun(t.slots, 0, p)
    {
      assert PathUsed(t.slots, home, p);
    }
  }

  lemma ResetKeepsEntries(t: Table, home: int -> nat, i: nat, n: nat, k: int, v: nat)
    requires Rehashing(t, home, i, n) && i < n && t.slots[i].Used?
    ensures Has(Reset(t, home, i).slots, k, v) <==> Has(t.slots, k, v)
  {
    ResetHasRoom(t, home, i, n);
    ErasedIsGone(t, home, i);
    var u, x := Erase(t, home, i), t.slots[i];
    SetFresh(u, home, x.key, x.value);
    EraseKeepsOthers(t, home, i, k, v);
    var w, j := Reset(t, home, i), Place(u.slots, x.key, home(x.key)).value;
    assert w.slots[j] == x;
    assert forall p :: 0 <= p < |u.slots| && p != j ==> w.slots[p] == u.slots[p];
    if k == x.key && Has(t.slots, k, v) {
      var p :| 0 <= p < |t.slots| && t.slots[p] == Used(k, v);
      assert p == i;
    }
  }

  lemma {:induction false} RehashKeepsEntries(t: Table, home: int -> nat, i: nat, n: nat, k: int, v: nat)
    requires Rehashing(t, home, i, n)
    ensures Has(Rehash(t, home, i, n).slots, k, v) <==> Has(t.slots, k, v)
    decreases n - i
  {
    if i < n {
      if t.slots[i].Free? {
        RehashKeepsEntries(t, home, i + 1, n, k, v);
      } else {
        ResetKeeps(t, home, i, n);
        ResetKeepsEntries(t, home, i, n, k, v);
        RehashKeepsEntries(Reset(t, home, i), home, i + 1, n, k, v);
      }
    }
  }

  // ---------------------------------------------------------------- the growing map

  /** The invariant of a map that grows; it starts without any slots. */
  ghost predicate GoodTable(t: Table, hash: int -> nat) {
    Regular(t) && (|t.slots| > 0 ==> Sound(t, HomeIn(hash, |t.slots|)))
  }

  /** The table at twice its capacity. */
  function Doubled(t: Table, hash: int -> nat): (u: Table)
    requires Exact(t) && |t.slots| > 0
    ensures Exact(u) && |u.slots| == 2 * |t.slots| && u.size <= t.size
  {
    ExtendedIsExact(t);
    Rehash(Extended(t), HomeIn(hash, 2 * |t.slots|), 0, |t.slots|)
  }

  lemma ExtendedIsExact(t: Table)
    requires Exact(t)
    ensures Exact(Extended(t))
  {
    CountFree(t.slots, |t.slots|);
  }

  function Grown(t: Table, hash: int -> nat): (u: Table)
    requires Regular(t)
    ensures Regular(u) && u.size <= t.size && u.size < |u.slots| == if |t.slots| == 0 then 1 else 2 * |t.slots|
  {
    CountZero(t.slots);
    if |t.slots| == 0 then OneFree(); EmptyTable(1)
    else Pow2Doubles(|t.slots|); Doubled(t, hash)
  }

  lemma OneFree()
    ensures Regular(EmptyTable(1))
  {
    CountZero(EmptyTable(1).slots);
  }

  function Seek(t: Table, hash: int -> nat, key: int): Option<nat>
    requires t.end <= |t.slots|
  {
    if |t.slots| == 0 then None else Find(t, HomeIn(hash, |t.slots|), key)
  }

  function Get(t: Table, hash: int -> nat, key: int): Option<nat>
    requires t.end <= |t.slots|
  {
    if |t.slots| == 0 then None else Lookup(t, HomeIn(hash, |t.slots|), key)
  }

  /** Growing keeps the invariant and every entry, and leaves room. */
  lemma GrownIsGood(t: Table, hash: int -> nat)
    requires GoodTable(t, hash)
    ensures var u := Grown(t, hash);
      GoodTable(u, hash) && u.size == t.size < |u.slots| == if |t.slots| == 0 then 1 else 2 * |t.slots|
  {
    CountZero(t.slots);
    if |t.slots| == 0 {
      EmptyIsSound(1, HomeIn(hash, 1));
    } else {
      var home := HomeIn(hash, 2 * |t.slots|);
      ExtendedStarts(t, hash);
      RehashKeeps(Extended(t), home, 0, |t.slots|);
      RehashedIsSound(Grown(t, hash), home, |t.slots|);
    }
  }

  lemma GrownKeepsEntries(t: Table, hash: int -> nat, k: int, v: nat)
    requires GoodTable(t, hash)
    ensures Has(Grown(t, hash).slots, k, v) <==> Has(t.slots, k, v)
  {
    if |t.slots| > 0 {
      ExtendedStarts(t, hash);
      RehashKeepsEntries(Extended(t), HomeIn(hash, 2 * |t.slots|), 0, |t.slots|, k, v);
      assert forall p :: 0 <= p < |t.slots| ==> Extended(t).slots[p] == t.slots[p];
    }
  }

  lemma GetExact(t: Table, hash: int -> nat, k: int, v: nat)
    requires GoodTable(t, hash)
    ensures Get(t, hash, k) == Some(v) <==> Has(t.slots, k, v)
  {
    if |t.slots| > 0 {
      LookupExact(t, HomeIn(hash, |t.slots|), k, v);
    }
  }

  /** Equal entries, equal lookups. */
  lemma SameGet(t: Table, u: Table, hash: int -> nat, k: int)
    requires GoodTable(t, hash) && GoodTable(u, hash)
    requires forall v :: Has(u.slots, k, v) <==> Has(t.slots, k, v)
    ensures Get(u, hash, k) == Get(t, hash, k)
  {
    var a, b := Get(t, hash, k), Get(u, hash, k);
    if a.Some? {
      GetExact(t, hash, k, a.value);
      GetExact(u, hash, k, a.value);
    } else if b.Some? {
      GetExact(t, hash, k, b.value);
      GetExact(u, hash, k, b.value);
    }
  }

  lemma GrownIsSame(t: Table, hash: int -> nat, k: int)
    requires GoodTable(t, hash)
    ensures GoodTable(Grown(t, hash), hash) && Get(Grown(t, hash), hash, k) == Get(t, hash, k)
  {
    GrownIsGood(t, hash);
    forall v
      ensures Has(Grown(t, hash).slots, k, v) <==> Has(t.slots, k, v)
    {
      GrownKeepsEntries(t, hash, k, v);
    }
    SameGet(t, Grown(t, hash), hash, k);
  }

  /** A table that is half full grows before a key is set. */
  predicate HalfFull(t: Table) {
    t.size >= |t.slots| / 2
  }

  function WithRoom(t: Table, hash: int -> nat): (u: Table)
    requires Regular(t)
    ensures Regular(u) && u.size <= t.size && u.size < |u.slots|
  {
    if HalfFull(t) then Grown(t, hash) else t
  }

  lemma WithRoomIsGood(t: Table, hash: int -> nat)
    requires GoodTable(t, hash)
    ensures GoodTable(WithRoom(t, hash), hash) && WithRoom(t, hash).size == t.size
  {
    GrownIsGood(t, hash);
  }

  /** Setting a key finds room in any table. */
  function Stored(t: Table, hash: int -> nat, key: int, value: nat): (u: Table)
    requires Regular(t)
    ensures Regular(u) && u.size <= t.size + 1
  {
    var w := WithRoom(t, hash);
    RoomLeft(w, hash, key, value);
    Set(w, HomeIn(hash, |w.slots|), key, value).value
  }

  lemma RoomLeft(w: Table, hash: int -> nat, key: int, value: nat)
    requires Regular(w) && w.size < |w.slots|
    ensures var u := Set(w, HomeIn(hash, |w.slots|), key, value);
      u.Some? && Regular(u.value) && w.size <= u.value.size <= w.size + 1
  {
    HasRoom(w, HomeIn(hash, |w.slots|), key, value);
    SetIsExact(w, HomeIn(hash, |w.slots|), key, value);
  }

  /** ... and puts nothing else into the table. */
  lemma StoredAddsNothing(t: Table, hash: int -> nat, key: int, value: nat, k: int, v: nat)
    requires Regular(t) && Has(Stored(t, hash, key, value).slots, k, v)
    ensures (k == key && v == value) || Has(t.slots, k, v)
  {
    var w := WithRoom(t, hash);
    RoomLeft(w, hash, key, value);
    SetAddsNothing(w, HomeIn(hash, |w.slots|), key, value, k, v);
    if Has(w.slots, k, v) && HalfFull(t) && |t.slots| > 0 {
      GrownAddsNothing(t, hash, k, v);
    }
  }

  lemma GrownAddsNothing(t: Table, hash: int -> nat, k: int, v: nat)
    requires Regular(t) && |t.slots| > 0 && Has(Grown(t, hash).slots, k, v)
    ensures Has(t.slots, k, v)
  {
    ExtendedIsExact(t);
    RehashAddsNothing(Extended(t), HomeIn(hash, 2 * |t.slots|), 0, |t.slots|, k, v);
    var p :| 0 <= p < |Extended(t).slots| && Extended(t).slots[p] == Used(k, v);
    assert t.slots[p] == Used(k, v);
  }

  /** Setting a key always succeeds and is setting it in the plain map, growth included. */
  lemma StoredIsUpdate(t: Table, hash: int -> nat, key: int, value: nat, k: int)
    requires GoodTable(t, hash)
    ensures GoodTable(Stored(t, hash, key, value), hash)
    ensures Get(Stored(t, hash, key, value), hash, k) == if k == key then Some(value) else Get(t, hash, k)
  {
    var u := WithRoom(t, hash);
    WithRoomIsGood(t, hash);
    RoomLeft(u, hash, key, value);
    SetIsUpdate(u, HomeIn(hash, |u.slots|), key, value, k);
    SetKeepsSound(u, HomeIn(hash, |u.slots|), key, value);
    GrownIsSame(t, hash, k);
  }

  lemma StoredSize(t: Table, hash: int -> nat, key: int, value: nat)
    requires GoodTable(t, hash)
    ensures Stored(t, hash, key, value).size == t.size + if Get(t, hash, key).Some? then 0 else 1
  {
    var u := WithRoom(t, hash);
    WithRoomIsGood(t, hash);
    RoomLeft(u, hash, key, value);
    SetSize(u, HomeIn(hash, |u.slots|), key, value);
    GrownIsSame(t, hash, key);
  }

  /** Erasing a key, if it is found. */
  function Removed(t: Table, hash: int -> nat, key: int): Table
    requires t.end <= |t.slots|
  {
    var found := Seek(t, hash, key);
    if found.Some? && found.value < |t.slots| && t.size > 0 then Erase(t, HomeIn(hash, |t.slots|), found.value) else t
  }

  /** Erasing the key cuts off no wrapped entry. */
  ghost predicate SafeRemove(t: Table, hash: int -> nat, key: int)
    requires t.end <= |t.slots|
  {
    var found := Seek(t, hash, key);
    found.Some? && found.value < |t.slots| ==> SafeErase(t, HomeIn(hash, |t.slots|), found.value)
  }

  lemma SeekHits(t: Table, hash: int -> nat, key: int)
    requires Regular(t)
    ensures var r := Seek(t, hash, key);
      && (r.Some? ==> t.size > 0 && r.value < |t.slots| && t.slots[r.value].Used? && t.slots[r.value].key == key)
      && (r.None? <==> Get(t, hash, key).None?)
  {
    if |t.slots| > 0 {
      FindHits(t, HomeIn(hash, |t.slots|), key);
      CountZero(t.slots);
    }
  }

  lemma RemovedIsRegular(t: Table, hash: int -> nat, key: int)
    requires Regular(t)
    ensures var u := Removed(t, hash, key);
      Regular(u) && |u.slots| == |t.slots| && u.size == t.size - if Seek(t, hash, key).Some? then 1 else 0
  {
    SeekHits(t, hash, key);
    if Seek(t, hash, key).Some? {
      EraseExact(t, HomeIn(hash, |t.slots|), Seek(t, hash, key).value);
    }
  }

  /** The invariant survives an erasure exactly when it is safe. */
  lemma RemovedIsGood(t: Table, hash: int -> nat, key: int)
    requires GoodTable(t, hash)
    ensures GoodTable(Removed(t, hash, key), hash) <==> SafeRemove(t, hash, key)
  {
    SeekHits(t, hash, key);
    var found := Seek(t, hash, key);
    if found.Some? {
      EraseExact(t, HomeIn(hash, |t.slots|), found.value);
      EraseKeepsSound(t, HomeIn(hash, |t.slots|), found.value);
    }
  }

  /** Erasing `key` puts the final hole on the way of the entry of `k`, inside the window. */
  ghost predicate CutOff(t: Table, hash: int -> nat, key: int, k: int)
    requires t.end <= |t.slots|
  {
    var found := Seek(t, hash, key);
    found.Some? && found.value < |t.slots| &&
    var home := HomeIn(hash, |t.slots|);
    exists p :: 0 <= p < |t.slots| && p != found.value && t.slots[p].Used? && t.slots[p].key == k
                && Cuts(t, home, FinalHole(t, home, found.value), p)
  }

  /** Key by key, whether the erasure is safe or not: another key loses its value if and only if it is cut off. */
  lemma RemovedGetsExactly(t: Table, hash: int -> nat, key: int, k: int)
    requires GoodTable(t, hash)
    ensures var u := Removed(t, hash, key);
      && u.end <= |u.slots|
      && Get(u, hash, k) == if k == key || CutOff(t, hash, key, k) then None else Get(t, hash, k)
  {
    RemovedIsRegular(t, hash, key);
    SeekHits(t, hash, key);
    SeekHits(t, hash, k);
    if Seek(t, hash, key).Some? {
      if k == key {
        ErasedStaysAbsent(t, HomeIn(hash, |t.slots|), Seek(t, hash, key).value);
      } else if Seek(t, hash, k).Some? {
        KeptGetsExactly(t, HomeIn(hash, |t.slots|), Seek(t, hash, key).value, Seek(t, hash, k).value);
      } else {
        AbsentStaysAbsent(t, HomeIn(hash, |t.slots|), Seek(t, hash, key).value, k);
      }
    }
  }

  lemma ErasedStaysAbsent(t: Table, home: int -> nat, e: nat)
    requires Sound(t, home) && e < |t.slots| && t.slots[e].Used?
    ensures t.size > 0 && Erase(t, home, e).end <= |Erase(t, home, e).slots| == |t.slots|
    ensures Lookup(Erase(t, home, e), home, t.slots[e].key) == None
  {
    EraseExact(t, home, e);
    ErasedIsGone(t, home, e);
    FindHits(Erase(t, home, e), home, t.slots[e].key);
  }

  lemma KeptGetsExactly(t: Table, home: int -> nat, e: nat, p: nat)
    requires Sound(t, home) && e < |t.slots| && t.slots[e].Used? && p < |t.slots| && t.slots[p].Used? && p != e
    ensures t.size > 0 && Erase(t, home, e).end <= |Erase(t, home, e).slots| == |t.slots|
    ensures Lookup(t, home, t.slots[p].key) == Some(t.slots[p].value)
    ensures Lookup(Erase(t, home, e), home, t.slots[p].key) ==
            if Cuts(t, home, FinalHole(t, home, e), p) then None else Some(t.slots[p].value)
    ensures forall q :: 0 <= q < |t.slots| && t.slots[q].Used? && t.slots[q].key == t.slots[p].key ==> q == p
  {
    FoundAfterExactly(t, home, e, p);
    assert t.slots[p] == Used(t.slots[p].key, t.slots[p].value);
    LookupExact(t, home, t.slots[p].key, t.slots[p].value);
  }

  lemma AbsentStaysAbsent(t: Table, home: int -> nat, e: nat, k: int)
    requires Sound(t, home) && e < |t.slots| && t.slots[e].Used? && Find(t, home, k).None?
    ensures t.size > 0 && Erase(t, home, e).end <= |Erase(t, home, e).slots| == |t.slots|
    ensures Lookup(Erase(t, home, e), home, k) == None
    ensures forall q :: 0 <= q < |t.slots| && t.slots[q].Used? ==> t.slots[q].key != k
  {
    MissIsAbsent(t, home, k);
    EraseExact(t, home, e);
    var u := Erase(t, home, e);
    FindHits(u, home, k);
    if Lookup(u, home, k).Some? {
      var r := Find(u, home, k).value;
      assert u.slots[r] == Used(k, u.slots[r].value);
      EraseAddsNothing(t, home, e, k, u.slots[r].value);
    }
  }

  /** A safe erasure removes the key from the plain map. */
  lemma RemovedIsRemoval(t: Table, hash: int -> nat, key: int, k: int)
    requires GoodTable(t, hash) && SafeRemove(t, hash, key)
    ensures GoodTable(Removed(t, hash, key), hash)
    ensures Get(Removed(t, hash, key), hash, k) == if k == key then None else Get(t, hash, k)
  {
    SeekHits(t, hash, key);
    RemovedIsGood(t, hash, key);
    var found := Seek(t, hash, key);
    if found.Some? {
      EraseIsRemoval(t, HomeIn(hash, |t.slots|), found.value, k);
    }
  }

  lemma RemovedSize(t: Table, hash: int -> nat, key: int)
    requires GoodTable(t, hash)
    ensures Removed(t, hash, key).size == t.size - if Get(t, hash, key).Some? then 1 else 0
  {
    SeekHits(t, hash, key);
    var found := Seek(t, hash, key);
    if found.Some? {
      EraseExact(t, HomeIn(hash, |t.slots|), found.value);
    }
  }

  /** Changing the value of an entry in place. */
  function Revalued(t: Table, pos: nat, value: nat): Table
    requires pos < |t.slots| && t.slots[pos].Used?
  {
    t.(slots := t.slots[pos := Used(t.slots[pos].key, value)])
  }

  /** It changes what that key stands for and nothing else. */
  lemma RevaluedIsUpdate(t: Table, hash: int -> nat, pos: nat, value: nat, k: int)
    requires GoodTable(t, hash) && pos < |t.slots| && t.slots[pos].Used?
    ensures GoodTable(Revalued(t, pos, value), hash)
    ensures Get(Revalued(t, pos, value), hash, k) == if k == t.slots[pos].key then Some(value) else Get(t, hash, k)
  {
    var u, key, home := Revalued(t, pos, value), t.slots[pos].key, HomeIn(hash, |t.slots|);
    RevaluedIsGood(t, hash, pos, value);
    if k == key {
      assert u.slots[pos] == Used(key, value);
      GetExact(u, hash, key, value);
    } else {
      forall v
        ensures Has(u.slots, k, v) <==> Has(t.slots, k, v)
      {
        assert forall p :: 0 <= p < |t.slots| && p != pos ==> u.slots[p] == t.slots[p];
      }
      SameGet(t, u, hash, k);
    }
  }

  lemma {:induction false} ScanIgnoresValues(slots: seq<Entry>, pos: nat, value: nat, key: int, i: nat, limit: nat)
    requires limit <= |slots| && pos < |slots| && slots[pos].Used?
    ensures Scan(slots[pos := Used(slots[pos].key, value)], key, i, limit) == Scan(slots, key, i, limit)
    decreases limit - i
  {
    if i < limit {
      ScanIgnoresValues(slots, pos, value, key, i + 1, limit);
    }
  }

  /** In any table it changes what a lookup of that slot gives and nothing else. */
  lemma RevaluedGets(t: Table, hash: int -> nat, pos: nat, value: nat, k: int)
    requires Regular(t) && pos < |t.slots| && t.slots[pos].Used?
    ensures Get(Revalued(t, pos, value), hash, k) ==
            if Seek(t, hash, k) == Some(pos) then Some(value) else Get(t, hash, k)
  {
    var home := HomeIn(hash, |t.slots|);
    ScanIgnoresValues(t.slots, pos, value, k, home(k), t.end);
    ScanIgnoresValues(t.slots, pos, value, k, t.begin, home(k));
    SeekHits(t, hash, k);
  }

  lemma RevaluedIsGood(t: Table, hash: int -> nat, pos: nat, value: nat)
    requires GoodTable(t, hash) && pos < |t.slots| && t.slots[pos].Used?
    ensures GoodTable(Revalued(t, pos, value), hash)
  {
    var x, home := Used(t.slots[pos].key, value), HomeIn(hash, |t.slots|);
    CountUpdate(t.slots, pos, x);
    assert UsedRun(t.slots, home(x.key), pos);
    assert Wrapped(t.slots, home, pos) <==> pos < home(x.key);
    FillKeepsPaths(t.slots, home, pos, x);
  }

  lemma EmptyWhenNoSlots(t: Table)
    requires Exact(t) && |t.slots| == 0
    ensures t == EmptyTable(0)
  {
  }

  // ---------------------------------------------------------------- runs

  datatype Op = Put(key: int, value: nat) | Del(key: int)

  function Step(t: Table, hash: int -> nat, op: Op): Table
    requires Regular(t)
  {
    match op
    case Put(key, value) => Stored(t, hash, key, value)
    case Del(key) => Removed(t, hash, key)
  }

  function StepMap(m: map<int, nat>, op: Op): map<int, nat> {
    match op
    case Put(key, value) => m[key := value]
    case Del(key) => m - {key}
  }

  ghost predicate Safe(t: Table, hash: int -> nat, op: Op)
    requires GoodTable(t, hash)
  {
    op.Del? ==> SafeRemove(t, hash, op.key)
  }

  ghost predicate Gets(t: Table, hash: int -> nat, m: map<int, nat>)
    requires t.end <= |t.slots|
  {
    forall k :: Get(t, hash, k) == if k in m then Some(m[k]) else None
  }

  /** The table is the map, and counts its keys. */
  ghost predicate Refines(t: Table, hash: int -> nat, m: map<int, nat>) {
    GoodTable(t, hash) && |m| == t.size && Gets(t, hash, m)
  }

  lemma GetsOfUpdate(t: Table, u: Table, hash: int -> nat, m: map<int, nat>, key: int, value: nat)
    requires t.end <= |t.slots| && u.end <= |u.slots| && Gets(t, hash, m)
    requires forall k :: Get(u, hash, k) == if k == key then Some(value) else Get(t, hash, k)
    ensures Gets(u, hash, m[key := value])
  {
  }

  lemma UpdateSize(m: map<int, nat>, key: int, value: nat)
    ensures |m[key := value]| == |m| + if key in m then 0 else 1
    ensures |m - {key}| == |m| - if key in m then 1 else 0
  {
    assert key !in m ==> m[key := value] - {key} == m && m - {key} == m;
    assert m[key := value].Keys == m.Keys + {key};
    assert (m - {key}).Keys == m.Keys - {key};
  }

  lemma StoredGets(t: Table, hash: int -> nat, key: int, value: nat)
    requires GoodTable(t, hash)
    ensures GoodTable(Stored(t, hash, key, value), hash)
    ensures forall k ::
              Get(Stored(t, hash, key, value), hash, k) == if k == key then Some(value) else Get(t, hash, k)
  {
    StoredIsUpdate(t, hash, key, value, key);
    forall k
      ensures Get(Stored(t, hash, key, value), hash, k) == if k == key then Some(value) else Get(t, hash, k)
    {
      StoredIsUpdate(t, hash, key, value, k);
    }
  }

  lemma PutRefines(t: Table, hash: int -> nat, m: map<int, nat>, key: int, value: nat)
    requires Refines(t, hash, m)
    ensures Refines(Stored(t, hash, key, value), hash, m[key := value])
  {
    UpdateSize(m, key, value);
    StoredSize(t, hash, key, value);
    StoredGets(t, hash, key, value);
    GetsOfUpdate(t, Stored(t, hash, key, value), hash, m, key, value);
  }

  lemma DelRefines(t: Table, hash: int -> nat, m: map<int, nat>, key: int)
    requires Refines(t, hash, m) && SafeRemove(t, hash, key)
    ensures Refines(Removed(t, hash, key), hash, m - {key})
  {
    UpdateSize(m, key, 0);
    RemovedSize(t, hash, key);
    RemovedIsGood(t, hash, key);
    var u, rest := Removed(t, hash, key), m - {key};
    forall k
      ensures Get(u, hash, k) == if k in rest then Some(rest[k]) else None
    {
      RemovedIsRemoval(t, hash, key, k);
    }
  }

  lemma StepRefines(t: Table, hash: int -> nat, m: map<int, nat>, op: Op)
    requires Refines(t, hash, m) && Safe(t, hash, op)
    ensures Refines(Step(t, hash, op), hash, StepMap(m, op))
  {
    match op
    case Put(key, value) => PutRefines(t, hash, m, key, value);
    case Del(key) => DelRefines(t, hash, m, key);
  }

  lemma StepIsGood(t: Table, hash: int -> nat, op: Op)
    requires GoodTable(t, hash) && Safe(t, hash, op)
    ensures GoodTable(Step(t, hash, op), hash)
  {
    match op
    case Put(key, value) => StoredIsUpdate(t, hash, key, value, key);
    case Del(key) => RemovedIsGood(t, hash, key);
  }

  /** No erasure of the run cuts off a wrapped entry. */
  ghost predicate SafeRun(t: Table, hash: int -> nat, ops: seq<Op>)
    requires GoodTable(t, hash)
    decreases |ops|
  {
    ops != [] ==>
      Safe(t, hash, ops[0]) && (StepIsGood(t, hash, ops[0]); SafeRun(Step(t, hash, ops[0]), hash, ops[1..]))
  }

  ghost function Run(t: Table, hash: int -> nat, ops: seq<Op>): Table
    requires GoodTable(t, hash) && SafeRun(t, hash, ops)
    decreases |ops|
  {
    if ops == [] then t
    else
      StepIsGood(t, hash, ops[0]);
      Run(Step(t, hash, ops[0]), hash, ops[1..])
  }

  function RunMap(m: map<int, nat>, ops: seq<Op>): map<int, nat>
    decreases |ops|
  {
    if ops == [] then m else RunMap(StepMap(m, ops[0]), ops[1..])
  }

  lemma {:induction false} RunKeepsRefining(t: Table, hash: int -> nat, m: map<int, nat>, ops: seq<Op>)
    requires Refines(t, hash, m) && SafeRun(t, hash, ops)
    ensures Refines(Run(t, hash, ops), hash, RunMap(m, ops))
    decreases |ops|
  {
    if ops != [] {
      StepRefines(t, hash, m, ops[0]);
      RunKeepsRefining(Step(t, hash, ops[0]), hash, StepMap(m, ops[0]), ops[1..]);
    }
  }

  /** From the empty map, over every run without an unsafe erasure, the table is the plain map. */
  lemma RunRefinesMap(hash: int -> nat, ops: seq<Op>)
    requires SafeRun(EmptyTable(0), hash, ops)
    ensures Refines(Run(EmptyTable(0), hash, ops), hash, RunMap(map[], ops))
  {
    RunKeepsRefining(EmptyTable(0), hash, map[], ops);
  }

  /** Where nothing has wrapped, every erasure is safe and nothing has wrapped afterwards. */
  lemma NoWrapIsSafe(t: Table, hash: int -> nat, key: int)
    requires GoodTable(t, hash) && (|t.slots| > 0 ==> NoWrap(t.slots, HomeIn(hash, |t.slots|)))
    ensures SafeRemove(t, hash, key)
    ensures var u := Removed(t, hash, key); |u.slots| > 0 ==> NoWrap(u.slots, HomeIn(hash, |u.slots|))
  {
    SeekHits(t, hash, key);
    var found := Seek(t, hash, key);
    if found.Some? {
      EraseKeepsSound(t, HomeIn(hash, |t.slots|), found.value);
      EraseExact(t, HomeIn(hash, |t.slots|), found.value);
    }
  }

  // ---------------------------------------------------------------- a lost key

  /** The hash of a small number: its 32 bits. */
  function IntHash(key: int): nat {
    key % 0x1_0000_0000
  }

  function One(): RegularTable {
    Table([Used(6, 0)], 0, 1, 1)
  }

  function Two(): RegularTable {
    assert Pow2(1);
    Table([Used(6, 0), Used(7, 1)], 0, 2, 2)
  }

  /** Four slots; key 14, whose home is 2, has wrapped past keys 6 and 7. */
  function Crowded(): RegularTable {
    var slots := [Used(14, 2), Free, Used(6, 0), Used(7, 1)];
    assert Pow2(2) && slots[1..] == [Free, Used(6, 0), Used(7, 1)] && slots[1..][1..] == [Used(6, 0), Used(7, 1)];
    assert Count(slots) == 3;
    Table(slots, 0, 4, 3)
  }

  lemma Homes()
    ensures HomeIn(IntHash, 1)(6) == 0
    ensures HomeIn(IntHash, 2)(6) == 0 && HomeIn(IntHash, 2)(7) == 1
    ensures HomeIn(IntHash, 4)(6) == 2 && HomeIn(IntHash, 4)(7) == 3 && HomeIn(IntHash, 4)(14) == 2
  {
    HomeIs(IntHash, 1, 6);
    HomeIs(IntHash, 2, 6);
    HomeIs(IntHash, 2, 7);
    HomeIs(IntHash, 4, 6);
    HomeIs(IntHash, 4, 7);
    HomeIs(IntHash, 4, 14);
  }

  lemma StoreFirst()
    ensures GoodTable(EmptyTable(0), IntHash)
    ensures Stored(EmptyTable(0), IntHash, 6, 0) == One()
  {
    Homes();
    var u := WithRoom(EmptyTable(0), IntHash);
    assert u == EmptyTable(1) && u.slots == [Free];
    assert Place(u.slots, 6, 0) == Some(0);
    assert u.slots[0 := Used(6, 0)] == [Used(6, 0)];
  }

  lemma StoreSecond()
    ensures var t := One();
      GoodTable(t, IntHash) && Stored(t, IntHash, 7, 1) == Two()
  {
    Homes();
    StoreFirst();
    var t, home := One(), HomeIn(IntHash, 2);
    StoredIsUpdate(EmptyTable(0), IntHash, 6, 0, 6);
    ExtendedStarts(t, IntHash);
    var e := Extended(t);
    assert e == Table([Used(6, 0), Free], 0, 1, 1);
    StayFirst();
    ResetKeeps(e, home, 0, 1);
    assert Rehash(e, home, 0, 1) == Rehash(e, home, 1, 1) == e;
    assert WithRoom(t, IntHash) == e;
    assert Place(e.slots, 7, 1) == Some(1);
  }

  lemma StayFirst()
    ensures var t, u := Table([Used(6, 0), Free], 0, 1, 1), Table([Free, Free], 0, 0, 0);
      Erase(t, HomeIn(IntHash, 2), 0) == u && HomeIn(IntHash, 2)(6) == 0 && Set(u, HomeIn(IntHash, 2), 6, 0) == Some(t)
  {
    Homes();
    var t, u := Table([Used(6, 0), Free], 0, 1, 1), Table([Free, Free], 0, 0, 0);
    assert t.slots[0 := Free] == u.slots;
    assert Place(u.slots, 6, 0) == Some(0);
    assert u.slots[0 := Used(6, 0)] == t.slots;
  }

  lemma MoveSix()
    ensures var t := Table([Used(6, 0), Used(7, 1), Free, Free], 0, 2, 2);
      var u := Table([Free, Used(7, 1), Free, Free], 1, 2, 1);
      && Erase(t, HomeIn(IntHash, 4), 0) == u && HomeIn(IntHash, 4)(6) == 2
      && Set(u, HomeIn(IntHash, 4), 6, 0) == Some(Table([Free, Used(7, 1), Used(6, 0), Free], 1, 3, 2))
  {
    Homes();
    var t, u := Table([Used(6, 0), Used(7, 1), Free, Free], 0, 2, 2), Table([Free, Used(7, 1), Free, Free], 1, 2, 1);
    assert t.slots[0 := Free] == u.slots;
    assert Erase(t, HomeIn(IntHash, 4), 0) == u;
    assert Place(u.slots, 6, 2) == Some(2);
    assert u.slots[2 := Used(6, 0)] == [Free, Used(7, 1), Used(6, 0), Free];
  }

  lemma MoveSeven()
    ensures var t := Table([Free, Used(7, 1), Used(6, 0), Free], 1, 3, 2);
      var u := Table([Free, Free, Used(6, 0), Free], 2, 3, 1);
      && Erase(t, HomeIn(IntHash, 4), 1) == u && HomeIn(IntHash, 4)(7) == 3
      && Set(u, HomeIn(IntHash, 4), 7, 1) == Some(Table([Free, Free, Used(6, 0), Used(7, 1)], 2, 4, 2))
  {
    Homes();
    var t, u := Table([Free, Used(7, 1), Used(6, 0), Free], 1, 3, 2), Table([Free, Free, Used(6, 0), Free], 2, 3, 1);
    assert t.slots[1 := Free] == u.slots;
    assert Erase(t, HomeIn(IntHash, 4), 1) == u;
    assert Place(u.slots, 7, 3) == Some(3);
    assert u.slots[3 := Used(7, 1)] == [Free, Free, Used(6, 0), Used(7, 1)];
  }

  lemma TwoIsGood()
    ensures GoodTable(Two(), IntHash)
  {
    StoreSecond();
    StoredIsUpdate(One(), IntHash, 7, 1, 7);
  }

  lemma RehashSecond()
    ensures var e, home := Table([Used(6, 0), Used(7, 1), Free, Free], 0, 2, 2), HomeIn(IntHash, 4);
      Rehashing(e, home, 0, 2) && Rehash(e, home, 0, 2) == Table([Free, Free, Used(6, 0), Used(7, 1)], 2, 4, 2)
  {
    var home := HomeIn(IntHash, 4);
    var e0 := Table([Used(6, 0), Used(7, 1), Free, Free], 0, 2, 2);
    var e1 := Table([Free, Used(7, 1), Used(6, 0), Free], 1, 3, 2);
    assert Rehashing(e0, home, 0, 2) by {
      var t := Two();
      TwoIsGood();
      ExtendedStarts(t, IntHash);
      assert Extended(t) == e0;
    }
    assert Rehashing(e1, home, 1, 2) && Rehash(e0, home, 0, 2) == Rehash(e1, home, 1, 2) by {
      MoveSix();
      ResetKeeps(e0, home, 0, 2);
    }
    MoveSeven();
    ResetKeeps(e1, home, 1, 2);
  }

  lemma RoomForThird()
    ensures var t := Two();
      GoodTable(t, IntHash) && WithRoom(t, IntHash) == Table([Free, Free, Used(6, 0), Used(7, 1)], 2, 4, 2)
  {
    TwoIsGood();
    RehashSecond();
    assert Extended(Two()) == Table([Used(6, 0), Used(7, 1), Free, Free], 0, 2, 2);
  }

  lemma PlaceOfThird()
    ensures HomeIn(IntHash, 4)(14) == 2
    ensures var u := Table([Free, Free, Used(6, 0), Used(7, 1)], 2, 4, 2);
      Set(u, HomeIn(IntHash, 4), 14, 2) == Some(Crowded())
  {
    Homes();
    var u := Table([Free, Free, Used(6, 0), Used(7, 1)], 2, 4, 2);
    assert FirstOpen(u.slots, 14, 2, 4) == None;
    assert Place(u.slots, 14, 2) == Some(0);
    assert u.slots[0 := Used(14, 2)] == Crowded().slots;
  }

  lemma StoreThird()
    ensures var t := Two();
      GoodTable(t, IntHash) && Stored(t, IntHash, 14, 2) == Crowded()
  {
    RoomForThird();
    PlaceOfThird();
  }

  /** Setting keys 6, 7 and 14 in an empty map leads to the crowded table. */
  lemma CrowdedIsReached()
    ensures SafeRun(EmptyTable(0), IntHash, [Put(6, 0), Put(7, 1), Put(14, 2)])
    ensures Run(EmptyTable(0), IntHash, [Put(6, 0), Put(7, 1), Put(14, 2)]) == Crowded()
  {
    var ops := [Put(6, 0), Put(7, 1), Put(14, 2)];
    assert ops[1..] == [Put(7, 1), Put(14, 2)] && ops[1..][1..] == [Put(14, 2)] && ops[1..][1..][1..] == [];
    var t0, t1, t2 := EmptyTable(0), One(), Two();
    assert GoodTable(t2, IntHash) && Stored(t2, IntHash, 14, 2) == Crowded() by {
      StoreThird();
    }
    RunOfPut(t2, 14, 2, Crowded(), ops[1..][1..]);
    assert GoodTable(t1, IntHash) && Stored(t1, IntHash, 7, 1) == t2 by {
      StoreSecond();
    }
    RunOfPut(t1, 7, 1, t2, ops[1..]);
    assert GoodTable(t0, IntHash) && Stored(t0, IntHash, 6, 0) == t1 by {
      StoreFirst();
    }
    RunOfPut(t0, 6, 0, t1, ops);
  }

  lemma RunOfPut(t: Table, key: int, value: nat, u: Table, ops: seq<Op>)
    requires GoodTable(t, IntHash) && ops != [] && ops[0] == Put(key, value) && Stored(t, IntHash, key, value) == u
    ensures GoodTable(u, IntHash)
    ensures SafeRun(u, IntHash, ops[1..]) ==>
              SafeRun(t, IntHash, ops) && Run(t, IntHash, ops) == Run(u, IntHash, ops[1..])
  {
    StepIsGood(t, IntHash, ops[0]);
  }

  lemma CrowdedIsGood()
    ensures GoodTable(Crowded(), IntHash) && Get(Crowded(), IntHash, 14) == Some(2)
  {
    StoreThird();
    StoredIsUpdate(Two(), IntHash, 14, 2, 14);
  }

  lemma CrowdedErased()
    ensures var u := Table([Used(14, 2), Free, Free, Used(7, 1)], 0, 4, 2);
      Removed(Crowded(), IntHash, 6) == u && Get(u, IntHash, 14) == None
  {
    Homes();
    var t, home := Crowded(), HomeIn(IntHash, 4);
    assert Find(t, home, 6) == Some(2);
    assert t.slots[2 := Free] == [Used(14, 2), Free, Free, Used(7, 1)];
  }

  /** Erasing key 6 from it leaves key 14 in the table, but no longer to be found. */
  lemma EraseLosesWrapped()
    ensures GoodTable(Crowded(), IntHash) && Get(Crowded(), IntHash, 14) == Some(2)
    ensures !SafeRemove(Crowded(), IntHash, 6)
    ensures var u := Removed(Crowded(), IntHash, 6);
      && Has(u.slots, 14, 2) && u.end <= |u.slots| && Get(u, IntHash, 14) == None
  {
    CrowdedIsGood();
    CrowdedErased();
    var u := Removed(Crowded(), IntHash, 6);
    assert u.slots[0] == Used(14, 2);
    if GoodTable(u, IntHash) {
      GetExact(u, IntHash, 14, 2);
    }
    RemovedIsGood(Crowded(), IntHash, 6);
  }

  /** Erasing key 7 from it is not safe, but cuts no key off: the hole is the last slot of the window. */
  lemma UnsafeCutsNothing()
    ensures Crowded().end <= |Crowded().slots| && !SafeRemove(Crowded(), IntHash, 7)
    ensures forall k :: !CutOff(Crowded(), IntHash, 7, k)
  {
    Homes();
    var t, home := Crowded(), HomeIn(IntHash, 4);
    assert Seek(t, IntHash, 7) == Find(t, home, 7) == Some(3);
    assert Settles(t, home, 3) && FinalHole(t, home, 3) == 3;
    assert Wrapped(t.slots, home, 0);
  }
}
