/** The hash map over its array of entries: the loops of `HashSpec` and `HashGrowth`, in place. */
module HashMap {
  import opened Bytes
  import opened HashGrowth
  import opened HashSpec

  class HashMap {
    const hash: int -> nat
    var entries: array<Entry>
    var begin: nat
    var end: nat
    var size: nat

    ghost function View(): Table
      reads this, entries
    {
      Table(entries[..], begin, end, size)
    }

    ghost function Home(): int -> nat
      requires 0 < entries.Length
      reads this
    {
      HomeIn(hash, entries.Length)
    }

    constructor (hash: int -> nat)
      ensures fresh(entries) && View() == EmptyTable(0) && GoodTable(View(), hash) && this.hash == hash
    {
      this.hash := hash;
      begin, end, size := 0, 0, 0;
      entries := new Entry[0];
    }

    /** The slot that the probing for a key starts at. */
    method HomeOf(key: int) returns (h: nat)
      requires 0 < entries.Length
      ensures h == Home()(key) < entries.Length
    {
      h := Slot(hash(key), entries.Length);
      assert Home()(key) == h;
    }

    method UpdateBeginEnd(i: nat)
      requires size > 0 && i < entries.Length
      modifies this`begin, this`end
      ensures View() == Widen(old(View()).(size := size - 1), i)
    {
      if size == 1 {
        begin := i;
        end := i + 1;
      } else {
        if i < begin {
          begin := i;
        }
        if i + 1 > end {
          end := i + 1;
        }
      }
    }

    /** Tries the slots from `start` up to `limit`; `done` says that the key was set in one of them. */
    method SetWithin(key: int, value: nat, start: nat, limit: nat) returns (done: bool)
      requires limit <= entries.Length
      modifies this`begin, this`end, this`size, entries
      ensures var place := FirstOpen(old(entries[..]), key, start, limit);
        && done == place.Some?
        && View() == if place.None? then old(View())
                     else if old(entries[..])[place.value].Free? then
                       Widen(old(View()).(slots := old(entries[..])[place.value := Used(key, value)]), place.value)
                     else old(View()).(slots := old(entries[..])[place.value := Used(key, value)])
    {
      var i := start;
      while i < limit
        invariant start <= i
        invariant View() == old(View())
        invariant FirstOpen(entries[..], key, start, limit) == FirstOpen(entries[..], key, i, limit)
        decreases limit - i
      {
        if entries[i].Free? {
          entries[i] := Used(key, value);
          size := size + 1;
          UpdateBeginEnd(i);
          return true;
        }
        if entries[i].key == key {
          entries[i] := Used(key, value);
          return true;
        }
        i := i + 1;
      }
      done := false;
    }

    /** Sets a key without growing; a failure means that no slot was left, and changes nothing. */
    method DoSet(key: int, value: nat) returns (ok: bool)
      requires 0 < entries.Length
      modifies this`begin, this`end, this`size, entries
      ensures Home()(key) < entries.Length
      ensures ok == HashSpec.Set(old(View()), Home(), key, value).Some?
      ensures View() == if ok then HashSpec.Set(old(View()), Home(), key, value).value else old(View())
    {
      var h := HomeOf(key);
      ok := SetWithin(key, value, h, entries.Length);
      if !ok {
        ok := SetWithin(key, value, 0, h);
      }
    }

    method ScanFor(key: int, start: nat, limit: nat) returns (r: Scanned)
      requires limit <= entries.Length
      ensures r == Scan(entries[..], key, start, limit)
    {
      var i := start;
      while i < limit
        invariant start <= i
        invariant Scan(entries[..], key, start, limit) == Scan(entries[..], key, i, limit)
        decreases limit - i
      {
        if entries[i].Free? {
          return Gap;
        }
        if entries[i].key == key {
          return At(i);
        }
        i := i + 1;
      }
      r := Past;
    }

    /** Finds a key: in a good table, exactly the entry that holds it. */
    method TryGet(key: int) returns (pos: Option<nat>)
      requires end <= entries.Length
      ensures pos == Seek(View(), hash, key)
      ensures GoodTable(View(), hash) ==>
                (pos.Some? ==> pos.value < entries.Length && entries[pos.value].Used? && entries[pos.value].key == key)
                && (pos.None? ==> forall p :: 0 <= p < entries.Length && entries[p].Used? ==> entries[p].key != key)
    {
      pos := None;
      if size > 0 && entries.Length > 0 {
        var h := HomeOf(key);
        var first := ScanFor(key, h, end);
        if first.At? {
          pos := Some(first.pos);
        } else if first.Past? {
          var second := ScanFor(key, begin, h);
          if second.At? {
            pos := Some(second.pos);
          }
        }
      }
      if entries.Length > 0 && Sound(View(), Home()) {
        MissIsAbsent(View(), Home(), key);
      }
    }

    /** The last used slot before `i`; the scan relies on there being one from `begin` on. */
    method Prev(i: nat) returns (r: nat)
      requires i <= entries.Length
      requires begin < i && entries[begin].Used?
      ensures r == LastUsed(entries[..], i)
      ensures begin <= r < i && entries[r].Used? && forall p :: r < p < i ==> entries[p].Free?
    {
      r := i - 1;
      while entries[r].Free?
        invariant begin <= r < i
        invariant LastUsed(entries[..], i) == LastUsed(entries[..], r + 1)
        invariant forall p :: r < p < i ==> entries[p].Free?
        decreases r
      {
        r := r - 1;
      }
    }

    /** The next used slot after `i`, or the end of the window. */
    method Next(i: nat) returns (r: nat)
      requires i < entries.Length && end <= entries.Length
      ensures i < r && (r < end ==> entries[r].Used?)
      ensures forall p :: i < p < r && p < end ==> entries[p].Free?
      ensures i < end ==> r <= end
      ensures r < end ==> r == NextUsed(entries[..], i + 1)
    {
      r := i + 1;
      while r < end && entries[r].Free?
        invariant i < r && (i < end ==> r <= end)
        invariant r <= entries.Length
        invariant forall p :: i < p < r && p < end ==> entries[p].Free?
        invariant NextUsed(entries[..], i + 1) == NextUsed(entries[..], r)
        decreases end - r
      {
        r := r + 1;
      }
    }

    /** Narrows the window after slot `z` became free. */
    method NarrowWindow(z: nat)
      requires end <= entries.Length && z < entries.Length && Anchored(View(), z)
      modifies this`begin, this`end
      ensures View() == Narrow(old(View()), z)
    {
      if size == 0 {
        begin := 0;
        end := 0;
      } else if z + 1 == end {
        var last := Prev(z);
        end := last + 1;
      } else if z == begin {
        NextUsedIs(entries[..], z + 1, end - 1);
        begin := Next(z);
      }
    }

    /** Closes the hole at slot `e`, moving the following entries up in place. */
    method FixHole(e: nat)
      requires end <= entries.Length && e < entries.Length
      requires var r := Shift(entries[..], Home(), e, e + 1, end); Anchored(View().(slots := r.0), r.1)
      modifies this`begin, this`end, entries
      ensures var r := Shift(old(entries[..]), Home(), e, e + 1, old(end));
        View() == Narrow(old(View()).(slots := r.0), r.1)
    {
      var z, i := e, e + 1;
      while i < end && entries[i].Used?
        invariant e <= z < i && z < entries.Length
        invariant begin == old(begin) && end == old(end)
        invariant Shift(old(entries[..]), Home(), e, e + 1, end) == Shift(entries[..], Home(), z, i, end)
        decreases end - i
      {
        ghost var slots := entries[..];
        var h := HomeOf(entries[i].key);
        if h <= z {
          entries[z] := entries[i];
          entries[i] := Free;
          assert entries[..] == slots[z := slots[i]][i := Free];
          z := i;
        }
        i := i + 1;
      }
      NarrowWindow(z);
    }

    /** Erases the entry in slot `e`; the invariant survives exactly when that is safe. */
    method EraseEntry(e: nat)
      requires Exact(View()) && e < entries.Length && entries[e].Used?
      modifies this`begin, this`end, this`size, entries
      ensures old(size) > 0 && Exact(View())
      ensures View() == HashSpec.Erase(old(View()), Home(), e)
      ensures old(Sound(View(), Home())) ==> (Sound(View(), Home()) <==> old(SafeErase(View(), Home(), e)))
    {
      ghost var t, home := View(), Home();
      assert t.size > 0 && Exact(HashSpec.Erase(t, home, e)) by {
        EraseExact(t, home, e);
      }
      assert Sound(t, home) ==> (Sound(HashSpec.Erase(t, home, e), home) <==> SafeErase(t, home, e)) by {
        if Sound(t, home) {
          EraseKeepsSound(t, home, e);
        }
      }
      EraseInPlace(e);
    }

    /** Erases the entry that was found for a key, in any table. */
    method EraseFound(key: int, e: nat, ghost t: Table)
      requires t == View() && Regular(t) && Seek(t, hash, key) == Some(e)
      modifies this`begin, this`end, this`size, entries
      ensures View() == Removed(t, hash, key)
    {
      SeekHits(t, hash, key);
      EraseInPlace(e);
    }

    method EraseInPlace(e: nat)
      requires Exact(View()) && e < entries.Length && entries[e].Used? && size > 0
      modifies this`begin, this`end, this`size, entries
      ensures View() == HashSpec.Erase(old(View()), Home(), e)
    {
      ghost var t := View();
      EraseAnchored(t, Home(), e);
      entries[e] := Free;
      assert entries[..] == t.slots[e := Free];
      size := size - 1;
      FixHole(e);
    }

    /**
     * Makes room for `capacity` slots, rounded up to a power of two; the new slots are free. Without
     * memory for them nothing changes.
     */
    method Reserve(capacity: nat, allocOk: bool) returns (ok: bool)
      modifies this`entries
      ensures ok == (capacity <= old(entries.Length) || allocOk)
      ensures if !ok || capacity <= old(entries.Length) then entries == old(entries)
              else fresh(entries) && entries.Length == NextPow2(capacity)
      ensures old(entries.Length) <= entries.Length && entries[..] == Padded(old(entries[..]), entries.Length)
    {
      if entries.Length >= capacity {
        return true;
      }
      if !allocOk {
        return false;
      }
      var more := new Entry[NextPow2(capacity)](_ => Free);
      forall i | 0 <= i < entries.Length {
        more[i] := entries[i];
      }
      entries := more;
      ok := true;
    }

    /** Doubles the capacity and sets every entry again, in any table; without memory nothing changes. */
    method Expand(allocOk: bool) returns (ok: bool)
      requires Regular(View())
      modifies this`begin, this`end, this`size, this`entries
      ensures ok == allocOk
      ensures if ok then fresh(entries) && View() == Grown(old(View()), hash)
              else entries == old(entries) && View() == old(View())
    {
      hide Rehash, HomeIn;
      ghost var t := View();
      var n := entries.Length;
      GrowthStarts(t);
      ok := Reserve(if n == 0 then 1 else 2 * n, allocOk);
      if ok && n > 0 {
        RehashAll(n);
      }
    }

    /** Where growing starts from once the slots are there. */
    static lemma GrowthStarts(t: Table)
      requires Regular(t)
      ensures var n := |t.slots|;
        if n == 0 then NextPow2(1) == 1 && t.(slots := Padded(t.slots, 1)) == EmptyTable(1)
        else NextPow2(2 * n) == 2 * n && Exact(Extended(t))
    {
      if |t.slots| == 0 {
        EmptyWhenNoSlots(t);
        assert Padded(t.slots, 1) == EmptyTable(1).slots;
      } else {
        Pow2Doubles(|t.slots|);
        ExtendedIsExact(t);
      }
    }

    /** Sets the entries of the first `n` slots again, one after the other. */
    method RehashAll(n: nat)
      requires 0 < n <= entries.Length && Exact(View())
      modifies this`begin, this`end, this`size, entries
      ensures View() == Rehash(old(View()), Home(), 0, n)
    {
      hide Exact, Reset;
      ghost var t := View();
      for i := 0 to n
        invariant Exact(View())
        invariant Rehash(t, Home(), 0, n) == Rehash(View(), Home(), i, n)
      {
        if entries[i].Used? {
          ResetSlot(i);
        }
      }
    }

    /** Takes one entry out and sets it again. */
    method ResetSlot(i: nat)
      requires Exact(View()) && i < entries.Length && entries[i].Used?
      modifies this`begin, this`end, this`size, entries
      ensures View() == Reset(old(View()), Home(), i) && Exact(View())
    {
      ResetIsExact(View(), Home(), i);
      var key, value := entries[i].key, entries[i].value;
      EraseEntry(i);
      var _ := DoSet(key, value);
    }

    /**
     * Sets a key, growing the table first when it is half full. It fails only without memory to grow,
     * and then changes nothing.
     */
    method Set(key: int, value: nat, allocOk: bool) returns (ok: bool)
      requires Regular(View())
      modifies this`begin, this`end, this`size, this`entries, entries
      ensures entries == old(entries) || fresh(entries)
      ensures ok == (allocOk || !HalfFull(old(View())))
      ensures View() == if ok then Stored(old(View()), hash, key, value) else old(View())
    {
      ghost var w := WithRoom(View(), hash);
      RoomLeft(w, hash, key, value);
      if size >= entries.Length / 2 {
        ok := Expand(allocOk);
        if !ok {
          return;
        }
      }
      ok := DoSet(key, value);
    }

    /** Changes the value of an entry. */
    method SetValue(pos: nat, value: nat)
      requires pos < entries.Length && entries[pos].Used?
      modifies entries
      ensures View() == Revalued(old(View()), pos, value)
    {
      entries[pos] := entries[pos].(value := value);
    }
  }
}
