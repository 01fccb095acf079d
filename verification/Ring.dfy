/** The send ring as it runs: chunk objects with real buffers, updated in place. */
module Ring {
  import opened Bytes
  import RingSpec

  /** A stretch of a chunk's buffer, as handed to an asynchronous send. */
  datatype Iov = Iov(base: array<Byte>, offset: nat, len: nat)

  ghost predicate InBounds(iov: Iov) {
    0 < iov.len && iov.offset + iov.len <= iov.base.Length
  }

  ghost function Gather(iovs: seq<Iov>): seq<Byte>
    requires forall i :: 0 <= i < |iovs| ==> InBounds(iovs[i])
    reads set i | 0 <= i < |iovs| :: iovs[i].base
  {
    if iovs == [] then [] else
      assert InBounds(iovs[0]);
      assert forall i :: 0 <= i < |iovs[1..]| ==> iovs[1..][i] == iovs[i + 1];
      iovs[0].base[iovs[0].offset..iovs[0].offset + iovs[0].len] + Gather(iovs[1..])
  }

  lemma GatherNone()
    ensures Gather([]) == []
  {
  }

  lemma GatherOne(a: Iov)
    requires InBounds(a)
    ensures Gather([a]) == a.base[a.offset..a.offset + a.len]
  {
    assert [a][1..] == [];
    assert Gather([a]) == a.base[a.offset..a.offset + a.len] + Gather([]);
  }

  lemma GatherTwo(a: Iov, b: Iov)
    requires InBounds(a) && InBounds(b)
    ensures Gather([a, b]) == a.base[a.offset..a.offset + a.len] + b.base[b.offset..b.offset + b.len]
  {
    assert [a, b][1..] == [b];
    GatherOne(b);
  }

  /** The stretches of a circular buffer that hold the `n` bytes from absolute position `head` on. */
  function RangesFor(data: array<Byte>, head: nat, n: nat): seq<Iov>
    requires n <= data.Length
  {
    if n == 0 then []
    else
      var offset := head % data.Length;
      if n <= data.Length - offset then [Iov(data, offset, n)]
      else [Iov(data, offset, data.Length - offset), Iov(data, 0, n - (data.Length - offset))]
  }

  /** They gather the bytes of at most two runs. */
  lemma GatherRanges(data: array<Byte>, head: nat, n: nat)
    requires n <= data.Length
    ensures forall i :: 0 <= i < |RangesFor(data, head, n)| ==> InBounds(RangesFor(data, head, n)[i])
    ensures n == 0 ==> Gather(RangesFor(data, head, n)) == []
    ensures n > 0 ==>
              var offset, whole := head % data.Length, data[..];
              Gather(RangesFor(data, head, n)) ==
                if n <= |whole| - offset then whole[offset..offset + n]
                else whole[offset..] + whole[..n - (|whole| - offset)]
  {
    hide Gather;
    if n == 0 {
      GatherNone();
    } else {
      var offset, whole := head % data.Length, data[..];
      var rest := n - (data.Length - offset);
      if rest <= 0 {
        assert whole[offset..offset + n] == data[offset..offset + n];
        GatherOne(Iov(data, offset, n));
      } else {
        assert whole[offset..] == data[offset..data.Length] && whole[..rest] == data[0..rest];
        GatherTwo(Iov(data, offset, data.Length - offset), Iov(data, 0, rest));
      }
    }
  }

  class Chunk {
    const data: array<Byte>
    var head: nat
    var tail: nat

    constructor (capacity: nat)
      ensures fresh(this) && fresh(data)
      ensures State() == RingSpec.NewChunk(capacity)
    {
      data := new Byte[capacity](_ => 0);
      head, tail := 0, 0;
      new;
      assert data[..] == seq(capacity, _ => 0);
    }

    ghost function State(): RingSpec.Chunk
      reads this, data
    {
      RingSpec.Chunk(data[..], head, tail)
    }

    /** Appends `bytes` with at most two block copies; no slot holding a queued byte is written. */
    method Write(bytes: seq<Byte>)
      requires State().Valid() && |bytes| <= State().FreeSpace()
      modifies this`tail, data
      ensures State() == RingSpec.PutAll(old(State()), bytes)
    {
      if |bytes| == 0 {
        return;
      }
      ghost var before := State();
      var m := data.Length;
      var offset := tail % m;
      SlotIsMod(tail, m);
      var first := if m - offset < |bytes| then m - offset else |bytes|;
      forall i | 0 <= i < first {
        data[offset + i] := bytes[i];
      }
      forall i | 0 <= i < |bytes| - first {
        data[i] := bytes[first + i];
      }
      tail := tail + |bytes|;
      forall j | 0 <= j < m ensures data[j] == RingSpec.PutAll(before, bytes).data[j] {
        RingSpec.PutAllSlot(before, bytes, j);
      }
    }

    /** The queued bytes as at most two stretches of the buffer. */
    method Ranges() returns (iovs: seq<Iov>)
      requires State().Valid()
      ensures |iovs| <= 2 && forall i :: 0 <= i < |iovs| ==> InBounds(iovs[i]) && iovs[i].base == data
      ensures Gather(iovs) == State().Queued()
      ensures iovs == RangesFor(data, head, State().Len())
      ensures iovs == [] <==> State().Len() == 0
    {
      var n := tail - head;
      if n == 0 {
        return [];
      }
      var offset := head % data.Length;
      var first := if data.Length - offset < n then data.Length - offset else n;
      iovs := [Iov(data, offset, first)];
      if first != n {
        iovs := iovs + [Iov(data, 0, n - first)];
      }
      RangesHold(n);
      assert State().Queued()[..n] == State().Queued();
    }

    /** The ranges handed out for the first `n` queued bytes hold them, also when more have been queued since. */
    lemma RangesHold(n: nat)
      requires State().Valid() && n <= State().Len()
      ensures var iovs := RangesFor(data, head, n);
              && (forall i :: 0 <= i < |iovs| ==> InBounds(iovs[i]))
              && Gather(iovs) == State().Queued()[..n]
    {
      hide Gather, RangesFor;
      GatherRanges(data, head, n);
      if n > 0 {
        RingSpec.FrontRuns(State(), n);
      }
    }
  }

  class Ring {
    var chunks: seq<Chunk>
    var len: nat
    const initialCapacity: nat
    const maxLen: nat

    /** The chunk objects and their buffers, freed ones included. */
    ghost var Parts: set<object>

    /** Chunks and buffers are owned and unshared. */
    ghost predicate Separate()
      reads this`chunks, this`Parts
    {
      && this !in Parts
      && (forall i :: 0 <= i < |chunks| ==> chunks[i] in Parts && chunks[i].data in Parts)
      && (forall i, j :: 0 <= i < j < |chunks| ==> chunks[i] != chunks[j] && chunks[i].data != chunks[j].data)
    }

    ghost function States(): (s: seq<RingSpec.Chunk>)
      requires Separate()
      reads this`chunks, this`Parts, Parts
      ensures |s| == |chunks| && forall i :: 0 <= i < |s| ==> s[i] == chunks[i].State()
    {
      var cs, ps := chunks, Parts;
      seq(|cs|, i requires 0 <= i < |cs| && cs[i] in ps && cs[i].data in ps reads ps => cs[i].State())
    }

    ghost function View(): RingSpec.Ring
      requires Separate()
      reads this, Parts
    {
      RingSpec.Ring(States(), len, initialCapacity, maxLen)
    }

    ghost predicate Valid()
      reads this, Parts
    {
      Separate() && RingSpec.Inv(View())
    }

    constructor (initialCapacity: nat, maxLen: nat)
      ensures Valid() && Parts == {}
      ensures View() == RingSpec.Empty(initialCapacity, maxLen)
    {
      this.chunks := [];
      this.Parts := {};
      this.len := 0;
      this.initialCapacity := initialCapacity;
      this.maxLen := maxLen;
    }

    static method PartsLen(parts: seq<seq<Byte>>) returns (n: nat)
      ensures n == |Concat(parts)|
    {
      n := 0;
      for i := 0 to |parts|
        invariant n == |Concat(parts[..i])|
      {
        assert parts[..i + 1] == parts[..i] + [parts[i]];
        ConcatSnoc(parts[..i], parts[i]);
        n := n + |parts[i]|;
      }
      assert parts[..|parts|] == parts;
    }

    /**
     Queues `parts` as one message. `allocOk` says whether the allocator can serve a new chunk.
     A head chunk that holds queued bytes is neither replaced nor freed, so ranges handed out by
     `Peek` stay readable.
     */
    method Write(parts: seq<seq<Byte>>, allocOk: bool) returns (result: RingSpec.WriteResult)
      requires Valid()
      modifies this, Parts
      ensures Valid() && fresh(Parts - old(Parts))
      ensures View() == RingSpec.Write(old(View()), Concat(parts), allocOk)
      ensures result == RingSpec.WriteStatus(old(View()), |Concat(parts)|, allocOk)
      ensures old(len) > 0 ==> chunks != [] && old(chunks)[0] == chunks[0]
    {
      RingSpec.WriteInv(View(), Concat(parts), allocOk);
      assert 1 < |chunks| ==> 0 < RingSpec.Last(States()).Len();
      assert old(len) > 0 ==> chunks != [] && 0 < States()[0].Len() by {
        if chunks != [] {
          RingSpec.HeadIsPrefix(View());
        }
      }
      result := Append(parts, allocOk);
    }

    method Append(parts: seq<seq<Byte>>, allocOk: bool) returns (result: RingSpec.WriteResult)
      requires Separate() && RingSpec.AllValid(States())
      requires 1 < |chunks| ==> 0 < RingSpec.Last(States()).Len()
      modifies this, Parts
      ensures Separate() && fresh(Parts - old(Parts))
      ensures View() == RingSpec.Write(old(View()), Concat(parts), allocOk)
      ensures result == RingSpec.WriteStatus(old(View()), |Concat(parts)|, allocOk)
      ensures old(chunks != [] && 0 < States()[0].Len()) ==> chunks != [] && old(chunks)[0] == chunks[0]
    {
      var n := PartsLen(parts);
      result := MakeRoom(n, allocOk);
      if result == RingSpec.Written {
        Fill(chunks[|chunks| - 1], parts, n);
      }
    }

    /** Rejects what exceeds `maxLen`; adds a chunk when the tail chunk cannot take `n` more bytes. */
    method MakeRoom(n: nat, allocOk: bool) returns (result: RingSpec.WriteResult)
      requires Separate() && RingSpec.AllValid(States())
      requires 1 < |chunks| ==> 0 < RingSpec.Last(States()).Len()
      modifies this`chunks, this`Parts
      ensures Separate() && fresh(Parts - old(Parts))
      ensures result == RingSpec.WriteStatus(old(View()), n, allocOk)
      ensures States() == if result == RingSpec.Written then RingSpec.MakeRoom(old(View()), n) else old(States())
      ensures RingSpec.AllValid(States())
      ensures result == RingSpec.Written ==> chunks != [] && n <= RingSpec.Last(States()).FreeSpace()
      ensures old(chunks != [] && 0 < States()[0].Len()) ==> chunks != [] && old(chunks)[0] == chunks[0]
    {
      if len + n > maxLen {
        return RingSpec.TooLarge;
      }
      if |chunks| != 0
         && n <= chunks[|chunks| - 1].data.Length - (chunks[|chunks| - 1].tail - chunks[|chunks| - 1].head) {
        return RingSpec.Written;
      }
      var capacity := if |chunks| == 0 then initialCapacity else chunks[|chunks| - 1].data.Length * 2;
      if capacity < n {
        capacity := n;
      }
      if !allocOk {
        return RingSpec.NoMemory;
      }
      Grow(capacity);
      result := RingSpec.Written;
    }

    /** Adds a chunk, in place of the tail chunk if that one is empty. */
    method Grow(capacity: nat)
      requires Separate() && RingSpec.AllValid(States())
      requires 1 < |chunks| ==> 0 < RingSpec.Last(States()).Len()
      modifies this`chunks, this`Parts
      ensures Separate() && fresh(Parts - old(Parts)) && chunks != []
      ensures States() ==
        (if old(|chunks|) == 1 && old(States())[0].Len() == 0 then [] else old(States()))
        + [RingSpec.NewChunk(capacity)]
      ensures old(chunks != [] && 0 < States()[0].Len()) ==> old(chunks)[0] == chunks[0]
    {
      var chunk := new Chunk(capacity);
      if |chunks| != 0 && chunks[|chunks| - 1].tail - chunks[|chunks| - 1].head == 0 {
        PopHead();
      }
      PushTail(chunk);
    }

    /** Writes the parts, one after the other, into the tail chunk. */
    method Fill(last: Chunk, parts: seq<seq<Byte>>, n: nat)
      requires Separate() && chunks != [] && last == chunks[|chunks| - 1] && RingSpec.AllValid(States())
      requires n == |Concat(parts)| <= RingSpec.Last(States()).FreeSpace()
      modifies this`len, last`tail, last.data
      ensures View() == old(View()).(chunks := RingSpec.FillLast(old(States()), Concat(parts)), len := old(len) + n)
    {
      hide RingSpec.AllValid;
      ghost var before := last.State();
      for i := 0 to |parts|
        invariant len == old(len) && |Concat(parts[..i])| <= before.FreeSpace()
        invariant last.State() == RingSpec.PutAll(before, Concat(parts[..i]))
        invariant forall k :: 0 <= k < |chunks| - 1 ==> chunks[k].State() == old(chunks[k].State())
      {
        assert parts[..i + 1] == parts[..i] + [parts[i]];
        assert parts == parts[..i + 1] + parts[i + 1..];
        ConcatAppend(parts[..i + 1], parts[i + 1..]);
        ConcatSnoc(parts[..i], parts[i]);
        RingSpec.PutAllConcat(before, Concat(parts[..i]), parts[i]);
        last.Write(parts[i]);
      }
      assert parts[..|parts|] == parts;
      ghost var filled := RingSpec.FillLast(old(States()), Concat(parts));
      assert filled[|filled| - 1] == last.State();
      assert forall k :: 0 <= k < |chunks| - 1 ==> filled[k] == chunks[k].State();
      assert States() == filled;
      len := len + n;
    }

    /** The head chunk's bytes as at most two ranges: a prefix of everything queued, empty only when nothing is. */
    method Peek() returns (iovs: seq<Iov>)
      requires Valid()
      ensures |iovs| <= 2 && forall i :: 0 <= i < |iovs| ==> InBounds(iovs[i])
      ensures forall i :: 0 <= i < |iovs| ==> chunks != [] && iovs[i].base == chunks[0].data
      ensures Gather(iovs) == if chunks == [] then [] else States()[0].Queued()
      ensures iovs == if chunks == [] then [] else RangesFor(chunks[0].data, chunks[0].head, States()[0].Len())
      ensures RingSpec.AllValid(States()) && Gather(iovs) <= RingSpec.Contents(States())
      ensures iovs == [] <==> len == 0
    {
      if |chunks| == 0 {
        return [];
      }
      RingSpec.HeadIsPrefix(View());
      iovs := chunks[0].Ranges();
    }

    /** Drops the oldest `n` bytes, which `Peek` has shown, and frees the head chunk once it is drained. */
    method Consume(n: nat)
      requires Valid() && chunks != [] && n <= States()[0].Len()
      modifies this, Parts
      ensures Valid() && Parts == old(Parts)
      ensures n <= old(View()).len && View() == RingSpec.Consume(old(View()), n)
    {
      RingSpec.ConsumeInv(View(), n);
      Advance(n);
    }

    method Advance(n: nat)
      requires Separate() && RingSpec.CanConsume(View(), n) && n <= len
      modifies this, Parts
      ensures Separate() && Parts == old(Parts)
      ensures View() == RingSpec.Consume(old(View()), n)
    {
      var chunk := chunks[0];
      chunk.head := chunk.head + n;
      len := len - n;
      assert States() == [chunk.State()] + old(States())[1..];
      var drained, sole := chunk.tail - chunk.head == 0, |chunks| == 1;
      if drained && !(sole && chunk.data.Length <= initialCapacity) {
        PopHead();
      }
    }

    method PopHead()
      requires Separate() && chunks != []
      modifies this`chunks
      ensures Separate() && chunks == old(chunks)[1..]
      ensures States() == old(States())[1..]
    {
      chunks := chunks[1..];
    }

    /** Links an unshared chunk in behind the tail. */
    method PushTail(chunk: Chunk)
      requires Separate() && chunk !in Parts && chunk.data !in Parts && this as object !in {chunk as object, chunk.data}
      modifies this`chunks, this`Parts
      ensures Separate() && chunks == old(chunks) + [chunk] && Parts == old(Parts) + {chunk, chunk.data}
      ensures States() == old(States()) + [chunk.State()]
    {
      chunks := chunks + [chunk];
      Parts := Parts + {chunk, chunk.data};
    }
  }
}
