/**
 The send ring on values: a queue of circular chunks, one byte at a time.
 `Ring.Ring` refines these functions with block copies into real buffers.
 */
module RingSpec {
  import opened Bytes

  /** A chunk: its buffer and two absolute counters, reduced modulo the capacity on use. */
  datatype Chunk = Chunk(data: seq<Byte>, head: nat, tail: nat) {
    predicate Valid() {
      head <= tail <= head + |data|
    }

    function Len(): nat
      requires Valid()
    {
      tail - head
    }

    function FreeSpace(): nat
      requires Valid()
    {
      |data| - Len()
    }

    /** The byte at absolute position `p`. */
    function At(p: nat): Byte
      requires 0 < |data|
    {
      data[Slot(p, |data|)]
    }

    /** The queued bytes, oldest first. */
    function Queued(): (q: seq<Byte>)
      requires Valid()
      ensures |q| == Len() && forall i :: 0 <= i < |q| ==> q[i] == At(head + i)
    {
      seq(Len(), i requires 0 <= i < Len() => At(head + i))
    }

    function Put(b: Byte): Chunk
      requires Valid() && 0 < FreeSpace()
    {
      this.(data := data[Slot(tail, |data|) := b], tail := tail + 1)
    }

    function Drop(n: nat): Chunk
      requires Valid() && n <= Len()
    {
      this.(head := head + n)
    }
  }

  function NewChunk(capacity: nat): Chunk {
    Chunk(seq(capacity, _ => 0), 0, 0)
  }

  function PutAll(c: Chunk, bytes: seq<Byte>): (r: Chunk)
    requires c.Valid() && |bytes| <= c.FreeSpace()
    ensures r.Valid() && r.head == c.head && r.tail == c.tail + |bytes| && |r.data| == |c.data|
    decreases |bytes|
  {
    if bytes == [] then c else PutAll(c.Put(bytes[0]), bytes[1..])
  }

  /** How far slot `j` lies ahead of the slot of absolute position `p`. */
  function Ahead(p: nat, j: nat, m: nat): nat
    requires j < m
  {
    if Slot(p, m) <= j then j - Slot(p, m) else j - Slot(p, m) + m
  }

  lemma AheadOfPosition(p: nat, i: nat, m: nat)
    requires i < m
    ensures Ahead(p, Slot(p + i, m), m) == i
  {
    SlotStep(p, i, m);
  }

  /** `Put` extends the queue by one byte and leaves every queued slot alone. */
  lemma PutQueued(c: Chunk, b: Byte)
    requires c.Valid() && 0 < c.FreeSpace()
    ensures c.Put(b).Queued() == c.Queued() + [b]
    ensures forall p | c.head <= p < c.tail :: c.Put(b).At(p) == c.At(p)
  {
    forall p | c.head <= p < c.tail ensures c.Put(b).At(p) == c.At(p) {
      AheadOfPosition(p, c.tail - p, |c.data|);
      AheadOfPosition(p, 0, |c.data|);
    }
    var q := c.Put(b).Queued();
    forall i | 0 <= i < |q| ensures q[i] == (c.Queued() + [b])[i] {
      assert q[i] == c.Put(b).At(c.head + i);
    }
  }

  /** Writing appends the bytes in order and touches no slot that holds a queued byte. */
  lemma {:induction false} PutAllQueued(c: Chunk, bytes: seq<Byte>)
    requires c.Valid() && |bytes| <= c.FreeSpace()
    ensures PutAll(c, bytes).Queued() == c.Queued() + bytes
    ensures forall p | c.head <= p < c.tail :: PutAll(c, bytes).At(p) == c.At(p)
    decreases |bytes|
  {
    if bytes != [] {
      PutQueued(c, bytes[0]);
      PutAllQueued(c.Put(bytes[0]), bytes[1..]);
      assert c.Queued() + bytes == c.Queued() + [bytes[0]] + bytes[1..];
    }
  }

  /** The buffer after a write, slot by slot: what the block copies must produce. */
  lemma {:induction false} PutAllSlot(c: Chunk, bytes: seq<Byte>, j: nat)
    requires c.Valid() && |bytes| <= c.FreeSpace() && j < |c.data|
    ensures var d := Ahead(c.tail, j, |c.data|);
            PutAll(c, bytes).data[j] == if d < |bytes| then bytes[d] else c.data[j]
    decreases |bytes|
  {
    if bytes != [] {
      PutAllSlot(c.Put(bytes[0]), bytes[1..], j);
      SlotStep(c.tail, 1, |c.data|);
    }
  }

  lemma {:induction false} PutAllConcat(c: Chunk, a: seq<Byte>, b: seq<Byte>)
    requires c.Valid() && |a| + |b| <= c.FreeSpace()
    ensures PutAll(c, a + b) == PutAll(PutAll(c, a), b)
    decreases |a|
  {
    if a == [] {
      assert a + b == b;
    } else {
      PutAllConcat(c.Put(a[0]), a[1..], b);
      assert (a + b)[1..] == a[1..] + b;
    }
  }

  lemma DropQueued(c: Chunk, n: nat)
    requires c.Valid() && n <= c.Len()
    ensures c.Drop(n).Queued() == c.Queued()[n..]
  {
    var q := c.Drop(n).Queued();
    forall i | 0 <= i < |q| ensures q[i] == c.Queued()[n..][i] {
      assert q[i] == c.Drop(n).At(c.Drop(n).head + i);
    }
  }

  /** The queued bytes lie in at most two runs of the buffer. */
  lemma QueuedRuns(c: Chunk)
    requires c.Valid() && 0 < c.Len()
    ensures var offset, n := c.head % |c.data|, c.Len();
            c.Queued() ==
              if n <= |c.data| - offset then c.data[offset..offset + n]
              else c.data[offset..] + c.data[..n - (|c.data| - offset)]
  {
    SlotIsMod(c.head, |c.data|);
    forall i | 0 <= i < c.Len()
      ensures c.Queued()[i] ==
              c.data[if c.head % |c.data| + i < |c.data| then c.head % |c.data| + i
                     else c.head % |c.data| + i - |c.data|]
    {
      SlotStep(c.head, i, |c.data|);
    }
  }

  /** ... and so do the first `n` of them. */
  lemma FrontRuns(c: Chunk, n: nat)
    requires c.Valid() && 0 < n <= c.Len()
    ensures var offset := c.head % |c.data|;
            c.Queued()[..n] ==
              if n <= |c.data| - offset then c.data[offset..offset + n]
              else c.data[offset..] + c.data[..n - (|c.data| - offset)]
  {
    var front := c.(tail := c.head + n);
    QueuedRuns(front);
    assert front.Queued() == c.Queued()[..n];
  }

  // ---------- The queue of chunks ----------

  datatype Ring = Ring(chunks: seq<Chunk>, len: nat, initialCapacity: nat, maxLen: nat)

  datatype WriteResult = Written | TooLarge | NoMemory

  function Capacities(chunks: seq<Chunk>): nat {
    if chunks == [] then 0 else |chunks[0].data| + Capacities(chunks[1..])
  }

  predicate AllValid(chunks: seq<Chunk>) {
    forall i :: 0 <= i < |chunks| ==> chunks[i].Valid()
  }

  /** Every queued byte, oldest first. */
  function Contents(chunks: seq<Chunk>): seq<Byte>
    requires AllValid(chunks)
  {
    if chunks == [] then [] else chunks[0].Queued() + Contents(chunks[1..])
  }

  /** An empty chunk can only be the sole chunk. */
  predicate NoIdleChunk(chunks: seq<Chunk>)
    requires AllValid(chunks)
  {
    |chunks| == 1 || forall i :: 0 <= i < |chunks| ==> 0 < chunks[i].Len()
  }

  /** Each chunk has at least twice the capacity of its predecessor. */
  predicate Doubling(chunks: seq<Chunk>) {
    forall i :: 0 <= i < |chunks| - 1 ==> 2 * |chunks[i].data| <= |chunks[i + 1].data|
  }

  predicate Inv(r: Ring) {
    && AllValid(r.chunks)
    && r.len == |Contents(r.chunks)| <= r.maxLen
    && NoIdleChunk(r.chunks)
    && Doubling(r.chunks)
    && (r.chunks != [] ==> |Last(r.chunks).data| <= CapacityLimit(r, |r.chunks|))
  }

  /** The largest capacity of the newest of `n` chunks. */
  function CapacityLimit(r: Ring, n: nat): nat {
    if n == 1 then Max(r.initialCapacity, 2 * r.maxLen) else 2 * r.maxLen
  }

  function Last<T>(s: seq<T>): T
    requires s != []
  {
    s[|s| - 1]
  }

  function Empty(initialCapacity: nat, maxLen: nat): (r: Ring)
    ensures Inv(r)
  {
    Ring([], 0, initialCapacity, maxLen)
  }

  predicate FitsTail(r: Ring, n: nat)
    requires AllValid(r.chunks)
  {
    r.chunks != [] && n <= Last(r.chunks).FreeSpace()
  }

  /** The capacity of the chunk that a write of `n` bytes adds. */
  function NewCapacity(r: Ring, n: nat): nat {
    Max(if r.chunks == [] then r.initialCapacity else 2 * |Last(r.chunks).data|, n)
  }

  function WriteStatus(r: Ring, n: nat, allocOk: bool): WriteResult
    requires AllValid(r.chunks)
  {
    if r.len + n > r.maxLen then TooLarge
    else if FitsTail(r, n) || allocOk then Written
    else NoMemory
  }

  /** The chunks before the bytes go in: the one they will go into is last. */
  function MakeRoom(r: Ring, n: nat): seq<Chunk>
    requires AllValid(r.chunks)
  {
    if FitsTail(r, n) then r.chunks
    else if r.chunks != [] && Last(r.chunks).Len() == 0 then r.chunks[1..] + [NewChunk(NewCapacity(r, n))]
    else r.chunks + [NewChunk(NewCapacity(r, n))]
  }

  /** The chunks with `msg` in the last one. */
  function FillLast(room: seq<Chunk>, msg: seq<Byte>): seq<Chunk>
    requires room != [] && AllValid(room) && |msg| <= Last(room).FreeSpace()
  {
    room[|room| - 1 := PutAll(Last(room), msg)]
  }

  function Write(r: Ring, msg: seq<Byte>, allocOk: bool): Ring
    requires AllValid(r.chunks)
  {
    if WriteStatus(r, |msg|, allocOk) == Written then
      var room := MakeRoom(r, |msg|);
      assert Last(room) == NewChunk(NewCapacity(r, |msg|)) || FitsTail(r, |msg|);
      r.(chunks := FillLast(room, msg), len := r.len + |msg|)
    else r
  }

  /**
   A message is refused for its size exactly if it does not fit under the limit beside what is queued,
   and for want of memory exactly if it needs a new chunk and none is to be had.
   */
  lemma AcceptedExactly(r: Ring, msg: seq<Byte>, allocOk: bool)
    requires Inv(r)
    ensures var fits := r.chunks != [] && Last(r.chunks).Len() + |msg| <= |Last(r.chunks).data|;
            && (WriteStatus(r, |msg|, allocOk) == TooLarge <==> |Contents(r.chunks)| + |msg| > r.maxLen)
            && (WriteStatus(r, |msg|, allocOk) == NoMemory <==>
                  |Contents(r.chunks)| + |msg| <= r.maxLen && !fits && !allocOk)
    ensures WriteStatus(r, |msg|, allocOk) != Written ==> Write(r, msg, allocOk) == r
  {
  }

  predicate CanConsume(r: Ring, n: nat) {
    r.chunks != [] && r.chunks[0].Valid() && n <= r.chunks[0].Len()
  }

  function Consume(r: Ring, n: nat): Ring
    requires CanConsume(r, n) && n <= r.len
  {
    var chunk := r.chunks[0].Drop(n);
    var chunks :=
      if chunk.Len() != 0 || (|r.chunks| == 1 && |chunk.data| <= r.initialCapacity) then [chunk] + r.chunks[1..]
      else r.chunks[1..];
    r.(chunks := chunks, len := r.len - n)
  }

  lemma {:induction false} ContentsAppend(a: seq<Chunk>, b: seq<Chunk>)
    requires AllValid(a) && AllValid(b)
    ensures Contents(a + b) == Contents(a) + Contents(b)
  {
    if a == [] {
      assert a + b == b;
    } else {
      ContentsAppend(a[1..], b);
      assert (a + b)[1..] == a[1..] + b;
    }
  }

  lemma ContentsSingle(c: Chunk)
    requires c.Valid()
    ensures Contents([c]) == c.Queued()
  {
    assert Contents([c][1..]) == [];
  }

  lemma ContentsLast(chunks: seq<Chunk>)
    requires chunks != [] && AllValid(chunks)
    ensures Contents(chunks) == Contents(chunks[..|chunks| - 1]) + Last(chunks).Queued()
  {
    assert chunks == chunks[..|chunks| - 1] + [Last(chunks)];
    ContentsAppend(chunks[..|chunks| - 1], [Last(chunks)]);
    ContentsSingle(Last(chunks));
  }

  /** A chunk is added only behind a tail smaller than `maxLen`, and replaces it only when it is alone. */
  lemma TailIsSmall(r: Ring, n: nat)
    requires Inv(r) && r.len + n <= r.maxLen && !FitsTail(r, n) && r.chunks != []
    ensures |Last(r.chunks).data| < r.maxLen
    ensures Last(r.chunks).Len() == 0 ==> |r.chunks| == 1
  {
    ContentsLast(r.chunks);
  }

  /** Making room changes no queued byte. */
  lemma MakeRoomContents(r: Ring, n: nat)
    requires Inv(r) && r.len + n <= r.maxLen
    ensures var room := MakeRoom(r, n);
            && room != [] && AllValid(room) && n <= Last(room).FreeSpace()
            && Contents(room) == Contents(r.chunks)
  {
    if !FitsTail(r, n) {
      var added := NewChunk(NewCapacity(r, n));
      ContentsSingle(added);
      if r.chunks != [] {
        TailIsSmall(r, n);
      }
      if r.chunks == [] || Last(r.chunks).Len() != 0 {
        ContentsAppend(r.chunks, [added]);
      } else {
        assert r.chunks[1..] + [added] == [added];
        assert r.chunks == [r.chunks[0]];
        ContentsSingle(r.chunks[0]);
      }
    }
  }

  /** Making room keeps the shape: no empty chunk before the last, doubling, bounded capacity. */
  lemma MakeRoomShape(r: Ring, n: nat)
    requires Inv(r) && r.len + n <= r.maxLen
    ensures var room := MakeRoom(r, n);
            && room != [] && AllValid(room) && Doubling(room)
            && (1 < |room| && FitsTail(r, n) ==> 0 < Last(room).Len())
            && (!FitsTail(r, n) && n == 0 ==> |room| == 1)
            && (forall i :: 0 <= i < |room| - 1 ==> 0 < room[i].Len())
            && |Last(room).data| <= CapacityLimit(r, |room|)
    ensures r.chunks != [] && 0 < r.chunks[0].Len() ==> MakeRoom(r, n)[0] == r.chunks[0]
  {
    if r.chunks != [] && !FitsTail(r, n) {
      TailIsSmall(r, n);
      if Last(r.chunks).Len() == 0 {
        assert r.chunks[1..] == [];
      }
    }
  }

  /** Filling the last chunk extends the contents and disturbs nothing else. */
  lemma FillLastAppends(room: seq<Chunk>, msg: seq<Byte>)
    requires room != [] && AllValid(room) && |msg| <= Last(room).FreeSpace()
    ensures var filled := FillLast(room, msg);
            && AllValid(filled)
            && Contents(filled) == Contents(room) + msg
            && (Doubling(room) ==> Doubling(filled))
            && Last(filled).Queued() == Last(room).Queued() + msg
  {
    var filled := FillLast(room, msg);
    PutAllQueued(Last(room), msg);
    ContentsLast(room);
    ContentsLast(filled);
    assert filled[..|filled| - 1] == room[..|room| - 1];
  }

  /** A write queues the whole message inside one chunk, at the very end, or changes nothing. */
  lemma WriteAppends(r: Ring, msg: seq<Byte>, allocOk: bool)
    requires Inv(r)
    ensures var w := Write(r, msg, allocOk);
            && AllValid(w.chunks)
            && (WriteStatus(r, |msg|, allocOk) != Written ==> w == r)
            && (WriteStatus(r, |msg|, allocOk) == Written ==>
                 && Contents(w.chunks) == Contents(r.chunks) + msg
                 && w.chunks != []
                 && msg <= Last(w.chunks).Queued()[Last(w.chunks).Len() - |msg|..])
  {
    if WriteStatus(r, |msg|, allocOk) == Written {
      MakeRoomContents(r, |msg|);
      FillLastAppends(MakeRoom(r, |msg|), msg);
    }
  }

  lemma FillLastShape(room: seq<Chunk>, msg: seq<Byte>)
    requires room != [] && AllValid(room) && |msg| <= Last(room).FreeSpace() && Doubling(room)
    requires forall i :: 0 <= i < |room| - 1 ==> 0 < room[i].Len()
    requires 1 < |room| ==> 0 < Last(room).Len() + |msg|
    ensures var filled := FillLast(room, msg);
            AllValid(filled) && Doubling(filled) && NoIdleChunk(filled) && |Last(filled).data| == |Last(room).data|
  {
    var filled := FillLast(room, msg);
    assert forall i :: 0 <= i < |room| - 1 ==> filled[i] == room[i];
  }

  lemma WriteInv(r: Ring, msg: seq<Byte>, allocOk: bool)
    requires Inv(r)
    ensures Inv(Write(r, msg, allocOk))
  {
    if WriteStatus(r, |msg|, allocOk) == Written {
      MakeRoomContents(r, |msg|);
      MakeRoomShape(r, |msg|);
      WriteAppends(r, msg, allocOk);
      FillLastShape(MakeRoom(r, |msg|), msg);
    }
  }

  /** Consuming drops the oldest bytes. */
  lemma ConsumeDrops(r: Ring, n: nat)
    requires Inv(r) && CanConsume(r, n)
    ensures n <= |Contents(r.chunks)| == r.len
    ensures AllValid(Consume(r, n).chunks) && Contents(Consume(r, n).chunks) == Contents(r.chunks)[n..]
  {
    var chunk := r.chunks[0].Drop(n);
    DropQueued(r.chunks[0], n);
    var rest := r.chunks[1..];
    assert r.chunks == [r.chunks[0]] + rest;
    ContentsAppend([chunk], rest);
    ContentsSingle(chunk);
    assert Contents(r.chunks)[n..] == r.chunks[0].Queued()[n..] + Contents(rest);
    if chunk.Len() == 0 {
      assert chunk.Queued() == [];
    }
  }

  lemma PopShape(chunks: seq<Chunk>)
    requires chunks != [] && AllValid(chunks) && NoIdleChunk(chunks) && Doubling(chunks)
    ensures AllValid(chunks[1..]) && NoIdleChunk(chunks[1..]) && Doubling(chunks[1..])
  {
    var rest := chunks[1..];
    assert forall i :: 0 <= i < |rest| ==> rest[i] == chunks[i + 1];
  }

  lemma DropShape(chunks: seq<Chunk>, c: Chunk)
    requires chunks != [] && AllValid(chunks) && NoIdleChunk(chunks) && Doubling(chunks)
    requires c.Valid() && c.data == chunks[0].data && (c.Len() != 0 || |chunks| == 1)
    ensures var kept := [c] + chunks[1..];
            AllValid(kept) && NoIdleChunk(kept) && Doubling(kept)
  {
    var kept := [c] + chunks[1..];
    assert forall i :: 1 <= i < |kept| ==> kept[i] == chunks[i];
  }

  lemma ConsumeInv(r: Ring, n: nat)
    requires Inv(r) && CanConsume(r, n)
    ensures n <= r.len && Inv(Consume(r, n))
  {
    ConsumeDrops(r, n);
    var chunk := r.chunks[0].Drop(n);
    if chunk.Len() != 0 || (|r.chunks| == 1 && |chunk.data| <= r.initialCapacity) {
      DropShape(r.chunks, chunk);
    } else {
      PopShape(r.chunks);
    }
  }

  /** A ring that has been emptied keeps its last chunk exactly if that is no larger than the first one was to be. */
  lemma DrainedKeeps(r: Ring)
    requires Inv(r) && |r.chunks| == 1 && CanConsume(r, r.len)
    ensures var u := Consume(r, r.len);
            && (u.chunks == [] <==> r.initialCapacity < |r.chunks[0].data|)
            && AllValid(u.chunks) && Capacities(u.chunks) <= r.initialCapacity && Contents(u.chunks) == []
  {
    ContentsSingle(r.chunks[0]);
    assert r.chunks == [r.chunks[0]];
  }

  /** The head chunk's bytes are a prefix of everything queued, and empty only when nothing is. */
  lemma HeadIsPrefix(r: Ring)
    requires Inv(r) && r.chunks != []
    ensures r.chunks[0].Queued() <= Contents(r.chunks)
    ensures r.chunks[0].Len() == 0 <==> Contents(r.chunks) == []
  {
    if r.chunks[0].Len() == 0 {
      assert r.chunks == [r.chunks[0]];
      ContentsSingle(r.chunks[0]);
    }
  }

  // ---------- Runs ----------

  datatype Op = WriteOp(msg: seq<Byte>, allocOk: bool) | ConsumeOp(n: nat)

  function Apply(r: Ring, op: Op): Ring
    requires Inv(r)
    requires op.ConsumeOp? ==> CanConsume(r, op.n)
  {
    match op
    case WriteOp(msg, allocOk) => Write(r, msg, allocOk)
    case ConsumeOp(n) => ConsumeDrops(r, n); Consume(r, n)
  }

  lemma ApplyInv(r: Ring, op: Op)
    requires Inv(r)
    requires op.ConsumeOp? ==> CanConsume(r, op.n)
    ensures Inv(Apply(r, op))
    ensures Apply(r, op).maxLen == r.maxLen && Apply(r, op).initialCapacity == r.initialCapacity
  {
    match op
    case WriteOp(msg, allocOk) => WriteInv(r, msg, allocOk);
    case ConsumeOp(n) => ConsumeInv(r, n);
  }

  /** Every consume of the run takes no more than `peek` would show at that point. */
  predicate IsRun(r: Ring, ops: seq<Op>)
    requires Inv(r)
    decreases |ops|
  {
    ops == [] ||
    (&& (ops[0].ConsumeOp? ==> CanConsume(r, ops[0].n))
     && (ApplyInv(r, ops[0]); IsRun(Apply(r, ops[0]), ops[1..])))
  }

  function Run(r: Ring, ops: seq<Op>): (r': Ring)
    requires Inv(r) && IsRun(r, ops)
    ensures Inv(r') && r'.maxLen == r.maxLen && r'.initialCapacity == r.initialCapacity
    decreases |ops|
  {
    if ops == [] then r else
      ApplyInv(r, ops[0]);
      Run(Apply(r, ops[0]), ops[1..])
  }

  function AcceptedBy(r: Ring, op: Op): seq<Byte>
    requires Inv(r)
  {
    if op.WriteOp? && WriteStatus(r, |op.msg|, op.allocOk) == Written then op.msg else []
  }

  function TakenBy(r: Ring, op: Op): seq<Byte>
    requires Inv(r)
    requires op.ConsumeOp? ==> CanConsume(r, op.n)
  {
    if op.ConsumeOp? then r.chunks[0].Queued()[..op.n] else []
  }

  /** The messages of a run that the ring accepted. */
  function Accepted(r: Ring, ops: seq<Op>): seq<Byte>
    requires Inv(r) && IsRun(r, ops)
    decreases |ops|
  {
    if ops == [] then [] else
      ApplyInv(r, ops[0]);
      AcceptedBy(r, ops[0]) + Accepted(Apply(r, ops[0]), ops[1..])
  }

  /** The bytes a run takes out, read from the head chunk as they go. */
  function Taken(r: Ring, ops: seq<Op>): seq<Byte>
    requires Inv(r) && IsRun(r, ops)
    decreases |ops|
  {
    if ops == [] then [] else
      ApplyInv(r, ops[0]);
      TakenBy(r, ops[0]) + Taken(Apply(r, ops[0]), ops[1..])
  }

  lemma StepIsFifo(r: Ring, op: Op)
    requires Inv(r)
    requires op.ConsumeOp? ==> CanConsume(r, op.n)
    ensures TakenBy(r, op) + Contents(Apply(r, op).chunks) == Contents(r.chunks) + AcceptedBy(r, op)
  {
    match op
    case WriteOp(msg, allocOk) =>
      WriteAppends(r, msg, allocOk);
    case ConsumeOp(n) =>
      ConsumeDrops(r, n);
      HeadIsPrefix(r);
      assert Contents(r.chunks) == Contents(r.chunks)[..n] + Contents(r.chunks)[n..];
  }

  /** First in, first out, nothing lost, duplicated or reordered, over any run. */
  lemma {:induction false} RunIsFifo(r: Ring, ops: seq<Op>)
    requires Inv(r) && IsRun(r, ops)
    ensures Taken(r, ops) + Contents(Run(r, ops).chunks) == Contents(r.chunks) + Accepted(r, ops)
    decreases |ops|
  {
    if ops != [] {
      ApplyInv(r, ops[0]);
      var r1 := Apply(r, ops[0]);
      StepIsFifo(r, ops[0]);
      RunIsFifo(r1, ops[1..]);
      Rotate(TakenBy(r, ops[0]), Contents(r1.chunks), Contents(r.chunks), AcceptedBy(r, ops[0]),
        Taken(r1, ops[1..]), Contents(Run(r, ops).chunks), Accepted(r1, ops[1..]));
    }
  }

  lemma Rotate<T>(t: seq<T>, m: seq<T>, c: seq<T>, a: seq<T>, t': seq<T>, e: seq<T>, a': seq<T>)
    requires t + m == c + a && t' + e == m + a'
    ensures (t + t') + e == c + (a + a')
  {
    assert (t + t') + e == t + (t' + e) == t + (m + a') == (t + m) + a' == (c + a) + a' == c + (a + a');
  }

  /** Chunks that double are together at most twice the last one. */
  lemma {:induction false} DoublingSum(chunks: seq<Chunk>)
    requires chunks != []
    requires Doubling(chunks)
    ensures Capacities(chunks) + |chunks[0].data| <= 2 * |Last(chunks).data|
  {
    if |chunks| == 1 {
      assert chunks[1..] == [];
    } else {
      DoublingSum(chunks[1..]);
    }
  }

  /** The capacity of a ring is that of its chunks together. */
  lemma {:induction false} CapacityCounts(chunks: seq<Chunk>, i: nat)
    requires i < |chunks|
    ensures Capacities(chunks) == Capacities(chunks[..i]) + |chunks[i].data| + Capacities(chunks[i + 1..])
  {
    if i == 0 {
      assert chunks[..0] == [];
    } else {
      CapacityCounts(chunks[1..], i - 1);
      assert chunks[..i][1..] == chunks[1..][..i - 1] && chunks[1..][i..] == chunks[i + 1..];
    }
  }

  lemma InvBoundsCapacity(r: Ring)
    requires Inv(r)
    ensures Capacities(r.chunks) <= Max(r.initialCapacity, 4 * r.maxLen)
  {
    if |r.chunks| == 1 {
      assert r.chunks[1..] == [];
    } else if 1 < |r.chunks| {
      DoublingSum(r.chunks);
    }
  }

  /** No run ever holds more memory than this, however writes and consumes interleave. */
  lemma RunIsBounded(initialCapacity: nat, maxLen: nat, ops: seq<Op>)
    requires IsRun(Empty(initialCapacity, maxLen), ops)
    ensures Capacities(Run(Empty(initialCapacity, maxLen), ops).chunks) <= Max(initialCapacity, 4 * maxLen)
  {
    InvBoundsCapacity(Run(Empty(initialCapacity, maxLen), ops));
  }

  /** The bound also holds inside a write, while the replaced empty chunk is still allocated. */
  lemma PeakIsBounded(r: Ring, n: nat)
    requires Inv(r) && r.len + n <= r.maxLen && !FitsTail(r, n)
    ensures Capacities(r.chunks) + NewCapacity(r, n) <= Max(r.initialCapacity, 4 * r.maxLen)
  {
    if r.chunks != [] {
      TailIsSmall(r, n);
      DoublingSum(r.chunks);
    }
  }

  predicate OnlyWrites(ops: seq<Op>) {
    forall op <- ops :: op.WriteOp?
  }

  /** The chunk still holds, in the same slots, what it had queued. */
  predicate Holds(c: Chunk, c': Chunk)
    requires 0 < |c.data|
  {
    && c'.head == c.head && c.tail <= c'.tail && |c'.data| == |c.data|
    && forall p | c.head <= p < c.tail :: c'.At(p) == c.At(p)
  }

  lemma WriteHolds(r: Ring, msg: seq<Byte>, allocOk: bool)
    requires Inv(r) && r.chunks != [] && 0 < r.chunks[0].Len()
    ensures 0 < |r.chunks[0].data|
    ensures var r1 := Write(r, msg, allocOk); r1.chunks != [] && Holds(r.chunks[0], r1.chunks[0])
  {
    if WriteStatus(r, |msg|, allocOk) == Written {
      MakeRoomContents(r, |msg|);
      MakeRoomShape(r, |msg|);
      if |MakeRoom(r, |msg|)| == 1 {
        PutAllQueued(r.chunks[0], msg);
      }
    }
  }

  /**
   While an asynchronous send holds the ranges of the head chunk, any number of writes may
   follow: the chunk stays at the head, its slots keep their bytes and its read position stays.
   */
  lemma {:induction false} InFlightStable(r: Ring, ops: seq<Op>)
    requires Inv(r) && IsRun(r, ops) && OnlyWrites(ops)
    requires r.chunks != [] && 0 < r.chunks[0].Len()
    ensures 0 < |r.chunks[0].data|
    ensures var r' := Run(r, ops); r'.chunks != [] && Holds(r.chunks[0], r'.chunks[0])
    decreases |ops|
  {
    if ops != [] {
      ApplyInv(r, ops[0]);
      WriteHolds(r, ops[0].msg, ops[0].allocOk);
      InFlightStable(Apply(r, ops[0]), ops[1..]);
    }
  }
}
