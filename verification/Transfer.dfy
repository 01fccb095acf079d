/** The transfer operations, which update their vector, counters and result in place. */
module Transfer {
  import opened Bytes
  import opened TransferSpec

  /**
   * Consumes `n` bytes of the `count` entries from `first` on. Returns where the entries left over
   * start, their number, and the bytes that the vector did not have.
   */
  method IovConsume(iov: array<Iov>, first: nat, count: nat, n: nat)
    returns (first': nat, count': nat, over: nat)
    requires first + count <= iov.Length
    modifies iov
    ensures first' + count' == first + count && first <= first'
    ensures iov[first'..first' + count'] == Rest(old(iov[first..first + count]), n)
    ensures over == if n > Total(old(iov[first..first + count])) then n - Total(old(iov[first..first + count])) else 0
    ensures forall k :: 0 <= k < iov.Length && !(first <= k < first + count) ==> iov[k] == old(iov[k])
  {
    var zeroed := 0;
    over := n;
    ghost var entries := iov[first..first + count];
    assert entries[0..] == entries;
    while zeroed < count && iov[first + zeroed].len <= over
      invariant zeroed <= count
      invariant Rest(entries, n) == Rest(entries[zeroed..], over)
      invariant n - Total(entries) == over - Total(entries[zeroed..])
      invariant iov[first + zeroed..first + count] == entries[zeroed..]
      invariant forall k :: 0 <= k < iov.Length && !(first <= k < first + zeroed) ==> iov[k] == old(iov[k])
    {
      assert entries[zeroed..][0] == iov[first + zeroed];
      assert entries[zeroed..][1..] == entries[zeroed + 1..];
      over := over - iov[first + zeroed].len;
      iov[first + zeroed] := iov[first + zeroed].(len := 0);
      zeroed := zeroed + 1;
    }
    first', count' := first + zeroed, count - zeroed;
    if zeroed < count {
      assert entries[zeroed..][0] == iov[first'];
      iov[first'] := Iov(iov[first'].base + over, iov[first'].len - over);
      over := 0;
    }
  }

  method IovBytes(iov: array<Iov>, count: nat) returns (bytes: nat)
    requires count <= iov.Length
    ensures bytes == Total(iov[..count])
  {
    bytes := 0;
    var i := 0;
    while i < count
      invariant i <= count
      invariant Total(iov[..count]) == bytes + Total(iov[i..count])
    {
      assert iov[i..count][1..] == iov[i + 1..count];
      bytes := bytes + iov[i].len;
      i := i + 1;
    }
  }

  /** The operation that sends buffers, or buffers and a file. */
  class SendOp {
    const job: Job
    const headerLen: nat
    const iov: array<Iov>
    var first: nat
    var count: nat
    var pos: nat
    var err: Err
    var completed: bool
    ghost var wire: seq<Byte>
    ghost var calls: seq<(nat, Err)>

    ghost predicate Valid()
      reads this, iov
    {
      && ValidJob(job) && headerLen == Total(job.iov)
      && first + count <= iov.Length
      && Inside(job.mem, iov[first..first + count])
      && pos <= Wanted(job)
    }

    ghost function View(): Sending
      requires first + count <= iov.Length
      reads this, iov
    {
      Sending(iov[first..first + count], pos, if completed then Some(err) else None, wire, calls)
    }

    constructor (job: Job, iov: array<Iov>)
      requires ValidJob(job) && job.iov == iov[..]
      ensures Valid() && this.job == job && this.iov == iov
      ensures View() == Start(job) && Consistent(job, View())
    {
      this.job, this.iov := job, iov;
      first, count, pos := 0, iov.Length, 0;
      err, completed, wire, calls := Ok, false, [], [];
      var bytes := IovBytes(iov, iov.Length);
      headerLen := bytes;
      assert iov[..iov.Length] == iov[..];
      StartIsConsistent(job);
      new;
      assert iov[0..iov.Length] == iov[..];
    }

    method Complete(error: Err)
      requires first + count <= iov.Length
      modifies this`err, this`completed
      ensures View() == old(View()).(done := Some(error))
    {
      err := error;
      completed := true;
    }

    /** Counts the first `result` bytes of an offer as sent. */
    method Take(result: nat, ghost offer: seq<Byte>)
      requires first + count <= iov.Length && result <= |offer|
      modifies this`first, this`count, this`pos, this`wire, iov
      ensures first + count <= iov.Length
      ensures var s := old(View());
        View() == s.(pos := s.pos + result, left := Rest(s.left, result), wire := s.wire + offer[..result])
    {
      pos := pos + result;
      var over;
      first, count, over := IovConsume(iov, first, count, result);
      wire := wire + offer[..result];
    }

    /** One attempt; the answer is what the socket makes of the offer. */
    method Attempt(answer: Answer) returns (error: Err)
      requires Valid() && Progress(job, View().left, pos, wire)
      modifies this`first, this`count, this`pos, this`wire, iov
      ensures Valid() && Progress(job, View().left, pos, wire)
      ensures (View(), error) == TransferSpec.Attempt(job, old(View()), answer)
    {
      hide Content, Offer, Rest, ValidJob, Progress;
      ghost var s := View();
      AttemptKeepsProgress(job, s, answer);
      match answer {
        case Refused(refusal) =>
          error := refusal;
        case Moved(n) =>
          var available := Offered();
          Take(Min(n, available), Offer(job, s));
          if job.Buffers? {
            error := if count == 0 then Ok else WouldBlock;
          } else {
            error := if pos == headerLen + job.len then Ok else WouldBlock;
          }
          assert (View(), error) == TransferSpec.Attempt(job, s, answer);
      }
    }

    /** The size of the offer: what is left of the vector and the next chunk of the file. */
    method Offered() returns (available: nat)
      requires Valid()
      ensures available == |Offer(job, View())|
    {
      available := 0;
      var i := 0;
      while i < count
        invariant i <= count
        invariant Total(iov[first..first + count]) == available + Total(iov[first + i..first + count])
      {
        assert iov[first + i..first + count][1..] == iov[first + i + 1..first + count];
        available := available + iov[first + i].len;
        i := i + 1;
      }
      if job.WithFile? {
        var filePos := if pos > headerLen then pos - headerLen else 0;
        var remaining := job.len - filePos;
        var chunk := Min(remaining, CHUNK_LEN);
        available := available + |Slice(job.file, job.offset + filePos, job.offset + filePos + chunk)|;
      }
    }

    /** The operation's function: finalizes a completed operation, and otherwise makes an attempt. */
    method Fn(answer: Answer, submitted: Err)
      requires Valid() && Consistent(job, View()) && Legal(View(), Perform(answer, submitted))
      modifies this, iov
      ensures Valid() && Consistent(job, View())
      ensures View() == Step(job, old(View()), Perform(answer, submitted))
    {
      hide TransferSpec.Attempt, Rest, Content, ValidJob, Total;
      StepKeepsConsistent(job, View(), Perform(answer, submitted));
      ghost var after := Step(job, View(), Perform(answer, submitted));
      if completed {
        calls := calls + [(pos, err)];
      } else {
        var error := Attempt(answer);
        var waits := error == WouldBlock && submitted == Ok;
        if !waits {
          Complete(if error == WouldBlock then submitted else error);
        }
      }
      assert View() == after;
    }

    method OnAbort(error: Err)
      requires Valid() && Consistent(job, View()) && Legal(View(), Abort(error))
      modifies this`err, this`completed
      ensures Valid() && Consistent(job, View())
      ensures View() == Step(job, old(View()), Abort(error))
    {
      StepKeepsConsistent(job, View(), Abort(error));
      Complete(error);
    }
  }

  /** The operation that receives into a buffer. */
  class RecvOp {
    const buf: array<Byte>
    const exact: bool
    var pos: nat
    var err: Err
    var completed: bool
    ghost var calls: seq<(nat, Err)>

    ghost function View(): Receiving
      reads this, buf
    {
      Receiving(buf[..], pos, if completed then Some(err) else None, calls)
    }

    constructor (buf: array<Byte>, exact: bool)
      ensures this.buf == buf && this.exact == exact
      ensures View() == Receiving(buf[..], 0, None, []) && RecvConsistent(exact, View())
    {
      this.buf, this.exact := buf, exact;
      pos, err, completed, calls := 0, Ok, false, [];
    }

    /** One attempt: arrived bytes go to the free part of the buffer. */
    method Attempt(arrival: Arrival) returns (error: Err)
      requires pos <= buf.Length && !completed
      modifies this`pos, buf
      ensures pos <= buf.Length
      ensures var t := Handed(old(View()), Recv(arrival, Ok));
        && pos == old(pos) + |t|
        && buf[..] == old(buf[..pos]) + t + old(buf[..])[pos..]
      ensures error == if arrival.NoData? then arrival.err else if !exact || pos == buf.Length then Ok else WouldBlock
    {
      match arrival {
        case NoData(refusal) =>
          error := refusal;
          assert buf[..] == buf[..pos] + [] + buf[pos..];
        case Data(bytes) =>
          var n := Min(|bytes|, buf.Length - pos);
          forall k | 0 <= k < n {
            buf[pos + k] := bytes[k];
          }
          pos := pos + n;
          error := if !exact || pos == buf.Length then Ok else WouldBlock;
      }
    }

    method Fn(arrival: Arrival, submitted: Err)
      requires RecvConsistent(exact, View()) && RecvLegal(View(), Recv(arrival, submitted))
      modifies this, buf
      ensures RecvConsistent(exact, View())
      ensures View() == RecvStep(exact, old(View()), Recv(arrival, submitted))
    {
      ghost var after := RecvStep(exact, View(), Recv(arrival, submitted));
      RecvStepWrites(exact, View(), Recv(arrival, submitted));
      if completed {
        calls := calls + [(pos, err)];
      } else {
        var error := Attempt(arrival);
        if error == WouldBlock {
          error := submitted;
          if error == Ok {
            assert View() == after;
            return;
          }
        }
        err := error;
        completed := true;
      }
      assert View() == after;
    }

    method OnAbort(error: Err)
      requires RecvConsistent(exact, View()) && RecvLegal(View(), Drop(error))
      modifies this`err, this`completed
      ensures RecvConsistent(exact, View()) && View() == RecvStep(exact, old(View()), Drop(error))
    {
      err := error;
      completed := true;
    }
  }
}
