/** The sending side of a WebSocket connection as it runs, on top of the ring. */
module WsSend {
  import opened Bytes
  import opened WsFrame
  import R = Ring
  import RingSpec
  import opened WsSendSpec

  class Sender {
    const ring: R.Ring
    var iov: seq<R.Iov>  // what the outstanding send was given
    var sending: bool
    var closing: bool
    var alive: bool
    ghost var outstanding: nat
    ghost var offered: seq<Byte>
    ghost var wire: seq<Byte>
    ghost var accepted: seq<Sent>

    ghost predicate Valid()
      reads this, ring, ring.Parts
    {
      ring.Valid() && this !in ring.Parts && Holds(iov, offered)
    }

    /** The ranges are those of the oldest queued bytes, as many as were offered. */
    ghost predicate Holds(ranges: seq<R.Iov>, bytes: seq<Byte>)
      requires ring.Valid()
      reads ring, ring.Parts
    {
      bytes != [] ==>
        && ring.chunks != [] && |bytes| <= ring.States()[0].Len()
        && ranges == R.RangesFor(ring.chunks[0].data, ring.chunks[0].head, |bytes|)
    }

    /**
     Whatever was queued since, an outstanding send reads from its ranges the very bytes it was
     given when it was started.
     */
    lemma SendReadsOffered()
      requires Valid() && SendOk(View()) && alive && 0 < outstanding
      ensures forall i :: 0 <= i < |iov| ==> R.InBounds(iov[i])
      ensures offered != [] && R.Gather(iov) == offered
    {
      var c := ring.chunks[0];
      assert ring.States()[0] == c.State();
      c.RangesHold(|offered|);
      assert offered == c.State().Queued()[..|offered|];
    }

    ghost function View(): Ws
      requires Valid()
      reads this, ring, ring.Parts
    {
      Ws(ring.View(), sending, closing, alive, outstanding, offered, wire, accepted)
    }

    /** The bytes that an outstanding send finds in its ranges now. */
    ghost function InFlight(): (bytes: seq<Byte>)
      requires Valid() && SendOk(View()) && alive && 0 < outstanding
      reads this, ring, ring.Parts
      ensures bytes == offered
    {
      SendReadsOffered();
      R.Gather(iov)
    }

    constructor (initialCapacity: nat, maxLen: nat)
      ensures Valid() && View() == Start(initialCapacity, maxLen)
      ensures fresh(ring) && ring.Parts == {}
    {
      ring := new R.Ring(initialCapacity, maxLen);
      iov, sending, closing, alive := [], false, false, true;
      outstanding, offered, wire, accepted := 0, [], [], [];
    }

    /** The ranges to send next, if there is anything to send. */
    method NextRanges() returns (ranges: seq<R.Iov>, ghost bytes: seq<Byte>)
      requires Valid()
      ensures |ranges| == 0 <==> Idle(ring.View())
      ensures |ranges| > 0 ==> bytes == ring.View().chunks[0].Queued() && Holds(ranges, bytes)
    {
      IdleIsEmpty(ring.View());
      ranges := ring.Peek();
      bytes := if |ranges| == 0 then [] else ring.View().chunks[0].Queued();
    }

    method SendDrain()
      requires Valid()
      modifies this`iov, this`sending, this`alive, this`outstanding, this`offered
      ensures Valid() && View() == Drain(old(View()))
    {
      ghost var bytes;
      var ranges;
      ranges, bytes := NextRanges();
      if |ranges| == 0 {
        Update(iov, false, alive && !closing, outstanding, offered);
      } else {
        Update(ranges, true, alive, outstanding + 1, bytes);
      }
    }

    method Update(ranges: seq<R.Iov>, sending: bool, alive: bool, ghost outstanding: nat, ghost offered: seq<Byte>)
      requires Valid() && Holds(ranges, offered)
      modifies this`iov, this`sending, this`alive, this`outstanding, this`offered
      ensures Valid()
      ensures View() == old(View()).(sending := sending, alive := alive, outstanding := outstanding, offered := offered)
    {
      ghost var r := ring.View();
      this.iov, this.sending, this.alive := ranges, sending, alive;
      this.outstanding, this.offered := outstanding, offered;
      assert ring.View() == r;
    }

    /** The header, written into a local buffer, and the payload. */
    static method FrameParts(frame: FrameType, data: seq<Byte>) returns (parts: seq<seq<Byte>>)
      requires |data| < SIZE_LIMIT
      ensures Concat(parts) == WireOf(Sent(frame, data))
    {
      var header := new Byte[HEADER_MAX_LEN](_ => 0);
      var n := WriteHeader(header, frame, |data|);
      parts := [header[..n], data];
      assert parts[1..] == [data] && [data][1..] == [];
      assert Concat([data]) == data + Concat([]) == data;
    }

    method QueueFrame(frame: FrameType, data: seq<Byte>, allocOk: bool) returns (result: RingSpec.WriteResult)
      requires Valid() && |data| < SIZE_LIMIT
      modifies this, ring, ring.Parts
      ensures Valid() && fresh(ring.Parts - old(ring.Parts))
      ensures View() == WsSendSpec.QueueFrame(old(View()), Sent(frame, data), allocOk)
      ensures result == QueueStatus(old(View()), Sent(frame, data), allocOk)
      ensures result == RingSpec.Written <==> |accepted| == |old(accepted)| + 1
    {
      hide Valid, RingSpec.Inv, RingSpec.Contents;
      var parts := FrameParts(frame, data);
      result := Enqueue(frame, data, parts, allocOk);
      if result == RingSpec.Written && !sending {
        SendDrain();
      }
    }

    /** A write moves nothing that has been offered. */
    lemma HeadStays(msg: seq<Byte>, allocOk: bool)
      requires Valid() && offered != []
      ensures 0 < ring.len
      ensures var w := RingSpec.Write(ring.View(), msg, allocOk);
              w.chunks != [] && w.chunks[0].head == ring.chunks[0].head && ring.chunks[0].tail <= w.chunks[0].tail
    {
      RingSpec.HeadIsPrefix(ring.View());
      RingSpec.WriteHolds(ring.View(), msg, allocOk);
    }

    method Enqueue(ghost frame: FrameType, ghost data: seq<Byte>, parts: seq<seq<Byte>>, allocOk: bool)
      returns (result: RingSpec.WriteResult)
      requires Valid() && Concat(parts) == WireOf(Sent(frame, data))
      modifies this`accepted, ring, ring.Parts
      ensures Valid() && fresh(ring.Parts - old(ring.Parts))
      ensures result == QueueStatus(old(View()), Sent(frame, data), allocOk)
      ensures View() == old(View()).(
        ring := RingSpec.Write(old(ring.View()), WireOf(Sent(frame, data)), allocOk),
        accepted := old(accepted) + if result == RingSpec.Written then [Sent(frame, data)] else [])
    {
      if offered != [] {
        HeadStays(Concat(parts), allocOk);
      }
      result := ring.Write(parts, allocOk);
      Accept(if result == RingSpec.Written then [Sent(frame, data)] else []);
    }

    ghost method Accept(sent: seq<Sent>)
      requires Valid()
      modifies this`accepted
      ensures Valid() && View() == old(View()).(accepted := old(accepted) + sent)
    {
      ghost var r := ring.View();
      accepted := accepted + sent;
      assert ring.View() == r;
    }

    /** Queues a message, unless a CLOSE frame has been or is about to be queued. */
    method Send(data: seq<Byte>, text: bool, allocOk: bool) returns (ok: bool)
      requires Valid() && Enabled(View(), SendMessage(text, data, allocOk))
      modifies this, ring, ring.Parts
      ensures Valid() && fresh(ring.Parts - old(ring.Parts))
      ensures View() == Step(old(View()), SendMessage(text, data, allocOk))
      ensures ok <==> |accepted| == |old(accepted)| + 1
      ensures old(closing) ==> !ok
    {
      if closing {
        return false;
      }
      var result := QueueFrame(if text then Text else Binary, data, allocOk);
      ok := result == RingSpec.Written;
    }

    /** Queues the one CLOSE frame of the connection. */
    method QueueClose(allocOk: bool) returns (result: RingSpec.WriteResult)
      requires Valid() && !closing
      modifies this, ring, ring.Parts
      ensures Valid() && fresh(ring.Parts - old(ring.Parts)) && closing
      ensures View() == WsSendSpec.QueueFrame(old(View()).(closing := true), Sent(Close, []), allocOk)
      ensures result == RingSpec.Written <==> |accepted| == |old(accepted)| + 1
    {
      hide RingSpec.Inv;
      ghost var s := View();
      closing := true;
      assert View() == s.(closing := true);
      result := QueueFrame(Close, [], allocOk);
    }

    method CloseConnection(allocOk: bool) returns (ok: bool)
      requires Valid() && Enabled(View(), CloseCalled(allocOk))
      modifies this, ring, ring.Parts
      ensures Valid() && fresh(ring.Parts - old(ring.Parts))
      ensures View() == Step(old(View()), CloseCalled(allocOk))
      ensures closing && (old(closing) ==> !ok)
      ensures ok <==> |accepted| == |old(accepted)| + 1
    {
      if closing {
        return false;
      }
      var result := QueueClose(allocOk);
      ok := result == RingSpec.Written;
    }

    /** The reaction to a CLOSE frame from the peer: echo it once, then stop reading. */
    method OnPeerClose(allocOk: bool)
      requires Valid() && Enabled(View(), PeerClosed(allocOk))
      modifies this, ring, ring.Parts
      ensures Valid() && fresh(ring.Parts - old(ring.Parts))
      ensures View() == Step(old(View()), PeerClosed(allocOk))
    {
      if !closing {
        var _ := QueueClose(allocOk);
      }
    }

    /** A send has completed with `n` bytes, or failed. */
    method HandleSend(n: nat, ok: bool)
      requires Valid() && Enabled(View(), if ok then SendDone(n) else SendFailed)
      modifies this, ring, ring.Parts
      ensures Valid() && ring.Parts == old(ring.Parts)
      ensures View() == Step(old(View()), if ok then SendDone(n) else SendFailed)
      ensures ok && old(SendOk(View())) ==> wire == old(wire) + old(InFlight())[..n]
    {
      if ok {
        Complete(n);
        SendDrain();
      } else {
        Update(iov, sending, false, outstanding - 1, []);
      }
    }

    ghost method Arrive(n: nat)
      requires Valid() && RingSpec.CanConsume(ring.View(), n) && 0 < outstanding && n <= |offered|
      modifies this`outstanding, this`offered, this`wire
      ensures Valid() && ring.View() == old(ring.View())
      ensures outstanding == old(outstanding) - 1 && offered == []
      ensures wire == old(wire) + old(offered)[..n]
    {
      ghost var r := ring.View();
      wire, offered, outstanding := wire + offered[..n], [], outstanding - 1;
      assert ring.View() == r;
    }

    method Complete(n: nat)
      requires Valid() && RingSpec.CanConsume(ring.View(), n) && 0 < outstanding && n <= |offered|
      modifies this`outstanding, this`offered, this`wire, ring, ring.Parts
      ensures Valid() && ring.Parts == old(ring.Parts)
      ensures View() == AfterSend(old(View()), n)
    {
      Arrive(n);
      ring.Consume(n);
    }
  }
}
