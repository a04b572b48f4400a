/**
 BufferQueue: a bounded queue of packets whose heap buffers are recycled through a free
 list, proved to be a bounded sequence of packets.
 */
module BufferQueue {
  import opened Words
  import opened ByteBuffer
  import opened PacketFifo

  /** No buffer occurs twice. */
  ghost predicate Distinct(s: seq<Buffer>) {
    forall i, j :: 0 <= i < j < |s| ==> s[i] != s[j]
  }

  class BufferQueue {
    const capacity: nat
    const defaultSize: nat
    var queue: seq<Buffer>
    var freeList: seq<Buffer>

    // The packets in the queue; the memory of all buffers; which buffer owns an array; and
    // the longest the queue has been.
    ghost var packets: seq<Bytes>
    ghost var Repr: set<object>
    ghost var owner: map<object, Buffer>
    ghost var peak: nat

    /** A buffer the queue owns, with an array no other buffer has. */
    ghost predicate Owns(b: Buffer)
      reads this, Repr
    {
      && b in Repr && b.data != null && b.data in Repr && b.IsConsistent()
      && b.data in owner && owner[b.data] == b
    }

    /**
     Every buffer is owned and sits in one place of queue and free list, there are as many
     as the queue ever needed, and the queued ones hold the packets in order.
     */
    ghost predicate Valid()
      reads this, Repr
    {
      && this !in Repr
      && Distinct(queue + freeList)
      && (forall i :: 0 <= i < |queue| ==> Owns(queue[i]))
      && (forall i :: 0 <= i < |freeList| ==> Owns(freeList[i]))
      && |queue| + |freeList| == peak <= capacity
      && |packets| == |queue| && (forall i :: 0 <= i < |queue| ==> queue[i].Contents() == packets[i])
    }

    constructor (capacity: nat, defaultSize: nat)
      ensures Valid() && packets == [] && this.capacity == capacity && peak == 0 && fresh(Repr)
    {
      this.capacity := capacity;
      this.defaultSize := defaultSize;
      queue, freeList := [], [];
      packets, Repr, owner, peak := [], {}, map[], 0;
    }

    method Size() returns (n: nat)
      requires Valid()
      ensures n == |packets|
    {
      n := |queue|;
    }

    /** Takes the first packet, truncated to the room the caller has. */
    method ReadFront(buffer: array<Byte>, bytes: nat) returns (ok: bool, bytesRead: nat)
      requires Valid() && buffer !in Repr && bytes <= buffer.Length
      modifies this`queue, this`freeList, this`packets, buffer
      ensures Valid()
      ensures Outcome(ok, packets) == Next(old(packets), capacity, Read(bytes))
      ensures bytesRead <= buffer.Length && buffer[bytesRead..] == old(buffer[bytesRead..])
      ensures ok ==> buffer[..bytesRead] == Truncated(old(packets)[0], bytes)
    {
      hide Distinct;
      if queue == [] {
        return false, 0;
      }
      var packet := queue[0];
      MoveToFree(queue, freeList);
      queue := queue[1..];
      bytesRead := if bytes > packet.size then packet.size else bytes;
      forall i | 0 <= i < bytesRead {
        buffer[i] := packet.data[i];
      }
      freeList := freeList + [packet];
      packets := packets[1..];
      ok := true;
    }

    /** Appends a packet, in a recycled buffer when there is one. */
    method WriteBack(buffer: array<Byte>, bytes: nat) returns (ok: bool, bytesWritten: nat)
      requires Valid() && buffer !in Repr && bytes <= buffer.Length
      modifies this, Repr
      ensures Valid() && fresh(Repr - old(Repr))
      ensures bytesWritten == if ok then bytes else 0
      ensures Outcome(ok, packets) == Next(old(packets), capacity, Write(buffer[..bytes]))
      ensures peak == if |packets| > old(peak) then |packets| else old(peak)
    {
      hide Distinct;
      if |queue| == capacity {
        return false, 0;
      }
      var packet := TakeBuffer(bytes);
      Fill(packet, buffer, bytes);
      Enqueue(packet, buffer[..bytes]);
      return true, bytes;
    }

    /** A buffer in hand: it is owned like the others but in neither list. */
    ghost predicate Holding(packet: Buffer)
      reads this, Repr
    {
      && this !in Repr && Owns(packet)
      && Distinct((queue + [packet]) + freeList)
      && (forall i :: 0 <= i < |queue| ==> Owns(queue[i]) && queue[i] != packet)
      && (forall i :: 0 <= i < |freeList| ==> Owns(freeList[i]) && freeList[i] != packet)
      && |queue| + 1 + |freeList| == peak <= capacity
      && |packets| == |queue| && (forall i :: 0 <= i < |queue| ==> queue[i].Contents() == packets[i])
    }

    /** The last buffer of the free list, or a new one when there is none. */
    method TakeBuffer(bytes: nat) returns (packet: Buffer)
      requires Valid() && |queue| < capacity
      modifies this`freeList, this`Repr, this`owner, this`peak
      ensures Holding(packet) && old(Repr) <= Repr && fresh(Repr - old(Repr))
      ensures peak == if |queue| + 1 > old(peak) then |queue| + 1 else old(peak)
    {
      hide Distinct;
      if freeList != [] {
        MoveToQueue(queue, freeList);
        packet := freeList[|freeList| - 1];
        freeList := freeList[..|freeList| - 1];
      } else {
        packet := new Buffer(bytes, defaultSize);
        AddFresh(queue, packet);
        Repr := Repr + {packet, packet.data};
        owner := owner[packet.data := packet];
        peak := peak + 1;
        assert queue + [packet] + freeList == queue + [packet] + [];
      }
    }

    /** Stores a packet in the buffer in hand; the other buffers keep theirs. */
    method Fill(packet: Buffer, buffer: array<Byte>, bytes: nat)
      requires Holding(packet) && buffer !in Repr && bytes <= buffer.Length
      modifies packet, packet.data, this`Repr, this`owner
      ensures Holding(packet) && packet.Contents() == buffer[..bytes]
      ensures old(Repr) <= Repr && fresh(Repr - old(Repr))
    {
      hide Distinct;
      packet.SetData(buffer, bytes);
      assert forall i :: 0 <= i < |queue| ==> queue[i].Contents() == packets[i];
      Repr, owner := Repr + {packet.data}, owner[packet.data := packet];
    }

    /** Appends a filled buffer. */
    method Enqueue(packet: Buffer, ghost contents: Bytes)
      requires Holding(packet) && packet.Contents() == contents
      modifies this`queue, this`packets
      ensures Valid() && packets == old(packets) + [contents]
    {
      hide Distinct;
      queue := queue + [packet];
      packets := packets + [contents];
    }
  }

  lemma MoveToFree(queue: seq<Buffer>, free: seq<Buffer>)
    requires queue != [] && Distinct(queue + free)
    ensures Distinct(queue[1..] + (free + [queue[0]]))
  {
    var before, after := queue + free, queue[1..] + (free + [queue[0]]);
    forall i, j | 0 <= i < j < |after| ensures after[i] != after[j] {
      assert after[i] == before[i + 1] && after[j] == before[if j == |after| - 1 then 0 else j + 1];
    }
  }

  lemma MoveToQueue(queue: seq<Buffer>, free: seq<Buffer>)
    requires free != [] && Distinct(queue + free)
    ensures Distinct((queue + [free[|free| - 1]]) + free[..|free| - 1])
    ensures free[|free| - 1] !in queue && free[|free| - 1] !in free[..|free| - 1]
  {
    var last := |free| - 1;
    var before, after := queue + free, (queue + [free[last]]) + free[..last];
    forall i, j | 0 <= i < j < |after| ensures after[i] != after[j] {
      assert after[i] == before[if i < |queue| then i else if i == |queue| then |queue| + last else i - 1];
      assert after[j] == before[if j < |queue| then j else if j == |queue| then |queue| + last else j - 1];
    }
    assert before[|queue| + last] == free[last];
    assert forall i :: 0 <= i < |queue| ==> before[i] == queue[i];
    assert forall i :: 0 <= i < last ==> before[|queue| + i] == free[i];
  }

  lemma AddFresh(queue: seq<Buffer>, b: Buffer)
    requires Distinct(queue + []) && b !in queue
    ensures Distinct((queue + [b]) + [])
  {
    assert forall i :: 0 <= i < |queue| ==> (queue + [])[i] == queue[i];
  }
}
