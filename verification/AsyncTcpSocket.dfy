/**
 AsyncTCPSocket: the fixed input and output buffers of one endpoint, updated in place.
 The answers of the socket underneath are parameters of each call; the bytes it took and
 the packets signalled to the application are results.
 */
module AsyncTcpSocket {
  import opened Words
  import opened TcpFraming

  class AsyncTCPSocket {
    const inbuf: array<Byte>
    const outbuf: array<Byte>
    var inpos: nat
    var outpos: nat

    ghost predicate Valid()
      reads this
    {
      && inbuf.Length == BUF_SIZE && outbuf.Length == BUF_SIZE && inbuf != outbuf
      && inpos <= inbuf.Length && outpos <= outbuf.Length
    }

    ghost function Input(): Bytes
      reads this, inbuf
      requires inpos <= inbuf.Length
    {
      inbuf[..inpos]
    }

    ghost function Output(): Bytes
      reads this, outbuf
      requires outpos <= outbuf.Length
    {
      outbuf[..outpos]
    }

    constructor ()
      ensures Valid() && Input() == [] && Output() == []
      ensures fresh(inbuf) && fresh(outbuf)
    {
      inbuf := new Byte[BUF_SIZE];
      outbuf := new Byte[BUF_SIZE];
      inpos, outpos := 0, 0;
    }

    /** memcpy into a buffer at a position. */
    static method CopyInto(a: array<Byte>, at: nat, data: Bytes)
      requires at + |data| <= a.Length
      modifies a
      ensures a[..at + |data|] == old(a[..at]) + data
    {
      for i := 0 to |data|
        invariant a[..at] == old(a[..at])
        invariant a[at..at + i] == data[..i]
      {
        a[at + i] := data[i];
      }
      assert a[..at + |data|] == a[..at] + a[at..at + |data|];
      assert data[..|data|] == data;
    }

    /** memmove of count bytes to the front of a buffer. */
    static method MoveToFront(a: array<Byte>, from: nat, count: nat)
      requires from + count <= a.Length
      modifies a
      ensures a[..count] == old(a[from..from + count])
    {
      for i := 0 to count
        invariant forall k :: 0 <= k < i ==> a[k] == old(a[from + k])
        invariant forall k :: i <= k < a.Length ==> a[k] == old(a[k])
      {
        a[i] := a[from + i];
      }
    }

    /** Offers the whole buffer to the socket, which answers res. */
    method FlushOutBuffer(res: int) returns (result: int, taken: Bytes)
      requires Valid()
      modifies this`outpos, outbuf
      ensures Valid()
      ensures Flushed(result, Output(), taken) == Flush(old(Output()), res)
    {
      taken := [];
      if res <= 0 {
        return res, taken;
      }
      if res <= outpos {
        taken := outbuf[..res];
        outpos := outpos - res;
      } else {
        return -1, taken;
      }
      if outpos > 0 {
        MoveToFront(outbuf, res, outpos);
      }
      assert Output() == old(Output())[res..];
      result := res;
    }

    method AppendToOutBuffer(data: Bytes)
      requires Valid() && AppendAsserts(Output(), data)
      modifies this`outpos, outbuf
      ensures Valid() && Output() == old(Output()) + data
    {
      CopyInto(outbuf, outpos, data);
      outpos := outpos + |data|;
    }

    /** A packet is sent, refused for its size, or silently dropped; what was accepted is whole. */
    method Send(packet: Bytes, res: int) returns (result: int, taken: Bytes, ghost accepted: bool)
      requires Valid() && SendAsserts(Output(), packet)
      modifies this`outpos, outbuf
      ensures Valid()
      ensures Sent(result, Output(), taken, accepted) == SendEffect(old(Output()), packet, res)
    {
      taken, accepted := [], false;
      if |packet| > BUF_SIZE {
        return -1, taken, accepted;
      }
      if outpos != 0 {
        assert Output() != [];
        return |packet|, taken, accepted;
      }
      AppendToOutBuffer(LengthField(|packet|));
      AppendToOutBuffer(packet);
      assert Output() == Frame(packet);
      result, taken := FlushOutBuffer(res);
      if result <= 0 {
        outpos := 0;
        return result, [], accepted;
      }
      return |packet|, taken, true;
    }

    method OnWriteEvent(res: int) returns (ready: bool, taken: Bytes)
      requires Valid()
      modifies this`outpos, outbuf
      ensures Valid() && ready == (Output() == [])
      ensures Output() == if old(Output()) == [] then [] else Flush(old(Output()), res).out
      ensures taken == if old(Output()) == [] then [] else Flush(old(Output()), res).taken
    {
      taken := [];
      if outpos > 0 {
        var result;
        result, taken := FlushOutBuffer(res);
      }
      ready := outpos == 0;
      assert ready <==> Output() == [];
    }

    /** Removes the first n bytes of the input. */
    method DropFront(n: nat)
      requires Valid() && n <= inpos
      modifies this`inpos, inbuf
      ensures Valid() && inpos == old(inpos) - n && Input() == old(Input())[n..]
    {
      inpos := inpos - n;
      if inpos > 0 {
        MoveToFront(inbuf, n, inpos);
      }
      assert Input() == old(inbuf[n..inpos]);
    }

    /** The frame loop: delivers every whole packet and moves the rest to the front. */
    method ProcessInput() returns (packets: seq<Bytes>)
      requires Valid()
      modifies this`inpos, inbuf
      ensures Valid()
      ensures Parsed(packets, Input()) == Parse(old(Input()))
    {
      hide Parse, GetBE16;
      packets := [];
      while true
        invariant Valid()
        invariant var later := Parse(Input());
                  Parsed(packets + later.packets, later.rest) == Parse(old(Input()))
        decreases inpos
      {
        var data := inbuf[..inpos];
        ParseStep(data);
        if inpos < PACKET_LEN_SIZE {
          break;
        }
        var length := GetBE16(data);
        if inpos < PACKET_LEN_SIZE + length {
          break;
        }
        var n := PACKET_LEN_SIZE + length;
        assert FrameSize(data) == n;
        packets := packets + [data[PACKET_LEN_SIZE..n]];
        DropFront(n);
      }
      assert packets + [] == packets;
    }

    /** A read event; the overflow branch is never taken, and two bytes are always free for the next read. */
    method OnReadEvent(len: int, received: Bytes) returns (packets: seq<Bytes>)
      requires Valid() && !Complete(Input())
      requires len >= 0 ==> len == |received| <= BUF_SIZE - inpos
      modifies this`inpos, inbuf
      ensures Valid() && !Complete(Input()) && BUF_SIZE - inpos >= 2
      ensures len < 0 ==> packets == [] && Input() == old(Input())
      ensures len >= 0 ==> Parsed(packets, Input()) == Parse(old(Input()) + received)
    {
      packets := [];
      LeftoverBound(Input());
      if len < 0 {
        return;
      }
      CopyInto(inbuf, inpos, received);
      inpos := inpos + len;
      packets := ProcessInput();
      LeftoverBound(Input());
      if inpos >= inbuf.Length {
        assert false;
      }
    }
  }
}
