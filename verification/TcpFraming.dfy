/**
 Packets over a byte stream: each packet travels behind its length in two bytes, most
 significant first, the framing of section 2 of RFC 4571.  This module holds the wire
 format, the reassembly of packets from arbitrary segments, and the two connected
 endpoints as a state machine.
 */
module TcpFraming {
  import opened Words

  const MAX_PACKET_SIZE: nat := 64 * 1024
  const PACKET_LEN_SIZE: nat := 2
  const BUF_SIZE: nat := MAX_PACKET_SIZE + PACKET_LEN_SIZE
  // The largest length that sixteen bits can carry.
  const MAX_PAYLOAD: nat := 65535

  /** The length field: the count cast to sixteen bits, in network order. */
  function LengthField(n: nat): Bytes {
    [n % 65536 / 256, n % 256]
  }

  function GetBE16(buf: Bytes): nat
    requires |buf| >= 2
  {
    var high: nat := buf[0];
    256 * high + buf[1]
  }

  function Frame(packet: Bytes): Bytes {
    LengthField(|packet|) + packet
  }

  function Frames(packets: seq<Bytes>): Bytes {
    if packets == [] then [] else Frame(packets[0]) + Frames(packets[1..])
  }

  predicate Sendable(packet: Bytes) {
    |packet| <= MAX_PAYLOAD
  }

  predicate AllSendable(packets: seq<Bytes>) {
    forall i :: 0 <= i < |packets| ==> Sendable(packets[i])
  }

  // ------------------------------------------------------------- reassembly

  datatype Parsed = Parsed(packets: seq<Bytes>, rest: Bytes)

  /** The buffer starts with a whole frame. */
  predicate Complete(buf: Bytes) {
    |buf| >= PACKET_LEN_SIZE && |buf| >= PACKET_LEN_SIZE + GetBE16(buf)
  }

  function FrameSize(buf: Bytes): nat
    requires Complete(buf)
  {
    PACKET_LEN_SIZE + GetBE16(buf)
  }

  /** What the receiving loop delivers from a buffer, and what it keeps. */
  function Parse(buf: Bytes): (r: Parsed)
    ensures !Complete(r.rest)
    decreases |buf|
  {
    if !Complete(buf) then Parsed([], buf)
    else
      var n := FrameSize(buf);
      var later := Parse(buf[n..]);
      Parsed([buf[PACKET_LEN_SIZE..n]] + later.packets, later.rest)
  }

  /** What is kept is a strictly incomplete frame, so two bytes of the buffer stay free. */
  lemma LeftoverBound(rest: Bytes)
    requires !Complete(rest)
    ensures |rest| <= MAX_PACKET_SIZE && BUF_SIZE - |rest| >= 2
  {
  }

  lemma FrameComplete(packet: Bytes, tail: Bytes)
    requires Sendable(packet)
    ensures var buf := Frame(packet) + tail;
            && Complete(buf) && FrameSize(buf) == |Frame(packet)|
            && buf[PACKET_LEN_SIZE..FrameSize(buf)] == packet && buf[FrameSize(buf)..] == tail
  {
    var buf := Frame(packet) + tail;
    assert buf[0] == |packet| / 256 && buf[1] == |packet| % 256;
  }

  lemma ParseStep(buf: Bytes)
    ensures !Complete(buf) ==> Parse(buf) == Parsed([], buf)
    ensures Complete(buf) ==>
      var later := Parse(buf[FrameSize(buf)..]);
      Parse(buf) == Parsed([buf[PACKET_LEN_SIZE..FrameSize(buf)]] + later.packets, later.rest)
  {
  }

  lemma FramesStep(packets: seq<Bytes>)
    ensures Frames(packets) == if packets == [] then [] else Frame(packets[0]) + Frames(packets[1..])
  {
  }

  /** Parsing whole frames gives back their packets, in order and with their boundaries. */
  lemma {:induction false} ParseFrames(packets: seq<Bytes>, tail: Bytes)
    requires AllSendable(packets)
    ensures Parse(Frames(packets) + tail) == Parsed(packets + Parse(tail).packets, Parse(tail).rest)
  {
    hide Parse, Frames, Frame, Complete, FrameSize;
    FramesStep(packets);
    if packets == [] {
      assert Frames(packets) + tail == tail;
      assert packets + Parse(tail).packets == Parse(tail).packets;
    } else {
      var later := Frames(packets[1..]) + tail;
      assert Frames(packets) + tail == Frame(packets[0]) + later;
      FrameComplete(packets[0], later);
      ParseStep(Frame(packets[0]) + later);
      ParseFrames(packets[1..], tail);
      assert [packets[0]] + (packets[1..] + Parse(tail).packets) == packets + Parse(tail).packets;
    }
  }

  /** A frame survives the wire exactly when its length fits the length field. */
  lemma FrameReadsBack(packet: Bytes)
    ensures Parse(Frame(packet)) == Parsed([packet], []) <==> Sendable(packet)
  {
    var buf := Frame(packet);
    if Sendable(packet) {
      FrameComplete(packet, []);
      assert buf + [] == buf;
    } else {
      assert GetBE16(buf) <= MAX_PAYLOAD;
      assert |Parse(buf).packets| > 0 ==> |Parse(buf).packets[0]| <= MAX_PAYLOAD;
    }
  }

  lemma FrameAtFront(buf: Bytes)
    requires Complete(buf)
    ensures PACKET_LEN_SIZE <= FrameSize(buf) <= |buf| && Sendable(buf[PACKET_LEN_SIZE..FrameSize(buf)])
    ensures Frame(buf[PACKET_LEN_SIZE..FrameSize(buf)]) == buf[..FrameSize(buf)]
    ensures buf == buf[..FrameSize(buf)] + buf[FrameSize(buf)..]
  {
  }

  /** The delivered packets and the leftover account for every byte of the buffer. */
  lemma {:induction false} ParseConserves(buf: Bytes)
    ensures var r := Parse(buf); Frames(r.packets) + r.rest == buf && AllSendable(r.packets)
    decreases |buf|
  {
    hide *;
    ParseStep(buf);
    if !Complete(buf) {
      NoFrames();
      assert [] + buf == buf;
    } else {
      FrameAtFront(buf);
      var n := FrameSize(buf);
      ParseConserves(buf[n..]);
      var packet, later := buf[PACKET_LEN_SIZE..n], Parse(buf[n..]);
      ConsFrames(packet, later.packets, later.rest);
    }
  }

  lemma NoFrames()
    ensures Frames([]) == [] && AllSendable([])
  {
  }

  lemma ConsFrames(packet: Bytes, packets: seq<Bytes>, rest: Bytes)
    requires Sendable(packet) && AllSendable(packets)
    ensures Frames([packet] + packets) + rest == Frame(packet) + (Frames(packets) + rest)
    ensures AllSendable([packet] + packets)
  {
    hide Frame, Frames;
    FramesStep([packet] + packets);
    assert ([packet] + packets)[1..] == packets;
  }

  /** Segmentation does not matter: parsing in two steps gives what parsing at once gives. */
  lemma ParseSegments(a: Bytes, b: Bytes)
    ensures var first := Parse(a);
            var second := Parse(first.rest + b);
            Parse(a + b) == Parsed(first.packets + second.packets, second.rest)
  {
    var first := Parse(a);
    ParseConserves(a);
    assert a + b == Frames(first.packets) + (first.rest + b);
    ParseFrames(first.packets, first.rest + b);
  }

  lemma {:induction false} FramesAppend(packets: seq<Bytes>, more: seq<Bytes>)
    ensures Frames(packets + more) == Frames(packets) + Frames(more)
  {
    if packets == [] {
      assert packets + more == more;
    } else {
      assert (packets + more)[1..] == packets[1..] + more;
      FramesAppend(packets[1..], more);
    }
  }

  /** Frames that begin the same stream are frames of its first packets. */
  lemma FramesPrefix(some: seq<Bytes>, tail: Bytes, all: seq<Bytes>)
    requires AllSendable(some) && AllSendable(all) && Frames(some) + tail == Frames(all)
    ensures some <= all && tail == Frames(all[|some|..])
  {
    hide Parse, Frames, Complete;
    ParseFrames(some, tail);
    ParseFrames(all, []);
    ParseStep([]);
    NothingComplete();
    assert Frames(all) + [] == Frames(all);
    assert all + [] == all == some + Parse(tail).packets;
    var later := all[|some|..];
    FramesAppend(some, later);
    assert all == some + later;
    SameTail(Frames(some), tail, Frames(later));
  }

  lemma NothingComplete()
    ensures !Complete([])
  {
  }

  lemma SameTail(front: Bytes, a: Bytes, b: Bytes)
    requires front + a == front + b
    ensures a == b
  {
    assert a == (front + a)[|front|..];
    assert b == (front + b)[|front|..];
  }

  // ------------------------------------------------------------ one endpoint

  /** The effect of FlushOutBuffer when the socket's Send returns res. */
  datatype Flushed = Flushed(result: int, out: Bytes, taken: Bytes)

  function Flush(out: Bytes, res: int): Flushed {
    if res <= 0 then Flushed(res, out, [])
    else if res <= |out| then Flushed(res, out[res..], out[..res])
    else Flushed(-1, out, [])
  }

  /** The effect of Send: what it returns, what stays buffered, what the socket took. */
  datatype Sent = Sent(result: int, out: Bytes, taken: Bytes, accepted: bool)

  function SendEffect(out: Bytes, packet: Bytes, res: int): Sent {
    if |packet| > BUF_SIZE then Sent(-1, out, [], false)
    else if out != [] then Sent(|packet|, out, [], false)
    else
      var flushed := Flush(Frame(packet), res);
      if flushed.result <= 0 then Sent(flushed.result, [], [], false)
      else Sent(|packet|, flushed.out, flushed.taken, true)
  }

  /** The assertion of AppendToOutBuffer, which leaves the last byte of the buffer unused. */
  predicate AppendAsserts(out: Bytes, data: Bytes) {
    |out| + |data| < BUF_SIZE
  }

  /** Whether a call of Send meets that assertion at both of its appends, if it comes to them. */
  predicate SendAsserts(out: Bytes, packet: Bytes) {
    if |packet| > BUF_SIZE || out != [] then true
    else
      var field := LengthField(|packet|);
      AppendAsserts(out, field) && AppendAsserts(out + field, packet)
  }

  /** It does exactly when the packet is refused for its size, dropped, or fits its length field. */
  lemma SendAssertsWhen(out: Bytes, packet: Bytes)
    ensures SendAsserts(out, packet) <==> |packet| > BUF_SIZE || out != [] || Sendable(packet)
  {
  }

  /** A packet that passes the test of Send for size and then fails the assertion. */
  lemma OversizedPacket()
    ensures var packet: Bytes := seq(65536, _ => 0);
            |packet| <= BUF_SIZE && !SendAsserts([], packet)
  {
    SendAssertsWhen([], seq(65536, _ => 0));
  }

  // -------------------------------------------------------------- the system

  /** A sender's buffer, the bytes in flight, a receiver's buffer, and what has happened so far. */
  datatype System = System(out: Bytes, wire: Bytes, inbuf: Bytes, accepted: seq<Bytes>, delivered: seq<Bytes>)

  /** A call on either endpoint, with the answer of the socket underneath. */
  datatype Event =
    | SendPacket(packet: Bytes, res: int)
    | WriteEvent(res: int)
    | ReadEvent(len: int)

  const INITIAL: System := System([], [], [], [], [])

  /**
   The socket takes no more than it is offered, gives no more than is in flight or fits
   the buffer, and a packet satisfies the assertion of AppendToOutBuffer if it gets there.
   */
  predicate Enabled(s: System, e: Event) {
    match e
    case SendPacket(packet, res) => SendAsserts(s.out, packet) && res <= |Frame(packet)|
    case WriteEvent(res) => res <= |s.out|
    case ReadEvent(len) => len <= |s.wire| && len <= BUF_SIZE - |s.inbuf|
  }

  function Next(s: System, e: Event): System {
    match e
    case SendPacket(packet, res) =>
      var sent := SendEffect(s.out, packet, res);
      s.(out := sent.out, wire := s.wire + sent.taken, accepted := s.accepted + if sent.accepted then [packet] else [])
    case WriteEvent(res) =>
      if s.out == [] then s
      else
        var flushed := Flush(s.out, res);
        s.(out := flushed.out, wire := s.wire + flushed.taken)
    case ReadEvent(len) =>
      if len < 0 || len > |s.wire| then s
      else
        var parsed := Parse(s.inbuf + s.wire[..len]);
        s.(wire := s.wire[len..], inbuf := parsed.rest, delivered := s.delivered + parsed.packets)
  }

  /** Every run of a list of events, each enabled when it happens. */
  predicate CanRun(s: System, events: seq<Event>)
    decreases |events|
  {
    events == [] || (Enabled(s, events[0]) && CanRun(Next(s, events[0]), events[1..]))
  }

  function Run(s: System, events: seq<Event>): System
    decreases |events|
  {
    if events == [] then s else Run(Next(s, events[0]), events[1..])
  }

  /**
   The conservation law: the delivered frames, the receiver's leftover, the bytes in
   flight and the sender's buffer are, in this order, exactly the accepted frames.
   */
  predicate Inv(s: System) {
    && AllSendable(s.accepted) && AllSendable(s.delivered)
    && Frames(s.delivered) + s.inbuf + s.wire + s.out == Frames(s.accepted)
    && !Complete(s.inbuf)
    && |s.out| < BUF_SIZE
  }

  /** The byte stream of a state, from the receiver's leftover to the sender's buffer. */
  function Pending(s: System): Bytes {
    s.inbuf + s.wire + s.out
  }

  lemma InvByPending(s: System)
    requires AllSendable(s.accepted) && AllSendable(s.delivered) && !Complete(s.inbuf) && |s.out| < BUF_SIZE
    requires Frames(s.delivered) + Pending(s) == Frames(s.accepted)
    ensures Inv(s)
  {
    hide Frames;
    assert Frames(s.delivered) + s.inbuf + s.wire + s.out == Frames(s.delivered) + Pending(s);
  }

  lemma InvGives(s: System)
    requires Inv(s)
    ensures Frames(s.delivered) + Pending(s) == Frames(s.accepted)
  {
    hide Frames;
    assert Frames(s.delivered) + s.inbuf + s.wire + s.out == Frames(s.delivered) + Pending(s);
  }

  lemma SingleFrame(packet: Bytes)
    ensures Frames([packet]) == Frame(packet) && |Frame(packet)| == PACKET_LEN_SIZE + |packet|
  {
  }

  lemma AcceptKeepsInv(s: System, packet: Bytes, res: int)
    requires Inv(s) && s.out == [] && Sendable(packet) && 0 < res <= |Frame(packet)|
    ensures Inv(Next(s, SendPacket(packet, res)))
  {
    hide Frames, Frame, Complete;
    var frame := Frame(packet);
    SingleFrame(packet);
    var t := s.(out := frame[res..], wire := s.wire + frame[..res], accepted := s.accepted + [packet]);
    assert t == Next(s, SendPacket(packet, res));
    FramesAppend(s.accepted, [packet]);
    InvGives(s);
    assert frame == frame[..res] + frame[res..];
    assert Pending(t) == Pending(s) + frame;
    assert Frames(t.delivered) + Pending(t) == Frames(s.delivered) + Pending(s) + frame;
    InvByPending(t);
  }

  lemma ReadKeepsInv(s: System, len: nat)
    requires Inv(s) && len <= |s.wire|
    ensures Inv(Next(s, ReadEvent(len)))
  {
    hide Parse, Frames, Complete;
    var segment, later := s.wire[..len], s.wire[len..];
    var parsed := Parse(s.inbuf + segment);
    var t := s.(wire := later, inbuf := parsed.rest, delivered := s.delivered + parsed.packets);
    ParseConserves(s.inbuf + segment);
    FramesAppend(s.delivered, parsed.packets);
    InvGives(s);
    Reassociate(Frames(s.delivered), Frames(parsed.packets), parsed.rest, later, s.out);
    assert Pending(s) == (s.inbuf + segment) + later + s.out;
    InvByPending(t);
  }

  lemma Reassociate(a: Bytes, b: Bytes, c: Bytes, d: Bytes, e: Bytes)
    ensures (a + b) + (c + d + e) == a + ((b + c) + d + e)
  {
  }

  lemma WriteKeepsInv(s: System, res: int)
    requires Inv(s) && res <= |s.out|
    ensures Inv(Next(s, WriteEvent(res)))
  {
    hide Frames, Complete;
    if s.out != [] && res > 0 {
      assert s.out == s.out[..res] + s.out[res..];
      var t := s.(out := s.out[res..], wire := s.wire + s.out[..res]);
      assert Pending(t) == Pending(s);
      InvGives(s);
      InvByPending(t);
    } else {
      assert s.wire + [] == s.wire;
    }
  }

  lemma NextKeepsInv(s: System, e: Event)
    requires Inv(s) && Enabled(s, e)
    ensures Inv(Next(s, e))
  {
    match e
    case SendPacket(packet, res) =>
      SendAssertsWhen(s.out, packet);
      if Sendable(packet) && s.out == [] && res > 0 {
        AcceptKeepsInv(s, packet, res);
      } else {
        assert s.accepted + [] == s.accepted;
        assert s.wire + [] == s.wire;
      }
    case WriteEvent(res) => WriteKeepsInv(s, res);
    case ReadEvent(len) =>
      if len >= 0 {
        ReadKeepsInv(s, len);
      }
  }

  lemma {:induction false} RunKeepsInv(s: System, events: seq<Event>)
    requires Inv(s) && CanRun(s, events)
    ensures Inv(Run(s, events))
    decreases |events|
  {
    if events != [] {
      NextKeepsInv(s, events[0]);
      RunKeepsInv(Next(s, events[0]), events[1..]);
    }
  }

  /**
   End to end, over every run: the receiver has delivered a prefix of the accepted packets,
   and the bytes not yet delivered are exactly the frames of the others.
   */
  lemma DeliveryInOrder(events: seq<Event>)
    requires CanRun(INITIAL, events)
    ensures var s := Run(INITIAL, events);
            && s.delivered <= s.accepted
            && s.inbuf + s.wire + s.out == Frames(s.accepted[|s.delivered|..])
            && BUF_SIZE - |s.inbuf| >= 2
  {
    InitialInv();
    RunKeepsInv(INITIAL, events);
    var s := Run(INITIAL, events);
    InvGives(s);
    hide Frames, Complete, Run;
    FramesPrefix(s.delivered, Pending(s), s.accepted);
    LeftoverBound(s.inbuf);
  }

  lemma InitialInv()
    ensures Inv(INITIAL)
  {
  }

  /** Once nothing is buffered or in flight, every accepted packet has been delivered. */
  lemma QuiescentDelivery(events: seq<Event>)
    requires CanRun(INITIAL, events)
    requires var s := Run(INITIAL, events); s.wire == [] && s.out == []
    ensures var s := Run(INITIAL, events); s.delivered == s.accepted && s.inbuf == []
  {
    InitialInv();
    RunKeepsInv(INITIAL, events);
    Quiescent(Run(INITIAL, events));
  }

  lemma Quiescent(s: System)
    requires Inv(s) && s.wire == [] && s.out == []
    ensures s.delivered == s.accepted && s.inbuf == []
  {
    InvGives(s);
    hide Frames, Frame, Complete;
    FramesPrefix(s.delivered, Pending(s), s.accepted);
    var missing := s.accepted[|s.delivered|..];
    assert Pending(s) == s.inbuf;
    IncompleteFrames(missing);
    FramesStep([]);
    assert s.accepted == s.delivered + missing;
  }

  /** A strictly incomplete frame holds no frame at all. */
  lemma IncompleteFrames(packets: seq<Bytes>)
    requires AllSendable(packets)
    ensures Complete(Frames(packets)) <==> packets != []
  {
    if packets != [] {
      FrameComplete(packets[0], Frames(packets[1..]));
    }
  }

  // ---------------------------------------------------------------- progress

  /** A write or read event in which the socket takes or gives something. */
  predicate Moves(e: Event) {
    (e.WriteEvent? && e.res > 0) || (e.ReadEvent? && e.len > 0)
  }

  /** How many bytes still have to be written and read, each step counted. */
  function Distance(s: System): nat {
    2 * |s.out| + |s.wire|
  }

  /** Every such event brings the system closer to rest, and accepts nothing. */
  lemma MovesOn(s: System, e: Event)
    requires Enabled(s, e) && Moves(e)
    ensures Distance(Next(s, e)) < Distance(s) && Next(s, e).accepted == s.accepted
  {
    hide Parse;
  }

  /** While something is buffered or in flight, some such event can happen. */
  function Mover(s: System): (e: Event)
    requires Inv(s) && !(s.wire == [] && s.out == [])
    ensures Enabled(s, e) && Moves(e) && Inv(Next(s, e))
    ensures Distance(Next(s, e)) < Distance(s) && Next(s, e).accepted == s.accepted
  {
    LeftoverBound(s.inbuf);
    var e := if s.wire != [] then ReadEvent(1) else WriteEvent(1);
    NextKeepsInv(s, e);
    MovesOn(s, e);
    e
  }

  /** Events that empty the buffers and the wire, byte by byte. */
  function Drain(s: System): (events: seq<Event>)
    requires Inv(s)
    ensures |events| <= Distance(s) && forall i :: 0 <= i < |events| ==> Moves(events[i])
    decreases Distance(s)
  {
    if s.wire == [] && s.out == [] then [] else [Mover(s)] + Drain(Next(s, Mover(s)))
  }

  lemma {:induction false} DrainDelivers(s: System)
    requires Inv(s)
    ensures CanRun(s, Drain(s))
    ensures var t := Run(s, Drain(s));
            t.delivered == t.accepted == s.accepted && t.inbuf == [] && t.wire == [] && t.out == []
    decreases Distance(s)
  {
    hide Inv, Next, Enabled;
    if s.wire == [] && s.out == [] {
      Quiescent(s);
    } else {
      var e := Mover(s);
      DrainDelivers(Next(s, e));
      assert Drain(s)[0] == e && Drain(s)[1..] == Drain(Next(s, e));
    }
  }

  lemma {:induction false} RunAppend(s: System, events: seq<Event>, more: seq<Event>)
    ensures CanRun(s, events + more) <==> CanRun(s, events) && CanRun(Run(s, events), more)
    ensures Run(s, events + more) == Run(Run(s, events), more)
    decreases |events|
  {
    hide Next, Enabled;
    if events == [] {
      assert events + more == more;
    } else {
      assert (events + more)[1..] == events[1..] + more;
      RunAppend(Next(s, events[0]), events[1..], more);
    }
  }

  /** From every reachable state some write and read events deliver every packet accepted so far. */
  lemma DeliveryReachable(events: seq<Event>)
    requires CanRun(INITIAL, events)
    ensures Inv(Run(INITIAL, events))
    ensures var s := Run(INITIAL, events);
            var more := Drain(s);
            && CanRun(INITIAL, events + more) && (forall i :: 0 <= i < |more| ==> Moves(more[i]))
            && Run(INITIAL, events + more).delivered == s.accepted
  {
    hide Run, CanRun, Inv, Drain;
    InitialInv();
    RunKeepsInv(INITIAL, events);
    var s := Run(INITIAL, events);
    DrainDelivers(s);
    RunAppend(INITIAL, events, Drain(s));
  }

  /**
   However the sockets schedule them, only so many write and read events can move bytes; and when
   none can any more, every accepted packet has been delivered.
   */
  lemma {:induction false} DeliveryInevitable(s: System, events: seq<Event>)
    requires Inv(s) && CanRun(s, events) && forall i :: 0 <= i < |events| ==> Moves(events[i])
    ensures |events| <= Distance(s)
    ensures var t := Run(s, events);
            (t.delivered == s.accepted && t.wire == [] && t.out == []) || exists e :: Enabled(t, e) && Moves(e)
    decreases |events|
  {
    hide Next, Enabled, Inv, Moves;
    if events == [] {
      if s.wire == [] && s.out == [] {
        Quiescent(s);
      } else {
        assert Enabled(s, Mover(s)) && Moves(Mover(s));
      }
    } else {
      NextKeepsInv(s, events[0]);
      MovesOn(s, events[0]);
      DeliveryInevitable(Next(s, events[0]), events[1..]);
    }
  }
}
