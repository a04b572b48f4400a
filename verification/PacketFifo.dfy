/**
 A bounded first-in first-out queue of packets: what the buffer queue computes.
 */
module PacketFifo {
  import opened Words

  datatype Operation = Write(packet: Bytes) | Read(room: nat)

  /** The packet as far as it fits. */
  function Truncated(packet: Bytes, room: nat): Bytes {
    if room > |packet| then packet else packet[..room]
  }

  /** Whether an operation succeeded, and the packets in the queue after it. */
  datatype Outcome = Outcome(ok: bool, packets: seq<Bytes>)

  function Next(packets: seq<Bytes>, capacity: nat, op: Operation): Outcome {
    match op
    case Write(packet) =>
      if |packets| == capacity then Outcome(false, packets) else Outcome(true, packets + [packet])
    case Read(_) =>
      if packets == [] then Outcome(false, packets) else Outcome(true, packets[1..])
  }

  /** The packets accepted, the pieces returned with the room offered, and the queue, after a run. */
  datatype History = History(accepted: seq<Bytes>, returned: seq<Bytes>, rooms: seq<nat>, packets: seq<Bytes>)

  function Run(capacity: nat, operations: seq<Operation>): History {
    if operations == [] then History([], [], [], [])
    else
      var last := operations[|operations| - 1];
      var h := Run(capacity, operations[..|operations| - 1]);
      var next := Next(h.packets, capacity, last);
      if !next.ok then h
      else
        match last
        case Write(packet) => h.(accepted := h.accepted + [packet], packets := next.packets)
        case Read(room) =>
          h.(returned := h.returned + [if h.packets == [] then [] else Truncated(h.packets[0], room)],
             rooms := h.rooms + [room], packets := next.packets)
  }

  /**
   In every run the queue never exceeds its capacity, the packets returned are the first
   accepted ones in order, each whole or cut to the room offered, and the queue holds the rest.
   */
  lemma {:induction false} FirstInFirstOut(capacity: nat, operations: seq<Operation>)
    ensures var h := Run(capacity, operations);
            && |h.packets| <= capacity
            && |h.rooms| == |h.returned| <= |h.accepted|
            && h.packets == h.accepted[|h.returned|..]
            && forall i :: 0 <= i < |h.returned| ==> h.returned[i] == Truncated(h.accepted[i], h.rooms[i])
  {
    hide Truncated;
    if operations != [] {
      var before := operations[..|operations| - 1];
      FirstInFirstOut(capacity, before);
      var h, last := Run(capacity, before), operations[|operations| - 1];
      if last.Read? && h.packets != [] {
        assert h.packets[0] == h.accepted[|h.returned|];
      }
    }
  }
}
