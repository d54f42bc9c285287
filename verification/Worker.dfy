/** sender/detail/worker.cpp: the worker object, with its queue and its packet writer. */
module Worker {
  import opened Common
  import opened RateControl
  import opened Packing

  /** The worker's own fields and loop. */
  class Worker {
    const limited: bool
    const bucketFull: nat
    const perRound: nat
    var queue: seq<Packet>
    var total: nat
    var wire: seq<Packet>

    ghost function State(): Queue
      reads this
    {
      Queue(limited, bucketFull, perRound, queue, total, wire)
    }

    /** maxSpeed is in bytes a second; None turns rate control off. */
    constructor (maxSpeed: Option<nat>)
      ensures State() == Queue(maxSpeed.Some?,
                               if maxSpeed.Some? then (maxSpeed.value / 20 / 4 * 5) % 0x1_0000_0000 else 0,
                               if maxSpeed.Some? then maxSpeed.value / 20 else 0, [], 0, [])
    {
      limited := maxSpeed.Some?;
      bucketFull := if maxSpeed.Some? then (maxSpeed.value / 20 / 4 * 5) % 0x1_0000_0000 else 0;
      perRound := if maxSpeed.Some? then maxSpeed.value / 20 else 0;
      queue, total, wire := [], 0, [];
    }

    method SendPacket(p: Packet, ghost maxPacket: nat) returns (successful: bool)
      requires RateControl.Valid(State(), maxPacket) && p.length <= maxPacket
      modifies this
      ensures (State(), successful) == RateControl.SendPacket(old(State()), p)
      ensures RateControl.Valid(State(), maxPacket)
      ensures wire + queue == old(wire + queue) + (if successful then [p] else [])
    {
      SendPacketKeeps(State(), p, maxPacket);
      successful := false;
      if limited {
        if total < bucketFull {
          total := (total + p.length) % 0x1_0000_0000;
          queue := queue + [p];
          successful := true;
        }
      } else {
        wire := wire + [p];
        successful := true;
      }
    }

    method LoopDoRcSend(ghost maxPacket: nat) returns (tellEmployer: bool)
      requires RateControl.Valid(State(), maxPacket)
      modifies this
      ensures State() == RateControl.SendRound(old(State()), 0) && RateControl.Valid(State(), maxPacket)
      ensures wire + queue == old(wire + queue)
      ensures perRound > 0 ==> Bytes(wire) < Bytes(old(wire)) + perRound + maxPacket
      ensures tellEmployer <==> total < bucketFull
    {
      SendRoundKeeps(State(), 0, maxPacket);
      var bytesSent: nat := 0;
      while queue != [] && bytesSent < perRound
        invariant SendRound(State(), bytesSent) == SendRound(old(State()), 0)
        decreases |queue|
      {
        var p := queue[0];
        wire := wire + [p];
        bytesSent := bytesSent + p.length;
        total := (total - p.length) % 0x1_0000_0000;
        queue := queue[1..];
      }
      tellEmployer := total < bucketFull;
    }

    /** write_receivers_id: fills the buffer in place with the ids of the picked receivers from
        `start` on, and says how many ids that took and where it stopped. */
    static method WriteReceiversId(buffer: array<nat>, rs: seq<Entry>, start: nat) returns (written: nat, next: nat)
      requires start <= |rs|
      modifies buffer
      ensures next == start + Passed(rs[start..], buffer.Length)
      ensures written <= buffer.Length && buffer[..written] == Selected(rs[start..next])
      ensures buffer[written..] == old(buffer[..])[written..]
    {
      written, next := 0, start;
      ghost var list: seq<nat> := [];
      while next < |rs| && written < buffer.Length
        invariant written <= buffer.Length && buffer[..written] == list
        invariant Writing(rs, start, next, buffer.Length, list)
        invariant buffer[written..] == old(buffer[..])[written..]
        decreases |rs| - next
      {
        if rs[next].selected {
          buffer[written] := rs[next].id;
          written := written + 1;
          list := list + [rs[next].id];
        }
        next := next + 1;
      }
      WritingEnds(rs, start, next, buffer.Length, list);
    }

    /** send_to_targeted_receivers up to the point where the packets are handed on. The first packet
        carries the sequence number its header was set up with; each further one takes the next. */
    static method BuildTargetedPackets(rs: seq<Entry>, room: nat, headerSeq: nat, nextSeq: nat)
      returns (packets: seq<(nat, seq<nat>)>, seqAfter: nat)
      requires room > 0 && headerSeq < 0x1_0000 && nextSeq == (headerSeq + 1) % 0x1_0000
      ensures packets == Numbered(Pack(rs, room), headerSeq)
      ensures seqAfter == if packets == [] then nextSeq else (packets[|packets| - 1].0 + 1) % 0x1_0000
    {
      packets, seqAfter := [], nextSeq;
      var at, number := 0, headerSeq;
      NumberingStarts(rs, room, headerSeq);
      while at < |rs|
        invariant NumberedSoFar(rs, at, room, headerSeq, number, packets)
        invariant at < |rs| ==> seqAfter == (number + 1) % 0x1_0000
        invariant at == |rs| ==>
                    seqAfter == if packets == [] then nextSeq else (packets[|packets| - 1].0 + 1) % 0x1_0000
        decreases |rs| - at
      {
        var buffer := new nat[room];
        var written, next := WriteReceiversId(buffer, rs, at);
        NumberingGoesOn(rs, at, next, room, headerSeq, number, packets);
        packets := packets + [(number, buffer[..written])];
        number := (number + 1) % 0x1_0000;
        at := next;
        if at < |rs| {
          seqAfter := (seqAfter + 1) % 0x1_0000;
        }
      }
      NumberingEnds(rs, room, headerSeq, number, packets);
    }
  }
}
