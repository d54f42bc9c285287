/** sender/detail/worker.cpp: the byte bucket in front of the socket (send_packet and
    loop_do_rc_send), as
    functions on its state. Worker.dfy has the worker itself. */
module RateControl {
  import opened Common

  /** A packet as the queue sees it: its length, and which of the file's blocks it carries, if any. */
  datatype Packet = Packet(length: nat, block: Option<nat>)

  /** m_sendout_queue, m_queued_packets_total_length (32 bits), m_bucket_full_size and
      m_rc_per_round_bytes_count; limited says whether a transfer speed was set, and wire is what
      has been handed to the socket, in order. */
  datatype Queue = Queue(limited: bool, bucketFull: nat, perRound: nat,
                            queue: seq<Packet>, total: nat, wire: seq<Packet>)

  function Bytes(ps: seq<Packet>): nat {
    if ps == [] then 0 else ps[0].length + Bytes(ps[1..])
  }

  /** send_packet: a full bucket refuses. */
  function SendPacket(q: Queue, p: Packet): (r: (Queue, bool)) {
    if !q.limited then (q.(wire := q.wire + [p]), true)
    else if q.total < q.bucketFull then
      (q.(queue := q.queue + [p], total := (q.total + p.length) % 0x1_0000_0000), true)
    else (q, false)
  }

  /** The sending loop of loop_do_rc_send; sent is the number of bytes this round has sent. */
  function SendRound(q: Queue, sent: nat): Queue
    decreases |q.queue|
  {
    if q.queue == [] || sent >= q.perRound then q
    else
      var p := q.queue[0];
      SendRound(q.(queue := q.queue[1..], wire := q.wire + [p],
                   total := (q.total - p.length) % 0x1_0000_0000),
                sent + p.length)
  }

  /** Whether loop_do_rc_send then tells its employer that there is room. */
  predicate HasRoom(q: Queue) {
    q.total < q.bucketFull
  }

  /** The bucket's bookkeeping: the stored total is the queue's size in bytes, which stays below
      the bucket size plus one packet. */
  ghost predicate Valid(q: Queue, maxPacket: nat) {
    && q.bucketFull + maxPacket <= 0x1_0000_0000
    && 0 < maxPacket
    && q.total == Bytes(q.queue) < q.bucketFull + maxPacket
    && (forall p :: p in q.queue || p in q.wire ==> p.length <= maxPacket)
    && (!q.limited ==> q.queue == [])
  }

  lemma {:induction false} BytesAppend(a: seq<Packet>, b: seq<Packet>)
    ensures Bytes(a + b) == Bytes(a) + Bytes(b)
  {
    if a == [] {
      assert a + b == b;
    } else {
      assert (a + b)[1..] == a[1..] + b;
      BytesAppend(a[1..], b);
    }
  }

  lemma {:induction false} SendPacketKeeps(q: Queue, p: Packet, maxPacket: nat)
    requires Valid(q, maxPacket) && p.length <= maxPacket
    ensures var (r, ok) := SendPacket(q, p);
            && Valid(r, maxPacket)
            && r.wire + r.queue == q.wire + q.queue + (if ok then [p] else [])
            && (ok <==> !q.limited || q.total < q.bucketFull)
            && r.limited == q.limited && r.bucketFull == q.bucketFull && r.perRound == q.perRound
  {
    BytesAppend(q.queue, [p]);
    assert Bytes([p]) == p.length;
    var (r, ok) := SendPacket(q, p);
    if !q.limited {
      assert r.wire + r.queue == q.wire + q.queue + [p];
    }
  }

  /** A round keeps the order of the packets, loses none, and sends less than its budget plus one
      packet; it stops short of the budget only when the queue runs dry. */
  lemma {:induction false} SendRoundKeeps(q: Queue, sent: nat, maxPacket: nat)
    requires Valid(q, maxPacket)
    ensures var r := SendRound(q, sent);
            && Valid(r, maxPacket)
            && r.wire + r.queue == q.wire + q.queue
            && q.wire <= r.wire
            && r.limited == q.limited && r.bucketFull == q.bucketFull && r.perRound == q.perRound
            && Bytes(r.wire) + (if sent < q.perRound then sent else 0)
               <= Bytes(q.wire) + (if sent < q.perRound then q.perRound - 1 + maxPacket else 0)
            && (r.queue == [] || sent + (Bytes(r.wire) - Bytes(q.wire)) >= q.perRound)
    decreases |q.queue|
  {
    if q.queue != [] && sent < q.perRound {
      var p := q.queue[0];
      assert q.queue == [p] + q.queue[1..];
      var next := q.(queue := q.queue[1..], wire := q.wire + [p], total := (q.total - p.length) % 0x1_0000_0000);
      assert p in q.queue;
      assert next.total == Bytes(next.queue);
      BytesAppend(q.wire, [p]);
      assert Bytes([p]) == p.length;
      assert next.wire + next.queue == q.wire + q.queue;
      SendRoundKeeps(next, sent + p.length, maxPacket);
    }
  }

  // ----- Whole histories -----

  datatype Op = Offer(p: Packet) | Tick

  function Apply(q: Queue, op: Op): Queue {
    match op
    case Offer(p) => SendPacket(q, p).0
    case Tick => SendRound(q, 0)
  }

  function Run(q: Queue, ops: seq<Op>): Queue {
    if ops == [] then q else Apply(Run(q, ops[..|ops| - 1]), ops[|ops| - 1])
  }

  /** The packets that were not refused, in the order in which they were offered. */
  function Accepted(q: Queue, ops: seq<Op>): seq<Packet> {
    if ops == [] then []
    else
      var op := ops[|ops| - 1];
      Accepted(q, ops[..|ops| - 1]) +
      if op.Offer? && SendPacket(Run(q, ops[..|ops| - 1]), op.p).1 then [op.p] else []
  }

  function Ticks(ops: seq<Op>): nat {
    if ops == [] then 0 else Ticks(ops[..|ops| - 1]) + if ops[|ops| - 1].Tick? then 1 else 0
  }

  /** A worker before its first packet. */
  predicate Empty(q: Queue, maxPacket: nat) {
    q.queue == [] && q.wire == [] && q.total == 0 && 0 < maxPacket && q.bucketFull + maxPacket <= 0x1_0000_0000
  }

  /** Over any history of offers and timer rounds: the total is exact and bounded; what was sent
      followed by what is queued is exactly what was accepted, in order; and with rate control on,
      n rounds send at most n times the per-round budget less one, plus one packet each. */
  lemma {:induction false} RateIsControlled(q: Queue, ops: seq<Op>, maxPacket: nat)
    requires Empty(q, maxPacket) && forall op :: op in ops && op.Offer? ==> op.p.length <= maxPacket
    ensures var r := Run(q, ops);
            && Valid(r, maxPacket)
            && r.wire + r.queue == Accepted(q, ops)
            && r.limited == q.limited && r.perRound == q.perRound
            && (q.limited && q.perRound > 0 ==> Bytes(r.wire) <= Ticks(ops) * (q.perRound - 1 + maxPacket))
            && (q.limited && q.perRound == 0 ==> r.wire == [])
  {
    if ops != [] {
      var pre, op := ops[..|ops| - 1], ops[|ops| - 1];
      assert ops == pre + [op];
      RateIsControlled(q, pre, maxPacket);
      var v := Run(q, pre);
      match op
      case Offer(p) =>
        SendPacketKeeps(v, p, maxPacket);
      case Tick =>
        SendRoundKeeps(v, 0, maxPacket);
        if q.perRound > 0 {
          assert (Ticks(pre) + 1) * (q.perRound - 1 + maxPacket)
                 == Ticks(pre) * (q.perRound - 1 + maxPacket) + (q.perRound - 1 + maxPacket);
        }
    }
  }

  lemma SumWraps(a: nat, b: nat)
    ensures (a % 0x1_0000_0000 + b) % 0x1_0000_0000 == (a + b) % 0x1_0000_0000
  {
  }

  lemma DifferenceWraps(a: nat, b: nat)
    ensures ((a + b) % 0x1_0000_0000 - a) % 0x1_0000_0000 == b % 0x1_0000_0000
  {
  }

  /** The stored total is the number of bytes queued, as far as 32 bits hold it. */
  predicate CountsBytes(q: Queue) {
    q.total == Bytes(q.queue) % 0x1_0000_0000
  }

  lemma {:induction false} RoundCountsBytes(q: Queue, sent: nat)
    requires CountsBytes(q)
    ensures CountsBytes(SendRound(q, sent))
    decreases |q.queue|
  {
    if q.queue != [] && sent < q.perRound {
      var p := q.queue[0];
      DifferenceWraps(p.length, Bytes(q.queue[1..]));
      RoundCountsBytes(q.(queue := q.queue[1..], wire := q.wire + [p],
                          total := (q.total - p.length) % 0x1_0000_0000),
                       sent + p.length);
    }
  }

  /** In every history, whatever the bucket's size and the packets' lengths, the total is right modulo 2^32; so it is
      right exactly as long as less than that is queued. */
  lemma {:induction false} TotalIsModulo(q: Queue, ops: seq<Op>)
    requires q.queue == [] && q.total == 0
    ensures CountsBytes(Run(q, ops))
    ensures Run(q, ops).total == Bytes(Run(q, ops).queue) <==> Bytes(Run(q, ops).queue) < 0x1_0000_0000
  {
    if ops != [] {
      var v := Run(q, ops[..|ops| - 1]);
      TotalIsModulo(q, ops[..|ops| - 1]);
      match ops[|ops| - 1]
      case Offer(p) =>
        BytesAppend(v.queue, [p]);
        assert Bytes([p]) == p.length;
        SumWraps(Bytes(v.queue), p.length);
      case Tick => RoundCountsBytes(v, 0);
    }
  }
}
