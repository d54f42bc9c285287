/** The initial pass of a rate-limited transfer: the sending task together with the byte bucket it
    offers its blocks to (sender/detail/file_send_task.cpp:193-234,349-361,472-484;
    sender/detail/worker.cpp:152-195,283-290). */
module InitialPass {
  import opened Common
  import opened Geometry
  import opened Messages
  import opened Sender
  import RateControl
  import opened SenderSafety

  /** The task and its worker, with no partly refused group of packets outstanding. */
  datatype System = System(t: Task, q: RateControl.Queue)

  /** A FILE_SEG as the queue sees it: two headers of 16 and 8 bytes and the block. */
  function SegPacket(t: Task, blk: nat): RateControl.Packet {
    RateControl.Packet(24 + if BlockLength(t.cfg.geo, blk) > 0 then BlockLength(t.cfg.geo, blk) else 0, Some(blk))
  }

  datatype Move = Own(i: Input) | FileThreadOffers | OtherPacket(length: nat) | RcTimer

  /** One step. The worker answers the file thread's offers; a timer round sends what the budget
      allows and then, if the bucket has room, tells the task, which offers its kept block first. */
  function Next(s: System, m: Move): System {
    match m
    case Own(i) =>
      if i.FileThreadSends? || i.BucketHasRoom? then s else s.(t := Step(s.t, i))
    case FileThreadOffers =>
      if s.t.fault || !s.t.thread.InFlight? then s
      else
        var (q, accepted) := RateControl.SendPacket(s.q, SegPacket(s.t, s.t.thread.blk));
        System(Step(s.t, FileThreadSends(accepted)), q)
    case OtherPacket(length) => s.(q := RateControl.SendPacket(s.q, RateControl.Packet(length, None)).0)
    case RcTimer =>
      var q := RateControl.SendRound(s.q, 0);
      if !RateControl.HasRoom(q) then s.(q := q)
      else if s.t.blockedMsg.None? || s.t.fault then System(Step(s.t, BucketHasRoom(true)), q)
      else
        var (r, accepted) := RateControl.SendPacket(q, SegPacket(s.t, s.t.blockedMsg.value));
        System(Step(s.t, BucketHasRoom(accepted)), r)
  }

  function RunSystem(s: System, moves: seq<Move>): System {
    if moves == [] then s else Next(RunSystem(s, moves[..|moves| - 1]), moves[|moves| - 1])
  }

  /** The blocks among the packets that the worker has accepted, in order. */
  function BlocksOf(ps: seq<RateControl.Packet>): seq<nat> {
    if ps == [] then []
    else BlocksOf(ps[..|ps| - 1]) + if ps[|ps| - 1].block.Some? then [ps[|ps| - 1].block.value] else []
  }

  function AcceptedBlocks(s: System): seq<nat> {
    BlocksOf(s.q.wire + s.q.queue)
  }

  /** The first n blocks in order. */
  function FirstBlocks(n: nat): seq<nat> {
    seq(n, i => i)
  }

  /** What the pass has put through when `next` is the block to pick next. While a block is refused,
      either it is still kept or the bucket has had room for it and the job that goes on is posted. */
  predicate InOrder(s: System) {
    var t := s.t;
    && !t.fault && t.next <= t.cfg.geo.blockCount && (t.eof <==> t.next == t.cfg.geo.blockCount)
    && t.blockedTask == (if t.blockedMsg.Some? then Some(ResumeTransfer) else None)
    && match t.thread
       case Idle => Held(s) && Resumes(t)
       case Entering => t.blockedMsg.None? && t.posted == 0 && AcceptedBlocks(s) == FirstBlocks(t.next)
       case InFlight(_, blk) =>
         blk + 1 == t.next && t.blockedMsg.None? && t.posted == 0 && AcceptedBlocks(s) == FirstBlocks(blk)
       case Handed(_, blk, true) => t.blockedMsg.None? && t.posted == 0 && AcceptedBlocks(s) == FirstBlocks(t.next)
       case Handed(_, blk, false) => Held(s) && Resumes(t)
  }

  predicate Resumes(t: Task) {
    t.posted == if t.blockedMsg.Some? then 0 else 1
  }

  /** A refused block, which is the last one picked, is the only one missing. */
  predicate Held(s: System) {
    match s.t.blockedMsg
    case None => AcceptedBlocks(s) == FirstBlocks(s.t.next)
    case Some(blk) => blk + 1 == s.t.next && AcceptedBlocks(s) == FirstBlocks(blk)
  }

  /** The invariant of the initial pass, and what is left of it once the pass is over. */
  predicate PassInvariant(s: System) {
    match s.t.phase
    case Announcing => s.t.next == 0 && !s.t.eof && !s.t.fault && AcceptedBlocks(s) == []
    case Sending => InOrder(s)
    case _ => FirstBlocks(s.t.cfg.geo.blockCount) <= AcceptedBlocks(s)
  }

  ghost predicate Sound(s: System, maxPacket: nat) {
    && RateControl.Valid(s.q, maxPacket) && 24 + s.t.cfg.geo.blockSize <= maxPacket && s.t.cfg.geo.blockCount > 0
    && Coherent(s.t)
  }

  lemma {:induction false} BlocksOfAppend(ps: seq<RateControl.Packet>, p: RateControl.Packet)
    ensures BlocksOf(ps + [p]) == BlocksOf(ps) + if p.block.Some? then [p.block.value] else []
  {
    assert (ps + [p])[..|ps|] == ps;
  }

  /** Offering a packet adds its block to the accepted ones just when the worker takes it. */
  lemma {:induction false} OfferAdds(s: System, p: RateControl.Packet, maxPacket: nat)
    requires RateControl.Valid(s.q, maxPacket) && p.length <= maxPacket
    ensures var (q, accepted) := RateControl.SendPacket(s.q, p);
            && RateControl.Valid(q, maxPacket)
            && BlocksOf(q.wire + q.queue) ==
                 AcceptedBlocks(s) + (if accepted && p.block.Some? then [p.block.value] else [])
            && (RateControl.HasRoom(s.q) ==> accepted)
  {
    RateControl.SendPacketKeeps(s.q, p, maxPacket);
    BlocksOfAppend(s.q.wire + s.q.queue, p);
  }

  lemma {:induction false} RoundKeepsBlocks(s: System, maxPacket: nat)
    requires RateControl.Valid(s.q, maxPacket)
    ensures var q := RateControl.SendRound(s.q, 0);
            RateControl.Valid(q, maxPacket) && BlocksOf(q.wire + q.queue) == AcceptedBlocks(s)
  {
    RateControl.SendRoundKeeps(s.q, 0, maxPacket);
  }

  lemma FirstBlocksNext(n: nat)
    ensures FirstBlocks(n + 1) == FirstBlocks(n) + [n]
  {
  }

  lemma {:induction false} OffersKeep(s: System, maxPacket: nat)
    requires Sound(s, maxPacket) && PassInvariant(s)
    ensures Sound(Next(s, FileThreadOffers), maxPacket) && PassInvariant(Next(s, FileThreadOffers))
  {
    if !s.t.fault && s.t.thread.InFlight? {
      var p := SegPacket(s.t, s.t.thread.blk);
      OfferAdds(s, p, maxPacket);
      var (q, accepted) := RateControl.SendPacket(s.q, p);
      StepKeepsCoherent(s.t, FileThreadSends(accepted));
      OfferedBlockGoes(s, System(Step(s.t, FileThreadSends(accepted)), q), accepted);
    }
  }

  /** The offered block is accepted as the next one, or kept as the only one missing. */
  lemma {:induction false} OfferedBlockGoes(s: System, v: System, accepted: bool)
    requires Coherent(s.t) && PassInvariant(s) && s.t.thread.InFlight? && !s.t.fault
    requires v.t == Step(s.t, FileThreadSends(accepted))
    requires AcceptedBlocks(v) == AcceptedBlocks(s) + (if accepted then [s.t.thread.blk] else [])
    ensures PassInvariant(v) && v.t.cfg == s.t.cfg
  {
    var blk := s.t.thread.blk;
    FirstBlocksNext(blk);
    if accepted {
      assert v.t == s.t.(thread := Handed(s.t.thread.lost, blk, true), log := v.t.log);
    } else if s.t.blockedMsg.None? && s.t.blockedTask.None? {
      assert v.t == s.t.(thread := Handed(s.t.thread.lost, blk, false), blockedMsg := Some(blk),
                         blockedTask := Some(ResumeTransfer));
    }
  }

  lemma {:induction false} BucketStaysCoherent(t: Task)
    requires Coherent(t)
    ensures Coherent(Step(t, BucketHasRoom(true)))
  {
    BucketKeepsCoherent(t, true);
  }

  /** The bucket has room: the kept block goes in, and the pass goes on. */
  lemma {:induction false} RoomKeeps(s: System, maxPacket: nat)
    requires Sound(s, maxPacket) && PassInvariant(s) && RateControl.HasRoom(s.q)
    requires s.t.blockedMsg.Some? && !s.t.fault
    ensures var (r, accepted) := RateControl.SendPacket(s.q, SegPacket(s.t, s.t.blockedMsg.value));
            accepted && Sound(System(Step(s.t, BucketHasRoom(true)), r), maxPacket)
            && PassInvariant(System(Step(s.t, BucketHasRoom(true)), r))
  {
    RoomForPacket(s, SegPacket(s.t, s.t.blockedMsg.value), maxPacket);
  }

  lemma {:induction false} RoomForPacket(s: System, p: RateControl.Packet, maxPacket: nat)
    requires Sound(s, maxPacket) && PassInvariant(s) && RateControl.HasRoom(s.q)
    requires s.t.blockedMsg.Some? && !s.t.fault && p.block == s.t.blockedMsg && p.length <= maxPacket
    ensures var (r, accepted) := RateControl.SendPacket(s.q, p);
            accepted && Sound(System(Step(s.t, BucketHasRoom(true)), r), maxPacket)
            && PassInvariant(System(Step(s.t, BucketHasRoom(true)), r))
  {
    OfferAdds(s, p, maxPacket);
    var r := RateControl.SendPacket(s.q, p).0;
    BucketStaysCoherent(s.t);
    BucketKeepsGeometry(s.t);
    KeptBlockGoes(s, System(Step(s.t, BucketHasRoom(true)), r));
  }

  lemma BucketKeepsGeometry(t: Task)
    ensures Step(t, BucketHasRoom(true)).cfg == t.cfg
  {
  }

  /** The kept block is the one that was missing among the accepted ones. */
  lemma {:induction false} KeptBlockGoes(s: System, v: System)
    requires Coherent(s.t) && PassInvariant(s) && s.t.blockedMsg.Some? && !s.t.fault
    requires v.t == Step(s.t, BucketHasRoom(true))
    requires AcceptedBlocks(v) == AcceptedBlocks(s) + [s.t.blockedMsg.value]
    ensures PassInvariant(v)
  {
    FirstBlocksNext(s.t.blockedMsg.value);
    if s.t.phase == Sending {
      assert s.t.blockedTask == Some(ResumeTransfer);
      assert v.t == s.t.(blockedMsg := None, blockedTask := None, posted := s.t.posted + 1, log := v.t.log);
    } else {
      assert v.t.phase == s.t.phase && v.t.cfg == s.t.cfg;
    }
  }

  lemma {:induction false} NothingKept(s: System, maxPacket: nat)
    requires Sound(s, maxPacket) && PassInvariant(s) && (s.t.blockedMsg.None? || s.t.fault)
    ensures Sound(s.(t := Step(s.t, BucketHasRoom(true))), maxPacket)
    ensures PassInvariant(s.(t := Step(s.t, BucketHasRoom(true))))
  {
    BucketStaysCoherent(s.t);
  }

  lemma {:induction false} TimerKeeps(s: System, maxPacket: nat)
    requires Sound(s, maxPacket) && PassInvariant(s)
    ensures Sound(Next(s, RcTimer), maxPacket) && PassInvariant(Next(s, RcTimer))
  {
    RoundKeepsBlocks(s, maxPacket);
    var v := s.(q := RateControl.SendRound(s.q, 0));
    QueueOnly(s, v.q, maxPacket);
    if RateControl.HasRoom(v.q) {
      if s.t.blockedMsg.Some? && !s.t.fault {
        RoomKeeps(v, maxPacket);
      } else {
        NothingKept(v, maxPacket);
      }
    }
  }

  /** The invariants see of the queue only which blocks it has accepted. */
  lemma {:induction false} QueueOnly(s: System, q: RateControl.Queue, maxPacket: nat)
    requires Sound(s, maxPacket) && PassInvariant(s)
    requires RateControl.Valid(q, maxPacket) && BlocksOf(q.wire + q.queue) == AcceptedBlocks(s)
    ensures Sound(s.(q := q), maxPacket) && PassInvariant(s.(q := q))
  {
  }

  lemma {:induction false} LockKeepsPass(s: System, maxPacket: nat)
    requires Sound(s, maxPacket) && PassInvariant(s)
    ensures PassInvariant(s.(t := TakeLock(s.t)))
  {
  }

  lemma {:induction false} OwnKeeps(s: System, i: Input, maxPacket: nat)
    requires Sound(s, maxPacket) && PassInvariant(s)
    ensures Sound(Next(s, Own(i)), maxPacket) && PassInvariant(Next(s, Own(i)))
  {
    StepKeepsCoherent(s.t, i);
    StepKeepsConfig(s.t, i);
    match i
    case FileThreadLocks => LockKeepsPass(s, maxPacket);
    case WaitTimerFires(doneTaken) => WaitKeepsPass(s, doneTaken, maxPacket);
    case AnnounceRoundEnds => AnnounceKeepsPass(s, maxPacket);
    case MessageArrives(m) => MessageKeepsPass(s, m, maxPacket);
    case _ =>
  }

  lemma {:induction false} WaitKeepsPass(s: System, taken: bool, maxPacket: nat)
    requires Sound(s, maxPacket) && PassInvariant(s)
    ensures PassInvariant(s.(t := WaitEnds(s.t, taken)))
  {
  }

  lemma {:induction false} AnnounceKeepsPass(s: System, maxPacket: nat)
    requires Sound(s, maxPacket) && PassInvariant(s)
    ensures s.t.phase == Announcing ==> PassInvariant(s.(t := AnnounceRound(s.t)))
  {
  }

  /** A message changes nothing that the pass looks at. */
  lemma {:induction false} MessageKeepsPass(s: System, m: Message, maxPacket: nat)
    requires Sound(s, maxPacket) && PassInvariant(s)
    ensures PassInvariant(s.(t := Step(s.t, MessageArrives(m))))
  {
    var u := Step(s.t, MessageArrives(m));
    assert u == s.t.(standing := u.standing, naks := u.naks, later := u.later, log := u.log);
    SamePass(s, u);
  }

  lemma {:induction false} SamePass(s: System, u: Task)
    requires PassInvariant(s)
    requires u == s.t.(standing := u.standing, naks := u.naks, later := u.later, log := u.log)
    ensures PassInvariant(s.(t := u))
  {
  }

  lemma {:induction false} NextKeeps(s: System, m: Move, maxPacket: nat)
    requires Sound(s, maxPacket) && PassInvariant(s) && (m.OtherPacket? ==> m.length <= maxPacket)
    ensures Sound(Next(s, m), maxPacket) && PassInvariant(Next(s, m))
  {
    match m
    case Own(i) => OwnKeeps(s, i, maxPacket);
    case FileThreadOffers => OffersKeep(s, maxPacket);
    case OtherPacket(length) => OfferAdds(s, RateControl.Packet(length, None), maxPacket);
    case RcTimer => TimerKeeps(s, maxPacket);
  }

  lemma NextKeepsConfig(s: System, m: Move)
    ensures Next(s, m).t.cfg == s.t.cfg
  {
    if m.Own? {
      StepKeepsConfig(s.t, m.i);
    }
  }

  /** A task about to announce its file, and a worker that has taken none of its blocks. */
  ghost predicate AtStart(s: System, maxPacket: nat) {
    && s.t == Created(s.t.cfg, s.t.standing) && AcceptedBlocks(s) == []
    && RateControl.Valid(s.q, maxPacket) && 24 + s.t.cfg.geo.blockSize <= maxPacket
    && s.t.cfg.geo.blockCount > 0
  }

  /** Exactly once and in order: for every pattern of refusals, timer rounds and arrivals, the blocks
      accepted during the initial pass are 0, 1, 2, ... without gap or repeat, no assertion fails during the pass, and
      by the time the phase has moved on all of them are in. */
  lemma {:induction false} ExactlyOnceInOrder(s: System, moves: seq<Move>, maxPacket: nat)
    requires AtStart(s, maxPacket)
    requires forall m :: m in moves && m.OtherPacket? ==> m.length <= maxPacket
    ensures Sound(RunSystem(s, moves), maxPacket) && PassInvariant(RunSystem(s, moves))
    ensures RunSystem(s, moves).t.cfg == s.t.cfg
  {
    if moves != [] {
      var pre, m := moves[..|moves| - 1], moves[|moves| - 1];
      ExactlyOnceInOrder(s, pre, maxPacket);
      NextKeeps(RunSystem(s, pre), m, maxPacket);
      NextKeepsConfig(RunSystem(s, pre), m);
    }
  }

  /** DONE is posted only when every block has been accepted; the first block_count blocks accepted
      are then the file's, in order. */
  lemma {:induction false} DoneAfterLastBlock(s: System, moves: seq<Move>, maxPacket: nat)
    requires AtStart(s, maxPacket)
    requires forall m :: m in moves && m.OtherPacket? ==> m.length <= maxPacket
    requires RunSystem(s, moves).t.donePosted > 0
    ensures FirstBlocks(s.t.cfg.geo.blockCount) <= AcceptedBlocks(RunSystem(s, moves))
  {
    ExactlyOnceInOrder(s, moves, maxPacket);
  }
}
