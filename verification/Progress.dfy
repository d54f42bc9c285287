/** The rate limit delays the initial pass and never stops it, unless it leaves the bucket no size at all. */
module Progress {
  import opened Common
  import opened Sender
  import opened SenderSafety
  import opened InitialPass
  import RateControl

  /** A transfer speed is set, and it is enough for the bucket to hold something. */
  predicate CanSend(q: RateControl.Queue) {
    q.limited && q.bucketFull > 0 && q.perRound > 0
  }

  /** The initial pass is going on. */
  ghost predicate OnGoing(s: System, maxPacket: nat) {
    Sound(s, maxPacket) && PassInvariant(s) && s.t.phase == Sending && CanSend(s.q)
  }

  /** Some moves lead from one to the other. */
  ghost predicate Reaches(o: System, s: System) {
    exists moves: seq<Move> :: s == RunSystem(o, moves)
  }

  lemma ReachesItself(s: System)
    ensures Reaches(s, s)
  {
    assert RunSystem(s, []) == s;
  }

  lemma {:induction false} ReachesNext(o: System, s: System, m: Move)
    requires Reaches(o, s)
    ensures Reaches(o, Next(s, m))
  {
    var moves: seq<Move> :| s == RunSystem(o, moves);
    assert (moves + [m])[..|moves|] == moves;
    assert RunSystem(o, moves + [m]) == Next(s, m);
  }

  lemma {:induction false} RoundSends(q: RateControl.Queue, maxPacket: nat)
    requires RateControl.Valid(q, maxPacket) && CanSend(q)
    ensures var r := RateControl.SendRound(q, 0);
            && RateControl.Valid(r, maxPacket) && CanSend(r) && r.wire + r.queue == q.wire + q.queue
            && (q.queue != [] ==> |r.queue| < |q.queue|)
            && (q.queue == [] ==> r == q && RateControl.HasRoom(r))
  {
    RateControl.SendRoundKeeps(q, 0, maxPacket);
    if q.queue != [] {
      var p := q.queue[0];
      var next := q.(queue := q.queue[1..], wire := q.wire + [p], total := (q.total - p.length) % 0x1_0000_0000);
      QueueShrinks(next, p.length);
    }
  }

  lemma {:induction false} QueueShrinks(q: RateControl.Queue, sent: nat)
    ensures |RateControl.SendRound(q, sent).queue| <= |q.queue|
    decreases |q.queue|
  {
    if q.queue != [] && sent < q.perRound {
      var p := q.queue[0];
      QueueShrinks(q.(queue := q.queue[1..], wire := q.wire + [p], total := (q.total - p.length) % 0x1_0000_0000),
                   sent + p.length);
    }
  }

  // ----- A refused block -----

  /** The file thread rests, and a refused block waits for room. */
  ghost predicate Waits(s: System, maxPacket: nat) {
    OnGoing(s, maxPacket) && s.t.thread == Idle && s.t.blockedMsg.Some?
  }

  /** The block has gone in, and the job that resumes the pass is posted. */
  ghost predicate Posted(s: System, maxPacket: nat) {
    OnGoing(s, maxPacket) && s.t.thread == Idle && s.t.blockedMsg.None?
  }

  predicate SamePlace(s: System, v: System) {
    v.t.next == s.t.next && v.t.cfg == s.t.cfg
  }

  lemma {:induction false} TimerOnWaiting(s: System, maxPacket: nat)
    requires Waits(s, maxPacket)
    ensures var v := Next(s, RcTimer);
            SamePlace(s, v) && if RateControl.HasRoom(RateControl.SendRound(s.q, 0)) then Posted(v, maxPacket)
                               else Waits(v, maxPacket) && |v.q.queue| < |s.q.queue|
  {
    RoundSends(s.q, maxPacket);
    TimerKeeps(s, maxPacket);
    RoundKeepsBlocks(s, maxPacket);
    var w := s.(q := RateControl.SendRound(s.q, 0));
    QueueOnly(s, w.q, maxPacket);
    if RateControl.HasRoom(w.q) {
      RoomKeeps(w, maxPacket);
      KeptGoesIn(w, maxPacket);
    }
  }

  lemma {:induction false} KeptGoesIn(s: System, maxPacket: nat)
    requires Waits(s, maxPacket)
    ensures var u := Step(s.t, BucketHasRoom(true));
            u == s.t.(blockedMsg := None, blockedTask := None, posted := s.t.posted + 1, log := u.log)
  {
  }

  lemma {:induction false} Drains(o: System, s: System, maxPacket: nat) returns (v: System)
    requires Reaches(o, s) && Waits(s, maxPacket)
    ensures Reaches(o, v) && Posted(v, maxPacket) && SamePlace(s, v)
    decreases |s.q.queue|
  {
    TimerOnWaiting(s, maxPacket);
    ReachesNext(o, s, RcTimer);
    v := Next(s, RcTimer);
    if !RateControl.HasRoom(RateControl.SendRound(s.q, 0)) {
      v := Drains(o, v, maxPacket);
    }
  }

  // ----- The next block -----

  /** The file thread is about to pick the next block, or to find that there is none. */
  ghost predicate AtHead(s: System, maxPacket: nat) {
    OnGoing(s, maxPacket) && (s.t.thread == Entering || (s.t.thread.Handed? && s.t.thread.accepted))
  }

  lemma {:induction false} Resuming(o: System, s: System, maxPacket: nat) returns (v: System)
    requires Reaches(o, s) && Posted(s, maxPacket)
    ensures Reaches(o, v) && AtHead(v, maxPacket) && SamePlace(s, v)
  {
    NextKeeps(s, Own(FileThreadStarts), maxPacket);
    ReachesNext(o, s, Own(FileThreadStarts));
    v := Next(s, Own(FileThreadStarts));
  }

  lemma {:induction false} Resting(o: System, s: System, maxPacket: nat) returns (v: System)
    requires Reaches(o, s) && OnGoing(s, maxPacket) && s.t.thread.Handed? && !s.t.thread.accepted
    ensures Reaches(o, v) && OnGoing(v, maxPacket) && v.t.thread == Idle && SamePlace(s, v)
  {
    NextKeeps(s, Own(FileThreadLocks), maxPacket);
    ReachesNext(o, s, Own(FileThreadLocks));
    v := Next(s, Own(FileThreadLocks));
  }

  lemma {:induction false} FromRest(o: System, s: System, maxPacket: nat) returns (v: System)
    requires Reaches(o, s) && OnGoing(s, maxPacket) && s.t.thread == Idle
    ensures Reaches(o, v) && AtHead(v, maxPacket) && SamePlace(s, v)
  {
    var p := s;
    if s.t.blockedMsg.Some? {
      p := Drains(o, s, maxPacket);
    }
    v := Resuming(o, p, maxPacket);
  }

  lemma {:induction false} Offering(o: System, s: System, maxPacket: nat) returns (v: System)
    requires Reaches(o, s) && OnGoing(s, maxPacket) && s.t.thread.InFlight?
    ensures Reaches(o, v) && OnGoing(v, maxPacket) && v.t.thread.Handed? && SamePlace(s, v)
  {
    NextKeeps(s, FileThreadOffers, maxPacket);
    ReachesNext(o, s, FileThreadOffers);
    v := Next(s, FileThreadOffers);
    OfferedFields(s, maxPacket);
  }

  lemma {:induction false} OfferedFields(s: System, maxPacket: nat)
    requires OnGoing(s, maxPacket) && s.t.thread.InFlight?
    ensures var v := Next(s, FileThreadOffers);
            v.t.phase == Sending && v.t.thread.Handed? && v.t.next == s.t.next && v.t.cfg == s.t.cfg && CanSend(v.q)
  {
  }

  /** Wherever the pass is, it gets to the head of the loop. */
  lemma {:induction false} GetsToHead(o: System, s: System, maxPacket: nat) returns (v: System)
    requires Reaches(o, s) && OnGoing(s, maxPacket)
    ensures Reaches(o, v) && AtHead(v, maxPacket) && SamePlace(s, v)
  {
    var a := s;
    if s.t.thread.InFlight? {
      a := Offering(o, s, maxPacket);
    }
    if a.t.thread.Handed? && !a.t.thread.accepted {
      a := Resting(o, a, maxPacket);
    }
    v := a;
    if a.t.thread == Idle {
      v := FromRest(o, a, maxPacket);
    }
  }

  // ----- The end of the pass -----

  /** All the blocks are accepted, DONE is posted, and nothing is kept. */
  ghost predicate PassDone(s: System, maxPacket: nat) {
    && RateControl.Valid(s.q, maxPacket) && CanSend(s.q)
    && s.t.phase == WaitingClientStatus && s.t.donePosted > 0 && s.t.blockedMsg.None? && s.t.blockedTask.None?
    && AcceptedBlocks(s) == FirstBlocks(s.t.cfg.geo.blockCount)
  }

  lemma {:induction false} LastLock(s: System, maxPacket: nat)
    requires AtHead(s, maxPacket)
    ensures var v := Next(s, Own(FileThreadLocks));
            && v.t.cfg == s.t.cfg
            && (s.t.eof ==> PassDone(v, maxPacket))
            && (!s.t.eof ==> OnGoing(v, maxPacket) && v.t.next == s.t.next + 1)
  {
    NextKeeps(s, Own(FileThreadLocks), maxPacket);
  }

  lemma {:induction false} FinishesPass(o: System, s: System, maxPacket: nat) returns (v: System)
    requires Reaches(o, s) && AtHead(s, maxPacket)
    ensures Reaches(o, v) && PassDone(v, maxPacket) && v.t.cfg == s.t.cfg
    decreases s.t.cfg.geo.blockCount - s.t.next
  {
    LastLock(s, maxPacket);
    ReachesNext(o, s, Own(FileThreadLocks));
    v := Next(s, Own(FileThreadLocks));
    if !s.t.eof {
      v := GetsToHead(o, v, maxPacket);
      v := FinishesPass(o, v, maxPacket);
    }
  }

  lemma {:induction false} TimerOnDone(s: System, maxPacket: nat)
    requires PassDone(s, maxPacket)
    ensures var v := Next(s, RcTimer);
            v.t == s.t && PassDone(v, maxPacket) && (s.q.queue != [] ==> |v.q.queue| < |s.q.queue|)
  {
    RoundSends(s.q, maxPacket);
  }

  lemma {:induction false} Flushes(o: System, s: System, maxPacket: nat) returns (v: System)
    requires Reaches(o, s) && PassDone(s, maxPacket)
    ensures Reaches(o, v) && PassDone(v, maxPacket) && v.q.queue == [] && v.t == s.t
    decreases |s.q.queue|
  {
    v := s;
    if s.q.queue != [] {
      TimerOnDone(s, maxPacket);
      ReachesNext(o, s, RcTimer);
      v := Flushes(o, Next(s, RcTimer), maxPacket);
    }
  }

  /** The configuration of the worker does not change. */
  lemma {:induction false} RunKeepsWorker(s: System, moves: seq<Move>, maxPacket: nat)
    requires AtStart(s, maxPacket) && CanSend(s.q)
    requires forall m :: m in moves && m.OtherPacket? ==> m.length <= maxPacket
    ensures CanSend(RunSystem(s, moves).q)
  {
    if moves != [] {
      var pre := moves[..|moves| - 1];
      RunKeepsWorker(s, pre, maxPacket);
      ExactlyOnceInOrder(s, pre, maxPacket);
      RoundSends(RunSystem(s, pre).q, maxPacket);
    }
  }

  /** From wherever a run has brought the initial pass, whatever was refused on the way, moves lead on to its end:
      every block of the file has gone out, once and in order, and DONE is posted. */
  lemma {:induction false} PassCanFinish(s: System, moves: seq<Move>, maxPacket: nat) returns (v: System)
    requires AtStart(s, maxPacket) && CanSend(s.q)
    requires forall m :: m in moves && m.OtherPacket? ==> m.length <= maxPacket
    requires RunSystem(s, moves).t.phase == Sending
    ensures Reaches(RunSystem(s, moves), v)
    ensures v.t.phase == WaitingClientStatus && v.t.donePosted > 0 && v.q.queue == []
    ensures BlocksOf(v.q.wire) == FirstBlocks(s.t.cfg.geo.blockCount)
  {
    var o := RunSystem(s, moves);
    ExactlyOnceInOrder(s, moves, maxPacket);
    RunKeepsWorker(s, moves, maxPacket);
    ReachesItself(o);
    var a := GetsToHead(o, o, maxPacket);
    var b := FinishesPass(o, a, maxPacket);
    v := Flushes(o, b, maxPacket);
    assert v.q.wire + v.q.queue == v.q.wire;
  }

  /** With a speed so low that the bucket has no size, no run sends anything. */
  lemma {:induction false} NothingWithoutBucket(s: System, moves: seq<Move>)
    requires s.q.limited && s.q.bucketFull == 0 && s.q.queue == []
    ensures RunSystem(s, moves).q == s.q
  {
    if moves != [] {
      NothingWithoutBucket(s, moves[..|moves| - 1]);
    }
  }
}
