/** When the sender's assertions can fail (sender/detail/file_send_task.cpp:352,404,476), and what a
    refused block at the end of a repair pass leads to. */
module SenderFaults {
  import opened Common
  import opened Geometry
  import opened Messages
  import opened Sender
  import opened SenderSafety
  import opened Repair
  import NakCodec
  import RateControl
  import InitialPass

  /** How many continuations are outstanding: a kept task, posted jobs and pending calls. */
  function Outstanding(t: Task): nat {
    (if t.blockedTask.Some? then 1 else 0) + t.posted + t.donePosted + t.timers
  }

  /** The sender has one thing to do at a time. While the file thread is at work nothing else is
      outstanding, except that after a refusal the block is kept, or already resumed. */
  predicate OneAtATime(t: Task) {
    && !t.fault
    && (t.blockedMsg.Some? ==> t.blockedTask == Some(ResumeTransfer))
    && match t.thread
       case Idle => Outstanding(t) <= 1
       case Handed(_, _, false) =>
         && t.donePosted == 0 && t.timers == 0
         && if t.blockedMsg.Some? then t.posted == 0 else t.blockedTask.None? && t.posted == 1
       case _ => Outstanding(t) == 0
  }

  /** The file thread ends a repair pass whose last block was refused, and finds new NAKs. */
  predicate RewindsRefused(t: Task, i: Input) {
    && !t.fault && i.FileThreadLocks? && Back(t.thread, true, false)
    && Unsent(t) == {} && t.later != {}
  }

  /** A kept block is refused once more, which a bucket with room does not do. */
  predicate RefusesKept(t: Task, i: Input) {
    !t.fault && i == BucketHasRoom(false) && t.blockedMsg.Some?
  }

  lemma LockStaysOne(t: Task)
    requires Coherent(t) && OneAtATime(t) && !RewindsRefused(t, FileThreadLocks)
    ensures OneAtATime(TakeLock(t))
  {
    var s := t.(cursor := Some(0));
    if t.thread.Entering? && t.phase == SendingLost {
      LoopStaysOne(t);
      LoopStaysOne(s);
    } else if Back(t.thread, true, true) {
      LoopStaysOne(t);
    }
  }

  lemma LoopStaysOne(t: Task)
    requires !t.fault && t.blockedMsg.None? && Outstanding(t) == 0 && t.eof
    ensures OneAtATime(LostLoop(t))
  {
  }

  /** One pending call is taken up, and at most one thing follows from it. */
  lemma WaitStaysOne(t: Task, taken: bool)
    requires OneAtATime(t)
    ensures OneAtATime(WaitEnds(t, taken))
  {
    if t.timers > 0 {
      AfterWaitOne(t.(timers := t.timers - 1), taken);
    }
  }

  lemma AfterWaitOne(t: Task, taken: bool)
    requires t.thread == Idle && !t.fault && t.blockedMsg.None? && Outstanding(t) == 0
    ensures OneAtATime(AfterWait(t, taken))
  {
    var u := t.(rounds := t.rounds + 1);
    if t.rounds < t.cfg.robust {
      RoundLeavesOne(u, taken);
    } else {
      GivingUpLeavesOne(u);
    }
  }

  lemma RoundLeavesOne(u: Task, taken: bool)
    requires u.thread == Idle && !u.fault && u.blockedMsg.None? && Outstanding(u) == 0
    ensures OneAtATime(WaitRound(u, taken))
  {
  }

  lemma GivingUpLeavesOne(u: Task)
    requires u.thread == Idle && !u.fault && u.blockedMsg.None? && Outstanding(u) == 0
    ensures OneAtATime(WaitGivesUp(u))
  {
  }

  lemma AnnounceStaysOne(t: Task)
    requires Coherent(t) && OneAtATime(t) && t.phase == Announcing
    ensures OneAtATime(AnnounceRound(t))
  {
  }

  lemma MessageStaysOne(t: Task, m: Message)
    requires OneAtATime(t)
    ensures OneAtATime(Step(t, MessageArrives(m)))
  {
  }

  lemma StepStaysOne(t: Task, i: Input)
    requires Coherent(t) && OneAtATime(t) && !RewindsRefused(t, i) && !RefusesKept(t, i)
    ensures OneAtATime(Step(t, i))
  {
    match i
    case FileThreadLocks => LockStaysOne(t);
    case WaitTimerFires(doneTaken) => WaitStaysOne(t, doneTaken);
    case AnnounceRoundEnds =>
      if t.phase == Announcing {
        AnnounceStaysOne(t);
      }
    case MessageArrives(m) => MessageStaysOne(t, m);
    case _ =>
  }

  /** In this run no repair pass goes round again after a refusal of its last block, and the bucket
      takes every kept block when it has room. */
  ghost predicate Smooth(t: Task, inputs: seq<Input>) {
    forall k :: 0 <= k < |inputs| ==>
      !RewindsRefused(Run(t, inputs[..k]), inputs[k]) && !RefusesKept(Run(t, inputs[..k]), inputs[k])
  }

  lemma {:induction false} SmoothBefore(t: Task, pre: seq<Input>, i: Input)
    requires Smooth(t, pre + [i])
    ensures Smooth(t, pre) && !RewindsRefused(Run(t, pre), i) && !RefusesKept(Run(t, pre), i)
  {
    var all := pre + [i];
    assert all[..|pre|] == pre && all[|pre|] == i;
    forall k | 0 <= k < |pre|
      ensures !RewindsRefused(Run(t, pre[..k]), pre[k]) && !RefusesKept(Run(t, pre[..k]), pre[k])
    {
      assert all[..k] == pre[..k] && all[k] == pre[k];
    }
  }

  /** No assertion fails in any run in which no repair pass goes round again after a refusal of its last
      block. */
  lemma {:induction false} SmoothRunsNeverFault(t: Task, inputs: seq<Input>)
    requires t == Created(t.cfg, t.standing) && Smooth(t, inputs)
    ensures Coherent(Run(t, inputs)) && OneAtATime(Run(t, inputs)) && !Run(t, inputs).fault
    ensures SomeoneListens(Run(t, inputs))
  {
    if inputs != [] {
      var pre, i := inputs[..|inputs| - 1], inputs[|inputs| - 1];
      assert inputs == pre + [i];
      SmoothBefore(t, pre, i);
      SmoothRunsNeverFault(t, pre);
      StepKeepsCoherent(Run(t, pre), i);
      StepStaysOne(Run(t, pre), i);
      StepKeepsListener(Run(t, pre), i);
    }
  }

  // ----- The other direction -----

  predicate Listens(t: Task, id: nat) {
    id in t.standing && t.standing[id] != DoneWithFile
  }

  /** A repair pass has someone to repair for, whose STATUS would still be heeded. */
  ghost predicate SomeoneListens(t: Task) {
    t.phase == SendingLost ==> exists id :: Listens(t, id)
  }

  lemma StepKeepsListener(t: Task, i: Input)
    requires Coherent(t) && SomeoneListens(t)
    ensures SomeoneListens(Step(t, i))
  {
    if !t.fault {
      match i
      case FileThreadLocks => LockKeepsListener(t);
      case WaitTimerFires(doneTaken) => WaitKeepsListener(t, doneTaken);
      case MessageArrives(m) => MessageKeepsListener(t, m);
      case AbortArrives(from) =>
        if id :| Listens(t, id) {
          assert Listens(Step(t, i), id);
        }
      case _ => SameListeners(t, Step(t, i));
    }
  }

  lemma SameListeners(t: Task, u: Task)
    requires SomeoneListens(t) && u.standing == t.standing && (u.phase == SendingLost ==> t.phase == SendingLost)
    ensures SomeoneListens(u)
  {
    if id :| Listens(t, id) {
      assert Listens(u, id);
    }
  }

  lemma LockKeepsListener(t: Task)
    requires Coherent(t) && SomeoneListens(t)
    ensures SomeoneListens(TakeLock(t))
  {
    LockPhase(t);
    LockKeepsConfig(t);
    SameListeners(t, TakeLock(t));
  }

  lemma LockPhase(t: Task)
    requires Coherent(t)
    ensures TakeLock(t).phase == SendingLost ==> t.phase == SendingLost
  {
  }

  lemma WaitKeepsListener(t: Task, taken: bool)
    requires SomeoneListens(t)
    ensures SomeoneListens(WaitEnds(t, taken))
  {
    var u := WaitEnds(t, taken);
    WaitRepairs(t, taken);
    if u.phase == SendingLost {
      var id :| Listens(t, id);
      assert Listens(u, id);
    }
  }

  /** A repair starts only for a receiver with NAKs outstanding. */
  lemma WaitRepairs(t: Task, taken: bool)
    ensures var u := WaitEnds(t, taken);
            u.phase == SendingLost ==> t.phase == SendingLost || exists id :: Listens(t, id)
  {
    if Any(t, ActiveNak) {
      var id :| id in t.standing && t.standing[id] == ActiveNak;
      assert Listens(t, id);
    }
  }

  lemma MessageKeepsListener(t: Task, m: Message)
    requires SomeoneListens(t)
    ensures SomeoneListens(Step(t, MessageArrives(m)))
  {
    if t.phase == SendingLost {
      var id :| Listens(t, id);
      assert Listens(Step(t, MessageArrives(m)), id);
    }
  }

  /** A STATUS that complains about the first block. */
  function FirstBlockNaked(t: Task, id: nat): (m: Message)
    ensures m.Status?
  {
    Status(id, t.cfg.fileId, 0, [1])
  }

  lemma FirstBlockScanned()
    ensures NakCodec.PlainScan([1]) == {0}
  {
    assert NakCodec.PackByte([true]) == 1;
    assert NakCodec.PackBits([true]) == [1];
    NakCodec.ScanOfPacked([true]);
    assert NakCodec.SetBits([true]) == {0};
  }

  lemma StatusSetAside(t: Task, id: nat) returns (i: Input, u: Task)
    requires Listens(t, id) && t.phase != WaitingClientStatus && !t.fault
    ensures i.MessageArrives? && i.m.Status? && u == Step(t, i)
    ensures u == t.(standing := u.standing, log := u.log, later := u.later) && u.later != {}
    ensures Unsent(u) == Unsent(t)
  {
    var m := FirstBlockNaked(t, id);
    FirstBlockScanned();
    assert 0 in NakCodec.PlainScan([1]);
    assert AbsBlk(t.cfg.geo, 0, 0) in NakedBlocks(t, m);
    i, u := MessageArrives(m), Step(t, MessageArrives(m));
    assert Unsent(u) == Unsent(t);
  }

  /** The pass goes round again: what is left over from the refusal is outstanding. */
  predicate RoundAgain(t: Task) {
    && t.phase == SendingLost && t.thread == Entering && t.cursor.None? && t.naks != {} && t.later == {} && t.eof
    && !t.fault
    && if t.blockedMsg.Some? then t.blockedTask == Some(ResumeTransfer) else t.blockedTask.None? && t.posted == 1
  }

  lemma RewindGoesRound(t: Task)
    requires Coherent(t) && OneAtATime(t) && RewindsRefused(t, FileThreadLocks)
    ensures var u := Step(t, FileThreadLocks); RoundAgain(u) && u.standing == t.standing && u.cfg == t.cfg
    ensures Step(t, FileThreadLocks).blockedMsg == t.blockedMsg
  {
  }

  lemma {:induction false} FaultStays(t: Task, inputs: seq<Input>)
    requires t.fault
    ensures Run(t, inputs) == t
  {
    if inputs != [] {
      FaultStays(t, inputs[..|inputs| - 1]);
    }
  }

  /** A block is in hand while another is kept: refusing it fails the assertion that none is. */
  lemma SecondRefusalFaults(t: Task)
    requires t.thread.InFlight? && !t.fault && (t.blockedMsg.Some? || t.blockedTask.Some?)
    ensures Step(t, FileThreadSends(false)).fault
  {
  }

  /** The way to the failure when the refused block was resumed before the pass went round: a further
      NAK, a further refusal, and the stray job sets the file thread off while that block is kept. */
  lemma StrayJobRuns(t: Task)
    requires t.phase == SendingLost && Back(t.thread, true, false) && t.later != {} && t.posted == 1 && !t.fault
    requires t.blockedMsg.Some? && t.blockedTask.Some? && t.cursor.Some?
    ensures var u := Step(Step(Step(t, FileThreadLocks), FileThreadStarts), FileThreadLocks);
            u.thread.InFlight? && !u.fault && u.blockedMsg.Some?
  {
    var v := Step(t, FileThreadLocks);
    if Unsent(t) == {} {
      EntersPass(v);
      assert Step(v, FileThreadStarts) == v;
    } else {
      assert v == t.(thread := Idle);
      var w := Step(v, FileThreadStarts);
      assert Unsent(w) == Unsent(t);
    }
  }

  lemma {:induction false} ResumedRewindFaults(t: Task, id: nat) returns (inputs: seq<Input>)
    requires RoundAgain(t) && t.blockedMsg.None? && Listens(t, id)
    ensures Run(t, inputs).fault && forall i :: i in inputs ==> !i.BucketHasRoom?
  {
    EntersPass(t);
    var a := Step(t, FileThreadLocks);
    var nak, b := StatusSetAside(a, id);
    var c := Step(b, FileThreadSends(false));
    assert c == b.(thread := Handed(true, b.thread.blk, false), blockedMsg := Some(b.thread.blk),
                   blockedTask := Some(ResumeTransfer));
    StrayJobRuns(c);
    var d := Step(Step(Step(c, FileThreadLocks), FileThreadStarts), FileThreadLocks);
    SecondRefusalFaults(d);
    var last := [FileThreadLocks, FileThreadStarts] + ([FileThreadLocks] + ([FileThreadSends(false)] + []));
    inputs := [FileThreadLocks, nak] + ([FileThreadSends(false)] + last);
    RunTwo(t, FileThreadLocks, nak, [FileThreadSends(false)] + last);
    RunFirst(b, FileThreadSends(false), last);
    RunTwo(c, FileThreadLocks, FileThreadStarts, [FileThreadLocks] + ([FileThreadSends(false)] + []));
    RunFirst(Step(Step(c, FileThreadLocks), FileThreadStarts), FileThreadLocks, [FileThreadSends(false)] + []);
    RunFirst(d, FileThreadSends(false), []);
  }

  lemma {:induction false} KeptRewindFaults(t: Task) returns (inputs: seq<Input>)
    requires RoundAgain(t) && t.blockedMsg.Some?
    ensures Run(t, inputs).fault && forall i :: i in inputs ==> !i.BucketHasRoom?
  {
    EntersPass(t);
    var a := Step(t, FileThreadLocks);
    SecondRefusalFaults(a);
    inputs := [FileThreadLocks, FileThreadSends(false)] + [];
    RunTwo(t, FileThreadLocks, FileThreadSends(false), []);
  }

  /** With the block still kept, taking every block does not help: the DONE that the pass posts is then
      the one whose refusal fails the assertion that no task is kept. */
  lemma {:induction false} KeptRewindFaultsAtDone(t: Task) returns (inputs: seq<Input>)
    requires RoundAgain(t) && t.blockedMsg.Some?
    ensures Run(t, inputs + [PostedDoneRuns(false)]).fault && !Run(t, inputs).fault
    ensures forall i :: i in inputs ==> Unrefused(i)
  {
    EntersPass(t);
    var a := Step(t, FileThreadLocks);
    var rest := PassFrom(a);
    inputs := [FileThreadLocks] + rest;
    RunFirst(t, FileThreadLocks, rest);
    var b := Run(t, inputs);
    assert b.blockedTask.Some? && b.donePosted > 0;
    RunAppend(t, inputs, [PostedDoneRuns(false)]);
    RunFirst(b, PostedDoneRuns(false), []);
    assert [PostedDoneRuns(false)] + [] == [PostedDoneRuns(false)];
  }

  /** The converse: as soon as a smooth run is followed by such a rewind, some continuation in which the
      bucket never has to take a kept block fails an assertion, whether the refused block is still kept or
      has been resumed. */
  lemma {:induction false} RefusedRewindCanFault(t: Task, inputs: seq<Input>) returns (more: seq<Input>)
    requires t == Created(t.cfg, t.standing) && Smooth(t, inputs)
    requires RewindsRefused(Run(t, inputs), FileThreadLocks)
    ensures Run(t, inputs + [FileThreadLocks] + more).fault && forall i :: i in more ==> !i.BucketHasRoom?
  {
    SmoothRunsNeverFault(t, inputs);
    var v := Run(t, inputs);
    RewindGoesRound(v);
    var u := Step(v, FileThreadLocks);
    if u.blockedMsg.Some? {
      more := KeptRewindFaults(u);
    } else {
      var id :| Listens(v, id);
      more := ResumedRewindFaults(u, id);
    }
    RunAppend(t, inputs + [FileThreadLocks], more);
    RunAppend(t, inputs, [FileThreadLocks]);
    RunFirst(v, FileThreadLocks, []);
    assert [FileThreadLocks] + [] == [FileThreadLocks];
  }

  // ----- A refused last block without new NAKs -----

  /** The sender waits for answers to a DONE that it has not sent and will not send. */
  predicate Stalled(t: Task) {
    && t.phase == WaitingClientStatus && t.timers == 0 && t.donePosted == 0
    && t.blockedTask != Some(StartWaiting) && (t.thread == Idle || t.thread == Entering)
  }

  lemma StepStaysStalled(t: Task, i: Input)
    requires Stalled(t)
    ensures Stalled(Step(t, i)) && !SendsDone(t, i)
  {
  }

  lemma {:induction false} StaysStalled(t: Task, inputs: seq<Input>)
    requires Stalled(t)
    ensures Stalled(Run(t, inputs))
  {
    if inputs != [] {
      StaysStalled(t, inputs[..|inputs| - 1]);
      StepStaysStalled(Run(t, inputs[..|inputs| - 1]), inputs[|inputs| - 1]);
    }
  }

  /** If the last block of a repair pass is refused and no NAK has come in, the sender is stuck: whatever
      happens from then on, it never sends a DONE, posts one or waits for an answer again. */
  lemma {:induction false} RefusedLastBlockStalls(t: Task, inputs: seq<Input>, more: seq<Input>, i: Input)
    requires t == Created(t.cfg, t.standing) && Smooth(t, inputs)
    requires var v := Run(t, inputs); Back(v.thread, true, false) && Unsent(v) == {} && v.later == {}
    ensures var w := Run(Step(Run(t, inputs), FileThreadLocks), more);
            w.phase == WaitingClientStatus && w.timers == 0 && w.donePosted == 0 && !SendsDone(w, i)
  {
    SmoothRunsNeverFault(t, inputs);
    var v := Run(t, inputs);
    RepairPassPostsDoneIff(v);
    PassEndsStalled(v);
    StaysStalled(Step(v, FileThreadLocks), more);
    StepStaysStalled(Run(Step(v, FileThreadLocks), more), i);
  }

  lemma PassEndsStalled(v: Task)
    requires Coherent(v) && OneAtATime(v) && Back(v.thread, true, false) && Unsent(v) == {} && v.later == {}
    ensures Stalled(Step(v, FileThreadLocks))
  {
  }

  // ----- Both refused states are reached -----

  /** A smooth run that leads to s. */
  ghost predicate Leads(t: Task, inputs: seq<Input>, s: Task) {
    t == Created(t.cfg, t.standing) && Smooth(t, inputs) && Run(t, inputs) == s
  }

  lemma {:induction false} LeadsOn(t: Task, inputs: seq<Input>, s: Task, i: Input)
    requires Leads(t, inputs, s) && !RewindsRefused(s, i) && !RefusesKept(s, i)
    ensures Leads(t, inputs + [i], Step(s, i))
  {
    var all := inputs + [i];
    RunAppend(t, inputs, [i]);
    RunFirst(s, i, []);
    assert [i] + [] == [i];
    forall k | 0 <= k < |all|
      ensures !RewindsRefused(Run(t, all[..k]), all[k]) && !RefusesKept(Run(t, all[..k]), all[k])
    {
      assert all[..k] == inputs[..k];
      if k < |inputs| {
        assert all[k] == inputs[k];
      } else {
        assert inputs[..k] == inputs;
      }
    }
  }

  /** A file of one block, about to be announced to one receiver. */
  predicate OneBlock(t: Task, r: nat) {
    && t == Created(t.cfg, t.standing) && t.standing.Keys == {r} && t.standing[r] == Registered
    && t.cfg.geo.blockCount == 1 && t.cfg.geo.fileSize > 0 && t.cfg.robust > 0
  }

  /** A run of it, in which so far nothing was refused and no NAK set aside, has come to s. */
  ghost predicate Comes(t: Task, r: nat, inputs: seq<Input>, s: Task) {
    && OneBlock(t, r) && Leads(t, inputs, s)
    && s.cfg == t.cfg && !s.fault && s.standing.Keys == {r} && s.later == {} && s.rounds == 0
    && s.blockedMsg.None? && s.blockedTask.None? && s.cursor.None?
  }

  lemma Nothing(t: Task) returns (inputs: seq<Input>)
    requires t == Created(t.cfg, t.standing)
    ensures Leads(t, inputs, t)
  {
    inputs := [];
  }

  lemma {:induction false} Acknowledging(t: Task, r: nat) returns (inputs: seq<Input>, s: Task)
    requires OneBlock(t, r)
    ensures Comes(t, r, inputs, s) && s.standing[r] == Active && s.naks == {} && Outstanding(s) == 0
    ensures s.phase == Announcing && s.thread == Idle && s.next == 0 && !s.eof
  {
    inputs := Nothing(t);
    var ack := MessageArrives(FileInfoAck(r, t.cfg.fileId, false));
    LeadsOn(t, inputs, t, ack);
    inputs, s := inputs + [ack], Step(t, ack);
  }

  lemma {:induction false} BeginningPass(t: Task, r: nat) returns (inputs: seq<Input>, s: Task)
    requires OneBlock(t, r)
    ensures Comes(t, r, inputs, s) && s.standing[r] == Active && s.naks == {} && Outstanding(s) == 1
    ensures s.phase == Sending && s.thread == Idle && s.posted == 1 && s.next == 0 && !s.eof
  {
    var a;
    inputs, a := Acknowledging(t, r);
    LeadsOn(t, inputs, a, AnnounceRoundEnds);
    inputs, s := inputs + [AnnounceRoundEnds], Step(a, AnnounceRoundEnds);
  }

  lemma {:induction false} StartingPass(t: Task, r: nat) returns (inputs: seq<Input>, s: Task)
    requires OneBlock(t, r)
    ensures Comes(t, r, inputs, s) && s.standing[r] == Active && s.naks == {} && Outstanding(s) == 0
    ensures s.phase == Sending && s.thread == Entering && s.next == 0 && !s.eof
  {
    var a;
    inputs, a := BeginningPass(t, r);
    LeadsOn(t, inputs, a, FileThreadStarts);
    inputs, s := inputs + [FileThreadStarts], Step(a, FileThreadStarts);
  }

  lemma {:induction false} PickingBlock(t: Task, r: nat) returns (inputs: seq<Input>, s: Task)
    requires OneBlock(t, r)
    ensures Comes(t, r, inputs, s) && s.standing[r] == Active && s.naks == {} && Outstanding(s) == 0
    ensures s.phase == Sending && s.thread == InFlight(false, 0) && s.eof
  {
    var a;
    inputs, a := StartingPass(t, r);
    LeadsOn(t, inputs, a, FileThreadLocks);
    inputs, s := inputs + [FileThreadLocks], Step(a, FileThreadLocks);
  }

  lemma {:induction false} SendingBlock(t: Task, r: nat) returns (inputs: seq<Input>, s: Task)
    requires OneBlock(t, r)
    ensures Comes(t, r, inputs, s) && s.standing[r] == Active && s.naks == {} && Outstanding(s) == 0
    ensures s.phase == Sending && s.thread == Handed(false, 0, true) && s.eof
  {
    var a;
    inputs, a := PickingBlock(t, r);
    LeadsOn(t, inputs, a, FileThreadSends(true));
    inputs, s := inputs + [FileThreadSends(true)], Step(a, FileThreadSends(true));
  }

  lemma {:induction false} EndingPass(t: Task, r: nat) returns (inputs: seq<Input>, s: Task)
    requires OneBlock(t, r)
    ensures Comes(t, r, inputs, s) && s.standing[r] == Active && s.naks == {} && Outstanding(s) == 1
    ensures s.phase == WaitingClientStatus && s.thread == Idle && s.donePosted == 1 && s.eof
  {
    var a;
    inputs, a := SendingBlock(t, r);
    LeadsOn(t, inputs, a, FileThreadLocks);
    inputs, s := inputs + [FileThreadLocks], Step(a, FileThreadLocks);
  }

  lemma {:induction false} SendingDone(t: Task, r: nat) returns (inputs: seq<Input>, s: Task)
    requires OneBlock(t, r)
    ensures Comes(t, r, inputs, s) && s.standing[r] == Active && s.naks == {} && Outstanding(s) == 1
    ensures s.phase == WaitingClientStatus && s.thread == Idle && s.timers == 1 && s.eof
  {
    var a;
    inputs, a := EndingPass(t, r);
    LeadsOn(t, inputs, a, PostedDoneRuns(true));
    inputs, s := inputs + [PostedDoneRuns(true)], Step(a, PostedDoneRuns(true));
  }

  lemma {:induction false} TakesNak(s: Task, r: nat) returns (i: Input, u: Task)
    requires Listens(s, r) && s.phase == WaitingClientStatus && !s.fault
    ensures i.MessageArrives? && i.m.Status? && u == Step(s, i)
    ensures u == s.(standing := s.standing[r := ActiveNak], naks := s.naks + {0}, log := u.log)
  {
    FirstBlockScanned();
    assert AbsBlk(s.cfg.geo, 0, 0) == 0;
    assert NakedBlocks(s, FirstBlockNaked(s, r)) == {0};
    i := MessageArrives(FirstBlockNaked(s, r));
    u := Step(s, i);
  }

  lemma {:induction false} Complaining(t: Task, r: nat) returns (inputs: seq<Input>, s: Task)
    requires OneBlock(t, r)
    ensures Comes(t, r, inputs, s) && s.standing[r] == ActiveNak && s.naks == {0} && Outstanding(s) == 1
    ensures s.phase == WaitingClientStatus && s.thread == Idle && s.timers == 1 && s.eof
  {
    var a;
    inputs, a := SendingDone(t, r);
    var nak;
    nak, s := TakesNak(a, r);
    LeadsOn(t, inputs, a, nak);
    inputs := inputs + [nak];
  }

  /** The repair pass is about to enter the lock for the block that was complained about. */
  predicate OneLost(s: Task, r: nat) {
    && s.phase == SendingLost && s.naks == {0} && s.later == {} && s.cursor.None? && s.eof && !s.fault
    && s.blockedMsg.None? && s.blockedTask.None? && Listens(s, r)
  }

  lemma {:induction false} PostingRepair(t: Task, r: nat) returns (inputs: seq<Input>, s: Task)
    requires OneBlock(t, r)
    ensures Leads(t, inputs, s) && OneLost(s, r) && s.thread == Idle && s.posted > 0
  {
    var a;
    inputs, a := Complaining(t, r);
    LeadsOn(t, inputs, a, WaitTimerFires(true));
    inputs, s := inputs + [WaitTimerFires(true)], Step(a, WaitTimerFires(true));
  }

  lemma {:induction false} StartingRepair(t: Task, r: nat) returns (inputs: seq<Input>, s: Task)
    requires OneBlock(t, r)
    ensures Leads(t, inputs, s) && OneLost(s, r) && s.thread == Entering
  {
    var a;
    inputs, a := PostingRepair(t, r);
    LeadsOn(t, inputs, a, FileThreadStarts);
    inputs, s := inputs + [FileThreadStarts], Step(a, FileThreadStarts);
  }

  lemma PicksOnlyBlock(a: Task, r: nat) returns (s: Task)
    requires OneLost(a, r) && a.thread == Entering
    ensures s == Step(a, FileThreadLocks) && Listens(s, r) && s.later == {} && Unsent(s) == {}
    ensures MidPass(s) && s.blockedMsg.None? && s.blockedTask.None?
  {
    EntersPass(a);
    s := a.(cursor := Some(Least(a.naks) + 1), thread := InFlight(true, Least(a.naks)));
    assert a.naks - {Least(a.naks)} == {};
  }

  lemma {:induction false} PickingLostBlock(t: Task, r: nat) returns (inputs: seq<Input>, s: Task)
    requires OneBlock(t, r)
    ensures Leads(t, inputs, s) && Listens(s, r) && s.later == {} && Unsent(s) == {}
    ensures MidPass(s) && s.blockedMsg.None? && s.blockedTask.None?
  {
    var a;
    inputs, a := StartingRepair(t, r);
    LeadsOn(t, inputs, a, FileThreadLocks);
    s := PicksOnlyBlock(a, r);
    inputs := inputs + [FileThreadLocks];
  }

  /** For every such task a run reaches the end of a repair pass with its last block refused and no new
      NAKs, where the sender is stuck. */
  lemma {:induction false} StallIsReached(t: Task, r: nat) returns (inputs: seq<Input>)
    requires OneBlock(t, r)
    ensures Smooth(t, inputs)
    ensures var v := Run(t, inputs); Back(v.thread, true, false) && Unsent(v) == {} && v.later == {}
  {
    var a;
    inputs, a := PickingLostBlock(t, r);
    Refused(a);
    LeadsOn(t, inputs, a, FileThreadSends(false));
    inputs := inputs + [FileThreadSends(false)];
  }

  lemma Refused(s: Task)
    requires s.thread.InFlight? && !s.fault && s.blockedMsg.None? && s.blockedTask.None?
    ensures var u := Step(s, FileThreadSends(false));
            && u == s.(thread := Handed(s.thread.lost, s.thread.blk, false),
                       blockedMsg := Some(s.thread.blk), blockedTask := Some(ResumeTransfer))
            && Unsent(u) == Unsent(s)
  {
    assert Unsent(Step(s, FileThreadSends(false))) == Unsent(s);
  }

  lemma {:induction false} LeadsTo(t: Task, inputs: seq<Input>, s: Task, i: Input, u: Task)
    requires Leads(t, inputs, s) && i.MessageArrives? && u == Step(s, i)
    ensures Leads(t, inputs + [i], u)
  {
    LeadsOn(t, inputs, s, i);
  }

  lemma SetsAside(a: Task, r: nat) returns (i: Input, u: Task)
    requires Listens(a, r) && MidPass(a) && Unsent(a) == {} && a.blockedMsg.None? && a.blockedTask.None?
    ensures i.MessageArrives? && u == Step(a, i)
    ensures u.later != {} && Unsent(u) == {} && MidPass(u) && u.blockedMsg.None? && u.blockedTask.None?
  {
    i, u := StatusSetAside(a, r);
  }

  lemma {:induction false} SettingAside(t: Task, r: nat) returns (inputs: seq<Input>, s: Task)
    requires OneBlock(t, r)
    ensures Leads(t, inputs, s) && s.later != {} && Unsent(s) == {}
    ensures MidPass(s) && s.blockedMsg.None? && s.blockedTask.None?
  {
    var a;
    inputs, a := PickingLostBlock(t, r);
    var nak;
    nak, s := SetsAside(a, r);
    LeadsTo(t, inputs, a, nak, s);
    inputs := inputs + [nak];
  }

  lemma {:induction false} RefusedWithNaks(t: Task, r: nat) returns (inputs: seq<Input>, s: Task)
    requires OneBlock(t, r)
    ensures Leads(t, inputs, s) && RewindsRefused(s, FileThreadLocks)
    ensures s.blockedMsg.Some? && s.blockedTask == Some(ResumeTransfer)
  {
    var a;
    inputs, a := SettingAside(t, r);
    Refused(a);
    LeadsOn(t, inputs, a, FileThreadSends(false));
    inputs, s := inputs + [FileThreadSends(false)], Step(a, FileThreadSends(false));
  }

  /** For every such task runs reach a rewind after a refusal, with the block kept and with it resumed. */
  lemma {:induction false} RefusedRewindIsReached(t: Task, r: nat, kept: bool) returns (inputs: seq<Input>)
    requires OneBlock(t, r)
    ensures Smooth(t, inputs) && RewindsRefused(Run(t, inputs), FileThreadLocks)
    ensures Run(t, inputs).blockedMsg.Some? <==> kept
  {
    var s;
    inputs, s := RefusedWithNaks(t, r);
    if !kept {
      LeadsOn(t, inputs, s, BucketHasRoom(true));
      inputs := inputs + [BucketHasRoom(true)];
      assert Unsent(Step(s, BucketHasRoom(true))) == Unsent(s);
    }
  }

  // ----- With the bucket -----

  /** One step of the task and its worker. A bucket that has room takes the kept block. */
  lemma {:induction false} SystemStaysOne(s: InitialPass.System, m: InitialPass.Move, maxPacket: nat)
    requires InitialPass.Sound(s, maxPacket) && OneAtATime(s.t)
    requires m.Own? ==> !RewindsRefused(s.t, m.i)
    ensures OneAtATime(InitialPass.Next(s, m).t)
  {
    match m
    case Own(i) =>
      if !i.FileThreadSends? && !i.BucketHasRoom? {
        StepStaysOne(s.t, i);
      }
    case FileThreadOffers =>
      if s.t.thread.InFlight? {
        var (_, accepted) := RateControl.SendPacket(s.q, InitialPass.SegPacket(s.t, s.t.thread.blk));
        StepStaysOne(s.t, FileThreadSends(accepted));
      }
    case OtherPacket(length) =>
    case RcTimer =>
      RateControl.SendRoundKeeps(s.q, 0, maxPacket);
      var q := RateControl.SendRound(s.q, 0);
      if RateControl.HasRoom(q) {
        if s.t.blockedMsg.Some? {
          var p := InitialPass.SegPacket(s.t, s.t.blockedMsg.value);
          RateControl.SendPacketKeeps(q, p, maxPacket);
        }
        StepStaysOne(s.t, BucketHasRoom(true));
      }
  }

  /** In this run of the task and its worker no repair pass goes round again after a refusal of its last
      block. */
  ghost predicate NoRefusedRewind(s: InitialPass.System, moves: seq<InitialPass.Move>) {
    forall k :: 0 <= k < |moves| && moves[k].Own?
      ==> !RewindsRefused(InitialPass.RunSystem(s, moves[..k]).t, moves[k].i)
  }

  /** No assertion fails in any run of the task together with its bucket, whatever is refused, in which no
      repair pass goes round again after a refusal of its last block. */
  lemma {:induction false} BucketRunsNeverFault(s: InitialPass.System, moves: seq<InitialPass.Move>, maxPacket: nat)
    requires InitialPass.AtStart(s, maxPacket) && NoRefusedRewind(s, moves)
    requires forall m :: m in moves && m.OtherPacket? ==> m.length <= maxPacket
    ensures OneAtATime(InitialPass.RunSystem(s, moves).t) && !InitialPass.RunSystem(s, moves).t.fault
  {
    if moves != [] {
      var pre, m := moves[..|moves| - 1], moves[|moves| - 1];
      forall k | 0 <= k < |pre| && pre[k].Own?
        ensures !RewindsRefused(InitialPass.RunSystem(s, pre[..k]).t, pre[k].i)
      {
        assert pre[..k] == moves[..k] && pre[k] == moves[k];
      }
      BucketRunsNeverFault(s, pre, maxPacket);
      InitialPass.ExactlyOnceInOrder(s, pre, maxPacket);
      SystemStaysOne(InitialPass.RunSystem(s, pre), m, maxPacket);
    }
  }
}
