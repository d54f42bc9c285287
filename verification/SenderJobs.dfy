/** What the sender has scheduled: every job that is posted runs once and every wait that starts ends once, whatever
    the order in which the threads run; and exactly when one of its assertions fails. */
module SenderJobs {
  import opened Common
  import opened Sender
  import opened Messages
  import SenderSafety
  import opened SenderHeeds

  /** A repair begins: the wait ends, there are NAKs outstanding, and nobody is silent, or the silent ones have just
      been given up. */
  predicate BeginsRepair(t: Task, i: Input) {
    && Calls(t, i) && Any(t, ActiveNak)
    && (Any(t, Active) ==> t.rounds >= t.cfg.robust && !t.cfg.quitOnError)
  }

  /** The announcing ends in a transfer. */
  predicate BeginsTransfer(t: Task, i: Input) {
    && i.AnnounceRoundEnds? && t.phase == Announcing && (t.rounds >= t.cfg.robust || EveryoneAnswered(t))
    && !NothingToSend(t, i)
  }

  /** The bucket has room, and any kept block is taken. */
  predicate GetsRoom(t: Task, i: Input, task: BlockedTask) {
    i.BucketHasRoom? && (t.blockedMsg.Some? ==> i.taken) && t.blockedTask == Some(task)
  }

  predicate Takes(t: Task, i: Input) {
    i.FileThreadStarts? && t.thread == Idle && t.posted > 0
  }

  /** A pass ends, and all its blocks have been taken. */
  predicate EndsPass(t: Task, i: Input) {
    i.FileThreadLocks? && t.phase != WaitingClientStatus && Step(t, i).phase == WaitingClientStatus
    && (t.thread.Handed? ==> t.thread.accepted)
  }

  predicate RunsDone(t: Task, i: Input) {
    i.PostedDoneRuns? && t.donePosted > 0
  }

  /** A DONE goes out, and the worker takes it. */
  predicate DoneGoes(t: Task, i: Input) {
    SendsDone(t, i) && (i.PostedDoneRuns? || i.WaitTimerFires?) && i.doneTaken
  }

  function One(b: bool): nat {
    if b then 1 else 0
  }

  /** The jobs and waits that are pending change by what begins and what ends, and by nothing else. */
  lemma JobsFollow(t: Task, i: Input)
    requires SenderSafety.Coherent(t) && !t.fault
    ensures var u := Step(t, i);
            && u.posted + One(Takes(t, i))
               == t.posted + One(BeginsTransfer(t, i) || BeginsRepair(t, i) || GetsRoom(t, i, ResumeTransfer))
            && u.donePosted + One(RunsDone(t, i)) == t.donePosted + One(EndsPass(t, i))
            && u.timers + One(Calls(t, i)) == t.timers + One(DoneGoes(t, i) || GetsRoom(t, i, StartWaiting))
  {
    match i
    case AnnounceRoundEnds => AnnounceJobs(t);
    case FileThreadLocks => LockJobs(t);
    case WaitTimerFires(taken) => WaitJobs(t, taken);
    case BucketHasRoom(taken) => RoomJobs(t, taken);
    case MessageArrives(m) => MessageJobs(t, m);
    case PostedDoneRuns(taken) => DoneJobs(t, taken);
    case _ => FileThreadJobs(t, i);
  }

  lemma DoneJobs(t: Task, taken: bool)
    requires !t.fault
    ensures var u := Step(t, PostedDoneRuns(taken)); var i := PostedDoneRuns(taken);
            && u.posted == t.posted && u.donePosted + One(RunsDone(t, i)) == t.donePosted
            && u.timers == t.timers + One(DoneGoes(t, i))
  {
  }

  lemma FileThreadJobs(t: Task, i: Input)
    requires !t.fault && (i.FileThreadStarts? || i.FileThreadSends? || i.AbortArrives?)
    ensures var u := Step(t, i);
            && u.posted + One(Takes(t, i)) == t.posted && u.donePosted == t.donePosted && u.timers == t.timers
  {
  }

  lemma AnnounceJobs(t: Task)
    requires !t.fault
    ensures var u := Step(t, AnnounceRoundEnds);
            u == t.(phase := u.phase, rounds := u.rounds, log := u.log, posted := u.posted)
            && u.posted == t.posted + One(BeginsTransfer(t, AnnounceRoundEnds))
  {
    if t.phase == Announcing {
      AnnouncesAgainIff(t);
    }
  }

  lemma RoomJobs(t: Task, taken: bool)
    requires !t.fault
    ensures var u := BucketFreed(t, taken); var i := BucketHasRoom(taken);
            && u.posted == t.posted + One(GetsRoom(t, i, ResumeTransfer))
            && u.timers == t.timers + One(GetsRoom(t, i, StartWaiting))
            && u.donePosted == t.donePosted
  {
  }

  lemma MessageJobs(t: Task, m: Message)
    ensures var u := Step(t, MessageArrives(m));
            u.posted == t.posted && u.timers == t.timers && u.donePosted == t.donePosted
  {
  }

  lemma LockJobs(t: Task)
    requires SenderSafety.Coherent(t) && !t.fault
    ensures var u := TakeLock(t);
            u.posted == t.posted && u.timers == t.timers
            && u.donePosted == t.donePosted + One(EndsPass(t, FileThreadLocks))
  {
  }

  lemma WaitJobs(t: Task, taken: bool)
    requires !t.fault
    ensures var u := WaitEnds(t, taken); var i := WaitTimerFires(taken);
            && u.posted == t.posted + One(BeginsRepair(t, i)) && u.donePosted == t.donePosted
            && u.timers + One(Calls(t, i)) == t.timers + One(DoneGoes(t, i))
  {
    if t.timers > 0 {
      var u := t.(timers := t.timers - 1, rounds := t.rounds + 1);
      assert Any(u, Active) == Any(t, Active) && Any(u, ActiveNak) == Any(t, ActiveNak);
    }
  }

  /** A job that finds nothing to transfer ends and leaves everything else as it is. */
  lemma JobFindsNothing(t: Task)
    requires !t.fault && Takes(t, FileThreadStarts) && t.phase != Sending && t.phase != SendingLost
    ensures Step(Step(t, FileThreadStarts), FileThreadLocks) == t.(posted := t.posted - 1)
  {
  }

  /** One of the assertions fails exactly when something is refused while something refused before is still kept, or
      when a kept block is refused again. */
  lemma FaultsIff(t: Task, i: Input)
    requires !t.fault
    ensures Step(t, i).fault <==>
            || (i == FileThreadSends(false) && t.thread.InFlight? && (t.blockedMsg.Some? || t.blockedTask.Some?))
            || (i == BucketHasRoom(false) && t.blockedMsg.Some?)
            || (SendsDone(t, i) && (i.PostedDoneRuns? || i.WaitTimerFires?) && !i.doneTaken && t.blockedTask.Some?)
  {
    match i
    case FileThreadLocks => LockNeverFaults(t);
    case WaitTimerFires(taken) => WaitFaultsIff(t, taken);
    case _ =>
  }

  lemma LockNeverFaults(t: Task)
    ensures TakeLock(t).fault == t.fault
  {
  }

  lemma WaitFaultsIff(t: Task, taken: bool)
    requires !t.fault
    ensures WaitEnds(t, taken).fault <==> WaitSendsDone(t) && !taken && t.blockedTask.Some?
  {
    if t.timers > 0 {
      var u := t.(timers := t.timers - 1, rounds := t.rounds + 1);
      assert Any(u, Active) == Any(t, Active);
    }
  }

  // ----- Rounds -----

  lemma NextInCycle(n: nat, m: nat)
    requires m > 0
    ensures (n + 1) % m == if n % m + 1 == m then 0 else n % m + 1
  {
    var q, r := n / m, n % m;
    assert n == q * m + r;
    if r + 1 == m {
      assert n + 1 == (q + 1) * m;
      DivModOf(n + 1, q + 1, m, 0);
    } else {
      DivModOf(n + 1, q, m, r + 1);
    }
  }

  lemma WaitCounts(t: Task, taken: bool)
    requires t.timers > 0
    ensures WaitEnds(t, taken).rounds == if t.rounds < t.cfg.robust then t.rounds + 1 else 0
  {
  }

  /** A call of on_wait_receivers_status_end counts up to the robustness factor and then starts again at zero. */
  lemma CallCounts(t: Task, i: Input)
    requires t.phase != Announcing && !t.fault
    ensures Step(t, i).rounds ==
            if !Calls(t, i) then t.rounds else if t.rounds < t.cfg.robust then t.rounds + 1 else 0
  {
    match i
    case FileThreadLocks => SenderSafety.LockKeepsRounds(t);
    case WaitTimerFires(taken) =>
      if t.timers > 0 {
        WaitCounts(t, taken);
      }
    case _ =>
  }

  /** The rounds after so many calls, one after the other. */
  function RoundsAfter(calls: nat, robust: nat): nat {
    if calls == 0 then 0
    else if RoundsAfter(calls - 1, robust) < robust then RoundsAfter(calls - 1, robust) + 1 else 0
  }

  lemma {:induction false} RoundsAfterIsModulo(calls: nat, robust: nat)
    ensures RoundsAfter(calls, robust) == calls % (robust + 1)
  {
    if calls > 0 {
      RoundsAfterIsModulo(calls - 1, robust);
      NextInCycle(calls - 1, robust + 1);
    } else {
      DivModOf(0, 0, robust + 1, 0);
    }
  }

  predicate InCycle(t: Task, calls: nat) {
    if t.phase == Announcing then calls == 0 else t.rounds == RoundsAfter(calls, t.cfg.robust)
  }

  lemma {:induction false} StepInCycle(t: Task, i: Input, u: Task, calls: nat, more: nat)
    requires SenderSafety.Coherent(t) && InCycle(t, calls) && u == Step(t, i)
    requires more == calls + if i.WaitTimerFires? && !t.fault && t.timers > 0 then 1 else 0
    ensures InCycle(u, more)
  {
    StepKeepsConfig(t, i);
    if t.phase == Announcing {
      SenderSafety.RoundsStep(t, i);
      LeavesAnnouncing(t, i);
    } else {
      SenderSafety.NoneBecomesActive(t, i);
      if !t.fault {
        CallCounts(t, i);
      }
    }
  }

  lemma LeavesAnnouncing(t: Task, i: Input)
    requires SenderSafety.Coherent(t) && t.phase == Announcing
    ensures Step(t, i).phase != Announcing ==> Step(t, i).rounds == 0
  {
  }

  lemma {:induction false} CycleRuns(t: Task, inputs: seq<Input>)
    requires SenderSafety.Safe(t) && InCycle(t, 0)
    ensures InCycle(Run(t, inputs), SenderSafety.WaitCalls(t, inputs))
  {
    if inputs != [] {
      var pre := inputs[..|inputs| - 1];
      CycleRuns(t, pre);
      SenderSafety.RunKeepsSafe(t, pre);
      StepInCycle(Run(t, pre), inputs[|inputs| - 1], Run(t, inputs), SenderSafety.WaitCalls(t, pre),
                  SenderSafety.WaitCalls(t, inputs));
    }
  }

  /** In every run the data phase's round counter is the number of calls so far, modulo one more than the robustness
      factor: giving up silent receivers starts the rounds anew for those who complain. */
  lemma {:induction false} RoundsGoRound(t: Task, inputs: seq<Input>)
    requires t == Created(t.cfg, t.standing)
    ensures var u := Run(t, inputs);
            u.phase != Announcing ==> u.rounds == SenderSafety.WaitCalls(t, inputs) % (t.cfg.robust + 1)
  {
    SenderSafety.RunKeepsConfig(t, inputs);
    CycleRuns(t, inputs);
    RoundsAfterIsModulo(SenderSafety.WaitCalls(t, inputs), t.cfg.robust);
  }
}
