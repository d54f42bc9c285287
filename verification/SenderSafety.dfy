/** What every interleaving of the sender's two threads keeps: no NAK is lost, and the file is
    declared finished only when no receiver is waiting for anything. */
module SenderSafety {
  import opened Common
  import opened Messages
  import opened Sender

  /** How phase, cursor and the file thread's position go together. */
  predicate Coherent(t: Task) {
    && (t.phase != SendingLost ==> t.cursor.None?)
    && (t.thread.InFlight? || t.thread.Handed? ==>
          t.phase == (if t.thread.lost then SendingLost else Sending) && (t.thread.lost ==> t.cursor.Some?))
    && (t.phase == WaitingClientStatus || t.phase == SendingLost ==> t.eof)
    && (t.phase == Announcing ==> t.thread == Idle && t.posted == 0 && t.blockedMsg.None? && t.blockedTask.None?)
    && (t.donePosted > 0 || t.timers > 0 || t.blockedTask == Some(StartWaiting) ==>
          t.phase == WaitingClientStatus || t.phase == SendingLost)
  }

  lemma WaitKeepsCoherent(t: Task, u: Task)
    requires Coherent(t) && t.timers > 0 && WaitFrame(t, u)
    ensures Coherent(u)
  {
  }

  lemma LockKeepsCoherent(t: Task)
    requires Coherent(t)
    ensures Coherent(TakeLock(t))
  {
  }

  lemma StepKeepsCoherent(t: Task, i: Input)
    requires Coherent(t)
    ensures Coherent(Step(t, i))
  {
    match i
    case WaitTimerFires(doneTaken) =>
      if t.timers > 0 {
        WaitKeepsCoherent(t, WaitEnds(t, doneTaken));
      }
    case FileThreadLocks => LockKeepsCoherent(t);
    case AnnounceRoundEnds =>
      if t.phase == Announcing {
        AnnounceKeepsCoherent(t);
      }
    case BucketHasRoom(taken) => BucketKeepsCoherent(t, taken);
    case _ =>
  }

  lemma AnnounceKeepsCoherent(t: Task)
    requires Coherent(t) && t.phase == Announcing
    ensures Coherent(AnnounceRound(t))
  {
  }

  lemma BucketKeepsCoherent(t: Task, taken: bool)
    requires Coherent(t)
    ensures Coherent(BucketFreed(t, taken))
  {
  }

  /** The block of a NAK taken at position k is accounted for: it was sent after the NAK was taken,
      it is still to be sent in this pass, it waits for the next pass, the file thread has it in hand,
      or it is the refused block that is sent when the bucket has room. */
  ghost predicate Accounted(t: Task, k: nat)
    requires k < |t.log| && t.log[k].NakTaken?
  {
    var b := t.log[k].blk;
    || (exists j :: k < j < |t.log| && t.log[j] == Sent(b))
    || b in Unsent(t) || b in t.later
    || (t.thread.InFlight? && t.thread.blk == b)
    || t.blockedMsg == Some(b)
  }

  ghost predicate NoNakLost(t: Task) {
    forall k :: 0 <= k < |t.log| && t.log[k].NakTaken? ==> Accounted(t, k)
  }

  /** NAKs that were accounted for stay so when the log grows and no block drops out of sight. */
  lemma StaysAccounted(t: Task, u: Task)
    requires NoNakLost(t) && t.log <= u.log
    requires forall k :: |t.log| <= k < |u.log| && u.log[k].NakTaken? ==> u.log[k].blk in Unsent(u) + u.later
    requires forall b :: b in Unsent(t) + t.later ==>
               b in Unsent(u) + u.later || (u.thread.InFlight? && u.thread.blk == b)
    requires t.thread.InFlight? ==>
               u.thread == t.thread || u.blockedMsg == Some(t.thread.blk) || u.log == t.log + [Sent(t.thread.blk)]
    requires t.blockedMsg.Some? ==>
               u.blockedMsg == t.blockedMsg || u.log == t.log + [Sent(t.blockedMsg.value)]
    ensures NoNakLost(u)
  {
    forall k | 0 <= k < |u.log| && u.log[k].NakTaken?
      ensures Accounted(u, k)
    {
      if k < |t.log| {
        assert t.log[k] == u.log[k];
        assert Accounted(t, k);
        var b := t.log[k].blk;
        if j :| k < j < |t.log| && t.log[j] == Sent(b) {
          assert u.log[j] == Sent(b);
        } else if b in Unsent(t) + t.later {
        } else if t.thread.InFlight? && t.thread.blk == b && u.log == t.log + [Sent(b)] {
          assert u.log[|t.log|] == Sent(b);
        } else if t.blockedMsg == Some(b) && u.log == t.log + [Sent(b)] {
          assert u.log[|t.log|] == Sent(b);
        }
      }
    }
  }

  lemma LockKeepsNaks(t: Task)
    requires Coherent(t) && NoNakLost(t)
    ensures NoNakLost(TakeLock(t))
  {
    var u := TakeLock(t);
    if t.thread.Entering? || t.thread.Handed? {
      LockKeepsBlocks(t);
      StaysAccounted(t, u);
    }
  }

  /** The locked region moves blocks between the sets but drops none. */
  lemma LockKeepsBlocks(t: Task)
    requires Coherent(t) && (t.thread.Entering? || t.thread.Handed?)
    ensures var u := TakeLock(t);
            && u.log == t.log && u.blockedMsg == t.blockedMsg
            && forall b :: b in Unsent(t) + t.later ==>
                 b in Unsent(u) + u.later || (u.thread.InFlight? && u.thread.blk == b)
  {
    var s := if t.thread.Entering? && t.phase == SendingLost && t.cursor.None? then t.(cursor := Some(0)) else t;
    assert Unsent(s) == Unsent(t);
    if t.phase == SendingLost && Unsent(s) != {} {
      LostLoopKeeps(s);
    }
  }

  lemma LostLoopKeeps(s: Task)
    requires Unsent(s) != {}
    ensures forall b :: b in Unsent(s) ==>
              b in Unsent(LostLoop(s)) || b == Least(Unsent(s))
  {
  }

  lemma NewNaksPending(t: Task, m: Message)
    requires Coherent(t) && m.Status?
    ensures var u := OnStatus(t, m);
            && Unsent(t) + t.later <= Unsent(u) + u.later
            && (forall k :: |t.log| <= k < |u.log| && u.log[k].NakTaken? ==> u.log[k].blk in Unsent(u) + u.later)
  {
    var u := OnStatus(t, m);
    if u.log != t.log {
      forall k | |t.log| <= k < |u.log| && u.log[k].NakTaken?
        ensures u.log[k].blk in Unsent(u) + u.later
      {
        assert u.log[k].blk in Ascending(NakedBlocks(t, m));
      }
    }
  }

  lemma StatusKeepsNaks(t: Task, m: Message)
    requires Coherent(t) && NoNakLost(t) && m.Status?
    ensures NoNakLost(OnStatus(t, m))
  {
    NewNaksPending(t, m);
    StaysAccounted(t, OnStatus(t, m));
  }

  lemma DoneKeepsNaks(t: Task, accepted: bool)
    requires NoNakLost(t)
    ensures NoNakLost(SendDone(t, accepted))
  {
    var u := SendDone(t, accepted);
    assert Unsent(u) == Unsent(t);
    StaysAccounted(t, u);
  }

  lemma WaitKeepsNaks(t: Task, u: Task)
    requires NoNakLost(t) && WaitFrame(t, u)
    ensures NoNakLost(u)
  {
    assert Unsent(u) == Unsent(t);
    StaysAccounted(t, u);
  }

  lemma SendKeepsNaks(t: Task, accepted: bool)
    requires Coherent(t) && NoNakLost(t)
    ensures NoNakLost(SendBlock(t, accepted))
  {
    var u := SendBlock(t, accepted);
    assert Unsent(u) == Unsent(t);
    StaysAccounted(t, u);
  }

  lemma BucketKeepsNaks(t: Task, accepted: bool)
    requires Coherent(t) && NoNakLost(t)
    ensures NoNakLost(BucketFreed(t, accepted))
  {
    var u := BucketFreed(t, accepted);
    assert Unsent(u) == Unsent(t);
    StaysAccounted(t, u);
  }

  lemma StepKeepsNaks(t: Task, i: Input)
    requires Coherent(t) && NoNakLost(t)
    ensures NoNakLost(Step(t, i))
  {
    if !t.fault {
      match i
      case FileThreadLocks => LockKeepsNaks(t);
      case FileThreadSends(accepted) => SendKeepsNaks(t, accepted);
      case BucketHasRoom(taken) => BucketKeepsNaks(t, taken);
      case WaitTimerFires(doneTaken) => WaitKeepsNaks(t, WaitEnds(t, doneTaken));
      case PostedDoneRuns(doneTaken) =>
        if t.donePosted > 0 {
          var v := t.(donePosted := t.donePosted - 1);
          assert Unsent(v) == Unsent(t);
          StaysAccounted(t, v);
          DoneKeepsNaks(v, doneTaken);
        }
      case MessageArrives(m) =>
        if m.Status? {
          StatusKeepsNaks(t, m);
        } else {
          assert Unsent(Step(t, i)) == Unsent(t);
          StaysAccounted(t, Step(t, i));
        }
      case _ =>
        assert Unsent(Step(t, i)) == Unsent(t);
        StaysAccounted(t, Step(t, i));
    }
  }

  /** What every step of either thread keeps. */
  ghost predicate Safe(t: Task) {
    Coherent(t) && NoNakLost(t)
  }

  lemma {:induction false} RunKeepsSafe(t: Task, inputs: seq<Input>)
    ensures Safe(t) ==> Safe(Run(t, inputs))
  {
    if inputs != [] && Safe(t) {
      var pre, i := inputs[..|inputs| - 1], inputs[|inputs| - 1];
      RunKeepsSafe(t, pre);
      StepKeepsCoherent(Run(t, pre), i);
      StepKeepsNaks(Run(t, pre), i);
    }
  }

  /** No NAK is ever lost: in every run, whatever the order of arrivals, lock acquisitions, sends and
      refusals, each block that was complained about has been sent since, or is still to be sent. */
  lemma {:induction false} NoNakIsEverLost(t: Task, inputs: seq<Input>)
    requires t == Created(t.cfg, t.standing)
    ensures Coherent(Run(t, inputs)) && NoNakLost(Run(t, inputs))
  {
    RunKeepsSafe(t, inputs);
  }

  // ----- Finishing -----

  predicate StillRepairing(t: Task) {
    Any(t, Active) || Any(t, ActiveNak)
  }

  lemma RoundCompletesClean(t: Task, accepted: bool)
    ensures WaitRound(t, accepted).log == t.log || !StillRepairing(WaitRound(t, accepted))
  {
  }

  lemma GivingUpCompletesClean(t: Task)
    ensures var u := WaitGivesUp(t);
            u.log == t.log || u.log == t.log + [FileError] || !StillRepairing(u)
  {
    var u := WaitGivesUp(t);
    assert !Any(u, Active);
    assert forall id :: id in u.standing && u.standing[id] == ActiveNak ==> t.standing[id] == ActiveNak;
  }

  lemma WaitCompletesClean(t: Task, accepted: bool)
    ensures FileComplete in WaitEnds(t, accepted).log[|t.log|..] ==> !StillRepairing(WaitEnds(t, accepted))
  {
    if t.timers > 0 {
      var u := t.(timers := t.timers - 1, rounds := t.rounds + 1);
      if u.rounds <= t.cfg.robust {
        RoundCompletesClean(u, accepted);
      } else {
        GivingUpCompletesClean(u);
        assert (t.log + [FileError])[|t.log|..] == [FileError];
      }
    }
  }

  lemma StatusCompletesNothing(t: Task, m: Message)
    requires m.Status?
    ensures t.log <= OnStatus(t, m).log
    ensures FileComplete !in OnStatus(t, m).log[|t.log|..]
  {
    var u := OnStatus(t, m);
    assert forall k :: |t.log| <= k < |u.log| ==> u.log[k].NakTaken?;
  }

  lemma CompleteCompletesClean(t: Task, m: Message)
    requires m.Complete?
    ensures var u := OnComplete(t, m);
            u.log == t.log || All(u, {DoneWithFile})
  {
  }

  lemma LockCompletesNothing(t: Task)
    ensures TakeLock(t).log == t.log
  {
  }

  /** The file is declared complete during the data phase only by a step that leaves no receiver
      active or with outstanding NAKs. */
  lemma CompletesOnlyWhenRepaired(t: Task, i: Input)
    requires t.phase != Announcing
    ensures FileComplete in Step(t, i).log[|t.log|..] ==> !StillRepairing(Step(t, i))
  {
    match i
    case WaitTimerFires(doneTaken) => WaitCompletesClean(t, doneTaken);
    case MessageArrives(m) =>
      if m.Status? {
        StatusCompletesNothing(t, m);
      } else if m.Complete? {
        CompleteCompletesClean(t, m);
      }
    case FileThreadLocks => LockCompletesNothing(t);
    case _ =>
  }

  /** Once data is being sent no receiver becomes active again. */
  lemma NoneBecomesActive(t: Task, i: Input)
    requires t.phase != Announcing
    ensures Step(t, i).phase != Announcing
    ensures forall id :: id in Step(t, i).standing && Step(t, i).standing[id] == Active
                         ==> id in t.standing && t.standing[id] == Active
  {
    match i
    case WaitTimerFires(doneTaken) => WaitActivatesNone(t, doneTaken);
    case FileThreadLocks => LockActivatesNone(t);
    case MessageArrives(m) => MessageActivatesNone(t, m);
    case _ =>
  }

  /** A message changes the standing of at most one receiver, and not to active. */
  lemma MessageActivatesNone(t: Task, m: Message)
    requires t.phase != Announcing
    ensures Step(t, MessageArrives(m)).phase == t.phase
    ensures forall id :: id in Step(t, MessageArrives(m)).standing && Step(t, MessageArrives(m)).standing[id] == Active
                         ==> id in t.standing && t.standing[id] == Active
  {
  }

  lemma LockActivatesNone(t: Task)
    requires t.phase != Announcing
    ensures TakeLock(t).phase != Announcing && TakeLock(t).standing == t.standing
  {
  }

  lemma WaitActivatesNone(t: Task, accepted: bool)
    requires t.phase != Announcing
    ensures WaitEnds(t, accepted).phase != Announcing
    ensures forall id :: id in WaitEnds(t, accepted).standing && WaitEnds(t, accepted).standing[id] == Active
                         ==> id in t.standing && t.standing[id] == Active
  {
  }

  /** How often on_wait_receivers_status_end was called. */
  function WaitCalls(t: Task, inputs: seq<Input>): nat {
    if inputs == [] then 0
    else
      var v := Run(t, inputs[..|inputs| - 1]);
      WaitCalls(t, inputs[..|inputs| - 1]) +
      if inputs[|inputs| - 1].WaitTimerFires? && !v.fault && v.timers > 0 then 1 else 0
  }

  /** While a receiver is active the round counter has counted every call, and is not used up. */
  lemma {:induction false} RoundsCountCalls(t: Task, inputs: seq<Input>)
    requires t == Created(t.cfg, t.standing)
    ensures var u := Run(t, inputs);
            && Coherent(u)
            && (u.phase == Announcing ==> WaitCalls(t, inputs) == 0)
            && (u.phase != Announcing && Any(u, Active) ==> WaitCalls(t, inputs) == u.rounds <= u.cfg.robust)
  {
    if inputs != [] {
      var pre, i := inputs[..|inputs| - 1], inputs[|inputs| - 1];
      RoundsCountCalls(t, pre);
      var v := Run(t, pre);
      StepKeepsCoherent(v, i);
      RoundsStep(v, i);
    }
  }

  lemma RoundsStep(v: Task, i: Input)
    requires Coherent(v)
    ensures var u := Step(v, i);
            var call := i.WaitTimerFires? && !v.fault && v.timers > 0;
            && (call ==> v.phase != Announcing)
            && (u.phase != Announcing && Any(u, Active) ==>
                  if v.phase == Announcing then u.rounds == 0
                  else Any(v, Active) && u.rounds == v.rounds + (if call then 1 else 0)
                       && (call ==> v.rounds < v.cfg.robust))
            && (u.phase == Announcing ==> v.phase == Announcing)
            && u.cfg == v.cfg
  {
    StepKeepsConfig(v, i);
    if v.phase != Announcing {
      NoneBecomesActive(v, i);
    }
    match i
    case WaitTimerFires(doneTaken) => WaitRounds(v, doneTaken);
    case FileThreadLocks => LockKeepsRounds(v);
    case _ =>
  }

  lemma LockKeepsRounds(v: Task)
    ensures TakeLock(v).rounds == v.rounds
  {
  }

  lemma WaitRounds(v: Task, accepted: bool)
    ensures v.timers > 0 && Any(WaitEnds(v, accepted), Active)
            ==> v.rounds < v.cfg.robust && WaitEnds(v, accepted).rounds == v.rounds + 1
  {
  }

  /** By the time on_wait_receivers_status_end has been called once more than the robustness factor
      no receiver is active. */
  lemma {:induction false} NoneActiveAfterRounds(t: Task, inputs: seq<Input>)
    requires t == Created(t.cfg, t.standing)
    requires WaitCalls(t, inputs) > t.cfg.robust
    ensures !Any(Run(t, inputs), Active)
  {
    RoundsCountCalls(t, inputs);
    RunKeepsConfig(t, inputs);
  }

  lemma {:induction false} RunKeepsConfig(t: Task, inputs: seq<Input>)
    ensures Run(t, inputs).cfg == t.cfg && Run(t, inputs).standing.Keys == t.standing.Keys
  {
    if inputs != [] {
      RunKeepsConfig(t, inputs[..|inputs| - 1]);
      StepKeepsConfig(Run(t, inputs[..|inputs| - 1]), inputs[|inputs| - 1]);
    }
  }

  /** What a refusal does at the end of a repair pass. When no new NAKs have come in, DONE follows
      exactly if the worker took the pass's last block; otherwise the phase moves on without it. */
  lemma RepairPassPostsDoneIff(t: Task)
    requires Coherent(t) && t.thread.Handed? && t.thread.lost && Unsent(t) == {} && t.later == {}
    ensures TakeLock(t).phase == WaitingClientStatus
    ensures TakeLock(t).donePosted == t.donePosted + 1 <==> t.thread.accepted
  {
  }
}
