/** The rate limit's refusals make no difference to what is sent: once the bucket has room again, the sender goes
    on as if it had never been refused. The one exception is the last block of a repair pass, whose refusal is
    the subject of SenderFaults.dfy. */
module Refusals {
  import opened Common
  import opened Sender
  import opened SenderSafety

  /** Nothing is kept for when the bucket has room. */
  predicate NothingKept(t: Task) {
    !t.fault && t.blockedMsg.None? && t.blockedTask.None?
  }

  lemma RunOne(t: Task, i: Input)
    ensures Run(t, [i]) == Step(t, i)
  {
    assert [i][..0] == [];
  }

  lemma RunMore(t: Task, pre: seq<Input>, i: Input)
    ensures Run(t, pre + [i]) == Step(Run(t, pre), i)
  {
    assert (pre + [i])[..|pre|] == pre;
  }

  lemma RunTwo(t: Task, a: Input, b: Input)
    ensures Run(t, [a, b]) == Step(Step(t, a), b)
  {
    RunOne(t, a);
    RunMore(t, [a], b);
  }

  /** A refused DONE goes out when there is room, and the wait starts then. */
  lemma RefusedDoneIsMadeUp(t: Task)
    requires NothingKept(t)
    ensures Run(t, [PostedDoneRuns(false), BucketHasRoom(true)]) == Run(t, [PostedDoneRuns(true)])
  {
    RunOne(t, PostedDoneRuns(true));
    RunTwo(t, PostedDoneRuns(false), BucketHasRoom(true));
  }

  /** So does one that the end of a wait repeats. */
  lemma RefusedRepetitionIsMadeUp(t: Task)
    requires NothingKept(t)
    ensures Run(t, [WaitTimerFires(false), BucketHasRoom(true)]) == Run(t, [WaitTimerFires(true)])
  {
    RunOne(t, WaitTimerFires(true));
    RunTwo(t, WaitTimerFires(false), BucketHasRoom(true));
    if WaitSendsDone(t) {
      RepeatedDone(t);
    } else {
      NothingRepeated(t);
    }
  }

  lemma RepeatedDone(t: Task)
    requires NothingKept(t) && WaitSendsDone(t)
    ensures var u := t.(timers := t.timers - 1, rounds := t.rounds + 1);
            && Step(t, WaitTimerFires(true)) == u.(timers := t.timers)
            && Step(t, WaitTimerFires(false)) == u.(blockedTask := Some(StartWaiting))
  {
    var u := t.(timers := t.timers - 1, rounds := t.rounds + 1);
    assert Any(u, Active) == Any(t, Active);
  }

  lemma NothingRepeated(t: Task)
    requires NothingKept(t) && !WaitSendsDone(t)
    ensures Step(t, WaitTimerFires(false)) == Step(t, WaitTimerFires(true))
    ensures NothingKept(Step(t, WaitTimerFires(true)))
  {
    if t.timers > 0 {
      var u := t.(timers := t.timers - 1, rounds := t.rounds + 1);
      assert Any(u, Active) == Any(t, Active);
    }
  }

  lemma RefusalKeeps(t: Task)
    requires NothingKept(t) && t.thread.InFlight?
    ensures Step(t, FileThreadSends(false))
            == t.(thread := Handed(t.thread.lost, t.thread.blk, false), blockedMsg := Some(t.thread.blk),
                  blockedTask := Some(ResumeTransfer))
  {
  }

  lemma LockRests(t: Task)
    requires !t.fault && t.thread.Handed? && !t.thread.accepted && (t.thread.lost ==> Unsent(t) != {})
    ensures Step(t, FileThreadLocks) == t.(thread := Idle)
  {
  }

  /** The file thread comes to rest with the block kept, and gets going again when it has been sent. */
  lemma RefusalRests(t: Task)
    requires NothingKept(t) && t.thread.InFlight? && (t.thread.lost ==> Unsent(t) != {})
    ensures Run(t, [FileThreadSends(false), FileThreadLocks])
            == t.(thread := Idle, blockedMsg := Some(t.thread.blk), blockedTask := Some(ResumeTransfer))
  {
    RunTwo(t, FileThreadSends(false), FileThreadLocks);
    RefusalKeeps(t);
    var v := t.(thread := Handed(t.thread.lost, t.thread.blk, false), blockedMsg := Some(t.thread.blk),
                blockedTask := Some(ResumeTransfer));
    assert Unsent(v) == Unsent(t);
    LockRests(v);
  }

  lemma RoomResumes(t: Task, blk: nat)
    requires !t.fault && t.thread == Idle && t.blockedMsg == Some(blk) && t.blockedTask == Some(ResumeTransfer)
    ensures Run(t, [BucketHasRoom(true), FileThreadStarts])
            == t.(thread := Entering, blockedMsg := None, blockedTask := None, log := t.log + [Sent(blk)])
  {
    RunTwo(t, BucketHasRoom(true), FileThreadStarts);
  }

  lemma Accepted(t: Task)
    requires !t.fault && t.thread.InFlight?
    ensures Run(t, [FileThreadSends(true)])
            == t.(log := t.log + [Sent(t.thread.blk)], thread := Handed(t.thread.lost, t.thread.blk, true))
  {
    RunOne(t, FileThreadSends(true));
  }

  /** Entering the loop again and staying in it come to the same. */
  lemma EntersAsStays(t: Task, lost: bool, blk: nat)
    requires !t.fault && t.phase == (if lost then SendingLost else Sending) && (lost ==> t.cursor.Some?)
    ensures Run(t.(thread := Entering), [FileThreadLocks])
            == Run(t.(thread := Handed(lost, blk, true)), [FileThreadLocks])
  {
    var a, b := t.(thread := Entering), t.(thread := Handed(lost, blk, true));
    assert Unsent(a) == Unsent(b);
    RunOne(a, FileThreadLocks);
    RunOne(b, FileThreadLocks);
  }

  /** A block of the initial pass, or any but the last of a repair pass, is refused, and then there is room: the
      pass goes on with the next block exactly as if the worker had taken this one. */
  lemma {:induction false} RefusedBlockIsMadeUp(t: Task)
    requires Coherent(t) && NothingKept(t) && t.thread.InFlight? && (t.thread.lost ==> Unsent(t) != {})
    ensures Run(t, [FileThreadSends(false), FileThreadLocks] + [BucketHasRoom(true), FileThreadStarts]
                   + [FileThreadLocks])
            == Run(t, [FileThreadSends(true)] + [FileThreadLocks])
  {
    var lost, blk := t.thread.lost, t.thread.blk;
    RefusalRests(t);
    var u := Run(t, [FileThreadSends(false), FileThreadLocks]);
    RunAppend(t, [FileThreadSends(false), FileThreadLocks], [BucketHasRoom(true), FileThreadStarts]);
    RoomResumes(u, blk);
    RunAppend(t, [FileThreadSends(false), FileThreadLocks] + [BucketHasRoom(true), FileThreadStarts],
              [FileThreadLocks]);
    var s := t.(log := t.log + [Sent(blk)]);
    assert Run(u, [BucketHasRoom(true), FileThreadStarts]) == s.(thread := Entering);
    Accepted(t);
    RunAppend(t, [FileThreadSends(true)], [FileThreadLocks]);
    EntersAsStays(s, lost, blk);
  }
}
