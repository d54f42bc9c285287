/** sender/detail/file_send_task.cpp: the task object, with its fields and its loops, proved against
    the steps of Sender.dfy. */
module SenderTask {
  import opened Common
  import opened Geometry
  import opened Messages
  import opened Sender
  import opened SenderSafety
  import NakCodec

  /** What happens around one block while the file thread has released the lock: what the network
      thread does before and after the send, and whether the worker takes the block. */
  datatype Turn = Turn(before: seq<Input>, accepted: bool, after: seq<Input>)

  /** The inputs that the network thread handles. */
  predicate OfNetwork(i: Input) {
    !i.FileThreadStarts? && !i.FileThreadLocks? && !i.FileThreadSends?
  }

  predicate AllOfNetwork(inputs: seq<Input>) {
    forall k :: 0 <= k < |inputs| ==> OfNetwork(inputs[k])
  }

  /** What happens during one turn, and during the first n turns. */
  function InputsOf(turn: Turn): seq<Input> {
    turn.before + [FileThreadSends(turn.accepted)] + turn.after
  }

  function Script(turns: seq<Turn>, n: nat): seq<Input>
    requires n <= |turns|
  {
    if n == 0 then [] else Script(turns, n - 1) + InputsOf(turns[n - 1])
  }

  /** A trace without the steps in which the file thread takes the lock. */
  function WithoutLocks(trace: seq<Input>): seq<Input> {
    if trace == [] then []
    else
      var i := trace[|trace| - 1];
      WithoutLocks(trace[..|trace| - 1]) + if i.FileThreadLocks? then [] else [i]
  }

  lemma {:induction false} LockAdded(trace: seq<Input>)
    ensures WithoutLocks(trace + [FileThreadLocks]) == WithoutLocks(trace)
  {
    assert (trace + [FileThreadLocks])[..|trace|] == trace;
  }

  lemma {:induction false} TurnAdded(trace: seq<Input>, more: seq<Input>)
    requires forall k :: 0 <= k < |more| ==> !more[k].FileThreadLocks?
    ensures WithoutLocks(trace + more) == WithoutLocks(trace) + more
  {
    if more == [] {
      assert trace + more == trace;
    } else {
      assert (trace + more)[..|trace + more| - 1] == trace + more[..|more| - 1];
      TurnAdded(trace, more[..|more| - 1]);
      assert more == more[..|more| - 1] + [more[|more| - 1]];
    }
  }

  lemma {:induction false} TracesJoin(a: seq<Input>, b: seq<Input>)
    ensures WithoutLocks(a + b) == WithoutLocks(a) + WithoutLocks(b)
  {
    if b == [] {
      assert a + b == a;
    } else {
      assert (a + b)[..|a + b| - 1] == a + b[..|b| - 1];
      TracesJoin(a, b[..|b| - 1]);
    }
  }

  /** The trace leads from t to u, and apart from the file thread's taking the lock it is what happens
      in the turns from..to. */
  predicate Traced(t: Task, u: Task, trace: seq<Input>, turns: seq<Turn>, from: nat, to: nat) {
    && from <= to <= |turns| && u == Run(t, trace)
    && Script(turns, to) == Script(turns, from) + WithoutLocks(trace)
  }

  lemma {:induction false} TracedTurn(t: Task, v: Task, u: Task, trace: seq<Input>, more: seq<Input>,
                                      turns: seq<Turn>, from: nat, to: nat)
    requires Traced(t, v, trace, turns, from, to) && to < |turns|
    requires u == Run(v, more) && WithoutLocks(more) == InputsOf(turns[to])
    ensures Traced(t, u, trace + more, turns, from, to + 1)
  {
    RunAppend(t, trace, more);
    TracesJoin(trace, more);
  }

  lemma {:induction false} TracedLock(t: Task, v: Task, trace: seq<Input>, turns: seq<Turn>, from: nat, to: nat)
    requires Traced(t, v, trace, turns, from, to)
    ensures Traced(t, Step(v, FileThreadLocks), trace + [FileThreadLocks], turns, from, to)
  {
    RunOneMore(t, trace, FileThreadLocks);
    LockAdded(trace);
  }

  lemma {:induction false} TracesFollow(t: Task, v: Task, u: Task, trace: seq<Input>, more: seq<Input>,
                     turns: seq<Turn>, from: nat, mid: nat, to: nat)
    requires Traced(t, v, trace, turns, from, mid) && Traced(v, u, more, turns, mid, to)
    ensures Traced(t, u, trace + more, turns, from, to)
  {
    RunAppend(t, trace, more);
    TracesJoin(trace, more);
  }

  predicate PlayableTurn(turn: Turn) {
    AllOfNetwork(turn.before) && AllOfNetwork(turn.after)
  }

  predicate Playable(turns: seq<Turn>) {
    forall k :: 0 <= k < |turns| ==> PlayableTurn(turns[k])
  }

  lemma NetworkLeavesThread(t: Task, i: Input)
    requires OfNetwork(i)
    ensures Step(t, i).thread == t.thread
  {
    if i.WaitTimerFires? && !t.fault {
      WaitLeavesThread(t, i.doneTaken);
    }
  }

  lemma WaitLeavesThread(t: Task, taken: bool)
    ensures WaitEnds(t, taken).thread == t.thread
  {
  }

  lemma {:induction false} RunOneMore(t: Task, a: seq<Input>, i: Input)
    ensures Run(t, a + [i]) == Step(Run(t, a), i)
  {
    assert (a + [i])[..|a|] == a;
  }

  /** The receivers that a loop in map order has seen so far are all of these kinds. */
  predicate AllUpTo(standing: map<nat, Standing>, ids: seq<nat>, n: nat, sts: set<Standing>)
    requires n <= |ids|
  {
    n == 0 || (AllUpTo(standing, ids, n - 1, sts) && ids[n - 1] in standing && standing[ids[n - 1]] in sts)
  }

  lemma {:induction false} AllUpToMeans(standing: map<nat, Standing>, ids: seq<nat>, n: nat, sts: set<Standing>)
    requires n <= |ids|
    ensures AllUpTo(standing, ids, n, sts) <==> forall k :: 0 <= k < n ==> ids[k] in standing && standing[ids[k]] in sts
  {
    if n > 0 {
      AllUpToMeans(standing, ids, n - 1, sts);
    }
  }

  lemma {:induction false} AllOfThem(standing: map<nat, Standing>, ids: seq<nat>, sts: set<Standing>)
    requires forall id :: id in standing <==> id in ids
    ensures AllUpTo(standing, ids, |ids|, sts) == AllIn(standing, sts)
  {
    AllUpToMeans(standing, ids, |ids|, sts);
    if AllUpTo(standing, ids, |ids|, sts) {
      forall id | id in standing ensures standing[id] in sts {
        var k :| 0 <= k < |ids| && ids[k] == id;
      }
    }
  }

  /** A loop in map order has seen a receiver of this kind. */
  predicate AnyUpTo(standing: map<nat, Standing>, ids: seq<nat>, n: nat, st: Standing)
    requires n <= |ids|
  {
    exists k :: 0 <= k < n && ids[k] in standing && standing[ids[k]] == st
  }

  lemma AnyUpToNext(standing: map<nat, Standing>, ids: seq<nat>, n: nat, st: Standing)
    requires n < |ids| && ids[n] in standing
    ensures AnyUpTo(standing, ids, n + 1, st) == (AnyUpTo(standing, ids, n, st) || standing[ids[n]] == st)
  {
  }

  lemma AnyOfThem(standing: map<nat, Standing>, ids: seq<nat>, st: Standing)
    requires forall id :: id in standing <==> id in ids
    ensures AnyUpTo(standing, ids, |ids|, st) == AnyIn(standing, st)
  {
    if AnyIn(standing, st) {
      var id :| id in standing && standing[id] == st;
      var k :| 0 <= k < |ids| && ids[k] == id;
    }
  }

  /** What a loop that gives up the silent receivers has done so far. */
  predicate GivenUpTo(was: map<nat, Standing>, now: map<nat, Standing>, ids: seq<nat>, n: nat)
    requires n <= |ids|
  {
    && now.Keys == was.Keys
    && forall k :: 0 <= k < |ids| && ids[k] in was ==>
         now[ids[k]] == if k < n && was[ids[k]] == Active then Lost else was[ids[k]]
  }

  lemma GivenUpToNext(was: map<nat, Standing>, now: map<nat, Standing>, ids: seq<nat>, n: nat)
    requires n < |ids| && ids[n] in was && GivenUpTo(was, now, ids, n)
    requires forall i, j :: 0 <= i < j < |ids| ==> ids[i] < ids[j]
    ensures ids[n] in now && now[ids[n]] == was[ids[n]]
    ensures GivenUpTo(was, if was[ids[n]] == Active then now[ids[n] := Lost] else now, ids, n + 1)
  {
  }

  lemma AllGivenUp(was: map<nat, Standing>, now: map<nat, Standing>, ids: seq<nat>)
    requires forall id :: id in was ==> id in ids
    requires GivenUpTo(was, now, ids, |ids|)
    ensures now == GiveUp(was)
  {
    forall id | id in was ensures now[id] == GiveUp(was)[id] {
      var k :| 0 <= k < |ids| && ids[k] == id;
    }
  }

  lemma AbsOfOneMore(g: Geo, sect: nat, blks: set<nat>, blk: nat)
    ensures AbsInSection(g, sect, blks + {blk}) == AbsInSection(g, sect, blks) + {AbsBlk(g, sect, blk)}
  {
  }

  lemma OnStatusIs(t: Task, m: Message, blocks: set<nat>)
    requires m.Status? && m.statusId == t.cfg.fileId && m.statusFrom in t.standing
    requires t.standing[m.statusFrom] != DoneWithFile && NakCodec.PlainScan(m.nakMap) != {}
    requires blocks == NakedBlocks(t, m)
    ensures var u := t.(standing := t.standing[m.statusFrom := ActiveNak], log := t.log + Taken(Ascending(blocks)));
            OnStatus(t, m) == if t.phase == WaitingClientStatus then u.(naks := t.naks + blocks)
                              else u.(later := t.later + blocks)
  {
  }

  /** The step in which the file thread takes the lock, when the repair pass has a block left. */
  lemma PicksLeast(t: Task, blk: nat)
    requires !t.fault && t.phase == SendingLost && Unsent(t) != {} && blk == Least(Unsent(t))
    requires t.thread == Entering || Back(t.thread, true, true)
    ensures Step(t, FileThreadLocks) == t.(cursor := Some(blk + 1), thread := InFlight(true, blk))
  {
    assert Unsent(t.(cursor := Some(0))) == if t.cursor.None? then Unsent(t) else t.naks;
  }

  /** The same when the loop of the repair pass is over. */
  lemma LeavesRepair(t: Task, blocked: bool)
    requires !t.fault
    requires (t.thread == Entering && t.phase == SendingLost && Unsent(t) == {} && !blocked)
          || (Back(t.thread, true, !blocked) && (blocked || t.phase != SendingLost || Unsent(t) == {}))
    ensures Step(t, FileThreadLocks) == LostExit(t, blocked)
  {
    assert t.cursor.None? ==> Unsent(t.(cursor := Some(0))) == Unsent(t);
  }

  lemma {:induction false} TurnRuns(t: Task, turn: Turn)
    ensures Run(t, InputsOf(turn))
            == Run(Step(Run(t, turn.before), FileThreadSends(turn.accepted)), turn.after)
  {
    RunAppend(t, turn.before + [FileThreadSends(turn.accepted)], turn.after);
    RunOneMore(t, turn.before, FileThreadSends(turn.accepted));
  }

  class FileSendTask {
    const cfg: Config
    var phase: Phase
    var next: nat
    var reachEof: bool
    var nakRecords: set<nat>
    var retransIter: Option<nat>
    var notYetMerged: set<nat>
    var rounds: nat
    var standing: map<nat, Standing>
    var blockedMsg: Option<nat>
    var blockedTask: Option<BlockedTask>
    var posted: nat
    var donePosted: nat
    var timers: nat
    var fault: bool
    ghost var thread: FileThread
    ghost var log: seq<Event>

    ghost function State(): Task
      reads this
    {
      Task(cfg, phase, next, reachEof, nakRecords, retransIter, notYetMerged, rounds, standing,
           blockedMsg, blockedTask, thread, posted, donePosted, timers, log, fault)
    }

    constructor (cfg: Config, standing: map<nat, Standing>)
      ensures State() == Created(cfg, standing)
    {
      this.cfg := cfg;
      phase, next, reachEof := Announcing, 0, false;
      nakRecords, retransIter, notYetMerged := {}, None, {};
      rounds, this.standing := 0, standing;
      blockedMsg, blockedTask := None, None;
      posted, donePosted, timers, fault := 0, 0, 0, false;
      thread, log := Idle, [];
    }

    /** The receivers in the order of the map. */
    method InOrder() returns (ids: seq<nat>)
      ensures forall k :: 0 <= k < |ids| ==> ids[k] in standing
      ensures AllUpTo(standing, ids, |ids|, {Active, DoneWithFile}) == AllIn(standing, {Active, DoneWithFile})
      ensures AllUpTo(standing, ids, |ids|, {Registered}) == AllIn(standing, {Registered})
      ensures AllUpTo(standing, ids, |ids|, {DoneWithFile}) == AllIn(standing, {DoneWithFile})
    {
      ids := Ascending(standing.Keys);
      AllOfThem(standing, ids, {Active, DoneWithFile});
      AllOfThem(standing, ids, {Registered});
      AllOfThem(standing, ids, {DoneWithFile});
    }

    /** The loop of next_step in do_send_fileinfo over the receivers. */
    method CountResponses() returns (allResponded: bool, noneResponded: bool, allDone: bool)
      ensures allResponded == AllIn(standing, {Active, DoneWithFile})
      ensures noneResponded == AllIn(standing, {Registered})
      ensures allDone == AllIn(standing, {DoneWithFile})
    {
      allResponded, noneResponded, allDone := true, true, true;
      var ids := InOrder();
      for i := 0 to |ids|
        invariant allResponded == AllUpTo(standing, ids, i, {Active, DoneWithFile})
        invariant noneResponded == AllUpTo(standing, ids, i, {Registered})
        invariant allDone == AllUpTo(standing, ids, i, {DoneWithFile})
      {
        var st := standing[ids[i]];
        if st != Active && st != DoneWithFile { allResponded := false; }
        if st != DoneWithFile { allDone := false; }
        if st != Registered { noneResponded := false; }
      }
    }

    /** next_step of do_send_fileinfo */
    method AnnounceRoundEnds()
      modifies this`rounds, this`phase, this`posted, this`log
      ensures State() == Step(old(State()), Input.AnnounceRoundEnds)
    {
      if fault || phase != Announcing { return; }
      var allResponded, noneResponded, allDone := CountResponses();
      rounds := rounds + 1;
      if rounds <= cfg.robust && !allResponded {
      } else if !noneResponded && !allDone && cfg.geo.fileSize > 0 {
        rounds, phase, posted := 0, Sending, posted + 1;
      } else {
        log := log + [FileComplete];
      }
    }

    method OnFileInfoAckReceived(source: nat, fileId: nat, done: bool)
      modifies this
      ensures State() == OnFileInfoAck(old(State()), source, fileId, done)
    {
      if phase == Announcing && fileId == cfg.fileId && source in standing {
        standing := standing[source := if done then DoneWithFile else Active];
      }
    }

    /** Each block complained about goes into the set that the phase calls for. */
    method RecordNaks(sect: nat, nakBlocks: set<nat>)
      modifies this`nakRecords, this`notYetMerged
      ensures var blocks := AbsInSection(cfg.geo, sect, nakBlocks);
              if phase == WaitingClientStatus
              then nakRecords == old(nakRecords) + blocks && notYetMerged == old(notYetMerged)
              else nakRecords == old(nakRecords) && notYetMerged == old(notYetMerged) + blocks
    {
      var rest := nakBlocks;
      ghost var seen: set<nat> := {};
      while rest != {}
        invariant seen + rest == nakBlocks
        invariant var blocks := AbsInSection(cfg.geo, sect, seen);
                  if phase == WaitingClientStatus
                  then nakRecords == old(nakRecords) + blocks && notYetMerged == old(notYetMerged)
                  else nakRecords == old(nakRecords) && notYetMerged == old(notYetMerged) + blocks
        decreases |rest|
      {
        var blk :| blk in rest;
        AbsOfOneMore(cfg.geo, sect, seen, blk);
        var abs := AbsBlk(cfg.geo, sect, blk);
        if phase == WaitingClientStatus {
          nakRecords := nakRecords + {abs};
        } else {
          notYetMerged := notYetMerged + {abs};
        }
        seen := seen + {blk};
        rest := rest - {blk};
      }
      assert seen == nakBlocks;
    }

    /** The part of on_status_msg_received that a map with set bits leads to. */
    method TakeNaks(source: nat, sect: nat, nakBlocks: set<nat>)
      modifies this`standing, this`log, this`nakRecords, this`notYetMerged
      ensures var blocks := AbsInSection(cfg.geo, sect, nakBlocks);
              && standing == old(standing)[source := ActiveNak] && log == old(log) + Taken(Ascending(blocks))
              && nakRecords == (if phase == WaitingClientStatus then old(nakRecords) + blocks else old(nakRecords))
              && notYetMerged == if phase == WaitingClientStatus then old(notYetMerged) else old(notYetMerged) + blocks
    {
      log := log + Taken(Ascending(AbsInSection(cfg.geo, sect, nakBlocks)));
      standing := standing[source := ActiveNak];
      RecordNaks(sect, nakBlocks);
    }

    method OnStatusMsgReceived(m: Message)
      requires m.Status?
      modifies this
      ensures State() == OnStatus(old(State()), m)
    {
      if m.statusId == cfg.fileId && m.statusFrom in standing && standing[m.statusFrom] != DoneWithFile {
        var nakBlocks := NakCodec.ExtractLostBlocksIds(m.nakMap, 8);
        if nakBlocks != {} {
          OnStatusIs(State(), m, NakedBlocks(State(), m));
          TakeNaks(m.statusFrom, m.statusSect, nakBlocks);
        }
      }
    }

    method OnCompleteMsgReceived(m: Message)
      requires m.Complete?
      modifies this
      ensures State() == OnComplete(old(State()), m)
    {
      if (phase == WaitingClientStatus || phase == Announcing)
         && m.completeId == cfg.fileId && m.completeFrom in standing {
        standing := standing[m.completeFrom := DoneWithFile];
        var _, _, allDone := CountResponses();
        if allDone {
          log := log + [FileComplete];
        }
      }
    }

    method OnAbortMsgReceived(source: nat)
      modifies this
      ensures State() == OnAbort(old(State()), source)
    {
      if source in standing {
        standing := standing[source := Aborted];
      }
    }

    /** do_send_done, after its packets have been offered to the worker. */
    method DoSendDone(accepted: bool)
      modifies this
      ensures State() == SendDone(old(State()), accepted)
    {
      if accepted {
        timers := timers + 1;
      } else if blockedTask.Some? {
        fault := true;
      } else {
        blockedTask := Some(StartWaiting);
      }
    }

    method RunPostedDone(accepted: bool)
      modifies this
      ensures State() == Sender.RunPostedDone(old(State()), accepted)
    {
      if donePosted > 0 {
        donePosted := donePosted - 1;
        DoSendDone(accepted);
      }
    }

    /** The loop of on_wait_receivers_status_end while rounds are left. */
    method LookAtReceivers() returns (anyActive: bool, anyNak: bool)
      ensures anyActive == AnyIn(standing, Active) && anyNak == AnyIn(standing, ActiveNak)
    {
      anyActive, anyNak := false, false;
      var ids := Ascending(standing.Keys);
      for i := 0 to |ids|
        invariant anyActive == AnyUpTo(standing, ids, i, Active)
        invariant anyNak == AnyUpTo(standing, ids, i, ActiveNak)
      {
        AnyUpToNext(standing, ids, i, Active);
        AnyUpToNext(standing, ids, i, ActiveNak);
        if standing[ids[i]] == Active {
          anyActive := true;
        } else if standing[ids[i]] == ActiveNak {
          anyNak := true;
        }
      }
      AnyOfThem(standing, ids, Active);
      AnyOfThem(standing, ids, ActiveNak);
    }

    /** The loop of on_wait_receivers_status_end when no rounds are left: it marks the receivers that are
        still silent as lost. */
    method GiveUpReceivers() returns (anyActive: bool, anyNak: bool)
      modifies this`standing
      ensures anyActive == AnyIn(old(standing), Active) && anyNak == AnyIn(old(standing), ActiveNak)
      ensures standing == GiveUp(old(standing))
    {
      anyActive, anyNak := false, false;
      var ids := Ascending(standing.Keys);
      for i := 0 to |ids|
        invariant anyActive == AnyUpTo(old(standing), ids, i, Active)
        invariant anyNak == AnyUpTo(old(standing), ids, i, ActiveNak)
        invariant GivenUpTo(old(standing), standing, ids, i)
      {
        AnyUpToNext(old(standing), ids, i, Active);
        AnyUpToNext(old(standing), ids, i, ActiveNak);
        GivenUpToNext(old(standing), standing, ids, i);
        if standing[ids[i]] == ActiveNak {
          anyNak := true;
        }
        if standing[ids[i]] == Active {
          standing := standing[ids[i] := Lost];
          anyActive := true;
        }
      }
      AnyOfThem(old(standing), ids, Active);
      AnyOfThem(old(standing), ids, ActiveNak);
      AllGivenUp(old(standing), standing, ids);
    }

    /** on_wait_receivers_status_end while rounds are left. */
    method WaitAnotherRound(doneTaken: bool)
      modifies this
      ensures State() == WaitRound(old(State()), doneTaken)
    {
      var anyActive, anyNak := LookAtReceivers();
      if anyActive {
        DoSendDone(doneTaken);
      } else if anyNak {
        phase, posted := SendingLost, posted + 1;
      } else {
        log := log + [FileComplete];
      }
    }

    /** The end of on_wait_receivers_status_end: give the file up, repair it, or be done with it. */
    method Conclude(failed: bool, blocksLost: bool)
      modifies this`log, this`phase, this`posted
      ensures State() == if failed then old(State()).(log := old(log) + [FileError])
                         else if blocksLost then StartRepair(old(State()))
                         else old(State()).(log := old(log) + [FileComplete])
    {
      if failed {
        log := log + [FileError];
      } else if blocksLost {
        phase, posted := SendingLost, posted + 1;
      } else {
        log := log + [FileComplete];
      }
    }

    /** on_wait_receivers_status_end when no rounds are left. */
    method StopWaiting()
      modifies this`rounds, this`standing, this`log, this`phase, this`posted
      ensures State() == WaitGivesUp(old(State()))
    {
      rounds := 0;
      var anyActive, anyNak := GiveUpReceivers();
      Conclude(anyActive && cfg.quitOnError, anyNak);
    }

    method OnWaitReceiversStatusEnd(doneTaken: bool)
      modifies this
      ensures State() == AfterWait(old(State()), doneTaken)
    {
      rounds := rounds + 1;
      if rounds <= cfg.robust {
        WaitAnotherRound(doneTaken);
      } else {
        StopWaiting();
      }
    }

    method OnWorkerBucketFreed(taken: bool)
      modifies this
      ensures State() == BucketFreed(old(State()), taken)
    {
      if blockedMsg.Some? {
        if !taken {
          fault := true;
          return;
        }
        log := log + [Sent(blockedMsg.value)];
        blockedMsg := None;
      }
      if blockedTask.Some? {
        var task := blockedTask.value;
        blockedTask := None;
        match task {
          case ResumeTransfer => posted := posted + 1;
          case StartWaiting => timers := timers + 1;
        }
      }
    }

    method OnMessageReceived(m: Message)
      requires !fault
      modifies this
      ensures State() == Step(old(State()), MessageArrives(m))
    {
      if m.FileInfoAck? {
        OnFileInfoAckReceived(m.ackFrom, m.ackId, m.ackDone);
      } else if m.Status? {
        OnStatusMsgReceived(m);
      } else if m.Complete? {
        OnCompleteMsgReceived(m);
      }
    }

    /** The network thread handles one input. */
    method Handle(i: Input)
      requires OfNetwork(i)
      modifies this
      ensures State() == Step(old(State()), i)
    {
      if fault { return; }
      match i {
        case AnnounceRoundEnds => AnnounceRoundEnds();
        case BucketHasRoom(taken) => OnWorkerBucketFreed(taken);
        case PostedDoneRuns(doneTaken) => RunPostedDone(doneTaken);
        case WaitTimerFires(doneTaken) =>
          if timers > 0 {
            timers := timers - 1;
            OnWaitReceiversStatusEnd(doneTaken);
          }
        case AbortArrives(from) => OnAbortMsgReceived(from);
        case MessageArrives(m) => OnMessageReceived(m);
      }
    }

    method NetworkThread(inputs: seq<Input>)
      requires AllOfNetwork(inputs)
      modifies this
      ensures State() == Run(old(State()), inputs)
      ensures old(Safe(State())) ==> Safe(State())
      ensures thread == old(thread) && (old(fault) ==> fault)
    {
      assert inputs[..0] == [];
      for k := 0 to |inputs|
        invariant State() == Run(old(State()), inputs[..k])
        invariant thread == old(thread) && (old(fault) ==> fault)
      {
        NetworkLeavesThread(State(), inputs[k]);
        RunOneMore(old(State()), inputs[..k], inputs[k]);
        assert inputs[..k] + [inputs[k]] == inputs[..k + 1];
        Handle(inputs[k]);
      }
      assert inputs[..|inputs|] == inputs;
      RunKeepsSafe(old(State()), inputs);
    }

    /** do_send_one_block, from the worker's answer on. */
    method DoSendOneBlock(blk: nat, accepted: bool)
      requires thread.InFlight? && thread.blk == blk
      modifies this
      ensures State() == SendBlock(old(State()), accepted)
    {
      if accepted {
        log := log + [Sent(blk)];
        thread := Handed(thread.lost, blk, true);
      } else if blockedMsg.Some? || blockedTask.Some? {
        fault := true;
      } else {
        blockedMsg, blockedTask := Some(blk), Some(ResumeTransfer);
        thread := Handed(thread.lost, blk, false);
      }
    }

    /** The unlocked part of either loop of do_transfer, with the network thread busy on both sides of
        the send. */
    method SendUnlocked(blk: nat, turn: Turn) returns (ghost trace: seq<Input>)
      requires thread.InFlight? && thread.blk == blk
      requires PlayableTurn(turn)
      modifies this
      ensures trace == InputsOf(turn)
      ensures State() == Run(old(State()), trace)
      ensures !fault ==> thread == Handed(old(thread).lost, blk, turn.accepted)
    {
      trace := InputsOf(turn);
      TurnRuns(old(State()), turn);
      NetworkThread(turn.before);
      OfferBlock(blk, turn.accepted);
      NetworkThread(turn.after);
    }

    method OfferBlock(blk: nat, accepted: bool)
      requires thread.InFlight? && thread.blk == blk
      modifies this
      ensures State() == Step(old(State()), FileThreadSends(accepted))
      ensures !fault ==> thread == Handed(old(thread).lost, blk, accepted)
    {
      if !fault {
        DoSendOneBlock(blk, accepted);
      }
    }

    /** The lock is held: the next block of the initial pass is picked, and the lock released. */
    method PickNext() returns (blk: nat)
      requires !fault && !reachEof && phase == Sending
      requires thread == Entering || Back(thread, false, true)
      modifies this
      ensures State() == Step(old(State()), FileThreadLocks)
      ensures thread == InFlight(false, blk) && !fault
    {
      blk := next;
      next := next + 1;
      if next >= cfg.geo.blockCount {
        reachEof := true;
      }
      thread := InFlight(false, blk);
    }

    /** The lock is held: the loop of the initial pass is over. */
    method LeaveInOrder(blocked: bool)
      requires !fault
      requires (thread == Entering && phase == Sending && reachEof && !blocked)
            || (Back(thread, false, !blocked) && (blocked || phase != Sending || reachEof))
      modifies this
      ensures State() == Step(old(State()), FileThreadLocks)
      ensures thread == Idle
    {
      if reachEof && !blocked {
        phase, donePosted := WaitingClientStatus, donePosted + 1;
      }
      thread := Idle;
    }

    /** One turn of the loop of the initial pass, from lock to lock. */
    method TurnInOrder(turn: Turn) returns (blocked: bool, ghost trace: seq<Input>)
      requires PlayableTurn(turn)
      requires !fault && !reachEof && phase == Sending && (thread == Entering || Back(thread, false, true))
      modifies this
      ensures State() == Run(old(State()), trace) && WithoutLocks(trace) == InputsOf(turn)
      ensures !fault ==> Back(thread, false, !blocked)
    {
      trace := [FileThreadLocks];
      RunOneMore(State(), [], FileThreadLocks);
      var blk := PickNext();
      ghost var unlocked := SendUnlocked(blk, turn);
      RunAppend(old(State()), trace, unlocked);
      TurnAdded(trace, unlocked);
      trace := trace + unlocked;
      blocked := !turn.accepted;
    }

    /** The branch of do_transfer for the initial pass, with the lock held at both ends. It is followed
        for as many blocks as there are turns. */
    method SendInOrder(turns: seq<Turn>, from: nat) returns (turn: nat, ghost trace: seq<Input>)
      requires from < |turns| && Playable(turns)
      requires !fault && phase == Sending && thread == Entering
      modifies this
      ensures Traced(old(State()), State(), trace, turns, from, turn)
      ensures turn == |turns| || fault || thread == Idle
    {
      turn, trace := from, [];
      var blocked, leave := false, false;
      while !reachEof && !leave && turn < |turns|
        invariant Traced(old(State()), State(), trace, turns, from, turn)
        invariant !leave ==> !fault && phase == Sending && !blocked && (thread == Entering || Back(thread, false, true))
        invariant leave ==> fault || (Back(thread, false, !blocked) && (blocked || phase != Sending))
        decreases |turns| - turn
      {
        ghost var more, v := [], State();
        blocked, more := TurnInOrder(turns[turn]);
        TracedTurn(old(State()), v, State(), trace, more, turns, from, turn);
        trace := trace + more;
        leave := fault || blocked || phase != Sending;
        turn := turn + 1;
      }
      if !fault && (reachEof || leave) {
        TracedLock(old(State()), State(), trace, turns, from, turn);
        LeaveInOrder(blocked);
        trace := trace + [FileThreadLocks];
      }
    }

    /** The NAKs of this pass that the iterator has yet to reach. */
    function Remaining(): set<nat>
      reads this
    {
      set b | b in nakRecords && (retransIter.None? || b >= retransIter.value)
    }

    /** The lock is held: the block under the iterator is picked, and the lock released. */
    method PickLost() returns (blk: nat)
      requires !fault && phase == SendingLost && Remaining() != {}
      requires thread == Entering || Back(thread, true, true)
      modifies this`retransIter, this`thread
      ensures State() == Step(old(State()), FileThreadLocks)
      ensures thread == InFlight(true, blk)
    {
      if retransIter.None? {
        retransIter := Some(0);
      }
      assert Remaining() == old(Remaining());
      blk := Least(Remaining());
      PicksLeast(old(State()), blk);
      retransIter := Some(blk + 1);
      thread := InFlight(true, blk);
    }

    /** The lock is held: the loop of the repair pass is over. rewind says whether do_transfer goes
        round again. */
    method LeaveRepair(blocked: bool) returns (rewind: bool)
      requires !fault
      requires (thread == Entering && phase == SendingLost && Remaining() == {} && !blocked)
            || (Back(thread, true, !blocked) && (blocked || phase != SendingLost || Remaining() == {}))
      modifies this`retransIter, this`thread, this`nakRecords, this`notYetMerged, this`phase, this`donePosted
      ensures State() == Step(old(State()), FileThreadLocks)
      ensures thread == if rewind then Entering else Idle
      ensures rewind ==> phase != SendingLost || Remaining() != {}
    {
      LeavesRepair(State(), blocked);
      rewind := false;
      if Remaining() == {} {
        retransIter, nakRecords, notYetMerged := None, notYetMerged, {};
        if nakRecords != {} {
          rewind := true;
        } else if reachEof {
          phase := WaitingClientStatus;
          if !blocked {
            donePosted := donePosted + 1;
          }
        } else {
          phase, rewind := Sending, true;
        }
      }
      thread := if rewind then Entering else Idle;
    }

    /** One turn of the loop of a repair pass, from lock to lock. */
    method TurnOfRepair(turn: Turn) returns (blocked: bool, ghost trace: seq<Input>)
      requires PlayableTurn(turn)
      requires !fault && phase == SendingLost && Remaining() != {} && (thread == Entering || Back(thread, true, true))
      modifies this
      ensures State() == Run(old(State()), trace) && WithoutLocks(trace) == InputsOf(turn)
      ensures !fault ==> Back(thread, true, !blocked)
    {
      trace := [FileThreadLocks];
      RunOneMore(State(), [], FileThreadLocks);
      var blk := PickLost();
      ghost var unlocked := SendUnlocked(blk, turn);
      RunAppend(old(State()), trace, unlocked);
      TurnAdded(trace, unlocked);
      trace := trace + unlocked;
      blocked := !turn.accepted;
    }

    /** The branch of do_transfer for a repair pass. */
    method Resend(turns: seq<Turn>, from: nat) returns (turn: nat, rewind: bool, ghost trace: seq<Input>)
      requires from < |turns| && Playable(turns)
      requires !fault && phase == SendingLost && thread == Entering
      modifies this
      ensures Traced(old(State()), State(), trace, turns, from, turn)
      ensures turn == |turns| || fault || thread == if rewind then Entering else Idle
      ensures turn == from ==> old(Remaining()) == {} && (rewind ==> phase != SendingLost || Remaining() != {})
    {
      turn, trace, rewind := from, [], false;
      var blocked, leave := false, false;
      while !leave && Remaining() != {} && turn < |turns|
        invariant Traced(old(State()), State(), trace, turns, from, turn)
        invariant !leave ==> !fault && phase == SendingLost && !blocked
                              && (thread == Entering || Back(thread, true, true))
        invariant leave ==> fault || (Back(thread, true, !blocked) && (blocked || phase != SendingLost))
        invariant turn == from ==> Remaining() == old(Remaining()) && !leave
        decreases |turns| - turn
      {
        ghost var more, v := [], State();
        blocked, more := TurnOfRepair(turns[turn]);
        TracedTurn(old(State()), v, State(), trace, more, turns, from, turn);
        trace := trace + more;
        leave := fault || blocked || phase != SendingLost;
        turn := turn + 1;
      }
      if !fault && (leave || Remaining() == {}) {
        TracedLock(old(State()), State(), trace, turns, from, turn);
        rewind := LeaveRepair(blocked);
        trace := trace + [FileThreadLocks];
      }
    }

    /** A job that finds neither pass under way. */
    method NothingToSend(turns: seq<Turn>, from: nat) returns (ghost trace: seq<Input>)
      requires from <= |turns|
      requires !fault && phase != Sending && phase != SendingLost && thread == Entering
      modifies this`thread
      ensures Traced(old(State()), State(), trace, turns, from, from) && thread == Idle
    {
      trace := [];
      TracedLock(State(), State(), [], turns, from, from);
      thread := Idle;
      trace := trace + [FileThreadLocks];
    }

    /** do_transfer, followed for as many blocks as there are turns. Whatever the worker answers and
        whatever the network thread does in between, it takes the task through a run of its steps: the
        given turns, with the file thread taking the lock in between. So no NAK is lost on the way. */
    method DoTransfer(turns: seq<Turn>) returns (turn: nat, ghost trace: seq<Input>)
      requires !fault && thread == Entering && Playable(turns)
      modifies this
      ensures Traced(old(State()), State(), trace, turns, 0, turn)
      ensures turn == |turns| || fault || thread == Idle
      ensures old(Safe(State())) ==> Safe(State())
    {
      turn, trace := 0, [];
      var rewind := true;
      while rewind && !fault && turn < |turns|
        invariant Traced(old(State()), State(), trace, turns, 0, turn)
        invariant turn < |turns| && !fault ==> thread == if rewind then Entering else Idle
        decreases |turns| - turn, if !rewind then 0 else if phase == SendingLost && Remaining() == {} then 2 else 1
      {
        rewind := false;
        ghost var more, v, mid := [], State(), turn;
        if phase == Sending {
          turn, more := SendInOrder(turns, turn);
        } else if phase == SendingLost {
          turn, rewind, more := Resend(turns, turn);
        } else {
          more := NothingToSend(turns, turn);
        }
        TracesFollow(old(State()), v, State(), trace, more, turns, 0, mid, turn);
        trace := trace + more;
      }
      RunKeepsSafe(old(State()), trace);
    }
  }
}
