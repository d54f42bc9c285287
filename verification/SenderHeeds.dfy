/** What the sender makes of what it hears, and of silence: how an input bears on each receiver, which inputs end
    the file, and what that means for whole runs. */
module SenderHeeds {
  import opened Common
  import opened Geometry
  import opened Messages
  import opened Sender
  import NakCodec
  import P = Protocol
  import SenderSafety

  // ----- One receiver -----

  /** A COMPLETE from id for this file, at a time when the sender listens for it. */
  predicate Completes(t: Task, i: Input, id: nat) {
    && i.MessageArrives? && i.m.Complete? && i.m.completeFrom == id && i.m.completeId == t.cfg.fileId
    && (t.phase == Announcing || t.phase == WaitingClientStatus)
  }

  /** A FILE_INFO_ACK from id for this file while it is announced. */
  predicate Acknowledges(t: Task, i: Input, id: nat, done: bool) {
    && i.MessageArrives? && i.m.FileInfoAck? && i.m.ackFrom == id && i.m.ackId == t.cfg.fileId && i.m.ackDone == done
    && t.phase == Announcing
  }

  predicate HasSetBit(nak: seq<Byte>) {
    exists k :: 0 <= k < 8 * |nak| && NakCodec.BitAt(nak, k)
  }

  /** A STATUS from id for this file with some bit set, unless id is done with the file. */
  predicate Complains(t: Task, i: Input, id: nat) {
    && i.MessageArrives? && i.m.Status? && i.m.statusFrom == id && i.m.statusId == t.cfg.fileId
    && id in t.standing && t.standing[id] != DoneWithFile && HasSetBit(i.m.nakMap)
  }

  /** A call of on_wait_receivers_status_end. */
  predicate Calls(t: Task, i: Input) {
    i.WaitTimerFires? && t.timers > 0
  }

  /** What the input makes of receiver id. */
  function Becomes(t: Task, i: Input, id: nat): Standing
    requires id in t.standing
  {
    if Completes(t, i, id) || Acknowledges(t, i, id, true) then DoneWithFile
    else if Acknowledges(t, i, id, false) then Active
    else if Complains(t, i, id) then ActiveNak
    else if i == AbortArrives(id) then Aborted
    else if Calls(t, i) && t.rounds >= t.cfg.robust && t.standing[id] == Active then Lost
    else t.standing[id]
  }

  lemma {:induction false} NoBitNoBlock(nak: seq<Byte>)
    ensures NakCodec.PlainScan(nak) == {} <==> !HasSetBit(nak)
  {
    if HasSetBit(nak) {
      var k :| 0 <= k < 8 * |nak| && NakCodec.BitAt(nak, k);
      NakCodec.ScanIff(nak, 8 * |nak|, k % 0x1_0000);
      assert k % 0x1_0000 in NakCodec.PlainScan(nak);
    } else if NakCodec.PlainScan(nak) != {} {
      var x :| x in NakCodec.PlainScan(nak);
      NakCodec.ScanIff(nak, 8 * |nak|, x);
    }
  }

  /** Every step makes of every receiver what the input says, and nothing else. */
  lemma StandingFollows(t: Task, i: Input, id: nat)
    requires !t.fault && id in t.standing
    ensures id in Step(t, i).standing && Step(t, i).standing[id] == Becomes(t, i, id)
  {
    match i
    case FileThreadLocks => LockKeepsConfig(t);
    case WaitTimerFires(taken) => WaitBecomes(t, taken, id);
    case MessageArrives(m) => MessageBecomes(t, m, id);
    case _ =>
  }

  lemma MessageBecomes(t: Task, m: Message, id: nat)
    requires !t.fault && id in t.standing
    ensures var u := Step(t, MessageArrives(m));
            id in u.standing && u.standing[id] == Becomes(t, MessageArrives(m), id)
  {
    if m.Status? {
      NoBitNoBlock(m.nakMap);
    }
  }

  lemma WaitBecomes(t: Task, taken: bool, id: nat)
    requires id in t.standing
    ensures var u := WaitEnds(t, taken);
            id in u.standing &&
            u.standing[id] == if t.timers > 0 && t.rounds >= t.cfg.robust && t.standing[id] == Active then Lost
                              else t.standing[id]
  {
  }

  // ----- The end of the file -----

  /** What a step adds to the history. */
  function New(t: Task, i: Input): seq<Event> {
    Step(t, i).log[|t.log|..]
  }

  predicate EveryoneAnswered(t: Task) {
    forall id :: id in t.standing ==> t.standing[id] == Active || t.standing[id] == DoneWithFile
  }

  predicate EveryoneIs(t: Task, st: Standing) {
    forall id :: id in t.standing ==> t.standing[id] == st
  }

  /** The announcing ends, and there is nothing to transfer or nobody to transfer to. */
  predicate NothingToSend(t: Task, i: Input) {
    && i.AnnounceRoundEnds? && t.phase == Announcing && (t.rounds >= t.cfg.robust || EveryoneAnswered(t))
    && (EveryoneIs(t, Registered) || EveryoneIs(t, DoneWithFile) || t.cfg.geo.fileSize == 0)
  }

  /** Nobody is left to wait for: none has NAKs outstanding, and the silent ones are none, or given up. */
  predicate NobodyLeft(t: Task, i: Input) {
    && Calls(t, i) && !Any(t, ActiveNak)
    && (Any(t, Active) ==> t.rounds >= t.cfg.robust && !t.cfg.quitOnError)
  }

  lemma WaitDeclares(t: Task, taken: bool)
    requires t.timers > 0
    ensures var more := WaitEnds(t, taken).log;
            && (more == t.log || more == t.log + [FileError] || more == t.log + [FileComplete])
            && (more == t.log + [FileError] <==> Any(t, Active) && t.rounds >= t.cfg.robust && t.cfg.quitOnError)
            && (more == t.log + [FileComplete] <==> NobodyLeft(t, WaitTimerFires(taken)))
  {
    var u := t.(timers := t.timers - 1, rounds := t.rounds + 1);
    assert Any(u, Active) == Any(t, Active) && Any(u, ActiveNak) == Any(t, ActiveNak);
    assert (t.log + [FileError])[|t.log|] == FileError && (t.log + [FileComplete])[|t.log|] == FileComplete;
  }

  lemma LogTails(log: seq<Event>, e: Event)
    ensures (log + [e])[|log|..] == [e] && log[|log|..] == []
  {
  }

  /** The file fails at exactly one kind of step: the rounds are used up, some receiver has not said a word, and
      that is to be an error. */
  lemma FailsIff(t: Task, i: Input)
    ensures FileError in New(t, i) <==>
            !t.fault && Calls(t, i) && t.rounds >= t.cfg.robust && Any(t, Active) && t.cfg.quitOnError
  {
    LogTails(t.log, FileError);
    LogTails(t.log, FileComplete);
    match i
    case WaitTimerFires(taken) =>
      if !t.fault && t.timers > 0 {
        WaitDeclares(t, taken);
      }
    case FileThreadLocks => SenderSafety.LockCompletesNothing(t);
    case MessageArrives(m) => MessageDeclares(t, m);
    case _ =>
  }

  lemma MessageDeclares(t: Task, m: Message)
    ensures FileError !in New(t, MessageArrives(m))
    ensures FileComplete in New(t, MessageArrives(m)) <==>
            !t.fault && m.Complete? && m.completeFrom in t.standing && Completes(t, MessageArrives(m), m.completeFrom)
            && EveryoneIs(Step(t, MessageArrives(m)), DoneWithFile)
  {
    LogTails(t.log, FileComplete);
    if m.Status? && !t.fault {
      var u := OnStatus(t, m);
      assert forall k :: |t.log| <= k < |u.log| ==> u.log[k].NakTaken?;
    }
  }

  /** The file is declared finished by exactly these steps: a COMPLETE after which everybody is done, the end of
      an announcing with nothing to send, and the end of a wait for nobody. */
  lemma FinishesIff(t: Task, i: Input)
    ensures FileComplete in New(t, i) <==>
            !t.fault && (NothingToSend(t, i) || NobodyLeft(t, i)
                         || ((exists id :: id in t.standing && Completes(t, i, id))
                             && EveryoneIs(Step(t, i), DoneWithFile)))
  {
    LogTails(t.log, FileError);
    LogTails(t.log, FileComplete);
    match i
    case WaitTimerFires(taken) =>
      if !t.fault && t.timers > 0 {
        WaitDeclares(t, taken);
      }
    case FileThreadLocks => SenderSafety.LockCompletesNothing(t);
    case MessageArrives(m) => MessageDeclares(t, m);
    case AnnounceRoundEnds =>
      if t.phase == Announcing {
        AnnounceDeclares(t);
      }
    case _ =>
  }

  lemma AnnounceDeclares(t: Task)
    requires t.phase == Announcing
    ensures AnnounceRound(t).log == t.log || AnnounceRound(t).log == t.log + [FileComplete]
    ensures AnnounceRound(t).log == t.log + [FileComplete] <==> NothingToSend(t, AnnounceRoundEnds)
  {
    assert (t.log + [FileComplete])[|t.log|] == FileComplete;
    assert All(t, {Active, DoneWithFile}) <==> EveryoneAnswered(t);
  }

  // ----- Whole runs -----

  predicate SaysDone(t: Task, i: Input, id: nat) {
    !t.fault && (Completes(t, i, id) || Acknowledges(t, i, id, true))
  }

  predicate TakesBack(t: Task, i: Input, id: nat) {
    !t.fault && (i == AbortArrives(id) || Acknowledges(t, i, id, false))
  }

  /** The sender has heard that id is done, and nothing to the contrary since. */
  predicate HasSaidDone(t: Task, inputs: seq<Input>, id: nat) {
    if inputs == [] then false
    else
      var v, i := Run(t, inputs[..|inputs| - 1]), inputs[|inputs| - 1];
      SaysDone(v, i, id) || (!TakesBack(v, i, id) && HasSaidDone(t, inputs[..|inputs| - 1], id))
  }

  /** In every run the receivers that count as done are those that the sender has heard to be done. */
  lemma {:induction false} DoneIff(t: Task, inputs: seq<Input>, id: nat)
    requires id in t.standing && t.standing[id] != DoneWithFile
    ensures id in Run(t, inputs).standing
    ensures Run(t, inputs).standing[id] == DoneWithFile <==> HasSaidDone(t, inputs, id)
  {
    if inputs != [] {
      var pre, i := inputs[..|inputs| - 1], inputs[|inputs| - 1];
      DoneIff(t, pre, id);
      if !Run(t, pre).fault {
        StandingFollows(Run(t, pre), i, id);
      }
    }
  }

  lemma LostOnlyByGivingUp(t: Task, i: Input)
    requires Any(Step(t, i), Lost) && !Any(t, Lost)
    ensures !t.fault && Calls(t, i) && t.rounds >= t.cfg.robust && Any(t, Active)
  {
    StepKeepsConfig(t, i);
    var id :| id in Step(t, i).standing && Step(t, i).standing[id] == Lost;
    assert id in t.standing.Keys;
    if !t.fault {
      StandingFollows(t, i, id);
    }
  }

  lemma GrowsBy(t: Task, i: Input, e: Event)
    requires e in New(t, i)
    ensures e in Step(t, i).log
  {
    var k :| 0 <= k < |New(t, i)| && New(t, i)[k] == e;
    assert Step(t, i).log[|t.log| + k] == e;
  }

  lemma StepLosesNone(t: Task, i: Input)
    requires t.cfg.quitOnError && (Any(t, Lost) ==> FileError in t.log)
    ensures Any(Step(t, i), Lost) ==> FileError in Step(t, i).log
  {
    if Any(Step(t, i), Lost) && !Any(t, Lost) {
      LostOnlyByGivingUp(t, i);
      FailsIff(t, i);
      GrowsBy(t, i, FileError);
    }
  }

  /** If silence is an error, no run gives a receiver up without declaring the file failed. */
  lemma {:induction false} NoneLostUnlessFailed(t: Task, inputs: seq<Input>)
    requires t.cfg.quitOnError && !Any(t, Lost)
    ensures Any(Run(t, inputs), Lost) ==> FileError in Run(t, inputs).log
  {
    if inputs != [] {
      var pre := inputs[..|inputs| - 1];
      NoneLostUnlessFailed(t, pre);
      SenderSafety.RunKeepsConfig(t, pre);
      StepLosesNone(Run(t, pre), inputs[|inputs| - 1]);
    }
  }

  lemma {:induction false} WorldLosesNone(ws: seq<P.World>, src: seq<Byte>)
    requires P.IsRun(ws, src) && ws[0].snd.cfg.quitOnError && !Any(ws[0].snd, Lost)
    ensures var t := ws[|ws| - 1].snd; t.cfg.quitOnError && (Any(t, Lost) ==> FileError in t.log)
  {
    if |ws| > 1 {
      var pre := ws[..|ws| - 1];
      WorldLosesNone(pre, src);
      var w, v := pre[|pre| - 1], ws[|ws| - 1];
      assert P.Follows(w, v, src);
      var a :| v == P.Next(w, a, src);
      if a.SenderActs? {
        StepLosesNone(w.snd, a.i);
        StepKeepsConfig(w.snd, a.i);
      }
    }
  }

  /** If silence is an error and the file has not failed, then once the file is declared finished in the data phase,
      every receiver that answered its announcement and did not abort is settled: none is given up. */
  lemma {:induction false} FinishedMeansServed(ws: seq<P.World>, i: Input, src: seq<Byte>, id: nat)
    requires P.IsRun(ws, src) && ws[0].snd.cfg.quitOnError && !Any(ws[0].snd, Lost)
    requires Valid(ws[|ws| - 1].snd.cfg.geo) && ws[|ws| - 1].snd.cfg.geo.blockSize >= 4
    requires var w := ws[|ws| - 1];
             && w.snd.phase != Announcing && (i.MessageArrives? ==> i.m in w.net)
             && FileComplete in New(w.snd, i) && FileError !in Step(w.snd, i).log
             && id in w.snd.standing
    ensures var v := P.Next(ws[|ws| - 1], P.SenderActs(i), src);
            id in v.snd.standing &&
            match v.snd.standing[id]
            case DoneWithFile => id in v.rcv && P.Settled(v.rcv[id], src)
            case Aborted => true
            case Registered => true
            case Mute => true
            case _ => false
  {
    P.FinishedMeansDelivered(ws, i, src, id);
    WorldLosesNone(ws, src);
    StepLosesNone(ws[|ws| - 1].snd, i);
    StepKeepsConfig(ws[|ws| - 1].snd, i);
  }

  /** This is no ABORT, COMPLETE or acknowledgement of id. */
  predicate SilentAt(i: Input, id: nat) {
    && i != AbortArrives(id)
    && (i.MessageArrives? ==>
          && !(i.m.Complete? && i.m.completeFrom == id)
          && !(i.m.FileInfoAck? && i.m.ackFrom == id))
  }

  predicate SilentIn(inputs: seq<Input>, id: nat) {
    forall k :: 0 <= k < |inputs| ==> SilentAt(inputs[k], id)
  }

  lemma {:induction false} ComplainerStays(t: Task, i: Input, id: nat)
    requires id in t.standing && t.standing[id] == ActiveNak && t.phase != Announcing && SilentAt(i, id)
    ensures id in Step(t, i).standing && Step(t, i).standing[id] == ActiveNak && Step(t, i).phase != Announcing
    ensures FileComplete !in New(t, i)
  {
    SenderSafety.NoneBecomesActive(t, i);
    if t.fault {
      assert New(t, i) == [];
    } else {
      StandingFollows(t, i, id);
      FinishesIff(t, i);
    }
  }

  /** A receiver that has complained and then falls silent is never given up, however many rounds go by: no
      continuation declares the file finished. */
  lemma {:induction false} ComplainerIsNeverGivenUp(t: Task, inputs: seq<Input>, id: nat)
    requires id in t.standing && t.standing[id] == ActiveNak && t.phase != Announcing && SilentIn(inputs, id)
    ensures var u := Run(t, inputs);
            && id in u.standing && u.standing[id] == ActiveNak && u.phase != Announcing
            && t.log <= u.log && FileComplete !in u.log[|t.log|..]
  {
    if inputs != [] {
      var pre, i := inputs[..|inputs| - 1], inputs[|inputs| - 1];
      ComplainerIsNeverGivenUp(t, pre, id);
      var v := Run(t, pre);
      ComplainerStays(v, i, id);
      assert Step(v, i).log[|t.log|..] == v.log[|t.log|..] + New(v, i);
    }
  }

  // ----- Announcing -----

  /** The announcement is repeated while rounds are left and somebody has not answered; otherwise the transfer
      starts, unless there is nothing to send. */
  lemma AnnouncesAgainIff(t: Task)
    requires !t.fault && t.phase == Announcing
    ensures var u := Step(t, AnnounceRoundEnds);
            if NothingToSend(t, AnnounceRoundEnds) then u == t.(rounds := t.rounds + 1, log := t.log + [FileComplete])
            else if t.rounds < t.cfg.robust && !EveryoneAnswered(t) then u == t.(rounds := t.rounds + 1)
            else u == t.(rounds := 0, phase := Sending, posted := t.posted + 1)
  {
    AnnounceDeclares(t);
    assert All(t, {Active, DoneWithFile}) <==> EveryoneAnswered(t);
  }

  /** How many rounds of announcing have ended. */
  function AnnounceCalls(t: Task, inputs: seq<Input>): nat {
    if inputs == [] then 0
    else
      var v := Run(t, inputs[..|inputs| - 1]);
      AnnounceCalls(t, inputs[..|inputs| - 1]) +
      if inputs[|inputs| - 1].AnnounceRoundEnds? && !v.fault && v.phase == Announcing then 1 else 0
  }

  lemma AnnounceStep(t: Task, i: Input)
    requires SenderSafety.Coherent(t)
    ensures Step(t, i).phase == Announcing ==>
              && t.phase == Announcing
              && Step(t, i).rounds == t.rounds + (if i.AnnounceRoundEnds? && !t.fault then 1 else 0)
              && (i.AnnounceRoundEnds? && !t.fault && t.rounds >= t.cfg.robust ==> FileComplete in Step(t, i).log)
  {
    if t.phase != Announcing {
      SenderSafety.NoneBecomesActive(t, i);
    } else if !t.fault {
      match i
      case AnnounceRoundEnds =>
        AnnouncesAgainIff(t);
        assert (t.log + [FileComplete])[|t.log|] == FileComplete;
      case _ =>
    }
  }

  /** In every run the round counter counts the rounds of announcing, and there are no more of them than one above
      the robustness factor, unless the file is declared finished for want of anything to send. */
  lemma {:induction false} RoundsCountAnnouncements(t: Task, inputs: seq<Input>)
    requires t == Created(t.cfg, t.standing)
    ensures var u := Run(t, inputs);
            && SenderSafety.Coherent(u) && u.cfg == t.cfg
            && (u.phase == Announcing ==>
                  && u.rounds == AnnounceCalls(t, inputs)
                  && (AnnounceCalls(t, inputs) <= t.cfg.robust || FileComplete in u.log))
  {
    SenderSafety.RunKeepsConfig(t, inputs);
    if inputs != [] {
      var pre, i := inputs[..|inputs| - 1], inputs[|inputs| - 1];
      RoundsCountAnnouncements(t, pre);
      var v := Run(t, pre);
      SenderSafety.StepKeepsCoherent(v, i);
      AnnounceStep(v, i);
      assert v.log <= Step(v, i).log;
    }
  }

  // ----- What is resent -----

  /** The input is a complaint about the block with this number. */
  predicate ComplainsOf(t: Task, i: Input, blk: nat) {
    && !t.fault && i.MessageArrives? && i.m.Status? && Complains(t, i, i.m.statusFrom)
    && exists k :: 0 <= k < 8 * |i.m.nakMap| && NakCodec.BitAt(i.m.nakMap, k)
                   && blk == AbsBlk(t.cfg.geo, i.m.statusSect, k % 0x1_0000)
  }

  lemma {:induction false} NakedIff(t: Task, m: Message, blk: nat)
    requires m.Status?
    ensures blk in NakedBlocks(t, m) <==>
            exists k :: 0 <= k < 8 * |m.nakMap| && NakCodec.BitAt(m.nakMap, k)
                        && blk == AbsBlk(t.cfg.geo, m.statusSect, k % 0x1_0000)
  {
    if blk in NakedBlocks(t, m) {
      var b :| b in NakCodec.PlainScan(m.nakMap) && blk == AbsBlk(t.cfg.geo, m.statusSect, b);
      NakCodec.ScanIff(m.nakMap, 8 * |m.nakMap|, b);
    }
    if k :| 0 <= k < 8 * |m.nakMap| && NakCodec.BitAt(m.nakMap, k)
            && blk == AbsBlk(t.cfg.geo, m.statusSect, k % 0x1_0000) {
      NakCodec.ScanIff(m.nakMap, 8 * |m.nakMap|, k % 0x1_0000);
      assert k % 0x1_0000 in NakCodec.PlainScan(m.nakMap);
    }
  }

  /** The blocks noted as complained about are those that complaints name. */
  lemma NotedIff(t: Task, i: Input, blk: nat)
    ensures NakTaken(blk) in New(t, i) <==> ComplainsOf(t, i, blk)
  {
    if !t.fault && i.MessageArrives? && i.m.Status? {
      NoBitNoBlock(i.m.nakMap);
      NakedIff(t, i.m, blk);
      StatusNotes(t, i.m, blk);
    } else {
      NothingNoted(t, i, blk);
    }
  }

  lemma StatusNotes(t: Task, m: Message, blk: nat)
    requires m.Status?
    ensures NakTaken(blk) in OnStatus(t, m).log[|t.log|..] <==>
            OnStatus(t, m) != t && blk in NakedBlocks(t, m)
  {
    var order := Ascending(NakedBlocks(t, m));
    assert (t.log + Taken(order))[|t.log|..] == Taken(order);
    if blk in order {
      var j :| 0 <= j < |order| && order[j] == blk;
      assert Taken(order)[j] == NakTaken(blk);
    }
  }

  lemma NothingNoted(t: Task, i: Input, blk: nat)
    requires t.fault || !i.MessageArrives? || !i.m.Status?
    ensures NakTaken(blk) !in New(t, i)
  {
    match i
    case WaitTimerFires(taken) =>
      if !t.fault && t.timers > 0 {
        WaitDeclares(t, taken);
      }
    case FileThreadLocks => SenderSafety.LockCompletesNothing(t);
    case _ =>
  }

  /** Everything that is recorded, set aside or in hand for repair was complained about. */
  ghost predicate AskedFor(t: Task) {
    && (forall b :: b in t.naks || b in t.later ==> NakTaken(b) in t.log)
    && (t.thread.InFlight? && t.thread.lost ==> NakTaken(t.thread.blk) in t.log)
  }

  /** The locked region records nothing new, and takes what it resends from the records. */
  predicate FromRecords(t: Task, u: Task) {
    && u.log == t.log && u.naks + u.later <= t.naks + t.later
    && (u.thread.InFlight? && u.thread.lost ==> u.thread.blk in t.naks || u.thread == t.thread)
  }

  lemma SendingFromRecords(t: Task, blocked: bool)
    ensures FromRecords(t, SendingLoop(t)) && FromRecords(t, SendingExit(t, blocked))
  {
  }

  lemma LostExitFromRecords(t: Task, blocked: bool)
    ensures FromRecords(t, LostExit(t, blocked))
  {
  }

  lemma LostLoopFromRecords(t: Task)
    ensures FromRecords(t, LostLoop(t))
  {
    if Unsent(t) == {} {
      LostExitFromRecords(t, false);
    } else {
      assert Least(Unsent(t)) in t.naks;
    }
  }

  lemma LockFromRecords(t: Task)
    ensures FromRecords(t, TakeLock(t))
  {
    SendingFromRecords(t, t.thread.Handed? && !t.thread.accepted);
    LostExitFromRecords(t, t.thread.Handed? && !t.thread.accepted);
    LostLoopFromRecords(t);
    LostLoopFromRecords(t.(cursor := Some(0)));
  }

  lemma LockAskedFor(t: Task)
    requires AskedFor(t)
    ensures AskedFor(TakeLock(t))
  {
    LockFromRecords(t);
    var u := TakeLock(t);
    forall b | b in u.naks || b in u.later ensures NakTaken(b) in u.log {
      assert b in u.naks + u.later;
    }
  }

  lemma StepAskedFor(t: Task, i: Input)
    requires AskedFor(t)
    ensures AskedFor(Step(t, i))
  {
    if !t.fault {
      match i
      case FileThreadLocks => LockAskedFor(t);
      case MessageArrives(m) =>
        if m.Status? {
          StatusAskedFor(t, m);
        }
      case _ =>
    }
  }

  lemma StatusRecords(t: Task, m: Message)
    requires m.Status?
    ensures var u := OnStatus(t, m);
            && u.thread == t.thread
            && (forall b :: b in u.naks || b in u.later ==>
                  b in t.naks || b in t.later || (u != t && b in NakedBlocks(t, m)))
  {
  }

  lemma TailIsIn(log: seq<Event>, more: seq<Event>, e: Event)
    requires log <= more
    ensures e in log || e in more[|log|..] ==> e in more
  {
    if e in more[|log|..] {
      var k :| 0 <= k < |more[|log|..]| && more[|log|..][k] == e;
      assert more[|log| + k] == e;
    }
  }

  lemma StatusAskedFor(t: Task, m: Message)
    requires AskedFor(t) && m.Status?
    ensures AskedFor(OnStatus(t, m))
  {
    var u := OnStatus(t, m);
    StatusRecords(t, m);
    forall b | b in u.naks || b in u.later ensures NakTaken(b) in u.log {
      StatusNotes(t, m, b);
      TailIsIn(t.log, u.log, NakTaken(b));
    }
  }

  /** The other side of NoNakIsEverLost: in every run, a repair pass resends only blocks that an earlier STATUS
      has complained about, and so do the records hold only such blocks. */
  lemma {:induction false} OnlyComplaintsAreResent(t: Task, inputs: seq<Input>)
    requires t == Created(t.cfg, t.standing)
    ensures AskedFor(Run(t, inputs))
  {
    if inputs != [] {
      OnlyComplaintsAreResent(t, inputs[..|inputs| - 1]);
      StepAskedFor(Run(t, inputs[..|inputs| - 1]), inputs[|inputs| - 1]);
    }
  }
}
