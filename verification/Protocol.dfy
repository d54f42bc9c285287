/** The sender and any number of receivers together, over a network that may lose, repeat and reorder
    whatever is put on it: once a packet has been sent it may be delivered at any later time, any
    number of times, or never. */
module Protocol {
  import opened Common
  import opened Geometry
  import opened Messages
  import S = Sender
  import R = Receiver
  import ReceiverFacts
  import SenderSafety
  import NakCodec
  import Packing
  import Wire
  import Disk

  /** net is everything that has ever been sent. */
  datatype World = World(snd: S.Task, rcv: map<nat, R.Task>, net: set<Message>)

  datatype Action =
    | Announces(room: nat)
    | SenderActs(i: S.Input)
    | Delivers(m: Message, to: nat, target: R.Target)
    | FileThreadOf(id: nat)

  // ----- What the sender puts on the network -----

  /** The read of do_send_one_block: a full block, or what is left of the file. */
  function ReadBlock(src: seq<Byte>, blockSize: nat, abs: nat): seq<Byte> {
    var pos := blockSize * abs;
    if pos >= |src| then [] else if pos + blockSize <= |src| then src[pos..pos + blockSize] else src[pos..]
  }

  function SegOf(cfg: S.Config, src: seq<Byte>, abs: nat): Message
    requires Valid(cfg.geo)
  {
    var (sect, blk) := SectBlk(cfg.geo, abs);
    FileSeg(cfg.fileId, sect, blk, ReadBlock(src, cfg.geo.blockSize, abs))
  }

  /** The receivers a FILE_INFO is addressed to, in map order. */
  function AnnounceEntries(t: S.Task): seq<Packing.Entry> {
    var ids := Ascending(t.standing.Keys);
    seq(|ids|, i requires 0 <= i < |ids| => Packing.Entry(ids[i], t.standing[ids[i]] == S.Registered))
  }

  /** The FILE_INFO packets of do_send_fileinfo, with room for so many ids in each. */
  function FileInfoPackets(t: S.Task, room: nat): set<Message>
    requires room > 0
  {
    set ids | ids in Packing.Pack(AnnounceEntries(t), room) :: FileInfoOf(t, ids)
  }

  function FileInfoOf(t: S.Task, ids: seq<nat>): (m: Message)
    ensures m.FileInfo? && m.infoFor == ids
  {
    FileInfo(t.cfg.fileId, Wire.SizeHighWord(t.cfg.geo.fileSize), Wire.SizeLowDword(t.cfg.geo.fileSize), ids)
  }

  /** The packets a step of the sender sends. */
  function Emitted(t: S.Task, i: S.Input, src: seq<Byte>): set<Message>
    requires Valid(t.cfg.geo) && t.cfg.geo.blockSize >= 4
  {
    if t.fault then {}
    else if i == S.FileThreadSends(true) && t.thread.InFlight? then {SegOf(t.cfg, src, t.thread.blk)}
    else if i == S.BucketHasRoom(true) && t.blockedMsg.Some? then {SegOf(t.cfg, src, t.blockedMsg.value)}
    else if S.SendsDone(t, i) then set m | m in S.DonePackets(t)
    else {}
  }

  // ----- Steps -----

  /** A receiver takes a packet from the network. */
  function Receive(t: R.Task, m: Message, target: R.Target): (R.Task, seq<Message>) {
    match m
    case FileInfo(_, _, _, _) => R.OnFileInfo(t, m, target)
    case FileSeg(_, _, _, _) => (R.OnDataBlock(t, m), [])
    case Done(_, _, _) => R.OnDone(t, m)
    case _ => (t, [])
  }

  /** One step of the whole system. A step that is not enabled changes nothing. */
  function Next(w: World, a: Action, src: seq<Byte>): World
    requires Valid(w.snd.cfg.geo) && w.snd.cfg.geo.blockSize >= 4
  {
    match a
    case Announces(room) =>
      if w.snd.phase == S.Announcing && room > 0 then w.(net := w.net + FileInfoPackets(w.snd, room)) else w
    case SenderActs(i) =>
      if i.MessageArrives? && i.m !in w.net then w
      else w.(snd := S.Step(w.snd, i), net := w.net + Emitted(w.snd, i, src))
    case Delivers(m, to, target) =>
      if m !in w.net || to !in w.rcv then w
      else
        var (r, sent) := Receive(w.rcv[to], m, target);
        w.(rcv := w.rcv[to := r], net := w.net + set s | s in sent)
    case FileThreadOf(id) =>
      if id in w.rcv then w.(rcv := w.rcv[id := R.RunOneJob(w.rcv[id])]) else w
  }

  /** A receiver that has yet to hear of the file. */
  predicate Untouched(t: R.Task) {
    !t.fault && t.phase == R.WaitingFileInfo && t.fileId == 0 && t.records == map[] && t.jobs == []
    && t.file.stream.NotOpened?
  }

  /** What the source demands of the file and the session. */
  predicate Transferable(cfg: S.Config, src: seq<Byte>) {
    && 0 < |src| < 0x1_0000_0000 && cfg.fileId != 0
    && cfg.geo.blockSize >= 4
    && WideSectionCount(|src|, cfg.geo.blockSize) <= 0xFFFF
    && Learn(|src|, cfg.geo.blockSize) == Some(cfg.geo)
  }

  /** The sender is about to announce the file, and nothing has been sent. */
  predicate Initial(w: World, src: seq<Byte>) {
    && Transferable(w.snd.cfg, src)
    && w.snd == S.Created(w.snd.cfg, w.snd.standing)
    && (forall id :: id in w.snd.standing ==> w.snd.standing[id] != S.DoneWithFile)
    && (forall id :: id in w.rcv ==> Untouched(w.rcv[id]) && w.rcv[id].self == id
                                     && w.rcv[id].blockSize == w.snd.cfg.geo.blockSize)
    && w.net == {}
  }

  lemma TransferableIsValid(cfg: S.Config, src: seq<Byte>)
    requires Transferable(cfg, src)
    ensures Valid(cfg.geo) && cfg.geo.fileSize == |src|
  {
    LearnIsValid(|src|, cfg.geo.blockSize);
    var bs := cfg.geo.blockSize;
    DivideKeepsInputs(|src|, bs, CeilDiv(|src|, bs), WideSectionCount(|src|, bs));
  }

  // ----- The invariant -----

  /** Every block the sender has in hand exists. */
  predicate InRange(t: S.Task) {
    && (forall b :: b in t.naks ==> b < t.cfg.geo.blockCount)
    && (forall b :: b in t.later ==> b < t.cfg.geo.blockCount)
    && (t.thread.InFlight? ==> t.thread.blk < t.cfg.geo.blockCount)
    && (t.blockedMsg.Some? ==> t.blockedMsg.value < t.cfg.geo.blockCount)
    && (!t.eof ==> t.next < t.cfg.geo.blockCount)
  }

  /** A STATUS that names blocks of a section that exist. */
  predicate StatusInRange(m: Message, g: Geo)
    requires m.Status?
  {
    m.statusSect < g.sectionCount &&
    forall b :: b in NakCodec.PlainScan(m.nakMap) ==> b < SectionSize(g, m.statusSect)
  }

  /** Only true things are said about the file. */
  predicate Truthful(m: Message, cfg: S.Config, src: seq<Byte>) {
    match m
    case FileInfo(id, high, low, _) => id == cfg.fileId && Wire.DecodedSize(high, low) == |src|
    case FileSeg(id, _, _, _) => id == cfg.fileId && R.GoodBlock(m, src, cfg.geo)
    case Done(id, last, _) => id == cfg.fileId && last + 1 == cfg.geo.sectionCount
    case Status(_, _, _, _) => StatusInRange(m, cfg.geo)
    case FileInfoAck(_, _, done) => !done
    case _ => true
  }

  predicate Finished(t: R.Task) {
    !t.fault && (t.phase == R.Completed || t.phase == R.Rejected)
  }

  /** A receiver that turned the file down, or had it already. */
  predicate Declined(t: R.Task, cfg: S.Config) {
    && Finished(t) && t.fileId == cfg.fileId && t.geo == cfg.geo && t.jobs == [] && t.file.stream.NotOpened?
    && R.Consistent(t) && R.NoneSet(t.completed)
  }

  /** A receiver that opened the file. */
  ghost predicate Taking(t: R.Task, cfg: S.Config, src: seq<Byte>) {
    !t.fault && t.fileId == cfg.fileId && t.geo == cfg.geo && R.Receiving(t, src) && !t.file.stream.NotOpened?
  }

  /** Everything a receiver can become; one that faulted was still receiving. */
  ghost predicate Sound(t: R.Task, cfg: S.Config, src: seq<Byte>) {
    && t.blockSize == cfg.geo.blockSize
    && (Untouched(t) || Declined(t, cfg) || (t.fault && t.phase == R.ReceivingBlobs) || Taking(t, cfg, src))
  }

  predicate HasCompleted(net: set<Message>, id: nat) {
    exists m :: m in net && m.Complete? && m.completeFrom == id
  }

  ghost predicate NetInv(w: World, src: seq<Byte>) {
    && (forall m :: m in w.net ==> Truthful(m, w.snd.cfg, src))
    && (forall id :: HasCompleted(w.net, id) ==> id in w.rcv && Finished(w.rcv[id]))
  }

  ghost predicate Inv(w: World, src: seq<Byte>) {
    && Transferable(w.snd.cfg, src) && InRange(w.snd)
    && NetInv(w, src)
    && (forall id :: id in w.rcv ==> w.rcv[id].self == id && Sound(w.rcv[id], w.snd.cfg, src))
    && (forall id :: id in w.snd.standing && w.snd.standing[id] == S.DoneWithFile ==> HasCompleted(w.net, id))
  }

  // ----- The sender keeps it -----

  lemma SegIsGood(cfg: S.Config, src: seq<Byte>, abs: nat)
    requires Transferable(cfg, src) && abs < cfg.geo.blockCount
    ensures Valid(cfg.geo) && R.GoodBlock(SegOf(cfg, src, abs), src, cfg.geo)
  {
    TransferableIsValid(cfg, src);
    AbsRoundTrip(cfg.geo, abs);
    BlocksTile(cfg.geo, abs);
    assert Offset(cfg.geo, abs) == cfg.geo.blockSize * abs;
  }

  lemma NakedInRange(t: S.Task, m: Message)
    requires Valid(t.cfg.geo) && m.Status? && StatusInRange(m, t.cfg.geo)
    ensures forall b :: b in S.NakedBlocks(t, m) ==> b < t.cfg.geo.blockCount
  {
    forall b | b in NakCodec.PlainScan(m.nakMap)
      ensures AbsBlk(t.cfg.geo, m.statusSect, b) < t.cfg.geo.blockCount
    {
      AbsBelow(t.cfg.geo, m.statusSect, b);
    }
  }

  lemma SendingInRange(t: S.Task)
    requires InRange(t)
    ensures InRange(S.SendingLoop(t)) && forall blocked :: InRange(S.SendingExit(t, blocked))
  {
  }

  lemma LostExitInRange(t: S.Task, blocked: bool)
    requires InRange(t)
    ensures InRange(S.LostExit(t, blocked))
  {
  }

  lemma LostLoopInRange(t: S.Task)
    requires InRange(t)
    ensures InRange(S.LostLoop(t))
  {
    if S.Unsent(t) == {} {
      LostExitInRange(t, false);
    } else {
      assert Least(S.Unsent(t)) in t.naks;
    }
  }

  lemma LockInRange(t: S.Task)
    requires InRange(t)
    ensures InRange(S.TakeLock(t))
  {
    SendingInRange(t);
    LostLoopInRange(t);
    LostLoopInRange(t.(cursor := Some(0)));
    if t.thread.Handed? {
      LostExitInRange(t, !t.thread.accepted);
    }
  }

  lemma WaitInRange(t: S.Task, u: S.Task)
    requires InRange(t) && S.WaitFrame(t, u) && u.next == t.next
    ensures InRange(u)
  {
  }

  lemma WaitKeepsNext(t: S.Task, accepted: bool)
    ensures S.WaitEnds(t, accepted).next == t.next
  {
  }

  lemma StatusKeepsRange(t: S.Task, m: Message)
    requires Valid(t.cfg.geo) && InRange(t) && m.Status? && StatusInRange(m, t.cfg.geo)
    ensures InRange(S.OnStatus(t, m))
  {
    NakedInRange(t, m);
  }

  /** The two tasks have the same blocks in hand, but for the file thread and what is kept. */
  predicate SameBlocks(t: S.Task, u: S.Task) {
    && u.cfg == t.cfg && u.naks == t.naks && u.later == t.later && u.next == t.next && u.eof == t.eof
    && (u.thread == t.thread || !u.thread.InFlight?)
    && (u.blockedMsg == t.blockedMsg || u.blockedMsg.None? ||
        (t.thread.InFlight? && u.blockedMsg == Some(t.thread.blk)))
  }

  lemma SameInRange(t: S.Task, u: S.Task)
    requires InRange(t) && SameBlocks(t, u)
    ensures InRange(u)
  {
  }

  lemma MessageSameBlocks(t: S.Task, m: Message)
    requires !m.Status?
    ensures SameBlocks(t, S.Step(t, S.MessageArrives(m)))
  {
  }

  lemma OtherSameBlocks(t: S.Task, i: S.Input)
    requires !i.FileThreadLocks? && !i.WaitTimerFires? && !i.MessageArrives?
    ensures SameBlocks(t, S.Step(t, i))
  {
  }

  lemma StepInRange(t: S.Task, i: S.Input)
    requires Valid(t.cfg.geo) && InRange(t)
    requires i.MessageArrives? && i.m.Status? ==> StatusInRange(i.m, t.cfg.geo)
    ensures InRange(S.Step(t, i))
  {
    match i
    case FileThreadLocks => LockInRange(t);
    case WaitTimerFires(doneTaken) =>
      WaitKeepsNext(t, doneTaken);
      WaitInRange(t, S.WaitEnds(t, doneTaken));
    case MessageArrives(m) =>
      if m.Status? {
        StatusKeepsRange(t, m);
      } else {
        MessageSameBlocks(t, m);
        SameInRange(t, S.Step(t, i));
      }
    case _ =>
      OtherSameBlocks(t, i);
      SameInRange(t, S.Step(t, i));
  }

  lemma DonePacketsTruthful(t: S.Task, src: seq<Byte>)
    requires Valid(t.cfg.geo) && t.cfg.geo.blockSize >= 4
    ensures forall m :: m in S.DonePackets(t) ==> m.Done? && Truthful(m, t.cfg, src)
  {
  }

  lemma EmittedTruthful(t: S.Task, i: S.Input, src: seq<Byte>)
    requires Transferable(t.cfg, src) && InRange(t) && Valid(t.cfg.geo)
    ensures forall m :: m in Emitted(t, i, src) ==> Truthful(m, t.cfg, src) && !m.Complete?
  {
    if t.fault {
    } else if i == S.FileThreadSends(true) && t.thread.InFlight? {
      SegIsGood(t.cfg, src, t.thread.blk);
    } else if i == S.BucketHasRoom(true) && t.blockedMsg.Some? {
      SegIsGood(t.cfg, src, t.blockedMsg.value);
    } else if S.SendsDone(t, i) {
      DonePacketsTruthful(t, src);
      assert Emitted(t, i, src) == set m | m in S.DonePackets(t);
    }
  }

  /** A receiver becomes done only by a COMPLETE of its own, or by a FILE_INFO_ACK of its own that says
      the file is done with, which the sender heeds only while it announces. */
  lemma DoneOnlyByComplete(t: S.Task, i: S.Input, id: nat)
    requires id in S.Step(t, i).standing && S.Step(t, i).standing[id] == S.DoneWithFile
    ensures (id in t.standing && t.standing[id] == S.DoneWithFile)
            || (i.MessageArrives? && i.m.Complete? && i.m.completeFrom == id && i.m.completeId == t.cfg.fileId)
            || (i.MessageArrives? && i.m.FileInfoAck? && i.m.ackFrom == id && i.m.ackDone
                && i.m.ackId == t.cfg.fileId && t.phase == S.Announcing)
  {
    match i
    case FileThreadLocks => S.LockKeepsConfig(t);
    case WaitTimerFires(doneTaken) => WaitMarksNone(t, doneTaken, id);
    case _ =>
  }

  lemma WaitMarksNone(t: S.Task, accepted: bool, id: nat)
    requires id in S.WaitEnds(t, accepted).standing && S.WaitEnds(t, accepted).standing[id] == S.DoneWithFile
    ensures id in t.standing && t.standing[id] == S.DoneWithFile
  {
  }

  lemma AnnounceKeeps(w: World, room: nat, src: seq<Byte>)
    requires Inv(w, src) && Valid(w.snd.cfg.geo) && w.snd.cfg.geo.fileSize == |src| && room > 0
    ensures Inv(w.(net := w.net + FileInfoPackets(w.snd, room)), src)
  {
    Wire.SizeDecodesModulo(|src|);
    GrowNet(w, FileInfoPackets(w.snd, room), src);
  }

  /** Adding true messages that are no COMPLETE. */
  lemma GrowNet(w: World, more: set<Message>, src: seq<Byte>)
    requires Inv(w, src) && forall m :: m in more ==> Truthful(m, w.snd.cfg, src) && !m.Complete?
    ensures Inv(w.(net := w.net + more), src)
  {
    var v := w.(net := w.net + more);
    forall id ensures HasCompleted(v.net, id) <==> HasCompleted(w.net, id) {
      if HasCompleted(w.net, id) {
        var m :| m in w.net && m.Complete? && m.completeFrom == id;
        assert m in v.net;
      }
    }
  }

  lemma SenderKeeps(w: World, i: S.Input, src: seq<Byte>)
    requires Inv(w, src) && Valid(w.snd.cfg.geo) && (i.MessageArrives? ==> i.m in w.net)
    ensures Inv(w.(snd := S.Step(w.snd, i), net := w.net + Emitted(w.snd, i, src)), src)
  {
    var v := w.(net := w.net + Emitted(w.snd, i, src));
    EmittedTruthful(w.snd, i, src);
    GrowNet(w, Emitted(w.snd, i, src), src);
    var u := S.Step(w.snd, i);
    S.StepKeepsConfig(w.snd, i);
    StepInRange(w.snd, i);
    forall id | id in u.standing && u.standing[id] == S.DoneWithFile
      ensures HasCompleted(v.net, id)
    {
      DoneOnlyByComplete(w.snd, i, id);
    }
  }

  // ----- A receiver keeps it -----

  /** What one packet makes of a receiver: it stays sound, what it sends is true and its own, a
      COMPLETE is sent only by one that is finished, and one that is finished stays so. */
  ghost predicate GoodReply(t: R.Task, u: R.Task, sent: seq<Message>, cfg: S.Config, src: seq<Byte>) {
    && Sound(u, cfg, src) && u.self == t.self
    && (forall m :: m in sent ==> Truthful(m, cfg, src))
    && (forall m :: m in sent && m.Complete? ==> m.completeFrom == t.self && Finished(u))
    && (Finished(t) ==> Finished(u))
  }

  lemma {:induction false} ReportsInRange(t: R.Task, sect: nat, last: nat)
    requires R.Consistent(t) && !t.fault && last < t.geo.sectionCount
    ensures forall m :: m in R.ReportFrom(t, sect, last).1 ==> m.Status? && StatusInRange(m, t.geo)
    decreases last + 1 - sect
  {
    if sect <= last {
      if t.completed[sect] {
        ReportsInRange(t, sect + 1, last);
      } else {
        ReceiverFacts.ReportFits(t, sect);
        assert SectionSize(t.geo, sect) <= 0xFFFF;
        NakCodec.ScanOfPacked(R.ReportedRecord(t, sect).missing);
        ReportsInRange(R.ReportStatus(t, sect).0, sect + 1, last);
      }
    }
  }

  lemma FileInfoReply(t: R.Task, m: Message, target: R.Target, cfg: S.Config, src: seq<Byte>)
    requires Transferable(cfg, src) && Sound(t, cfg, src) && m.FileInfo? && Truthful(m, cfg, src)
    ensures var (u, sent) := R.OnFileInfo(t, m, target); GoodReply(t, u, sent, cfg, src)
  {
    if Untouched(t) && t.self in m.infoFor {
      TransferableIsValid(cfg, src);
      if target == R.Acceptable {
        ReceiverFacts.AcceptStarts(t, m, src);
      }
    }
  }

  lemma FileSegReply(t: R.Task, m: Message, cfg: S.Config, src: seq<Byte>)
    requires Transferable(cfg, src) && Sound(t, cfg, src) && m.FileSeg? && Truthful(m, cfg, src)
    ensures GoodReply(t, R.OnDataBlock(t, m), [], cfg, src)
  {
    if Taking(t, cfg, src) && t.phase == R.ReceivingBlobs {
      ReceiverFacts.DataBlockKeeps(t, m, src);
      ReceiverFacts.DeliveryMarks(t, m);
    }
  }

  lemma DoneReply(t: R.Task, m: Message, cfg: S.Config, src: seq<Byte>)
    requires Transferable(cfg, src) && Sound(t, cfg, src) && m.Done? && Truthful(m, cfg, src)
    ensures var (u, sent) := R.OnDone(t, m); GoodReply(t, u, sent, cfg, src)
  {
    if t.fault || t.self !in m.doneFor || Untouched(t) {
    } else if Taking(t, cfg, src) {
      TakingAnswers(t, m, cfg, src);
    } else {
      DeclinedAnswers(t, m, cfg, src);
    }
  }

  lemma TakingAnswers(t: R.Task, m: Message, cfg: S.Config, src: seq<Byte>)
    requires Transferable(cfg, src) && Sound(t, cfg, src) && Taking(t, cfg, src) && m.Done? && Truthful(m, cfg, src)
    ensures var (u, sent) := R.OnDone(t, m); GoodReply(t, u, sent, cfg, src)
  {
    ReceiverFacts.DoneKeeps(t, m, src);
    if !R.AllSet(t.completed) {
      ReportsInRange(t, 0, m.lastSect);
    }
  }

  lemma DeclinedAnswers(t: R.Task, m: Message, cfg: S.Config, src: seq<Byte>)
    requires Transferable(cfg, src) && Sound(t, cfg, src) && Declined(t, cfg) && m.Done? && Truthful(m, cfg, src)
    ensures var (u, sent) := R.OnDone(t, m); GoodReply(t, u, sent, cfg, src)
  {
    ReceiverFacts.ReportKeeps(t, 0, m.lastSect);
    ReportsInRange(t, 0, m.lastSect);
    assert !t.completed[0];
  }

  lemma JobReply(t: R.Task, cfg: S.Config, src: seq<Byte>)
    requires Sound(t, cfg, src)
    ensures GoodReply(t, R.RunOneJob(t), [], cfg, src)
  {
    if Taking(t, cfg, src) {
      ReceiverFacts.FileThreadKeeps(t, src);
    }
  }

  /** A good reply keeps the world's invariant. */
  lemma ReplyKeeps(w: World, to: nat, u: R.Task, sent: seq<Message>, src: seq<Byte>)
    requires Inv(w, src) && to in w.rcv && GoodReply(w.rcv[to], u, sent, w.snd.cfg, src)
    ensures Inv(w.(rcv := w.rcv[to := u], net := w.net + set s | s in sent), src)
  {
    var v := w.(rcv := w.rcv[to := u], net := w.net + set s | s in sent);
    forall id | HasCompleted(v.net, id)
      ensures id in v.rcv && Finished(v.rcv[id])
    {
      var m :| m in v.net && m.Complete? && m.completeFrom == id;
      if m in w.net {
        assert HasCompleted(w.net, id);
      }
    }
    forall id | HasCompleted(w.net, id)
      ensures HasCompleted(v.net, id)
    {
      var m :| m in w.net && m.Complete? && m.completeFrom == id;
      assert m in v.net;
    }
  }

  lemma DeliveryKeeps(w: World, m: Message, to: nat, target: R.Target, src: seq<Byte>)
    requires Inv(w, src) && Valid(w.snd.cfg.geo) && m in w.net && to in w.rcv
    ensures Inv(Next(w, Delivers(m, to, target), src), src)
  {
    var (u, sent) := Receive(w.rcv[to], m, target);
    match m {
      case FileInfo(_, _, _, _) => FileInfoReply(w.rcv[to], m, target, w.snd.cfg, src);
      case FileSeg(_, _, _, _) => FileSegReply(w.rcv[to], m, w.snd.cfg, src);
      case Done(_, _, _) => DoneReply(w.rcv[to], m, w.snd.cfg, src);
      case _ =>
    }
    ReplyKeeps(w, to, u, sent, src);
  }

  // ----- Every run -----

  lemma NextKeeps(w: World, a: Action, src: seq<Byte>)
    requires Inv(w, src) && Valid(w.snd.cfg.geo)
    ensures Inv(Next(w, a, src), src) && Next(w, a, src).snd.cfg == w.snd.cfg
  {
    TransferableIsValid(w.snd.cfg, src);
    match a
    case Announces(room) =>
      if w.snd.phase == S.Announcing && room > 0 {
        AnnounceKeeps(w, room, src);
      }
    case SenderActs(i) =>
      if !(i.MessageArrives? && i.m !in w.net) {
        S.StepKeepsConfig(w.snd, i);
        SenderKeeps(w, i, src);
      }
    case Delivers(m, to, target) =>
      if m in w.net && to in w.rcv {
        DeliveryKeeps(w, m, to, target, src);
      }
    case FileThreadOf(id) =>
      if id in w.rcv {
        JobReply(w.rcv[id], w.snd.cfg, src);
        ReplyKeeps(w, id, R.RunOneJob(w.rcv[id]), [], src);
        assert w.net + (set s | s in []) == w.net;
      }
  }

  /** ws is a run: it starts before anything was sent, and each world follows from the one before. */
  ghost predicate IsRun(ws: seq<World>, src: seq<Byte>) {
    && |ws| > 0 && Initial(ws[0], src)
    && forall k :: 0 < k < |ws| ==> Follows(ws[k - 1], ws[k], src)
  }

  ghost predicate Follows(w: World, v: World, src: seq<Byte>) {
    && Valid(w.snd.cfg.geo) && w.snd.cfg.geo.blockSize >= 4
    && exists a :: v == Next(w, a, src)
  }

  lemma {:induction false} RunsAreSound(ws: seq<World>, src: seq<Byte>)
    requires IsRun(ws, src)
    ensures Inv(ws[|ws| - 1], src)
  {
    if |ws| == 1 {
      TransferableIsValid(ws[0].snd.cfg, src);
    } else {
      var pre := ws[..|ws| - 1];
      RunsAreSound(pre, src);
      var w := pre[|pre| - 1];
      assert Follows(w, ws[|ws| - 1], src);
      var a :| ws[|ws| - 1] == Next(w, a, src);
      NextKeeps(w, a, src);
    }
  }

  /** A receiver that turned the file down or had it already, and never opened it; or one whose file,
      as written or about to be written, is the source byte for byte, and closed. Once its file thread has
      caught up, that is what is on disk. */
  ghost predicate Settled(t: R.Task, src: seq<Byte>) {
    && Finished(t)
    && (t.file.stream.NotOpened? || R.Written(t) == Disk.File(Disk.Closed, src))
    && (t.jobs == [] ==> t.file.stream.NotOpened? || t.file == Disk.File(Disk.Closed, src))
  }

  /** End-to-end safety. In every run of a sender and any receivers, if the sender holds a receiver to
      be done, then that receiver is settled. */
  lemma {:induction false} DoneMeansDelivered(ws: seq<World>, src: seq<Byte>, id: nat)
    requires IsRun(ws, src)
    requires var t := ws[|ws| - 1].snd; id in t.standing && t.standing[id] == S.DoneWithFile
    ensures var w := ws[|ws| - 1]; id in w.rcv && Settled(w.rcv[id], src)
  {
    RunsAreSound(ws, src);
    var w := ws[|ws| - 1];
    assert HasCompleted(w.net, id);
    var t := w.rcv[id];
    if !t.file.stream.NotOpened? {
      assert Taking(t, w.snd.cfg, src);
      ReceiverFacts.CompleteIsSource(t, src);
    }
  }

  lemma RunGrows(ws: seq<World>, v: World, src: seq<Byte>)
    requires IsRun(ws, src) && Follows(ws[|ws| - 1], v, src)
    ensures IsRun(ws + [v], src)
  {
    var more := ws + [v];
    forall k | 0 < k < |more| ensures Follows(more[k - 1], more[k], src) {
      if k < |ws| {
        assert Follows(ws[k - 1], ws[k], src);
      }
    }
  }

  /** When the sender declares the file finished during the data phase, every receiver is settled, or was
      given up or aborted, or never answered the announcement: nobody is left waiting. */
  lemma {:induction false} FinishedMeansDelivered(ws: seq<World>, i: S.Input, src: seq<Byte>, id: nat)
    requires IsRun(ws, src) && Valid(ws[|ws| - 1].snd.cfg.geo) && ws[|ws| - 1].snd.cfg.geo.blockSize >= 4
    requires var w := ws[|ws| - 1];
             && w.snd.phase != S.Announcing && (i.MessageArrives? ==> i.m in w.net)
             && S.FileComplete in S.Step(w.snd, i).log[|w.snd.log|..]
             && id in w.snd.standing
    ensures var w := ws[|ws| - 1];
            var v := Next(w, SenderActs(i), src);
            id in v.snd.standing &&
            match v.snd.standing[id]
            case DoneWithFile => id in v.rcv && Settled(v.rcv[id], src)
            case Active => false
            case ActiveNak => false
            case _ => true
  {
    var w := ws[|ws| - 1];
    var v := Next(w, SenderActs(i), src);
    S.StepKeepsConfig(w.snd, i);
    SenderSafety.CompletesOnlyWhenRepaired(w.snd, i);
    if v.snd.standing[id] == S.DoneWithFile {
      assert Follows(w, v, src);
      RunGrows(ws, v, src);
      DoneMeansDelivered(ws + [v], src, id);
    }
  }
}
