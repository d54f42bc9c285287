/** A transfer over a network that happens to lose nothing: from every start, a run of the whole system
    leads to a receiver that has the file on disk and a sender that knows it. It shows that the runs
    that Protocol.dfy speaks of do reach the end. */
module Lossless {
  import opened Common
  import opened Geometry
  import opened Messages
  import opened Protocol
  import S = Sender
  import R = Receiver
  import ReceiverFacts
  import opened CountGuard
  import Disk
  import Wire
  import Addressing
  import opened Trail

  /** A stretch of a run: each world follows from the one before. */
  ghost predicate IsPath(ws: seq<World>, src: seq<Byte>) {
    |ws| > 0 && forall k :: 0 < k < |ws| ==> Follows(ws[k - 1], ws[k], src)
  }

  /** From w, steps of the system lead to v. */
  ghost predicate Leads(w: World, v: World, src: seq<Byte>) {
    exists ws: seq<World> :: IsPath(ws, src) && ws[0] == w && ws[|ws| - 1] == v
  }

  /** Some run leads to w, from a start at which no receiver has NAKs outstanding. */
  ghost predicate Reachable(w: World, src: seq<Byte>) {
    exists start: World :: Initial(start, src) && NobodyNaked(start.snd) && Leads(start, w, src)
  }

  /** Some run leads to o, and on from there to w. */
  ghost predicate Onward(o: World, w: World, src: seq<Byte>) {
    Reachable(o, src) && Leads(o, w, src)
  }

  lemma LeadsNowhere(w: World, src: seq<Byte>)
    ensures Leads(w, w, src)
  {
    assert IsPath([w], src);
  }

  lemma LeadsOn(u: World, w: World, v: World, src: seq<Byte>)
    requires Leads(u, w, src) && Follows(w, v, src)
    ensures Leads(u, v, src)
  {
    var ws: seq<World> :| IsPath(ws, src) && ws[0] == u && ws[|ws| - 1] == w;
    var more := ws + [v];
    forall k | 0 < k < |more| ensures Follows(more[k - 1], more[k], src) {
      if k < |ws| {
        assert Follows(ws[k - 1], ws[k], src);
      }
    }
    assert IsPath(more, src) && more[0] == u && more[|more| - 1] == v;
  }

  lemma LeadsThrough(u: World, w: World, v: World, src: seq<Byte>)
    requires Leads(u, w, src) && Leads(w, v, src)
    ensures Leads(u, v, src)
  {
    var ws: seq<World> :| IsPath(ws, src) && ws[0] == u && ws[|ws| - 1] == w;
    var vs: seq<World> :| IsPath(vs, src) && vs[0] == w && vs[|vs| - 1] == v;
    var all := ws + vs[1..];
    forall k | 0 < k < |all| ensures Follows(all[k - 1], all[k], src) {
      if k < |ws| {
        assert Follows(ws[k - 1], ws[k], src);
      } else {
        assert all[k] == vs[k - |ws| + 1] && all[k - 1] == vs[k - |ws|];
        assert Follows(vs[k - |ws|], vs[k - |ws| + 1], src);
      }
    }
    assert IsPath(all, src) && all[0] == u && all[|all| - 1] == v;
  }

  lemma OnwardIsReachable(o: World, w: World, src: seq<Byte>)
    requires Onward(o, w, src)
    ensures Reachable(w, src)
  {
    var start: World :| Initial(start, src) && NobodyNaked(start.snd) && Leads(start, o, src);
    LeadsThrough(start, o, w, src);
  }

  /** What holds in every run holds in every reachable world. */
  lemma ReachableEndsRun(w: World, src: seq<Byte>) returns (ws: seq<World>)
    requires Reachable(w, src)
    ensures IsRun(ws, src) && NobodyNaked(ws[0].snd) && ws[|ws| - 1] == w
  {
    var start: World :| Initial(start, src) && NobodyNaked(start.snd) && Leads(start, w, src);
    ws :| IsPath(ws, src) && ws[0] == start && ws[|ws| - 1] == w;
  }

  lemma ReachNext(o: World, w: World, a: Action, src: seq<Byte>)
    requires Onward(o, w, src) && Valid(w.snd.cfg.geo) && w.snd.cfg.geo.blockSize >= 4
    ensures Onward(o, Next(w, a, src), src)
  {
    assert Follows(w, Next(w, a, src), src);
    LeadsOn(o, w, Next(w, a, src), src);
  }

  /** The sender has one receiver, r, which has not heard of the file. */
  predicate Start(w: World, r: nat, src: seq<Byte>) {
    Initial(w, src) && w.snd.standing == map[r := S.Registered] && r in w.rcv
  }

  // ----- Announcing -----

  /** r has opened the file, and the sender has heard its acknowledgement. */
  ghost predicate Agreed(w: World, r: nat, src: seq<Byte>) {
    && Transferable(w.snd.cfg, src)
    && w.snd == S.Created(w.snd.cfg, map[r := S.Active])
    && r in w.rcv && Matches(w.rcv[r], r, w.snd.cfg) && Fresh(w.rcv[r], src) && w.rcv[r].file.stream == Disk.Opened
  }

  predicate Matches(t: R.Task, r: nat, cfg: S.Config) {
    t.self == r && t.geo == cfg.geo && t.fileId == cfg.fileId
  }

  lemma StartIsReachable(w: World, r: nat, src: seq<Byte>)
    requires Start(w, r, src)
    ensures Onward(w, w, src)
  {
    LeadsNowhere(w, src);
    assert Initial(w, src) && NobodyNaked(w.snd) && Leads(w, w, src);
  }

  lemma Announcing(w: World, r: nat, src: seq<Byte>) returns (v: World)
    requires Start(w, r, src)
    ensures Onward(w, v, src) && Agreed(v, r, src)
  {
    TransferableIsValid(w.snd.cfg, src);
    StartIsReachable(w, r, src);
    var m := SomeFileInfo(w, r, src);
    var u := Next(w, Announces(1), src);
    ReachNext(w, w, Announces(1), src);
    v := Agreeing(w, u, r, src, m);
  }

  /** The sender announces, and the network has this packet for r, which has yet to hear of the file. */
  predicate Offered(w: World, r: nat, src: seq<Byte>, m: Message) {
    && Transferable(w.snd.cfg, src) && Valid(w.snd.cfg.geo)
    && w.snd == S.Created(w.snd.cfg, map[r := S.Registered])
    && r in w.rcv && Untouched(w.rcv[r]) && w.rcv[r].self == r && w.rcv[r].blockSize == w.snd.cfg.geo.blockSize
    && m in w.net && m.FileInfo? && r in m.infoFor && m.infoId == w.snd.cfg.fileId
    && m.sizeHigh * 0x1_0000_0000 + m.sizeLow == |src|
  }

  /** What delivering a FILE_INFO to r makes of the world. */
  lemma DeliversInfo(w: World, r: nat, src: seq<Byte>, m: Message)
    requires Offered(w, r, src, m)
    ensures var v := Next(w, Delivers(m, r, R.Acceptable), src);
            && v.snd == w.snd && r in v.rcv && v.rcv[r] == R.OnFileInfo(w.rcv[r], m, R.Acceptable).0
            && FileInfoAck(r, w.snd.cfg.fileId, false) in v.net
  {
    Opens(w.rcv[r], m, r, w.snd.cfg, src);
  }

  lemma InfoArrives(o: World, w: World, r: nat, src: seq<Byte>, m: Message) returns (v: World)
    requires Onward(o, w, src) && Offered(w, r, src, m)
    ensures Onward(o, v, src) && v.snd == w.snd && FileInfoAck(r, w.snd.cfg.fileId, false) in v.net
    ensures r in v.rcv && Matches(v.rcv[r], r, w.snd.cfg) && Fresh(v.rcv[r], src)
    ensures v.rcv[r].file.stream == Disk.Opened
  {
    DeliversInfo(w, r, src, m);
    Opens(w.rcv[r], m, r, w.snd.cfg, src);
    v := Next(w, Delivers(m, r, R.Acceptable), src);
    ReachNext(o, w, Delivers(m, r, R.Acceptable), src);
  }

  lemma HearsAck(t: S.Task, r: nat)
    requires t == S.Created(t.cfg, map[r := S.Registered])
    ensures S.Step(t, S.MessageArrives(FileInfoAck(r, t.cfg.fileId, false))) == S.Created(t.cfg, map[r := S.Active])
  {
    assert map[r := S.Registered][r := S.Active] == map[r := S.Active];
  }

  lemma AckArrives(o: World, w: World, r: nat, src: seq<Byte>) returns (v: World)
    requires Onward(o, w, src) && Transferable(w.snd.cfg, src) && Valid(w.snd.cfg.geo)
    requires w.snd == S.Created(w.snd.cfg, map[r := S.Registered])
    requires FileInfoAck(r, w.snd.cfg.fileId, false) in w.net
    ensures Onward(o, v, src) && v.snd == S.Created(w.snd.cfg, map[r := S.Active]) && v.rcv == w.rcv
  {
    HearsAck(w.snd, r);
    var ack := SenderActs(S.MessageArrives(FileInfoAck(r, w.snd.cfg.fileId, false)));
    v := Next(w, ack, src);
    ReachNext(o, w, ack, src);
  }

  lemma Agreeing(o: World, w: World, r: nat, src: seq<Byte>, m: Message) returns (v: World)
    requires Onward(o, w, src) && Offered(w, r, src, m)
    ensures Onward(o, v, src) && Agreed(v, r, src)
  {
    var u := InfoArrives(o, w, r, src, m);
    v := AckArrives(o, u, r, src);
  }

  lemma SomeFileInfo(w: World, r: nat, src: seq<Byte>) returns (m: Message)
    requires Start(w, r, src) && w.snd.cfg.geo.fileSize == |src|
    ensures m in FileInfoPackets(w.snd, 1) && m.FileInfo? && r in m.infoFor
    ensures m.infoId == w.snd.cfg.fileId && m.sizeHigh * 0x1_0000_0000 + m.sizeLow == |src|
  {
    Addressing.FileInfoReachesIff(w.snd, 1, r);
    m :| m in FileInfoPackets(w.snd, 1) && m.FileInfo? && r in m.infoFor;
    Wire.SizeDecodesModulo(|src|);
  }

  lemma Opens(t: R.Task, m: Message, r: nat, cfg: S.Config, src: seq<Byte>)
    requires Transferable(cfg, src) && Untouched(t) && t.self == r && t.blockSize == cfg.geo.blockSize
    requires m.FileInfo? && r in m.infoFor && m.infoId == cfg.fileId
    requires m.sizeHigh * 0x1_0000_0000 + m.sizeLow == |src|
    ensures var (u, sent) := R.OnFileInfo(t, m, R.Acceptable);
            && Matches(u, r, cfg) && Fresh(u, src) && u.file.stream == Disk.Opened
            && sent == [FileInfoAck(r, cfg.fileId, false)]
  {
    ReceiverFacts.AcceptStarts(t, m, src);
  }

  // ----- The blocks -----

  /** The sender has put the first k blocks through. */
  predicate PutThrough(t: S.Task, r: nat, src: seq<Byte>, k: nat) {
    && Transferable(t.cfg, src) && Valid(t.cfg.geo) && k <= t.cfg.geo.blockCount
    && t.phase == S.Sending && !t.fault && t.standing == map[r := S.Active]
    && t.blockedMsg.None? && t.blockedTask.None? && t.donePosted == 0
    && t.next == k && (t.eof <==> k == t.cfg.geo.blockCount)
    && t.thread == (if k == 0 then S.Entering else S.Handed(false, k - 1, true))
  }

  /** The receiver has got them. */
  ghost predicate GotBlocks(t: R.Task, r: nat, cfg: S.Config, src: seq<Byte>, first: R.Task, segs: seq<Message>) {
    && Fresh(first, src) && Matches(first, r, cfg) && first.file.stream == Disk.Opened
    && Deliveries(segs, first, src) && t == DeliverAll(first, segs)
    && |segs| <= cfg.geo.blockCount
    && (forall j :: 0 <= j < |segs| ==> segs[j].FileSeg? && (segs[j].sect, segs[j].blk) == SectBlk(cfg.geo, j))
  }

  /** The first k blocks have been sent and delivered. */
  ghost predicate ServedUpTo(w: World, r: nat, src: seq<Byte>, first: R.Task, segs: seq<Message>, k: nat) {
    PutThrough(w.snd, r, src, k) && |segs| == k && r in w.rcv && GotBlocks(w.rcv[r], r, w.snd.cfg, src, first, segs)
  }

  lemma Beginning(o: World, w: World, r: nat, src: seq<Byte>) returns (v: World)
    requires Onward(o, w, src) && Agreed(w, r, src)
    ensures Onward(o, v, src) && ServedUpTo(v, r, src, w.rcv[r], [], 0)
  {
    TransferableIsValid(w.snd.cfg, src);
    CeilDivBounds(|src|, w.snd.cfg.geo.blockSize);
    assert w.snd.standing[r] == S.Active;
    var u := Next(w, SenderActs(S.AnnounceRoundEnds), src);
    ReachNext(o, w, SenderActs(S.AnnounceRoundEnds), src);
    AllAnswered(w.snd, r);
    v := Next(u, SenderActs(S.FileThreadStarts), src);
    ReachNext(o, u, SenderActs(S.FileThreadStarts), src);
  }

  lemma AllAnswered(t: S.Task, r: nat)
    requires t == S.Created(t.cfg, map[r := S.Active]) && t.cfg.geo.fileSize > 0
    ensures S.AnnounceRound(t) == t.(phase := S.Sending, posted := 1)
  {
    assert r in t.standing && t.standing[r] == S.Active;
  }

  /** The file thread's two steps for the block after the first k. */
  lemma BlockSent(t: S.Task, k: nat)
    requires !t.fault && t.phase == S.Sending && !t.eof && t.next == k
    requires t.thread == S.Entering || (t.thread.Handed? && !t.thread.lost && t.thread.accepted)
    ensures var picked := S.Step(t, S.FileThreadLocks);
            && picked == t.(next := k + 1, eof := k + 1 >= t.cfg.geo.blockCount, thread := S.InFlight(false, k))
            && S.Step(picked, S.FileThreadSends(true))
               == picked.(thread := S.Handed(false, k, true), log := t.log + [S.Sent(k)])
  {
  }

  lemma SendingOne(o: World, w: World, r: nat, k: nat, src: seq<Byte>) returns (v: World)
    requires Onward(o, w, src) && PutThrough(w.snd, r, src, k) && k < w.snd.cfg.geo.blockCount
    ensures Onward(o, v, src) && v.rcv == w.rcv && SegOf(w.snd.cfg, src, k) in v.net
    ensures v.snd.cfg == w.snd.cfg && PutThrough(v.snd, r, src, k + 1)
  {
    BlockSent(w.snd, k);
    var u := Next(w, SenderActs(S.FileThreadLocks), src);
    ReachNext(o, w, SenderActs(S.FileThreadLocks), src);
    v := Next(u, SenderActs(S.FileThreadSends(true)), src);
    ReachNext(o, u, SenderActs(S.FileThreadSends(true)), src);
  }

  lemma {:induction false} Gets(t: R.Task, r: nat, cfg: S.Config, src: seq<Byte>, first: R.Task, segs: seq<Message>)
    requires Transferable(cfg, src) && |segs| < cfg.geo.blockCount && Valid(cfg.geo)
    requires GotBlocks(t, r, cfg, src, first, segs)
    ensures var m := SegOf(cfg, src, |segs|); GotBlocks(R.OnDataBlock(t, m), r, cfg, src, first, segs + [m])
  {
    SegIsGood(cfg, src, |segs|);
    OneMoreSeg(first, segs, SegOf(cfg, src, |segs|), src);
  }

  lemma {:induction false} Arrives(o: World, w: World, r: nat, src: seq<Byte>, first: R.Task, segs: seq<Message>)
    returns (v: World)
    requires Onward(o, w, src) && PutThrough(w.snd, r, src, |segs| + 1) && SegOf(w.snd.cfg, src, |segs|) in w.net
    requires r in w.rcv && GotBlocks(w.rcv[r], r, w.snd.cfg, src, first, segs)
    ensures Onward(o, v, src) && v.snd == w.snd && r in v.rcv
    ensures GotBlocks(v.rcv[r], r, w.snd.cfg, src, first, segs + [SegOf(w.snd.cfg, src, |segs|)])
  {
    Gets(w.rcv[r], r, w.snd.cfg, src, first, segs);
    v := SegArrives(o, w, r, src, SegOf(w.snd.cfg, src, |segs|));
  }

  /** A FILE_SEG that is on the network is delivered. */
  lemma SegArrives(o: World, w: World, r: nat, src: seq<Byte>, m: Message) returns (v: World)
    requires Onward(o, w, src) && Valid(w.snd.cfg.geo) && w.snd.cfg.geo.blockSize >= 4
    requires m in w.net && m.FileSeg? && r in w.rcv
    ensures v == Next(w, Delivers(m, r, R.Acceptable), src) && Onward(o, v, src)
    ensures v.snd == w.snd && v.net == w.net && v.rcv == w.rcv[r := R.OnDataBlock(w.rcv[r], m)]
  {
    v := Next(w, Delivers(m, r, R.Acceptable), src);
    ReachNext(o, w, Delivers(m, r, R.Acceptable), src);
    assert w.net + (set s | s in []) == w.net;
  }

  /** One block goes over. */
  lemma {:induction false} OneBlock(
    o: World, w: World, r: nat, src: seq<Byte>, first: R.Task, segs: seq<Message>, k: nat)
    returns (v: World, m: Message)
    requires Onward(o, w, src) && ServedUpTo(w, r, src, first, segs, k) && k < w.snd.cfg.geo.blockCount
    ensures Onward(o, v, src) && v.snd.cfg == w.snd.cfg && ServedUpTo(v, r, src, first, segs + [m], k + 1)
  {
    var u := SendingOne(o, w, r, k, src);
    m := SegOf(w.snd.cfg, src, k);
    v := Arrives(o, u, r, src, first, segs);
  }

  lemma {:induction false} OneMoreSeg(first: R.Task, segs: seq<Message>, m: Message, src: seq<Byte>)
    requires Deliveries(segs, first, src) && m.FileSeg? && m.segId == first.fileId && R.GoodBlock(m, src, first.geo)
    ensures Deliveries(segs + [m], first, src)
    ensures DeliverAll(first, segs + [m]) == R.OnDataBlock(DeliverAll(first, segs), m)
  {
    assert (segs + [m])[..|segs|] == segs;
  }

  lemma {:induction false} AllBlocks(
    o: World, w: World, r: nat, src: seq<Byte>, first: R.Task, segs: seq<Message>, k: nat)
    returns (v: World, all: seq<Message>)
    requires Onward(o, w, src) && ServedUpTo(w, r, src, first, segs, k)
    ensures Onward(o, v, src) && v.snd.cfg == w.snd.cfg && ServedUpTo(v, r, src, first, all, w.snd.cfg.geo.blockCount)
    decreases w.snd.cfg.geo.blockCount - k
  {
    if k == w.snd.cfg.geo.blockCount {
      v, all := w, segs;
    } else {
      var u, m := OneBlock(o, w, r, src, first, segs, k);
      v, all := AllBlocks(o, u, r, src, first, segs + [m], k + 1);
    }
  }

  lemma {:induction false} ManyDeliveries(ms: seq<Message>, s: nat)
    ensures DeliveriesTo(ms, s) <= |ms|
  {
    if ms != [] {
      ManyDeliveries(ms[..|ms| - 1], s);
    }
  }

  /** Then every section is complete. */
  lemma {:induction false} AllComplete(w: World, r: nat, src: seq<Byte>, first: R.Task, segs: seq<Message>)
    requires ServedUpTo(w, r, src, first, segs, w.snd.cfg.geo.blockCount)
    ensures var t := w.rcv[r];
            && R.AllSet(t.completed) && !t.fault && Matches(t, r, w.snd.cfg) && R.Receiving(t, src)
            && t.phase == R.ReceivingBlobs && t.file.stream == Disk.Opened
  {
    var t := w.rcv[r];
    BookkeepingIsExact(first, segs, src);
    CeilDivBounds(|src|, first.geo.blockSize);
    forall s | 0 <= s < |t.completed| ensures t.completed[s] {
      ManyDeliveries(segs, s);
      EveryBlockOf(w.snd.cfg.geo, segs, s);
      BlocksBelowSize(|src|, first.geo.blockSize);
      GuardNeverHides(first, segs, src, s);
    }
  }

  lemma BlocksBelowSize(size: nat, blockSize: nat)
    requires 0 < blockSize
    ensures CeilDiv(size, blockSize) <= size
  {
    CeilDivBounds(size, blockSize);
    MulMono(size + 1, CeilDiv(size, blockSize), blockSize);
    assert (size + 1) * blockSize == blockSize * size + blockSize;
    MulMono(1, blockSize, size);
  }

  lemma {:induction false} EveryBlockOf(g: Geo, segs: seq<Message>, s: nat)
    requires Valid(g) && |segs| == g.blockCount && s < g.sectionCount
    requires forall j :: 0 <= j < |segs| ==> segs[j].FileSeg? && (segs[j].sect, segs[j].blk) == SectBlk(g, j)
    ensures AllDelivered(segs, g, s)
  {
    forall b | 0 <= b < SectionSize(g, s) ensures Delivered(segs, s, b) {
      PairRoundTrip(g, s, b);
      var m := segs[AbsBlk(g, s, b)];
      assert m in segs && m.sect == s && m.blk == b;
    }
  }

  // ----- DONE and COMPLETE -----

  /** The pass is over, and a DONE that names r is on the network. */
  ghost predicate Asked(w: World, r: nat, src: seq<Byte>, m: Message) {
    && Transferable(w.snd.cfg, src) && Valid(w.snd.cfg.geo)
    && w.snd.phase == S.WaitingClientStatus && !w.snd.fault && w.snd.standing == map[r := S.Active]
    && m in w.net && m.Done? && r in m.doneFor && m.doneId == w.snd.cfg.fileId
  }

  /** The pass is over, and do_send_done is posted. */
  predicate AboutToAsk(t: S.Task, r: nat, src: seq<Byte>) {
    && Transferable(t.cfg, src) && Valid(t.cfg.geo)
    && t.phase == S.WaitingClientStatus && !t.fault && t.standing == map[r := S.Active] && t.donePosted == 1
  }

  lemma PassEnds(t: S.Task, r: nat, src: seq<Byte>)
    requires PutThrough(t, r, src, t.cfg.geo.blockCount) && t.thread.Handed?
    ensures AboutToAsk(S.Step(t, S.FileThreadLocks), r, src) && S.Step(t, S.FileThreadLocks).cfg == t.cfg
  {
  }

  lemma Asks(t: S.Task, r: nat, src: seq<Byte>) returns (m: Message)
    requires AboutToAsk(t, r, src)
    ensures var u := S.Step(t, S.PostedDoneRuns(true));
            u.cfg == t.cfg && u.phase == t.phase && !u.fault && u.standing == t.standing
    ensures m in Emitted(t, S.PostedDoneRuns(true), src) && m.Done? && r in m.doneFor && m.doneId == t.cfg.fileId
  {
    m := SomeDone(t, r);
    assert S.SendsDone(t, S.PostedDoneRuns(true));
  }

  lemma EndingPass(o: World, w: World, r: nat, src: seq<Byte>) returns (v: World)
    requires Onward(o, w, src) && PutThrough(w.snd, r, src, w.snd.cfg.geo.blockCount) && w.snd.thread.Handed?
    ensures Onward(o, v, src) && AboutToAsk(v.snd, r, src) && v.rcv == w.rcv && v.snd.cfg == w.snd.cfg
  {
    PassEnds(w.snd, r, src);
    v := Next(w, SenderActs(S.FileThreadLocks), src);
    ReachNext(o, w, SenderActs(S.FileThreadLocks), src);
  }

  lemma Asking(o: World, w: World, r: nat, src: seq<Byte>) returns (v: World, m: Message)
    requires Onward(o, w, src) && AboutToAsk(w.snd, r, src)
    ensures Onward(o, v, src) && Asked(v, r, src, m) && v.rcv == w.rcv && v.snd.cfg == w.snd.cfg
  {
    m := Asks(w.snd, r, src);
    v := Next(w, SenderActs(S.PostedDoneRuns(true)), src);
    ReachNext(o, w, SenderActs(S.PostedDoneRuns(true)), src);
  }

  lemma {:induction false} Finishing(o: World, w: World, r: nat, src: seq<Byte>, first: R.Task, segs: seq<Message>)
    returns (v: World)
    requires Onward(o, w, src) && ServedUpTo(w, r, src, first, segs, w.snd.cfg.geo.blockCount)
    ensures Onward(o, v, src) && v.snd.standing == map[r := S.DoneWithFile]
    ensures r in v.rcv && !v.rcv[r].file.stream.NotOpened? && v.snd.cfg == w.snd.cfg && S.FileComplete in v.snd.log
  {
    AllComplete(w, r, src, first, segs);
    TransferableIsValid(w.snd.cfg, src);
    CeilDivBounds(|src|, w.snd.cfg.geo.blockSize);
    var e := EndingPass(o, w, r, src);
    var u, m := Asking(o, e, r, src);
    v := Answering(o, u, r, src, m);
  }

  lemma Hears(t: S.Task, r: nat)
    requires t.phase == S.WaitingClientStatus && !t.fault && t.standing == map[r := S.Active]
    ensures var u := S.Step(t, S.MessageArrives(Complete(r, t.cfg.fileId, NORMAL)));
            u.standing == map[r := S.DoneWithFile] && u.cfg == t.cfg && u.log == t.log + [S.FileComplete]
  {
    assert map[r := S.Active][r := S.DoneWithFile] == map[r := S.DoneWithFile];
  }

  lemma Answering(o: World, w: World, r: nat, src: seq<Byte>, m: Message) returns (v: World)
    requires Onward(o, w, src) && Asked(w, r, src, m)
    requires r in w.rcv && !w.rcv[r].fault && Matches(w.rcv[r], r, w.snd.cfg) && R.AllSet(w.rcv[r].completed)
    ensures Onward(o, v, src) && v.snd.standing == map[r := S.DoneWithFile] && v.snd.cfg == w.snd.cfg
    ensures S.FileComplete in v.snd.log
    ensures r in v.rcv && v.rcv[r].file == w.rcv[r].file
  {
    Answers(w.rcv[r], m, r, src, w.snd.cfg);
    var u := Next(w, Delivers(m, r, R.Acceptable), src);
    ReachNext(o, w, Delivers(m, r, R.Acceptable), src);
    var c := Complete(r, w.snd.cfg.fileId, NORMAL);
    assert c in u.net;
    v := Next(u, SenderActs(S.MessageArrives(c)), src);
    ReachNext(o, u, SenderActs(S.MessageArrives(c)), src);
    Hears(w.snd, r);
  }

  lemma SomeDone(t: S.Task, r: nat) returns (m: Message)
    requires t.cfg.geo.blockSize >= 4 && t.standing == map[r := S.Active]
    ensures m in S.DonePackets(t) && m.Done? && r in m.doneFor && m.doneId == t.cfg.fileId
  {
    Addressing.DoneReachesIff(t, r);
    assert t.standing[r] == S.Active;
    var k :| 0 <= k < |S.DonePackets(t)| && S.DonePackets(t)[k].Done? && r in S.DonePackets(t)[k].doneFor;
    Addressing.DonePacketFits(t, k);
    m := S.DonePackets(t)[k];
  }

  lemma Answers(t: R.Task, m: Message, r: nat, src: seq<Byte>, cfg: S.Config)
    requires !t.fault && Matches(t, r, cfg) && R.AllSet(t.completed) && cfg.fileId != 0
    requires m.Done? && r in m.doneFor && m.doneId == cfg.fileId
    ensures R.OnDone(t, m).1 == [Complete(r, cfg.fileId, NORMAL)]
    ensures R.OnDone(t, m).0.file == t.file
  {
  }

  // ----- The file thread catches up -----

  lemma {:induction false} CatchUp(o: World, w: World, r: nat, src: seq<Byte>) returns (v: World)
    requires Onward(o, w, src) && r in w.rcv && Valid(w.snd.cfg.geo) && w.snd.cfg.geo.blockSize >= 4
    ensures Onward(o, v, src) && v.snd == w.snd && r in v.rcv && v.rcv[r].jobs == []
    ensures w.rcv[r].file.stream.NotOpened? || !v.rcv[r].file.stream.NotOpened?
    decreases |w.rcv[r].jobs|
  {
    if w.rcv[r].jobs == [] {
      v := w;
    } else {
      var u := Next(w, FileThreadOf(r), src);
      ReachNext(o, w, FileThreadOf(r), src);
      v := CatchUp(o, u, r, src);
    }
  }

  /** From every start with one receiver a run leads to a world in which the sender holds the receiver to be
      done and the file to be complete, the receiver's file thread has nothing left to do, and the source
      is on its disk. */
  lemma {:induction false} TransferSucceeds(w: World, r: nat, src: seq<Byte>) returns (v: World)
    requires Start(w, r, src)
    ensures Leads(w, v, src)
    ensures v.snd.standing == map[r := S.DoneWithFile] && S.FileComplete in v.snd.log
    ensures r in v.rcv && v.rcv[r].jobs == [] && v.rcv[r].file == Disk.File(Disk.Closed, src)
  {
    var a := Announcing(w, r, src);
    var b := Beginning(w, a, r, src);
    var c, segs := AllBlocks(w, b, r, src, a.rcv[r], [], 0);
    var d := Finishing(w, c, r, src, a.rcv[r], segs);
    v := CatchUp(w, d, r, src);
    OnwardIsReachable(w, v, src);
    var ws := ReachableEndsRun(v, src);
    assert v.snd.standing[r] == S.DoneWithFile;
    DoneMeansDelivered(ws, src, r);
  }
}
