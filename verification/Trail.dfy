/** What every run of the whole system leaves on the network: the packets that the sender's and the
    receivers' states go back to. */
module Trail {
  import opened Common
  import opened Geometry
  import opened Messages
  import opened Protocol
  import S = Sender
  import SS = SenderSafety
  import R = Receiver
  import ReceiverFacts
  import Addressing

  /** A DONE that names id has been sent. */
  predicate Named(net: set<Message>, id: nat) {
    exists d :: d in net && d.Done? && id in d.doneFor
  }

  /** Every block logged as sent is on the network. */
  ghost predicate SentIsOut(w: World, src: seq<Byte>)
    requires Valid(w.snd.cfg.geo)
  {
    forall b :: S.Sent(b) in w.snd.log ==> SegOf(w.snd.cfg, src, b) in w.net
  }

  /** Every block that has arrived anywhere is on the network. */
  ghost predicate ArrivedIsOut(w: World, src: seq<Byte>)
    requires Valid(w.snd.cfg.geo)
  {
    forall id, s, b :: id in w.rcv && R.IsBlock(w.snd.cfg.geo, s, b) && R.Arrived(w.rcv[id], s, b)
      ==> SegOf(w.snd.cfg, src, AbsBlk(w.snd.cfg.geo, s, b)) in w.net
  }

  /** A STATUS is an answer to a DONE. */
  ghost predicate StatusIsAnswer(net: set<Message>) {
    forall m :: m in net && m.Status? ==> Named(net, m.statusFrom)
  }

  /** The sender waits for answers to a DONE, or will. */
  predicate Waits(t: S.Task) {
    t.timers > 0 || t.blockedTask == Some(S.StartWaiting)
  }

  /** Whoever has NAKs outstanding was asked, and so was everybody active if the sender waits. */
  ghost predicate AllAsked(t: S.Task, net: set<Message>) {
    forall id :: id in t.standing && (t.standing[id] == S.ActiveNak || (t.standing[id] == S.Active && Waits(t)))
      ==> Named(net, id)
  }

  ghost predicate Documented(w: World, src: seq<Byte>) {
    && Valid(w.snd.cfg.geo) && SS.Coherent(w.snd)
    && SentIsOut(w, src) && ArrivedIsOut(w, src) && StatusIsAnswer(w.net) && AllAsked(w.snd, w.net)
  }

  lemma NamedStays(net: set<Message>, more: set<Message>, id: nat)
    requires Named(net, id)
    ensures Named(net + more, id)
  {
    var d :| d in net && d.Done? && id in d.doneFor;
    assert d in net + more;
  }

  /** Nothing is taken back when packets are added that are no answers. */
  lemma NetGrows(w: World, more: set<Message>, src: seq<Byte>)
    requires Documented(w, src) && forall m :: m in more ==> !m.Status?
    ensures Documented(w.(net := w.net + more), src)
  {
    var v := w.(net := w.net + more);
    forall m | m in v.net && m.Status? ensures Named(v.net, m.statusFrom) {
      NamedStays(w.net, more, m.statusFrom);
    }
    forall id | id in v.snd.standing
                && (v.snd.standing[id] == S.ActiveNak || (v.snd.standing[id] == S.Active && Waits(v.snd)))
      ensures Named(v.net, id)
    {
      NamedStays(w.net, more, id);
    }
  }

  // ----- The sender -----

  lemma WaitSendsNoBlock(t: S.Task, taken: bool)
    ensures var u := S.WaitEnds(t, taken);
            u.log == t.log || u.log == t.log + [S.FileComplete] || u.log == t.log + [S.FileError]
  {
  }

  lemma LockSendsNothing(t: S.Task)
    ensures S.TakeLock(t).log == t.log
  {
  }

  lemma MessageSendsNoBlock(t: S.Task, m: Message, b: nat)
    requires S.Sent(b) in S.Step(t, S.MessageArrives(m)).log
    ensures S.Sent(b) in t.log
  {
  }

  lemma NewlySent(t: S.Task, i: S.Input, src: seq<Byte>, b: nat)
    requires Valid(t.cfg.geo) && t.cfg.geo.blockSize >= 4
    requires S.Sent(b) in S.Step(t, i).log
    ensures S.Sent(b) in t.log || SegOf(t.cfg, src, b) in Emitted(t, i, src)
  {
    match i
    case FileThreadLocks => LockSendsNothing(t);
    case WaitTimerFires(taken) => WaitSendsNoBlock(t, taken);
    case MessageArrives(m) => MessageSendsNoBlock(t, m, b);
    case _ =>
  }

  lemma WaitMakesNoNak(t: S.Task, taken: bool, id: nat)
    requires id in S.WaitEnds(t, taken).standing && S.WaitEnds(t, taken).standing[id] == S.ActiveNak
    ensures id in t.standing && t.standing[id] == S.ActiveNak
  {
  }

  /** A receiver gets NAKs outstanding only by a STATUS of its own. */
  lemma NewlyNaked(t: S.Task, i: S.Input, id: nat)
    requires id in S.Step(t, i).standing && S.Step(t, i).standing[id] == S.ActiveNak
    ensures (id in t.standing && t.standing[id] == S.ActiveNak)
            || (i.MessageArrives? && i.m.Status? && i.m.statusFrom == id)
  {
    match i
    case FileThreadLocks => S.LockKeepsConfig(t);
    case WaitTimerFires(taken) => WaitMakesNoNak(t, taken, id);
    case _ =>
  }

  lemma LockKeepsWaits(t: S.Task)
    requires SS.Coherent(t) && Waits(S.TakeLock(t))
    ensures Waits(t) && t.phase != S.Announcing
  {
  }

  lemma WaitKeepsWaits(t: S.Task, taken: bool)
    requires Waits(S.WaitEnds(t, taken))
    ensures Waits(t)
  {
  }

  lemma MessageKeepsWaits(t: S.Task, m: Message)
    requires Waits(S.Step(t, S.MessageArrives(m)))
    ensures Waits(t)
  {
  }

  /** The sender begins to wait only by sending DONE. */
  lemma NewlyWaits(t: S.Task, i: S.Input)
    requires SS.Coherent(t) && Waits(S.Step(t, i))
    ensures Waits(t) || (i.PostedDoneRuns? && S.SendsDone(t, i) && S.Step(t, i).standing == t.standing)
    ensures t.phase != S.Announcing
  {
    match i
    case FileThreadLocks => LockKeepsWaits(t);
    case WaitTimerFires(taken) =>
      if !t.fault {
        WaitKeepsWaits(t, taken);
      }
    case MessageArrives(m) => MessageKeepsWaits(t, m);
    case _ =>
  }

  /** The DONE packets name everybody who is active or has NAKs outstanding. */
  lemma DoneIsOut(t: S.Task, i: S.Input, src: seq<Byte>, net: set<Message>, id: nat)
    requires Valid(t.cfg.geo) && t.cfg.geo.blockSize >= 4 && S.SendsDone(t, i)
    requires id in t.standing && (t.standing[id] == S.Active || t.standing[id] == S.ActiveNak)
    ensures Named(net + Emitted(t, i, src), id)
  {
    Addressing.DoneReachesIff(t, id);
    var packets := S.DonePackets(t);
    var k :| 0 <= k < |packets| && packets[k].Done? && id in packets[k].doneFor;
    assert packets[k] in Emitted(t, i, src);
  }

  lemma SenderIsAsked(w: World, i: S.Input, src: seq<Byte>, id: nat)
    requires Documented(w, src) && w.snd.cfg.geo.blockSize >= 4 && (i.MessageArrives? ==> i.m in w.net)
    requires var u := S.Step(w.snd, i);
             id in u.standing && (u.standing[id] == S.ActiveNak || (u.standing[id] == S.Active && Waits(u)))
    ensures Named(w.net + Emitted(w.snd, i, src), id)
  {
    var u := S.Step(w.snd, i);
    if u.standing[id] == S.ActiveNak {
      NewlyNaked(w.snd, i, id);
      NamedStays(w.net, Emitted(w.snd, i, src), id);
    } else {
      NewlyWaits(w.snd, i);
      SS.NoneBecomesActive(w.snd, i);
      if Waits(w.snd) {
        NamedStays(w.net, Emitted(w.snd, i, src), id);
      } else {
        DoneIsOut(w.snd, i, src, w.net, id);
      }
    }
  }

  lemma EmittedNoStatus(t: S.Task, i: S.Input, src: seq<Byte>)
    requires Valid(t.cfg.geo) && t.cfg.geo.blockSize >= 4
    ensures forall m :: m in Emitted(t, i, src) ==> !m.Status?
  {
    if !t.fault && S.SendsDone(t, i) {
      DonePacketsTruthful(t, src);
    }
  }

  lemma SenderDocuments(w: World, i: S.Input, src: seq<Byte>)
    requires Documented(w, src) && w.snd.cfg.geo.blockSize >= 4 && (i.MessageArrives? ==> i.m in w.net)
    ensures Documented(w.(snd := S.Step(w.snd, i), net := w.net + Emitted(w.snd, i, src)), src)
  {
    var more := Emitted(w.snd, i, src);
    EmittedNoStatus(w.snd, i, src);
    NetGrows(w, more, src);
    S.StepKeepsConfig(w.snd, i);
    SS.StepKeepsCoherent(w.snd, i);
    var u := S.Step(w.snd, i);
    forall b | S.Sent(b) in u.log ensures SegOf(u.cfg, src, b) in w.net + more {
      NewlySent(w.snd, i, src, b);
    }
    forall id | id in u.standing && (u.standing[id] == S.ActiveNak || (u.standing[id] == S.Active && Waits(u)))
      ensures Named(w.net + more, id)
    {
      SenderIsAsked(w, i, src, id);
    }
  }

  // ----- A receiver -----

  /** A block arrives only with its FILE_SEG. */
  lemma NewlyArrived(t: R.Task, m: Message, cfg: S.Config, src: seq<Byte>, s: nat, b: nat)
    requires Transferable(cfg, src) && Sound(t, cfg, src) && m.FileSeg? && Truthful(m, cfg, src)
    requires R.IsBlock(cfg.geo, s, b) && R.Arrived(R.OnDataBlock(t, m), s, b)
    ensures R.Arrived(t, s, b) || (s == m.sect && b == m.blk)
  {
    var u := R.OnDataBlock(t, m);
    if u.records != t.records && s == m.sect && !u.fault {
      assert u.records[s].missing == R.RecordFor(t, s).missing[m.blk := false];
    }
  }

  /** A good FILE_SEG is the one that the sender makes of its block. */
  lemma GoodIsSent(m: Message, cfg: S.Config, src: seq<Byte>)
    requires Transferable(cfg, src) && m.FileSeg? && Truthful(m, cfg, src) && Valid(cfg.geo)
    ensures m == SegOf(cfg, src, AbsBlk(cfg.geo, m.sect, m.blk))
  {
    PairRoundTrip(cfg.geo, m.sect, m.blk);
    SegIsGood(cfg, src, AbsBlk(cfg.geo, m.sect, m.blk));
  }

  lemma StatusBringsNothing(t: R.Task, sect: nat, s: nat, b: nat)
    ensures R.Arrived(R.ReportStatus(t, sect).0, s, b) ==> R.Arrived(t, s, b)
  {
  }

  /** Reporting makes no block arrive. */
  lemma {:induction false} ReportBringsNothing(t: R.Task, sect: nat, last: nat, s: nat, b: nat)
    requires R.Arrived(R.ReportFrom(t, sect, last).0, s, b)
    ensures R.Arrived(t, s, b)
    decreases last + 1 - sect
  {
    if !t.fault && sect <= last && sect < |t.completed| {
      if t.completed[sect] {
        ReportBringsNothing(t, sect + 1, last, s, b);
      } else {
        ReportBringsNothing(R.ReportStatus(t, sect).0, sect + 1, last, s, b);
        StatusBringsNothing(t, sect, s, b);
      }
    }
  }

  /** What a reply may contain: STATUS packets only of a receiver that was asked. */
  ghost predicate Accountable(w: World, to: nat, u: R.Task, sent: seq<Message>, src: seq<Byte>)
    requires Valid(w.snd.cfg.geo)
  {
    && (forall m :: m in sent && m.Status? ==> Named(w.net, m.statusFrom))
    && (forall s, b :: R.IsBlock(w.snd.cfg.geo, s, b) && R.Arrived(u, s, b)
          ==> SegOf(w.snd.cfg, src, AbsBlk(w.snd.cfg.geo, s, b)) in w.net)
  }

  lemma ReplyDocuments(w: World, to: nat, u: R.Task, sent: seq<Message>, src: seq<Byte>)
    requires Documented(w, src) && to in w.rcv && Accountable(w, to, u, sent, src)
    ensures Documented(w.(rcv := w.rcv[to := u], net := w.net + set s | s in sent), src)
  {
    var more := set s | s in sent;
    var v := w.(rcv := w.rcv[to := u], net := w.net + more);
    forall m | m in v.net && m.Status? ensures Named(v.net, m.statusFrom) {
      NamedStays(w.net, more, m.statusFrom);
    }
    forall id | id in v.snd.standing
                && (v.snd.standing[id] == S.ActiveNak || (v.snd.standing[id] == S.Active && Waits(v.snd)))
      ensures Named(v.net, id)
    {
      NamedStays(w.net, more, id);
    }
  }

  lemma SegAccountable(w: World, m: Message, to: nat, src: seq<Byte>)
    requires Documented(w, src) && Inv(w, src) && m in w.net && to in w.rcv && m.FileSeg?
    ensures Accountable(w, to, R.OnDataBlock(w.rcv[to], m), [], src)
  {
    var u := R.OnDataBlock(w.rcv[to], m);
    GoodIsSent(m, w.snd.cfg, src);
    forall s, b | R.IsBlock(w.snd.cfg.geo, s, b) && R.Arrived(u, s, b)
      ensures SegOf(w.snd.cfg, src, AbsBlk(w.snd.cfg.geo, s, b)) in w.net
    {
      NewlyArrived(w.rcv[to], m, w.snd.cfg, src, s, b);
    }
  }

  lemma DoneAccountable(w: World, m: Message, to: nat, src: seq<Byte>)
    requires Documented(w, src) && Inv(w, src) && m in w.net && to in w.rcv && m.Done?
    ensures var (u, sent) := R.OnDone(w.rcv[to], m); Accountable(w, to, u, sent, src)
  {
    var t := w.rcv[to];
    var (u, sent) := R.OnDone(t, m);
    if t.self in m.doneFor {
      assert Named(w.net, t.self);
      ReceiverFacts.ReportsAreStatus(t, 0, m.lastSect);
    }
    forall s, b | R.IsBlock(w.snd.cfg.geo, s, b) && R.Arrived(u, s, b)
      ensures SegOf(w.snd.cfg, src, AbsBlk(w.snd.cfg.geo, s, b)) in w.net
    {
      if u.records != t.records {
        ReportBringsNothing(t, 0, m.lastSect, s, b);
      }
      assert R.Arrived(t, s, b);
    }
  }

  lemma OtherAccountable(w: World, m: Message, to: nat, target: R.Target, src: seq<Byte>)
    requires Documented(w, src) && to in w.rcv && !m.FileSeg? && !m.Done?
    ensures var (u, sent) := Receive(w.rcv[to], m, target); Accountable(w, to, u, sent, src)
  {
    var t := w.rcv[to];
    var (u, sent) := Receive(t, m, target);
    assert u.records == t.records;
    assert forall s, b :: R.Arrived(u, s, b) ==> R.Arrived(t, s, b);
  }

  lemma DeliveryDocuments(w: World, m: Message, to: nat, target: R.Target, src: seq<Byte>)
    requires Documented(w, src) && Inv(w, src) && m in w.net && to in w.rcv
    ensures Documented(Next(w, Delivers(m, to, target), src), src)
  {
    var (u, sent) := Receive(w.rcv[to], m, target);
    if m.FileSeg? {
      SegAccountable(w, m, to, src);
    } else if m.Done? {
      DoneAccountable(w, m, to, src);
    } else {
      OtherAccountable(w, m, to, target, src);
    }
    ReplyDocuments(w, to, u, sent, src);
  }

  lemma JobDocuments(w: World, id: nat, src: seq<Byte>)
    requires Documented(w, src) && id in w.rcv && w.snd.cfg.geo.blockSize >= 4
    ensures Documented(Next(w, FileThreadOf(id), src), src)
  {
    var u := R.RunOneJob(w.rcv[id]);
    assert forall s, b :: R.Arrived(u, s, b) ==> R.Arrived(w.rcv[id], s, b);
    ReplyDocuments(w, id, u, [], src);
    assert w.net + (set s | s in []) == w.net;
  }

  // ----- Every run -----

  lemma NextDocuments(w: World, a: Action, src: seq<Byte>)
    requires Inv(w, src) && Documented(w, src)
    ensures Documented(Next(w, a, src), src)
  {
    match a
    case Announces(room) =>
      if w.snd.phase == S.Announcing && room > 0 {
        NetGrows(w, FileInfoPackets(w.snd, room), src);
      }
    case SenderActs(i) =>
      if !(i.MessageArrives? && i.m !in w.net) {
        SenderDocuments(w, i, src);
      }
    case Delivers(m, to, target) =>
      if m in w.net && to in w.rcv {
        DeliveryDocuments(w, m, to, target, src);
      }
    case FileThreadOf(id) =>
      if id in w.rcv {
        JobDocuments(w, id, src);
      }
  }

  /** No receiver has NAKs outstanding from an earlier file. */
  predicate NobodyNaked(t: S.Task) {
    forall id :: id in t.standing ==> t.standing[id] != S.ActiveNak
  }

  lemma StartIsDocumented(w: World, src: seq<Byte>)
    requires Initial(w, src) && NobodyNaked(w.snd)
    ensures Documented(w, src)
  {
    TransferableIsValid(w.snd.cfg, src);
  }

  lemma {:induction false} RunsAreDocumented(ws: seq<World>, src: seq<Byte>)
    requires IsRun(ws, src) && NobodyNaked(ws[0].snd)
    ensures Inv(ws[|ws| - 1], src) && Documented(ws[|ws| - 1], src)
  {
    RunsAreSound(ws, src);
    if |ws| == 1 {
      StartIsDocumented(ws[0], src);
    } else {
      var pre := ws[..|ws| - 1];
      RunsAreDocumented(pre, src);
      var w := pre[|pre| - 1];
      assert Follows(w, ws[|ws| - 1], src);
      var a :| ws[|ws| - 1] == Next(w, a, src);
      NextDocuments(w, a, src);
    }
  }
}
