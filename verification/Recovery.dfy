/** Repair in the whole system: what a receiver makes of the blocks on the network, what the sender makes of
    its complaints, and a run that leads on from any reachable world to the file on the receiver's disk. */
module Recovery {
  import opened Common
  import opened Geometry
  import opened Messages
  import opened Protocol
  import opened Trail
  import opened Lossless
  import S = Sender
  import SS = SenderSafety
  import R = Receiver
  import ReceiverFacts
  import CountGuard
  import Disk
  import Feedback
  import Repair

  // ----- Steps -----

  /** Steps of the system have led from o to w, in the transfer of src. */
  ghost predicate Under(o: World, w: World, src: seq<Byte>) {
    && Leads(o, w, src) && o.snd.log <= w.snd.log
    && Transferable(w.snd.cfg, src) && Valid(w.snd.cfg.geo) && w.snd.cfg == o.snd.cfg
  }

  lemma Moves(o: World, w: World, a: Action, src: seq<Byte>)
    requires Under(o, w, src)
    ensures Under(o, Next(w, a, src), src)
  {
    var v := Next(w, a, src);
    assert Follows(w, v, src);
    LeadsOn(o, w, v, src);
    if a.SenderActs? {
      S.StepKeepsConfig(w.snd, a.i);
    }
  }

  /** The sender takes a step by itself, or upon a packet that is on the network. */
  lemma SenderMoves(o: World, w: World, i: S.Input, src: seq<Byte>) returns (v: World)
    requires Under(o, w, src) && (i.MessageArrives? ==> i.m in w.net)
    ensures Under(o, v, src) && v.rcv == w.rcv
    ensures v.snd == S.Step(w.snd, i) && v.net == w.net + Emitted(w.snd, i, src)
  {
    v := Next(w, SenderActs(i), src);
    Moves(o, w, SenderActs(i), src);
  }

  /** A packet that is on the network is delivered. */
  lemma Delivery(o: World, w: World, r: nat, m: Message, src: seq<Byte>) returns (v: World)
    requires Under(o, w, src) && m in w.net && r in w.rcv
    ensures Under(o, v, src) && v.snd == w.snd
    ensures var (u, sent) := Receive(w.rcv[r], m, R.Acceptable);
            v.rcv == w.rcv[r := u] && v.net == w.net + set s | s in sent
  {
    v := Next(w, Delivers(m, r, R.Acceptable), src);
    Moves(o, w, Delivers(m, r, R.Acceptable), src);
  }

  /** The receivers other than r are as they were. */
  predicate OthersAlike(w: World, v: World, r: nat) {
    r in w.rcv && r in v.rcv && v.rcv == w.rcv[r := v.rcv[r]]
  }

  /** Nothing has changed except at receiver r. */
  predicate OnlyAt(w: World, v: World, r: nat) {
    OthersAlike(w, v, r) && v.snd == w.snd && v.net == w.net
  }

  /** A DONE for the whole file that names id is on the network. */
  predicate Called(net: set<Message>, id: nat, cfg: S.Config) {
    exists d :: d in net && CallsOn(d, id, cfg)
  }

  predicate CallsOn(d: Message, id: nat, cfg: S.Config) {
    d.Done? && id in d.doneFor && d.doneId == cfg.fileId && d.lastSect + 1 == cfg.geo.sectionCount
  }

  // ----- A receiver that is partly there -----

  /** r is receiving the file and has seen every section. */
  ghost predicate Partly(t: R.Task, r: nat, cfg: S.Config, src: seq<Byte>) {
    && Taking(t, cfg, src) && t.phase == R.ReceivingBlobs && t.self == r
    && forall s :: 0 <= s < cfg.geo.sectionCount ==> Feedback.SomeArrived(t, s)
  }

  /** r has all of the file, written or about to be, and has said so. */
  ghost predicate Served(t: R.Task, r: nat, cfg: S.Config, src: seq<Byte>) {
    Taking(t, cfg, src) && t.phase == R.Completed && t.self == r
  }

  lemma SeenHasBitset(t: R.Task, s: nat)
    requires Feedback.SomeArrived(t, s)
    ensures s in t.records && t.records[s].missing != []
  {
  }

  /** What a block does to a receiver that is partly there. */
  lemma TakesSeg(t: R.Task, r: nat, cfg: S.Config, src: seq<Byte>, m: Message)
    requires Transferable(cfg, src) && Partly(t, r, cfg, src) && m.FileSeg? && Truthful(m, cfg, src)
    ensures var u := R.OnDataBlock(t, m);
            && Partly(u, r, cfg, src)
            && (forall s, b :: R.IsBlock(t.geo, s, b) ==>
                  (R.Arrived(u, s, b) <==> R.Arrived(t, s, b) || (s == m.sect && b == m.blk)))
  {
    SeenHasBitset(t, m.sect);
    ReceiverFacts.DeliveryMarks(t, m);
    FileSegReply(t, m, cfg, src);
    SeenStays(t, R.OnDataBlock(t, m));
  }

  lemma SeenStays(t: R.Task, u: R.Task)
    requires t.geo == u.geo
    requires forall s, b :: R.IsBlock(t.geo, s, b) && R.Arrived(t, s, b) ==> R.Arrived(u, s, b)
    ensures forall s :: 0 <= s < t.geo.sectionCount && Feedback.SomeArrived(t, s) ==> Feedback.SomeArrived(u, s)
  {
    forall s | 0 <= s < t.geo.sectionCount && Feedback.SomeArrived(t, s) ensures Feedback.SomeArrived(u, s) {
      var b :| 0 <= b < SectionSize(t.geo, s) && R.Arrived(t, s, b);
      assert R.IsBlock(t.geo, s, b) && R.Arrived(u, s, b);
    }
  }

  lemma BlockArrives(o: World, w: World, r: nat, src: seq<Byte>, m: Message) returns (v: World)
    requires Under(o, w, src) && r in w.rcv && Partly(w.rcv[r], r, w.snd.cfg, src)
    requires m in w.net && m.FileSeg? && Truthful(m, w.snd.cfg, src)
    ensures Under(o, v, src) && v.snd == w.snd && v.net == w.net && v.rcv == w.rcv[r := R.OnDataBlock(w.rcv[r], m)]
    ensures Partly(v.rcv[r], r, w.snd.cfg, src)
    ensures forall s, b :: R.IsBlock(w.snd.cfg.geo, s, b) ==>
              (R.Arrived(v.rcv[r], s, b) <==> R.Arrived(w.rcv[r], s, b) || (s == m.sect && b == m.blk))
  {
    TakesSeg(w.rcv[r], r, w.snd.cfg, src, m);
    v := Delivery(o, w, r, m, src);
    assert w.net + (set s | s in []) == w.net;
  }

  // ----- All blocks, and then all sections -----

  /** Every missing block is on the network. */
  predicate MissingIsOut(net: set<Message>, t: R.Task, cfg: S.Config, src: seq<Byte>)
    requires Valid(t.geo) && Valid(cfg.geo)
  {
    forall b :: b in Feedback.MissingBlocks(t) ==> SegOf(cfg, src, b) in net
  }

  /** Of every section that is not marked complete some block is on the network. */
  ghost predicate Fixable(net: set<Message>, t: R.Task, cfg: S.Config, src: seq<Byte>)
    requires Valid(cfg.geo)
  {
    forall s :: 0 <= s < cfg.geo.sectionCount && !CountGuard.Marked(t, s) ==> SectionIsOut(net, s, cfg, src)
  }

  predicate SectionIsOut(net: set<Message>, s: nat, cfg: S.Config, src: seq<Byte>)
    requires Valid(cfg.geo)
  {
    exists b :: 0 <= b < SectionSize(cfg.geo, s) && SegOf(cfg, src, AbsBlk(cfg.geo, s, b)) in net
  }

  lemma OneLess(t: R.Task, u: R.Task, abs: nat)
    requires Valid(t.geo) && u.geo == t.geo && abs in Feedback.MissingBlocks(t)
    requires var (sect, blk) := SectBlk(t.geo, abs);
             forall s, b :: R.IsBlock(t.geo, s, b) ==>
               (R.Arrived(u, s, b) <==> R.Arrived(t, s, b) || (s == sect && b == blk))
    ensures Feedback.MissingBlocks(u) == Feedback.MissingBlocks(t) - {abs}
    ensures |Feedback.MissingBlocks(u)| < |Feedback.MissingBlocks(t)|
  {
    forall x | 0 <= x < t.geo.blockCount
      ensures x in Feedback.MissingBlocks(u) <==> x in Feedback.MissingBlocks(t) && x != abs
    {
      AbsRoundTrip(t.geo, x);
      AbsRoundTrip(t.geo, abs);
    }
    var rest := Feedback.MissingBlocks(t) - {abs};
    assert Feedback.MissingBlocks(u) == rest;
  }

  lemma AllArrivedIn(t: R.Task, s: nat, b: nat)
    requires Valid(t.geo) && Feedback.MissingBlocks(t) == {} && R.IsBlock(t.geo, s, b)
    ensures R.Arrived(t, s, b)
  {
    PairRoundTrip(t.geo, s, b);
    assert AbsBlk(t.geo, s, b) !in Feedback.MissingBlocks(t);
  }

  lemma {:induction false} FillsOne(o: World, w: World, r: nat, src: seq<Byte>) returns (v: World)
    requires Under(o, w, src) && r in w.rcv && Partly(w.rcv[r], r, w.snd.cfg, src)
    requires MissingIsOut(w.net, w.rcv[r], w.snd.cfg, src) && Feedback.MissingBlocks(w.rcv[r]) != {}
    ensures Under(o, v, src) && OnlyAt(w, v, r) && Partly(v.rcv[r], r, w.snd.cfg, src)
    ensures MissingIsOut(v.net, v.rcv[r], v.snd.cfg, src) && MarksKept(w.rcv[r], v.rcv[r])
    ensures |Feedback.MissingBlocks(v.rcv[r])| < |Feedback.MissingBlocks(w.rcv[r])|
  {
    var b := Least(Feedback.MissingBlocks(w.rcv[r]));
    AbsRoundTrip(w.snd.cfg.geo, b);
    SegIsGood(w.snd.cfg, src, b);
    v := BlockArrives(o, w, r, src, SegOf(w.snd.cfg, src, b));
    OneLess(w.rcv[r], v.rcv[r], b);
    DeliveryKeepsMarks(w.rcv[r], SegOf(w.snd.cfg, src, b));
  }

  predicate MarksKept(t: R.Task, u: R.Task) {
    |u.completed| == |t.completed| && forall s :: 0 <= s < |t.completed| && t.completed[s] ==> u.completed[s]
  }

  lemma DeliveryKeepsMarks(t: R.Task, m: Message)
    requires m.FileSeg?
    ensures MarksKept(t, R.OnDataBlock(t, m))
  {
  }

  lemma FixableStays(net: set<Message>, t: R.Task, u: R.Task, cfg: S.Config, src: seq<Byte>)
    requires Valid(cfg.geo) && Fixable(net, t, cfg, src) && MarksKept(t, u)
    ensures Fixable(net, u, cfg, src)
  {
    forall s | 0 <= s < cfg.geo.sectionCount && !CountGuard.Marked(u, s) ensures SectionIsOut(net, s, cfg, src) {
      assert !CountGuard.Marked(t, s);
    }
  }

  /** The missing blocks are delivered, lowest first. */
  lemma {:induction false} FillIn(o: World, w: World, r: nat, src: seq<Byte>) returns (v: World)
    requires Under(o, w, src) && r in w.rcv && Partly(w.rcv[r], r, w.snd.cfg, src)
    requires MissingIsOut(w.net, w.rcv[r], w.snd.cfg, src) && Fixable(w.net, w.rcv[r], w.snd.cfg, src)
    ensures Under(o, v, src) && OnlyAt(w, v, r) && Partly(v.rcv[r], r, w.snd.cfg, src)
    ensures Feedback.MissingBlocks(v.rcv[r]) == {} && Fixable(v.net, v.rcv[r], w.snd.cfg, src)
    decreases |Feedback.MissingBlocks(w.rcv[r])|
  {
    if Feedback.MissingBlocks(w.rcv[r]) == {} {
      v := w;
    } else {
      var u := FillsOne(o, w, r, src);
      FixableStays(w.net, w.rcv[r], u.rcv[r], w.snd.cfg, src);
      v := FillIn(o, u, r, src);
    }
  }

  /** How many more deliveries the count of a section takes to reach the section's size: one more than
      that if it is there but about to wrap. */
  function Short(t: R.Task, s: nat): nat {
    if s !in t.records then 0
    else if t.records[s].count < SectionSize(t.geo, s) then SectionSize(t.geo, s) - t.records[s].count
    else SectionSize(t.geo, s) + 1
  }

  /** A block of a section all of whose blocks have arrived is delivered again. */
  lemma {:induction false} CountsUp(t: R.Task, cfg: S.Config, src: seq<Byte>, m: Message)
    requires Transferable(cfg, src) && Taking(t, cfg, src) && t.phase == R.ReceivingBlobs
    requires m.FileSeg? && Truthful(m, cfg, src) && Feedback.MissingBlocks(t) == {}
    ensures var u := R.OnDataBlock(t, m);
            && (CountGuard.Marked(u, m.sect) || Short(u, m.sect) < Short(t, m.sect))
            && (forall n :: MarkedBelow(t, n) ==> MarkedBelow(u, n))
  {
    AllArrivedIn(t, m.sect, m.blk);
    CountGuard.RecordsAfterDelivery(t, m);
    var u := R.OnDataBlock(t, m);
    ComesNearer(t, m);
    forall n | MarkedBelow(t, n) ensures MarkedBelow(u, n) {
      MarksStay(t, u, n);
    }
  }

  /** Sections 0..n are marked complete. */
  predicate MarkedBelow(t: R.Task, n: nat) {
    n == 0 || (MarkedBelow(t, n - 1) && CountGuard.Marked(t, n - 1))
  }

  lemma {:induction false} MarksStay(t: R.Task, u: R.Task, n: nat)
    requires MarkedBelow(t, n) && |u.completed| == |t.completed|
    requires forall s :: 0 <= s < |t.completed| && t.completed[s] ==> u.completed[s]
    ensures MarkedBelow(u, n)
  {
    if n > 0 {
      MarksStay(t, u, n - 1);
    }
  }

  lemma {:induction false} MarkedAt(t: R.Task, n: nat, s: nat)
    requires MarkedBelow(t, n) && s < n
    ensures CountGuard.Marked(t, s)
  {
    if s < n - 1 {
      MarkedAt(t, n - 1, s);
    }
  }

  lemma {:induction false} ComesNearer(t: R.Task, m: Message)
    requires R.Consistent(t) && !t.fault && t.phase == R.ReceivingBlobs && Feedback.MissingBlocks(t) == {}
    requires m.FileSeg? && m.segId != 0 && m.segId == t.fileId && R.IsBlock(t.geo, m.sect, m.blk)
    requires m.sect in t.records && t.records[m.sect].missing != []
    ensures var u := R.OnDataBlock(t, m); CountGuard.Marked(u, m.sect) || Short(u, m.sect) < Short(t, m.sect)
  {
    CountGuard.RecordsAfterDelivery(t, m);
    NothingMissing(t, m);
    assert R.RecordFor(t, m.sect) == t.records[m.sect];
  }

  lemma {:induction false} NothingMissing(t: R.Task, m: Message)
    requires R.Consistent(t) && !t.fault && t.phase == R.ReceivingBlobs && Feedback.MissingBlocks(t) == {}
    requires m.FileSeg? && m.segId != 0 && m.segId == t.fileId && R.IsBlock(t.geo, m.sect, m.blk)
    requires m.sect in t.records && t.records[m.sect].missing != []
    ensures var u := R.OnDataBlock(t, m); m.sect in u.records && R.NoneSet(u.records[m.sect].missing)
  {
    CountGuard.RecordsAfterDelivery(t, m);
    ReceiverFacts.DeliveryMarks(t, m);
    var bits := R.OnDataBlock(t, m).records[m.sect].missing;
    forall b | 0 <= b < |bits| ensures !bits[b] {
      AllArrivedIn(t, m.sect, b);
      assert R.Arrived(R.OnDataBlock(t, m), m.sect, b);
    }
  }

  lemma NoneMissingStays(t: R.Task, u: R.Task)
    requires Valid(t.geo) && u.geo == t.geo && Feedback.MissingBlocks(t) == {}
    requires forall s, b :: R.IsBlock(t.geo, s, b) && R.Arrived(t, s, b) ==> R.Arrived(u, s, b)
    ensures Feedback.MissingBlocks(u) == {}
  {
    forall x | 0 <= x < t.geo.blockCount ensures x !in Feedback.MissingBlocks(u) {
      AbsRoundTrip(t.geo, x);
      assert x !in Feedback.MissingBlocks(t);
    }
  }

  /** Every block has arrived at r, and what it takes to have the sections marked is on the network. */
  ghost predicate Filled(w: World, r: nat, src: seq<Byte>)
    requires Valid(w.snd.cfg.geo)
  {
    && r in w.rcv && Partly(w.rcv[r], r, w.snd.cfg, src)
    && Feedback.MissingBlocks(w.rcv[r]) == {} && Fixable(w.net, w.rcv[r], w.snd.cfg, src)
  }

  lemma OnlyAtTwice(w: World, u: World, v: World, r: nat)
    requires OnlyAt(w, u, r) && OnlyAt(u, v, r)
    ensures OnlyAt(w, v, r)
  {
  }

  lemma {:induction false} RepeatsSeg(o: World, w: World, r: nat, src: seq<Byte>, s: nat) returns (v: World)
    requires Under(o, w, src) && Filled(w, r, src) && s < w.snd.cfg.geo.sectionCount
    requires SectionIsOut(w.net, s, w.snd.cfg, src)
    ensures Under(o, v, src) && OnlyAt(w, v, r) && Filled(v, r, src) && MarksKept(w.rcv[r], v.rcv[r])
    ensures CountGuard.Marked(v.rcv[r], s) || Short(v.rcv[r], s) < Short(w.rcv[r], s)
  {
    var g := w.snd.cfg.geo;
    var b :| 0 <= b < SectionSize(g, s) && SegOf(w.snd.cfg, src, AbsBlk(g, s, b)) in w.net;
    PairRoundTrip(g, s, b);
    SegIsGood(w.snd.cfg, src, AbsBlk(g, s, b));
    var m := SegOf(w.snd.cfg, src, AbsBlk(g, s, b));
    AllArrivedIn(w.rcv[r], s, b);
    CountsUp(w.rcv[r], w.snd.cfg, src, m);
    DeliveryKeepsMarks(w.rcv[r], m);
    v := BlockArrives(o, w, r, src, m);
    NoneMissingStays(w.rcv[r], v.rcv[r]);
    FixableStays(w.net, w.rcv[r], v.rcv[r], w.snd.cfg, src);
  }

  /** Repetitions of one of its blocks bring the section to completion. */
  lemma {:induction false} CompleteSection(o: World, w: World, r: nat, src: seq<Byte>, s: nat) returns (v: World)
    requires Under(o, w, src) && Filled(w, r, src) && s < w.snd.cfg.geo.sectionCount
    ensures Under(o, v, src) && OnlyAt(w, v, r) && Filled(v, r, src)
    ensures CountGuard.Marked(v.rcv[r], s) && MarksKept(w.rcv[r], v.rcv[r])
    decreases Short(w.rcv[r], s)
  {
    if CountGuard.Marked(w.rcv[r], s) {
      v := w;
    } else {
      var u := RepeatsSeg(o, w, r, src, s);
      if CountGuard.Marked(u.rcv[r], s) {
        v := u;
      } else {
        v := CompleteSection(o, u, r, src, s);
        OnlyAtTwice(w, u, v, r);
      }
    }
  }

  /** The sections from n on are brought to completion, one after the other. */
  lemma {:induction false} CompleteAll(o: World, w: World, r: nat, src: seq<Byte>, n: nat) returns (v: World)
    requires Under(o, w, src) && Filled(w, r, src) && n <= w.snd.cfg.geo.sectionCount && MarkedBelow(w.rcv[r], n)
    ensures Under(o, v, src) && OnlyAt(w, v, r) && Filled(v, r, src)
    ensures MarkedBelow(v.rcv[r], w.snd.cfg.geo.sectionCount)
    decreases w.snd.cfg.geo.sectionCount - n
  {
    if n == w.snd.cfg.geo.sectionCount {
      v := w;
    } else {
      var u := CompletesNext(o, w, r, src, n);
      v := CompleteAll(o, u, r, src, n + 1);
      OnlyAtTwice(w, u, v, r);
    }
  }

  lemma {:induction false} CompletesNext(o: World, w: World, r: nat, src: seq<Byte>, n: nat) returns (v: World)
    requires Under(o, w, src) && Filled(w, r, src) && n < w.snd.cfg.geo.sectionCount && MarkedBelow(w.rcv[r], n)
    ensures Under(o, v, src) && OnlyAt(w, v, r) && Filled(v, r, src) && MarkedBelow(v.rcv[r], n + 1)
  {
    v := CompleteSection(o, w, r, src, n);
    MarksStay(w.rcv[r], v.rcv[r], n);
  }

  /** From what is on the network the receiver gets everything. */
  lemma {:induction false} Gathers(o: World, w: World, r: nat, src: seq<Byte>) returns (v: World)
    requires Under(o, w, src) && r in w.rcv && Partly(w.rcv[r], r, w.snd.cfg, src)
    requires MissingIsOut(w.net, w.rcv[r], w.snd.cfg, src) && Fixable(w.net, w.rcv[r], w.snd.cfg, src)
    ensures Under(o, v, src) && OnlyAt(w, v, r) && Partly(v.rcv[r], r, w.snd.cfg, src)
    ensures R.AllSet(v.rcv[r].completed)
  {
    var u := FillIn(o, w, r, src);
    v := CompleteAll(o, u, r, src, 0);
    OnlyAtTwice(w, u, v, r);
    forall s | 0 <= s < w.snd.cfg.geo.sectionCount ensures CountGuard.Marked(v.rcv[r], s) {
      MarkedAt(v.rcv[r], w.snd.cfg.geo.sectionCount, s);
    }
    Repair.AllMarkedIsComplete(v.rcv[r]);
  }

  // ----- DONE and COMPLETE -----

  lemma HearsComplete(t: S.Task, r: nat)
    requires t.phase == S.WaitingClientStatus && !t.fault && r in t.standing
    ensures var u := S.Step(t, S.MessageArrives(Complete(r, t.cfg.fileId, NORMAL)));
            u == t.(standing := t.standing[r := S.DoneWithFile], log := u.log) && t.log <= u.log
  {
  }

  /** r has every section of the file, whether it has said so or not. */
  ghost predicate Holding(t: R.Task, r: nat, cfg: S.Config, src: seq<Byte>) {
    Taking(t, cfg, src) && R.AllSet(t.completed) && t.self == r
  }

  /** A complete receiver answers DONE, as often as it is asked, and is served. */
  lemma AnswersComplete(t: R.Task, r: nat, cfg: S.Config, src: seq<Byte>, d: Message)
    requires Transferable(cfg, src) && Holding(t, r, cfg, src) && CallsOn(d, r, cfg)
    ensures var (u, sent) := R.OnDone(t, d);
            Served(u, r, cfg, src) && sent == [Complete(r, cfg.fileId, NORMAL)]
  {
    ReceiverFacts.DoneKeeps(t, d, src);
  }

  lemma SaysComplete(o: World, w: World, r: nat, src: seq<Byte>) returns (v: World)
    requires Under(o, w, src) && r in w.rcv && Holding(w.rcv[r], r, w.snd.cfg, src) && Called(w.net, r, w.snd.cfg)
    ensures Under(o, v, src) && v.snd == w.snd && OthersAlike(w, v, r) && w.net <= v.net
    ensures Served(v.rcv[r], r, w.snd.cfg, src) && Complete(r, w.snd.cfg.fileId, NORMAL) in v.net
  {
    var d :| d in w.net && CallsOn(d, r, w.snd.cfg);
    AnswersComplete(w.rcv[r], r, w.snd.cfg, src, d);
    v := Delivery(o, w, r, d, src);
  }

  /** A DONE on the network finds the receiver complete, and its COMPLETE finds the sender waiting. */
  lemma Concludes(o: World, w: World, r: nat, src: seq<Byte>) returns (v: World)
    requires Under(o, w, src) && r in w.rcv && Holding(w.rcv[r], r, w.snd.cfg, src) && Called(w.net, r, w.snd.cfg)
    requires w.snd.phase == S.WaitingClientStatus && !w.snd.fault && r in w.snd.standing
    ensures Under(o, v, src) && OthersAlike(w, v, r) && w.net <= v.net && Served(v.rcv[r], r, w.snd.cfg, src)
    ensures v.snd == w.snd.(standing := w.snd.standing[r := S.DoneWithFile], log := v.snd.log)
  {
    var u := SaysComplete(o, w, r, src);
    HearsComplete(u.snd, r);
    v := SenderMoves(o, u, S.MessageArrives(Complete(r, w.snd.cfg.fileId, NORMAL)), src);
  }

  /** From what is on the network the receiver is served, and the sender learns it. */
  lemma {:induction false} Finishes(o: World, w: World, r: nat, src: seq<Byte>) returns (v: World)
    requires Under(o, w, src) && r in w.rcv && Partly(w.rcv[r], r, w.snd.cfg, src)
    requires MissingIsOut(w.net, w.rcv[r], w.snd.cfg, src) && Fixable(w.net, w.rcv[r], w.snd.cfg, src)
    requires Called(w.net, r, w.snd.cfg)
    requires w.snd.phase == S.WaitingClientStatus && !w.snd.fault && r in w.snd.standing
    ensures Under(o, v, src) && OthersAlike(w, v, r) && w.net <= v.net && Served(v.rcv[r], r, w.snd.cfg, src)
    ensures v.snd == w.snd.(standing := w.snd.standing[r := S.DoneWithFile], log := v.snd.log)
  {
    var u := Gathers(o, w, r, src);
    v := Concludes(o, u, r, src);
  }

  // ----- The disk -----

  lemma JobServed(t: R.Task, r: nat, cfg: S.Config, src: seq<Byte>)
    requires Served(t, r, cfg, src)
    ensures Served(R.RunOneJob(t), r, cfg, src)
  {
    ReceiverFacts.FileThreadKeeps(t, src);
  }

  lemma ServedHasFile(t: R.Task, r: nat, cfg: S.Config, src: seq<Byte>)
    requires Served(t, r, cfg, src) && t.jobs == []
    ensures t.file == Disk.File(Disk.Closed, src)
  {
    ReceiverFacts.CompleteIsSource(t, src);
  }

  /** The file thread of one receiver catches up. */
  lemma {:induction false} Writes(o: World, w: World, r: nat, src: seq<Byte>) returns (v: World)
    requires Under(o, w, src) && r in w.rcv && Served(w.rcv[r], r, w.snd.cfg, src)
    ensures Under(o, v, src) && OnlyAt(w, v, r) && Served(v.rcv[r], r, w.snd.cfg, src)
    ensures v.rcv[r].jobs == [] && v.rcv[r].file == Disk.File(Disk.Closed, src)
    decreases |w.rcv[r].jobs|
  {
    if w.rcv[r].jobs == [] {
      v := w;
      ServedHasFile(w.rcv[r], r, w.snd.cfg, src);
    } else {
      JobServed(w.rcv[r], r, w.snd.cfg, src);
      var u := Next(w, FileThreadOf(r), src);
      Moves(o, w, FileThreadOf(r), src);
      v := Writes(o, u, r, src);
    }
  }

  // ----- Complaints -----

  /** The sender takes in STATUS packets that are on the network. */
  lemma {:induction false} SenderTakes(o: World, w: World, ms: seq<Message>, src: seq<Byte>) returns (v: World)
    requires Under(o, w, src) && !w.snd.fault && forall m :: m in ms ==> m.Status? && m in w.net
    ensures Under(o, v, src) && v.snd == Repair.TakeAll(w.snd, ms) && v.rcv == w.rcv && w.net <= v.net
    decreases |ms|
  {
    if ms == [] {
      v := w;
    } else {
      var u := SenderMoves(o, w, S.MessageArrives(ms[0]), src);
      StatusFaultsNot(w.snd, ms[0]);
      v := SenderTakes(o, u, ms[1..], src);
    }
  }

  lemma StatusFaultsNot(t: S.Task, m: Message)
    requires !t.fault && m.Status?
    ensures S.Step(t, S.MessageArrives(m)) == S.OnStatus(t, m) && !S.OnStatus(t, m).fault
  {
  }

  lemma {:induction false} AnswersWithNaks(t: R.Task, d: Message)
    requires R.Consistent(t) && !t.fault && Feedback.MissingBlocks(t) != {}
    requires forall s :: 0 <= s < t.geo.sectionCount ==> Feedback.SomeArrived(t, s)
    requires d.Done? && d.doneId != 0 && d.doneId == t.fileId && t.self in d.doneFor
    requires d.lastSect + 1 == t.geo.sectionCount
    ensures R.OnDone(t, d).0 == t
    ensures forall m :: m in R.OnDone(t, d).1 ==> m.Status? && m.statusFrom == t.self && m.statusId == t.fileId
    ensures Feedback.AbsOf(t.geo, Feedback.AllNakPairs(R.OnDone(t, d).1)) == Feedback.MissingBlocks(t)
  {
    SomethingUnfinished(t);
    Repair.ReportLeavesAlone(t, 0, d.lastSect);
    Feedback.FeedbackIsExactIff(t, d);
    Feedback.FeedbackBlocks(t, Feedback.AllNakPairs(R.OnDone(t, d).1));
  }

  lemma SomethingUnfinished(t: R.Task)
    requires R.Consistent(t) && Feedback.MissingBlocks(t) != {}
    ensures !R.AllSet(t.completed)
  {
    var abs :| abs in Feedback.MissingBlocks(t);
    AbsRoundTrip(t.geo, abs);
    var (s, b) := SectBlk(t.geo, abs);
    if t.completed[s] {
      assert R.Arrived(t, s, b);
    }
  }

  /** The DONE provokes STATUS packets that name exactly the missing blocks, and nothing else changes. */
  lemma {:induction false} DoneProvokes(o: World, w: World, r: nat, src: seq<Byte>)
    returns (v: World, sts: seq<Message>)
    requires Under(o, w, src) && r in w.rcv && Partly(w.rcv[r], r, w.snd.cfg, src) && Called(w.net, r, w.snd.cfg)
    requires Feedback.MissingBlocks(w.rcv[r]) != {}
    ensures Under(o, v, src) && v.snd == w.snd && v.rcv == w.rcv && w.net <= v.net
    ensures forall m :: m in sts ==> m.Status? && m.statusFrom == r && m.statusId == w.snd.cfg.fileId && m in v.net
    ensures Feedback.AbsOf(w.snd.cfg.geo, Feedback.AllNakPairs(sts)) == Feedback.MissingBlocks(w.rcv[r])
  {
    var d :| d in w.net && CallsOn(d, r, w.snd.cfg);
    AnswersWithNaks(w.rcv[r], d);
    sts := R.OnDone(w.rcv[r], d).1;
    v := Delivery(o, w, r, d, src);
    assert v.rcv == w.rcv;
  }

  /** The complaint reaches the sender. */
  lemma {:induction false} Complains(o: World, w: World, r: nat, src: seq<Byte>) returns (v: World)
    requires Under(o, w, src) && r in w.rcv && Partly(w.rcv[r], r, w.snd.cfg, src) && Called(w.net, r, w.snd.cfg)
    requires Feedback.MissingBlocks(w.rcv[r]) != {}
    requires w.snd.phase == S.WaitingClientStatus && !w.snd.fault
    requires r in w.snd.standing && w.snd.standing[r] != S.DoneWithFile
    ensures Under(o, v, src) && v.rcv == w.rcv && w.net <= v.net
    ensures v.snd == w.snd.(naks := w.snd.naks + Feedback.MissingBlocks(w.rcv[r]),
                            standing := w.snd.standing[r := S.ActiveNak], log := v.snd.log)
  {
    var u, sts := DoneProvokes(o, w, r, src);
    Repair.TakeAllCollects(w.snd, sts, r);
    v := SenderTakes(o, u, sts, src);
  }

  // ----- The sender's round -----

  /** Whatever the sender logs as sent is on the network. */
  lemma SenderStepsOut(o: World, w: World, i: S.Input, src: seq<Byte>, since: nat) returns (v: World)
    requires Under(o, w, src) && !i.MessageArrives? && SentIsOutSince(w, since, src)
    ensures Under(o, v, src) && v.snd == S.Step(w.snd, i) && v.rcv == w.rcv && w.net <= v.net
    ensures SentIsOutSince(v, since, src)
  {
    v := SenderMoves(o, w, i, src);
    forall k | since <= k < |v.snd.log| && v.snd.log[k].Sent?
      ensures SegOf(v.snd.cfg, src, v.snd.log[k].blk) in v.net
    {
      if k < |w.snd.log| {
        assert v.snd.log[k] == w.snd.log[k];
      } else {
        LogsWhatItSends(w.snd, i, src, k);
      }
    }
  }

  predicate SentIsOutSince(w: World, since: nat, src: seq<Byte>)
    requires Valid(w.snd.cfg.geo)
  {
    forall k :: since <= k < |w.snd.log| && w.snd.log[k].Sent? ==> SegOf(w.snd.cfg, src, w.snd.log[k].blk) in w.net
  }

  lemma LogsWhatItSends(t: S.Task, i: S.Input, src: seq<Byte>, k: nat)
    requires Valid(t.cfg.geo) && t.cfg.geo.blockSize >= 4 && !i.MessageArrives?
    requires |t.log| <= k < |S.Step(t, i).log| && S.Step(t, i).log[k].Sent?
    ensures SegOf(t.cfg, src, S.Step(t, i).log[k].blk) in Emitted(t, i, src)
  {
    NewlySentAt(t, i, k);
  }

  /** The steps that log a block as sent. */
  lemma NewlySentAt(t: S.Task, i: S.Input, k: nat)
    requires !i.MessageArrives? && |t.log| <= k < |S.Step(t, i).log| && S.Step(t, i).log[k].Sent?
    ensures !t.fault
    ensures (i == S.FileThreadSends(true) && t.thread.InFlight? && S.Step(t, i).log[k].blk == t.thread.blk)
            || (i == S.BucketHasRoom(true) && t.blockedMsg == Some(S.Step(t, i).log[k].blk))
  {
    match i
    case FileThreadLocks => LockSendsNothing(t);
    case WaitTimerFires(taken) => WaitSendsNoBlock(t, taken);
    case _ =>
  }

  lemma {:induction false} SenderRuns(o: World, w: World, inputs: seq<S.Input>, src: seq<Byte>, since: nat)
    returns (v: World)
    requires Under(o, w, src) && SentIsOutSince(w, since, src) && forall i :: i in inputs ==> !i.MessageArrives?
    ensures Under(o, v, src) && v.snd == S.Run(w.snd, inputs) && v.rcv == w.rcv && w.net <= v.net
    ensures SentIsOutSince(v, since, src)
  {
    if inputs == [] {
      v := w;
    } else {
      var u := SenderRuns(o, w, inputs[..|inputs| - 1], src, since);
      v := SenderStepsOut(o, u, inputs[|inputs| - 1], src, since);
    }
  }

  lemma {:induction false} NoArrivals(inputs: seq<S.Input>)
    requires inputs != [] && inputs[0] == S.WaitTimerFires(true) && forall i :: i in inputs[1..] ==> Repair.Unrefused(i)
    ensures forall i :: i in inputs ==> !i.MessageArrives?
  {
    assert inputs == [inputs[0]] + inputs[1..];
  }

  lemma NakStays(t: S.Task, r: nat)
    requires r in t.standing && t.standing[r] == S.ActiveNak
    ensures r in S.WaitEnds(t, true).standing && S.WaitEnds(t, true).standing[r] == S.ActiveNak
  {
  }

  /** The round at the sender: what was complained about is on the network, and the sender is to ask again. */
  lemma {:induction false} Resends(o: World, w: World, r: nat, src: seq<Byte>) returns (v: World)
    requires Under(o, w, src) && Repair.Waiting(w.snd) && Repair.OthersSettled(w.snd, r)
    requires r in w.snd.standing && w.snd.standing[r] == S.ActiveNak && w.snd.naks != {}
    ensures Under(o, v, src) && v.rcv == w.rcv && w.net <= v.net
    ensures v.snd.phase == S.WaitingClientStatus && !v.snd.fault && v.snd.thread == S.Idle && v.snd.donePosted > 0
    ensures v.snd.standing == S.WaitEnds(w.snd, true).standing && SS.Coherent(v.snd)
    ensures forall b :: b in w.snd.naks ==> SegOf(w.snd.cfg, src, b) in v.net
  {
    var inputs := Repair.RepairRound(w.snd, r, true);
    NoArrivals(inputs);
    v := SenderRuns(o, w, inputs, src, |w.snd.log|);
    CoherentRuns(w.snd, inputs);
    forall b | b in w.snd.naks ensures SegOf(w.snd.cfg, src, b) in v.net {
      assert b in Repair.SentSince(w.snd, v.snd);
      var k :| |w.snd.log| <= k < |v.snd.log| && v.snd.log[k].Sent? && v.snd.log[k].blk == b;
    }
  }

  lemma {:induction false} CoherentRuns(t: S.Task, inputs: seq<S.Input>)
    requires SS.Coherent(t)
    ensures SS.Coherent(S.Run(t, inputs))
  {
    if inputs != [] {
      CoherentRuns(t, inputs[..|inputs| - 1]);
      SS.StepKeepsCoherent(S.Run(t, inputs[..|inputs| - 1]), inputs[|inputs| - 1]);
    }
  }

  /** The DONE that was posted goes out to everybody who is active or has NAKs outstanding. */
  lemma AsksAll(o: World, w: World, src: seq<Byte>) returns (v: World)
    requires Under(o, w, src) && SS.Coherent(w.snd) && w.snd.phase == S.WaitingClientStatus && !w.snd.fault
    requires w.snd.thread == S.Idle && w.snd.donePosted > 0
    ensures Under(o, v, src) && v.rcv == w.rcv && w.net <= v.net && Repair.Waiting(v.snd)
    ensures v.snd == w.snd.(donePosted := w.snd.donePosted - 1, timers := w.snd.timers + 1)
    ensures forall id :: Unserved(w.snd, id) ==> Called(v.net, id, w.snd.cfg)
  {
    v := SenderMoves(o, w, S.PostedDoneRuns(true), src);
    forall id | Unserved(w.snd, id) ensures Called(v.net, id, w.snd.cfg) {
      CallsOut(w.snd, S.PostedDoneRuns(true), src, w.net, id);
    }
  }

  /** The sender is still concerned with this receiver. */
  predicate Unserved(t: S.Task, id: nat) {
    id in t.standing && (t.standing[id] == S.Active || t.standing[id] == S.ActiveNak)
  }

  lemma CallsOut(t: S.Task, i: S.Input, src: seq<Byte>, net: set<Message>, id: nat)
    requires Valid(t.cfg.geo) && t.cfg.geo.blockSize >= 4 && S.SendsDone(t, i) && Unserved(t, id)
    requires i.PostedDoneRuns? || i.WaitTimerFires?
    ensures Called(net + Emitted(t, i, src), id, t.cfg)
  {
    DoneIsOut(t, i, src, {}, id);
    DonePacketsTruthful(t, src);
    var d :| d in {} + Emitted(t, i, src) && d.Done? && id in d.doneFor;
    assert d in S.DonePackets(t) && CallsOn(d, id, t.cfg);
    assert d in net + Emitted(t, i, src);
  }

  lemma CalledStays(net: set<Message>, more: set<Message>, id: nat, cfg: S.Config)
    requires Called(net, id, cfg) && net <= more
    ensures Called(more, id, cfg)
  {
    var d :| d in net && CallsOn(d, id, cfg);
    assert d in more;
  }

  /** Receivers other than r that stay silent are no reason to fail. */
  predicate OthersNoError(t: S.Task, r: nat) {
    !t.cfg.quitOnError || forall id :: id in t.standing && id != r ==> t.standing[id] != S.Active
  }

  lemma AsksAgain(t: S.Task, r: nat)
    requires Repair.Waiting(t) && OthersNoError(t, r) && !Repair.OthersSettled(t, r)
    ensures S.Step(t, S.WaitTimerFires(true)) == t.(rounds := t.rounds + 1) && t.rounds < t.cfg.robust
  {
    var id :| id in t.standing && id != r && t.standing[id] == S.Active;
    assert S.Any(t, S.Active);
  }

  /** Silent receivers are asked again until none is left or the rounds are used up. */
  lemma {:induction false} OthersSettle(o: World, w: World, r: nat, src: seq<Byte>) returns (v: World)
    requires Under(o, w, src) && Repair.Waiting(w.snd)
    requires r in w.snd.standing && w.snd.standing[r] == S.ActiveNak && OthersNoError(w.snd, r)
    ensures Under(o, v, src) && v.rcv == w.rcv && w.net <= v.net
    ensures v.snd == w.snd.(rounds := v.snd.rounds) && Repair.OthersSettled(v.snd, r)
    decreases w.snd.cfg.robust - w.snd.rounds
  {
    if Repair.OthersSettled(w.snd, r) {
      v := w;
    } else {
      AsksAgain(w.snd, r);
      var u := SenderMoves(o, w, S.WaitTimerFires(true), src);
      v := OthersSettle(o, u, r, src);
    }
  }

  // ----- One receiver, with the network as it is -----

  lemma ReachableIsDocumented(w: World, src: seq<Byte>)
    requires Reachable(w, src)
    ensures Inv(w, src) && Documented(w, src)
  {
    var ws := ReachableEndsRun(w, src);
    RunsAreDocumented(ws, src);
  }

  lemma StartsHere(w: World, src: seq<Byte>)
    requires Reachable(w, src)
    ensures Under(w, w, src)
  {
    ReachableIsDocumented(w, src);
    LeadsNowhere(w, src);
  }

  /** r has opened the file and seen every section. */
  predicate HasSeen(w: World, r: nat) {
    && r in w.rcv && !w.rcv[r].fault && !w.rcv[r].file.stream.NotOpened?
    && forall s :: 0 <= s < w.snd.cfg.geo.sectionCount ==> Feedback.SomeArrived(w.rcv[r], s)
  }

  lemma IsPartly(w: World, r: nat, src: seq<Byte>)
    requires Reachable(w, src) && HasSeen(w, r)
    ensures Partly(w.rcv[r], r, w.snd.cfg, src) || Served(w.rcv[r], r, w.snd.cfg, src)
  {
    ReachableIsDocumented(w, src);
    assert Sound(w.rcv[r], w.snd.cfg, src);
  }

  lemma WasCalled(w: World, r: nat, src: seq<Byte>)
    requires Reachable(w, src) && Repair.Waiting(w.snd) && Unserved(w.snd, r)
    ensures Called(w.net, r, w.snd.cfg)
  {
    ReachableIsDocumented(w, src);
    assert Named(w.net, r);
    var d :| d in w.net && d.Done? && r in d.doneFor;
    assert Truthful(d, w.snd.cfg, src) && CallsOn(d, r, w.snd.cfg);
  }

  lemma ArrivedIsThere(w: World, r: nat, src: seq<Byte>, s: nat, b: nat)
    requires Reachable(w, src) && Valid(w.snd.cfg.geo) && r in w.rcv
    requires R.IsBlock(w.snd.cfg.geo, s, b) && R.Arrived(w.rcv[r], s, b)
    ensures SegOf(w.snd.cfg, src, AbsBlk(w.snd.cfg.geo, s, b)) in w.net
  {
    ReachableIsDocumented(w, src);
  }

  /** Some block of each section has arrived, and so is on the network. */
  lemma IsFixable(w: World, r: nat, src: seq<Byte>)
    requires Reachable(w, src) && Valid(w.snd.cfg.geo) && HasSeen(w, r) && w.rcv[r].geo == w.snd.cfg.geo
    ensures Fixable(w.net, w.rcv[r], w.snd.cfg, src)
  {
    forall s | 0 <= s < w.snd.cfg.geo.sectionCount ensures SectionIsOut(w.net, s, w.snd.cfg, src) {
      assert Feedback.SomeArrived(w.rcv[r], s);
      var b :| 0 <= b < SectionSize(w.rcv[r].geo, s) && R.Arrived(w.rcv[r], s, b);
      ArrivedIsThere(w, r, src, s, b);
    }
  }

  lemma FixableGrows(net: set<Message>, more: set<Message>, t: R.Task, cfg: S.Config, src: seq<Byte>)
    requires Valid(cfg.geo) && Fixable(net, t, cfg, src) && net <= more
    ensures Fixable(more, t, cfg, src)
  {
    forall s | 0 <= s < cfg.geo.sectionCount && !CountGuard.Marked(t, s) ensures SectionIsOut(more, s, cfg, src) {
      var b :| 0 <= b < SectionSize(cfg.geo, s) && SegOf(cfg, src, AbsBlk(cfg.geo, s, b)) in net;
      assert SegOf(cfg, src, AbsBlk(cfg.geo, s, b)) in more;
    }
  }

  /** The complaint reaches the sender, and the blocks are sent again. */
  lemma {:induction false} Repairs(o: World, w: World, r: nat, src: seq<Byte>) returns (v: World)
    requires Under(o, w, src) && r in w.rcv && Partly(w.rcv[r], r, w.snd.cfg, src) && Called(w.net, r, w.snd.cfg)
    requires Repair.Waiting(w.snd) && Unserved(w.snd, r) && OthersNoError(w.snd, r)
    requires Feedback.MissingBlocks(w.rcv[r]) != {}
    ensures Under(o, v, src) && v.rcv == w.rcv && w.net <= v.net
    ensures v.snd.phase == S.WaitingClientStatus && !v.snd.fault && r in v.snd.standing
    ensures MissingIsOut(v.net, v.rcv[r], v.snd.cfg, src)
  {
    var a := Complains(o, w, r, src);
    var b := OthersSettle(o, a, r, src);
    NakStays(b.snd, r);
    v := Resends(o, b, r, src);
  }

  /** Take any reachable world in which the sender waits for answers and a receiver that it has not given up
      has opened the file and seen every section; let no other receiver's silence be an error. From there a
      run leads to a world in which the sender holds the receiver to be done, nothing is left to its file
      thread, and the source is on its disk. */
  lemma {:induction false} RepairSucceeds(w: World, r: nat, src: seq<Byte>) returns (v: World)
    requires Reachable(w, src) && Repair.Waiting(w.snd) && Unserved(w.snd, r) && OthersNoError(w.snd, r)
    requires HasSeen(w, r)
    ensures Leads(w, v, src) && r in v.snd.standing && v.snd.standing[r] == S.DoneWithFile
    ensures r in v.rcv && v.rcv[r].jobs == [] && v.rcv[r].file == Disk.File(Disk.Closed, src)
  {
    StartsHere(w, src);
    IsPartly(w, r, src);
    WasCalled(w, r, src);
    var b;
    if w.rcv[r].phase == R.Completed {
      b := Concludes(w, w, r, src);
    } else {
      IsFixable(w, r, src);
      var a := w;
      if Feedback.MissingBlocks(w.rcv[r]) != {} {
        a := Repairs(w, w, r, src);
        CalledStays(w.net, a.net, r, w.snd.cfg);
        FixableGrows(w.net, a.net, w.rcv[r], w.snd.cfg, src);
      }
      b := Finishes(w, a, r, src);
    }
    v := Writes(w, b, r, src);
  }
}
