/** The byte format joined to the whole system: what a run puts on the network fits the fields of its
    packet, and so is delivered unchanged. */
module OnTheWire {
  import opened Common
  import opened Geometry
  import opened Messages
  import opened Protocol
  import opened Wire
  import S = Sender
  import R = Receiver
  import Packing
  import InitialPass

  /** The messages whose bytes Wire.dfy describes. */
  predicate HasBytes(m: Message) {
    m.FileSeg? || m.Done? || m.Status? || m.Complete?
  }

  ghost predicate AllFit(net: set<Message>) {
    forall m :: m in net && HasBytes(m) ==> Sendable(m)
  }

  /** A file id of 16 bits, and member ids of 32. */
  predicate NumbersFit(t: S.Task) {
    t.cfg.fileId < 0x1_0000 && forall id :: id in t.standing ==> id < 0x1_0000_0000
  }

  // ----- The sender -----

  lemma SegFits(cfg: S.Config, src: seq<Byte>, abs: nat)
    requires Valid(cfg.geo) && cfg.fileId < 0x1_0000
    ensures Sendable(SegOf(cfg, src, abs))
  {
  }

  lemma {:induction false} SelectedAreEntries(rs: seq<Packing.Entry>, room: nat, list: seq<nat>, id: nat)
    requires room > 0 && list in Packing.Pack(rs, room) && id in list
    ensures exists k :: 0 <= k < |rs| && rs[k].id == id
  {
    Packing.FindsItselfIff(rs, room, id);
    var e :| e in rs && e.selected && e.id == id;
    var k :| 0 <= k < |rs| && rs[k] == e;
  }

  lemma {:induction false} ListsFit(t: S.Task, room: nat, list: seq<nat>)
    requires NumbersFit(t) && room > 0 && list in Packing.Pack(S.DoneEntries(t), room)
    ensures AreIds(list)
  {
    forall j | 0 <= j < |list| ensures list[j] < 0x1_0000_0000 {
      SelectedAreEntries(S.DoneEntries(t), room, list, list[j]);
      var k :| 0 <= k < |S.DoneEntries(t)| && S.DoneEntries(t)[k].id == list[j];
      assert Ascending(t.standing.Keys)[k] in t.standing.Keys;
    }
  }

  lemma {:induction false} DonesFit(t: S.Task)
    requires Valid(t.cfg.geo) && t.cfg.geo.blockSize >= 4 && NumbersFit(t)
    ensures forall m :: m in S.DonePackets(t) ==> Sendable(m)
  {
    var lists := Packing.Pack(S.DoneEntries(t), t.cfg.geo.blockSize / 4);
    forall k | 0 <= k < |lists| ensures Sendable(S.DonePackets(t)[k]) {
      ListsFit(t, t.cfg.geo.blockSize / 4, lists[k]);
    }
  }

  lemma EmittedFits(t: S.Task, i: S.Input, src: seq<Byte>)
    requires Valid(t.cfg.geo) && t.cfg.geo.blockSize >= 4 && NumbersFit(t)
    ensures AllFit(Emitted(t, i, src))
  {
    if t.thread.InFlight? {
      SegFits(t.cfg, src, t.thread.blk);
    }
    if t.blockedMsg.Some? {
      SegFits(t.cfg, src, t.blockedMsg.value);
    }
    DonesFit(t);
  }

  // ----- A receiver -----

  lemma {:induction false} ReportsFit(t: R.Task, sect: nat, last: nat)
    requires t.fileId < 0x1_0000 && last < 0x1_0000
    ensures forall m :: m in R.ReportFrom(t, sect, last).1 ==> m.Status? && Sendable(m)
    decreases last + 1 - sect
  {
    if !t.fault && sect <= last && sect < |t.completed| {
      if t.completed[sect] {
        ReportsFit(t, sect + 1, last);
      } else {
        ReportsFit(R.ReportStatus(t, sect).0, sect + 1, last);
      }
    }
  }

  lemma ReplyFits(t: R.Task, m: Message, target: R.Target, cfg: S.Config, src: seq<Byte>)
    requires Transferable(cfg, src) && Sound(t, cfg, src) && Truthful(m, cfg, src) && cfg.fileId < 0x1_0000
    ensures forall s :: s in Receive(t, m, target).1 && HasBytes(s) ==> Sendable(s)
  {
    TransferableIsValid(cfg, src);
    if m.Done? && !t.fault {
      ReportsFit(t, 0, m.lastSect);
    }
  }

  // ----- Every run -----

  lemma NextFits(w: World, a: Action, src: seq<Byte>)
    requires Inv(w, src) && Valid(w.snd.cfg.geo) && NumbersFit(w.snd) && AllFit(w.net)
    ensures NumbersFit(Next(w, a, src).snd) && AllFit(Next(w, a, src).net)
  {
    match a
    case Announces(room) =>
    case SenderActs(i) =>
      S.StepKeepsConfig(w.snd, i);
      EmittedFits(w.snd, i, src);
    case Delivers(m, to, target) =>
      if m in w.net && to in w.rcv {
        ReplyFits(w.rcv[to], m, target, w.snd.cfg, src);
      }
    case FileThreadOf(id) =>
  }

  lemma {:induction false} RunsFit(ws: seq<World>, src: seq<Byte>)
    requires IsRun(ws, src) && NumbersFit(ws[0].snd)
    ensures NumbersFit(ws[|ws| - 1].snd) && AllFit(ws[|ws| - 1].net)
  {
    if |ws| > 1 {
      var pre := ws[..|ws| - 1];
      RunsFit(pre, src);
      RunsAreSound(pre, src);
      var w := pre[|pre| - 1];
      assert Follows(w, ws[|ws| - 1], src);
      var a :| ws[|ws| - 1] == Next(w, a, src);
      NextFits(w, a, src);
    }
  }

  /** In every run, with a file id of 16 bits and member ids of 32: each FILE_SEG, DONE, STATUS and COMPLETE
      on the network can be built, and whatever the byte orders of the host that builds it and the one that
      parses it, what is parsed is the same message. */
  lemma {:induction false} PacketsArriveAsSent(ws: seq<World>, src: seq<Byte>, m: Message, h: Host, k: Host)
    requires IsRun(ws, src) && NumbersFit(ws[0].snd) && m in ws[|ws| - 1].net && HasBytes(m)
    ensures Sendable(m) && Parse(k, SourceOf(m), Build(h, m)) == Some(m)
  {
    RunsFit(ws, src);
    BuildThenParse(h, k, m);
  }

  /** The length at which the rate control counts a block's packet is that of the protocol header and of the bytes
      of its FILE_SEG on the wire. */
  lemma SegLength(t: S.Task, src: seq<Byte>, abs: nat, h: Host)
    requires Transferable(t.cfg, src) && abs < t.cfg.geo.blockCount && Valid(t.cfg.geo)
    requires t.cfg.fileId < 0x1_0000
    ensures Sendable(SegOf(t.cfg, src, abs))
    ensures InitialPass.SegPacket(t, abs).length == 16 + |Build(h, SegOf(t.cfg, src, abs))|
    ensures InitialPass.SegPacket(t, abs).block == Some(abs)
  {
    TransferableIsValid(t.cfg, src);
    SegFits(t.cfg, src, abs);
    BlocksTile(t.cfg.geo, abs);
    assert Offset(t.cfg.geo, abs) == t.cfg.geo.blockSize * abs;
  }
}
