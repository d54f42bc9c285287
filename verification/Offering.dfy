/** Announcements that do not lead straight on to the data: a receiver that has the file already or will not have
    it, one whose acknowledgement is lost, and what a receiver makes of a FILE_INFO at other times. */
module Offering {
  import opened Common
  import opened Geometry
  import opened Messages
  import opened Protocol
  import opened Lossless
  import opened Recovery
  import S = Sender
  import R = Receiver
  import Addressing

  // ----- What a receiver makes of it -----

  /** A FILE_INFO is answered in two cases only: by a receiver that it names and that waits for one, and, with the
      same acknowledgement again, by one that is receiving that very file. The latter changes nothing. */
  lemma FileInfoAnsweredIff(t: R.Task, m: Message, target: R.Target)
    requires m.FileInfo?
    ensures R.OnFileInfo(t, m, target) != (t, []) ==> !t.fault && t.self in m.infoFor
    ensures !t.fault && t.phase != R.WaitingFileInfo ==>
              var (u, sent) := R.OnFileInfo(t, m, target);
              && u == t
              && (sent == [] || sent == [FileInfoAck(t.self, m.infoId, false)])
              && (sent != [] <==> t.self in m.infoFor && t.phase == R.ReceivingBlobs && m.infoId == t.fileId != 0)
  {
  }

  /** A receiver that waits for the file and is named learns its number and size, counts nothing as complete, and
      answers with an acknowledgement, or with what its file system says of the file. It faults exactly if there
      are no blocks to be shared out, or a multiple of 2^16 sections. */
  lemma FileInfoLearned(t: R.Task, m: Message, target: R.Target)
    requires m.FileInfo? && !t.fault && t.phase == R.WaitingFileInfo && t.self in m.infoFor
    ensures var size := m.sizeHigh * 0x1_0000_0000 + m.sizeLow;
            var (u, sent) := R.OnFileInfo(t, m, target);
            && (u.fault <==> t.blockSize == 0 || WideSectionCount(size, t.blockSize) % 0x1_0000 == 0)
            && (u.fault ==> sent == [])
            && (!u.fault ==>
                  && u.fileId == m.infoId && u.geo.fileSize == size && u.geo.blockSize == t.blockSize
                  && |u.completed| == u.geo.sectionCount && R.NoneSet(u.completed) && u.records == t.records
                  && sent == match target
                             case Acceptable => [FileInfoAck(t.self, m.infoId, false)]
                             case AlreadyOnDisk => [Complete(t.self, m.infoId, NORMAL)]
                             case NotAcceptable => [Complete(t.self, m.infoId, REJECTED)])
  {
  }

  // ----- A receiver that declines -----

  /** How a receiver says that it will not be sent the file. */
  function Refusal(target: R.Target): nat {
    if target == R.AlreadyOnDisk then NORMAL else REJECTED
  }

  lemma Declines(t: R.Task, m: Message, cfg: S.Config, src: seq<Byte>, target: R.Target)
    requires Transferable(cfg, src) && Untouched(t) && t.blockSize == cfg.geo.blockSize && target != R.Acceptable
    requires m.FileInfo? && t.self in m.infoFor && m.infoId == cfg.fileId
    requires m.sizeHigh * 0x1_0000_0000 + m.sizeLow == |src|
    ensures var (u, sent) := R.OnFileInfo(t, m, target);
            && sent == [Complete(t.self, cfg.fileId, Refusal(target))]
            && u.phase == (if target == R.AlreadyOnDisk then R.Completed else R.Rejected)
            && u.file == t.file && u.jobs == [] && !u.fault
  {
  }

  lemma HearsRefusal(t: S.Task, r: nat, sub: nat)
    requires t == S.Created(t.cfg, map[r := S.Registered])
    ensures S.Step(t, S.MessageArrives(Complete(r, t.cfg.fileId, sub)))
            == t.(standing := map[r := S.DoneWithFile], log := [S.FileComplete])
  {
    var done := map[r := S.Registered][r := S.DoneWithFile];
    assert done == map[r := S.DoneWithFile];
    assert S.AllIn(done, {S.DoneWithFile});
  }

  lemma StartsUnder(w: World, r: nat, src: seq<Byte>)
    requires Start(w, r, src)
    ensures Under(w, w, src)
  {
    TransferableIsValid(w.snd.cfg, src);
    LeadsNowhere(w, src);
  }

  lemma Declining(o: World, w: World, r: nat, src: seq<Byte>, m: Message, target: R.Target) returns (v: World)
    requires Under(o, w, src) && Offered(w, r, src, m) && target != R.Acceptable
    ensures Under(o, v, src) && v.snd == w.snd && Complete(r, w.snd.cfg.fileId, Refusal(target)) in v.net
    ensures r in v.rcv && v.rcv[r].phase == (if target == R.AlreadyOnDisk then R.Completed else R.Rejected)
    ensures v.rcv[r].file.stream.NotOpened? && v.rcv[r].jobs == []
  {
    Declines(w.rcv[r], m, w.snd.cfg, src, target);
    v := Next(w, Delivers(m, r, target), src);
    Moves(o, w, Delivers(m, r, target), src);
  }

  lemma IsOffered(w: World, r: nat, src: seq<Byte>) returns (v: World, m: Message)
    requires Start(w, r, src)
    ensures Under(w, v, src) && Offered(v, r, src, m) && v.snd == w.snd
  {
    TransferableIsValid(w.snd.cfg, src);
    StartsUnder(w, r, src);
    m := SomeFileInfo(w, r, src);
    v := Next(w, Announces(1), src);
    Moves(w, w, Announces(1), src);
  }

  /** From every start with one receiver that has the file on disk already or will not accept it, a run leads to
      a world in which the sender, while it still announces, holds the receiver to be done and the file to be
      complete, and the receiver never opened the file. */
  lemma DecliningSucceeds(w: World, r: nat, src: seq<Byte>, target: R.Target) returns (v: World)
    requires Start(w, r, src) && target != R.Acceptable
    ensures Leads(w, v, src)
    ensures v.snd == w.snd.(standing := map[r := S.DoneWithFile], log := [S.FileComplete])
    ensures r in v.rcv && v.rcv[r].phase == (if target == R.AlreadyOnDisk then R.Completed else R.Rejected)
    ensures v.rcv[r].file.stream.NotOpened? && v.rcv[r].jobs == []
  {
    var a, m := IsOffered(w, r, src);
    var b := Declining(w, a, r, src, m, target);
    HearsRefusal(b.snd, r, Refusal(target));
    v := SenderMoves(w, b, S.MessageArrives(Complete(r, w.snd.cfg.fileId, Refusal(target))), src);
  }

  // ----- An acknowledgement that is lost -----

  /** r has opened the file, and the sender, which still announces it, does not know. */
  ghost predicate Unheard(w: World, r: nat) {
    && w.snd.phase == S.Announcing && !w.snd.fault && r in w.snd.standing && w.snd.standing[r] == S.Registered
    && r in w.rcv && !w.rcv[r].fault && w.rcv[r].phase == R.ReceivingBlobs
  }

  lemma AnnouncedTo(w: World, r: nat, src: seq<Byte>) returns (m: Message)
    requires Transferable(w.snd.cfg, src) && r in w.snd.standing && w.snd.standing[r] == S.Registered
    ensures m in FileInfoPackets(w.snd, 1) && m.FileInfo? && r in m.infoFor && m.infoId == w.snd.cfg.fileId
  {
    Addressing.FileInfoReachesIff(w.snd, 1, r);
    m :| m in FileInfoPackets(w.snd, 1) && m.FileInfo? && r in m.infoFor;
  }

  lemma HearsRepeated(t: S.Task, r: nat)
    requires !t.fault && t.phase == S.Announcing && r in t.standing
    ensures S.Step(t, S.MessageArrives(FileInfoAck(r, t.cfg.fileId, false)))
            == t.(standing := t.standing[r := S.Active])
  {
  }

  /** A lost acknowledgement is made good: let everything on its way be lost while the sender still announces; the
      next announcement finds the receiver receiving, is acknowledged again, and disturbs nothing. */
  lemma LostAckIsMadeGood(w: World, r: nat, src: seq<Byte>) returns (v: World)
    requires Reachable(w, src) && Unheard(w, r)
    ensures Leads(w.(net := {}), v, src)
    ensures v.rcv == w.rcv && v.snd == w.snd.(standing := w.snd.standing[r := S.Active])
  {
    StartsHere(w, src);
    IsReceiving(w, r, src);
    var o := w.(net := {});
    LeadsNowhere(o, src);
    v := AcknowledgesAgain(o, r, src);
  }

  lemma IsReceiving(w: World, r: nat, src: seq<Byte>)
    requires Reachable(w, src) && Unheard(w, r)
    ensures w.rcv[r].self == r && w.rcv[r].fileId == w.snd.cfg.fileId != 0
  {
    ReachableIsDocumented(w, src);
    assert Sound(w.rcv[r], w.snd.cfg, src);
  }

  lemma AcknowledgesAgain(o: World, r: nat, src: seq<Byte>) returns (v: World)
    requires Under(o, o, src) && Unheard(o, r) && o.rcv[r].self == r && o.rcv[r].fileId == o.snd.cfg.fileId != 0
    ensures Under(o, v, src)
    ensures v.rcv == o.rcv && v.snd == o.snd.(standing := o.snd.standing[r := S.Active])
  {
    var m := AnnouncedTo(o, r, src);
    var a := Next(o, Announces(1), src);
    Moves(o, o, Announces(1), src);
    FileInfoAnsweredIff(a.rcv[r], m, R.Acceptable);
    var b := Delivery(o, a, r, m, src);
    assert b.rcv == o.rcv;
    HearsRepeated(b.snd, r);
    v := SenderMoves(o, b, S.MessageArrives(FileInfoAck(r, o.snd.cfg.fileId, false)), src);
  }
}
