/** Whom the sender's DONE and FILE_INFO packets reach (sender/detail/file_send_task.cpp:125-128,385-388,
    together with the packing of sender/detail/worker.cpp:134-150,306-331). */
module Addressing {
  import opened Common
  import opened Messages
  import opened Packing
  import S = Sender
  import P = Protocol

  /** The entries of a filtered map name each receiver once, with what the filter says of it. */
  lemma {:induction false} EntriesOf(standing: map<nat, S.Standing>, rs: seq<Entry>, id: nat)
    requires var ids := Ascending(standing.Keys); |rs| == |ids| && forall k :: 0 <= k < |ids| ==> rs[k].id == ids[k]
    ensures id in standing ==> exists k :: 0 <= k < |rs| && rs[k].id == id
    ensures (exists e :: e in rs && e.selected && e.id == id)
            <==> exists k :: 0 <= k < |rs| && rs[k].id == id && rs[k].selected
  {
    var ids := Ascending(standing.Keys);
    if id in standing {
      var k :| 0 <= k < |ids| && ids[k] == id;
      assert rs[k].id == id;
    }
    if k :| 0 <= k < |rs| && rs[k].id == id && rs[k].selected {
      assert rs[k] in rs;
    }
  }

  lemma {:induction false} DonePickedIff(t: S.Task, id: nat)
    ensures (exists e :: e in S.DoneEntries(t) && e.selected && e.id == id)
            <==> id in t.standing && (t.standing[id] == S.Active || t.standing[id] == S.ActiveNak)
  {
    var rs := S.DoneEntries(t);
    EntriesOf(t.standing, rs, id);
    if id in t.standing {
      var k :| 0 <= k < |rs| && rs[k].id == id;
    }
  }

  lemma {:induction false} DoneListedIff(t: S.Task, room: nat, id: nat)
    requires room > 0
    ensures (exists l :: l in Pack(S.DoneEntries(t), room) && id in l)
            <==> id in t.standing && (t.standing[id] == S.Active || t.standing[id] == S.ActiveNak)
  {
    FindsItselfIff(S.DoneEntries(t), room, id);
    DonePickedIff(t, id);
  }

  lemma {:induction false} DonePacketAt(t: S.Task, k: nat)
    requires t.cfg.geo.blockSize >= 4
    ensures |S.DonePackets(t)| == |Pack(S.DoneEntries(t), t.cfg.geo.blockSize / 4)|
    ensures k < |S.DonePackets(t)| ==>
              var m := S.DonePackets(t)[k];
              m.Done? && m.doneId == t.cfg.fileId && m.doneFor == Pack(S.DoneEntries(t), t.cfg.geo.blockSize / 4)[k]
              && m.lastSect == (if t.cfg.geo.sectionCount > 0 then t.cfg.geo.sectionCount - 1 else 0)
  {
  }

  predicate NamedInDone(packets: seq<Message>, id: nat) {
    exists k :: 0 <= k < |packets| && packets[k].Done? && id in packets[k].doneFor
  }

  /** A receiver finds itself in one of the DONE packets if and only if it is active or has NAKs
      outstanding. */
  lemma {:induction false} DoneReachesIff(t: S.Task, id: nat)
    requires t.cfg.geo.blockSize >= 4
    ensures NamedInDone(S.DonePackets(t), id)
            <==> id in t.standing && (t.standing[id] == S.Active || t.standing[id] == S.ActiveNak)
  {
    var lists, packets := Pack(S.DoneEntries(t), t.cfg.geo.blockSize / 4), S.DonePackets(t);
    DoneListedIff(t, t.cfg.geo.blockSize / 4, id);
    if l :| l in lists && id in l {
      var j :| 0 <= j < |lists| && lists[j] == l;
      DonePacketAt(t, j);
    }
    if j :| 0 <= j < |packets| && packets[j].Done? && id in packets[j].doneFor {
      DonePacketAt(t, j);
      assert lists[j] in lists;
    }
  }

  /** Each DONE packet names the file and its last section, its ids fit its body, and only the last one's body has
      room for more. */
  lemma {:induction false} DonePacketFits(t: S.Task, k: nat)
    requires t.cfg.geo.blockSize >= 4 && k < |S.DonePackets(t)|
    ensures var m := S.DonePackets(t)[k];
            m.Done? && m.doneId == t.cfg.fileId && 4 * |m.doneFor| <= t.cfg.geo.blockSize
            && m.lastSect == (if t.cfg.geo.sectionCount > 0 then t.cfg.geo.sectionCount - 1 else 0)
            && (k + 1 < |S.DonePackets(t)| ==> 4 * (|m.doneFor| + 1) > t.cfg.geo.blockSize)
  {
    DonePacketAt(t, k);
    PackIsComplete(S.DoneEntries(t), t.cfg.geo.blockSize / 4);
  }

  lemma {:induction false} AnnouncePickedIff(t: S.Task, id: nat)
    ensures (exists e :: e in P.AnnounceEntries(t) && e.selected && e.id == id)
            <==> id in t.standing && t.standing[id] == S.Registered
  {
    var rs := P.AnnounceEntries(t);
    EntriesOf(t.standing, rs, id);
    if id in t.standing {
      var k :| 0 <= k < |rs| && rs[k].id == id;
    }
  }

  lemma {:induction false} FileInfoListedIff(t: S.Task, room: nat, id: nat)
    requires room > 0
    ensures (exists l :: l in Pack(P.AnnounceEntries(t), room) && id in l)
            <==> id in t.standing && t.standing[id] == S.Registered
  {
    FindsItselfIff(P.AnnounceEntries(t), room, id);
    AnnouncePickedIff(t, id);
  }

  /** A FILE_INFO reaches exactly the receivers that are registered and have not answered. */
  lemma {:induction false} FileInfoReachesIff(t: S.Task, room: nat, id: nat)
    requires room > 0
    ensures (exists m :: m in P.FileInfoPackets(t, room) && m.FileInfo? && id in m.infoFor)
            <==> id in t.standing && t.standing[id] == S.Registered
  {
    FileInfoListedIff(t, room, id);
    if l :| l in Pack(P.AnnounceEntries(t), room) && id in l {
      assert P.FileInfoOf(t, l) in P.FileInfoPackets(t, room) && id in P.FileInfoOf(t, l).infoFor;
    }
  }
}
