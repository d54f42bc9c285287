/** The receiver's completion test (receiver/detail/file_receive_task.cpp:308-324) over whole
    sequences of deliveries. The test looks at the bitset only when a 32-bit count, which repeated
    deliveries inflate and 2^32 of them wrap, has reached the size of the section. */
module CountGuard {
  import opened Common
  import opened Geometry
  import opened Messages
  import opened Receiver
  import opened ReceiverFacts

  /** A receiver that has just opened its file. */
  ghost predicate Fresh(t: Task, src: seq<Byte>) {
    Receiving(t, src) && !t.fault && t.phase == ReceivingBlobs && t.fileId != 0 &&
    t.records == map[] && NoneSet(t.completed)
  }

  /** The state after the deliveries ms, in order. */
  function DeliverAll(t: Task, ms: seq<Message>): (u: Task)
    requires forall m :: m in ms ==> m.FileSeg?
    ensures u.geo == t.geo && u.fileId == t.fileId && u.self == t.self && u.file == t.file
  {
    if ms == [] then t else OnDataBlock(DeliverAll(t, ms[..|ms| - 1]), ms[|ms| - 1])
  }

  /** Deliveries of blocks of the source, in any order and with any repetition. */
  ghost predicate Deliveries(ms: seq<Message>, t: Task, src: seq<Byte>) {
    forall m :: m in ms ==> m.FileSeg? && m.segId == t.fileId && GoodBlock(m, src, t.geo)
  }

  predicate Delivered(ms: seq<Message>, s: nat, b: nat) {
    exists m :: m in ms && m.FileSeg? && m.sect == s && m.blk == b
  }

  predicate AllDelivered(ms: seq<Message>, g: Geo, s: nat) {
    forall b :: 0 <= b < SectionSize(g, s) ==> Delivered(ms, s, b)
  }

  /** How many deliveries were for section s. */
  function DeliveriesTo(ms: seq<Message>, s: nat): nat {
    if ms == [] then 0
    else DeliveriesTo(ms[..|ms| - 1], s) +
         if ms[|ms| - 1].FileSeg? && ms[|ms| - 1].sect == s then 1 else 0
  }

  /** At some point every block of the section had arrived and the count, as stored, had reached
      the section's size. */
  ghost predicate SeenComplete(ms: seq<Message>, g: Geo, s: nat) {
    exists k :: 0 <= k <= |ms| && AllDelivered(ms[..k], g, s)
                && DeliveriesTo(ms[..k], s) % 0x1_0000_0000 >= SectionSize(g, s)
  }

  lemma {:induction false} SeenCompleteNext(ms: seq<Message>, m: Message, g: Geo, s: nat)
    ensures SeenComplete(ms + [m], g, s) <==>
            SeenComplete(ms, g, s) ||
            (AllDelivered(ms + [m], g, s) && DeliveriesTo(ms + [m], s) % 0x1_0000_0000 >= SectionSize(g, s))
  {
    var all := ms + [m];
    assert all[..|all|] == all;
    forall k | 0 <= k <= |ms| ensures all[..k] == ms[..k] {
    }
    if SeenComplete(ms, g, s) {
      var k :| 0 <= k <= |ms| && AllDelivered(ms[..k], g, s)
               && DeliveriesTo(ms[..k], s) % 0x1_0000_0000 >= SectionSize(g, s);
      assert all[..k] == ms[..k];
    }
  }

  /** What one delivery does to the record of its section and to the other records. */
  lemma {:induction false} RecordsAfterDelivery(t: Task, m: Message)
    requires Consistent(t) && !t.fault && t.phase == ReceivingBlobs
    requires m.FileSeg? && m.segId != 0 && m.segId == t.fileId && IsBlock(t.geo, m.sect, m.blk)
    requires m.sect in t.records ==> t.records[m.sect].missing != []
    ensures var u := OnDataBlock(t, m);
            && u.records.Keys == t.records.Keys + {m.sect}
            && (forall s :: s in t.records && s != m.sect ==> u.records[s] == t.records[s])
            && u.records[m.sect].count == (RecordFor(t, m.sect).count + 1) % 0x1_0000_0000
            && |u.records[m.sect].missing| == SectionSize(t.geo, m.sect)
            && |u.completed| == |t.completed|
            && (forall s :: 0 <= s < |t.completed| && s != m.sect ==> u.completed[s] == t.completed[s])
            && (u.completed[m.sect] <==>
                  t.completed[m.sect] ||
                  (u.records[m.sect].count >= SectionSize(t.geo, m.sect) && NoneSet(u.records[m.sect].missing)))
  {
    DeliveryMarks(t, m);
  }

  /** The bitsets hold exactly the blocks that have not arrived, and the counts count deliveries
      modulo 2^32. */
  ghost predicate Tallies(u: Task, ms: seq<Message>) {
    && (forall s, b :: IsBlock(u.geo, s, b) ==> (Arrived(u, s, b) <==> Delivered(ms, s, b)))
    && (forall s :: s in u.records <==> DeliveriesTo(ms, s) > 0)
    && (forall s :: s in u.records ==> u.records[s].missing != [])
    && (forall s :: s in u.records ==> u.records[s].count == DeliveriesTo(ms, s) % 0x1_0000_0000)
  }

  predicate Marked(u: Task, s: nat) {
    s < |u.completed| && u.completed[s]
  }

  /** A section is marked complete just when it was once seen complete. */
  ghost predicate MarksWhatWasSeen(u: Task, ms: seq<Message>) {
    forall s :: 0 <= s < u.geo.sectionCount ==> (Marked(u, s) <==> SeenComplete(ms, u.geo, s))
  }

  lemma {:induction false} TallyStep(v: Task, pre: seq<Message>, m: Message)
    requires Consistent(v) && !v.fault && v.phase == ReceivingBlobs && Tallies(v, pre)
    requires m.FileSeg? && m.segId != 0 && m.segId == v.fileId && IsBlock(v.geo, m.sect, m.blk)
    ensures var u := OnDataBlock(v, m);
            !u.fault && Tallies(u, pre + [m])
  {
    DeliveryMarks(v, m);
    OneMoreDelivery(pre, m);
    var u := OnDataBlock(v, m);
    assert forall s, b :: IsBlock(u.geo, s, b) ==> (Arrived(u, s, b) <==> Delivered(pre + [m], s, b));
    KeysStep(v, pre, m);
    CountStep(v, pre, m);
  }

  lemma {:induction false} KeysStep(v: Task, pre: seq<Message>, m: Message)
    requires Consistent(v) && !v.fault && v.phase == ReceivingBlobs && Tallies(v, pre)
    requires m.FileSeg? && m.segId != 0 && m.segId == v.fileId && IsBlock(v.geo, m.sect, m.blk)
    ensures forall s :: s in OnDataBlock(v, m).records <==> DeliveriesTo(pre + [m], s) > 0
    ensures forall s :: s in OnDataBlock(v, m).records ==> OnDataBlock(v, m).records[s].missing != []
  {
    RecordsAfterDelivery(v, m);
    OneMoreDelivery(pre, m);
  }

  lemma ModNext(n: nat)
    ensures ((n % 0x1_0000_0000) + 1) % 0x1_0000_0000 == (n + 1) % 0x1_0000_0000
  {
  }

  lemma {:induction false} CountStep(v: Task, pre: seq<Message>, m: Message)
    requires Consistent(v) && !v.fault && v.phase == ReceivingBlobs && Tallies(v, pre)
    requires m.FileSeg? && m.segId != 0 && m.segId == v.fileId && IsBlock(v.geo, m.sect, m.blk)
    ensures var u := OnDataBlock(v, m);
            forall s :: s in u.records ==> u.records[s].count == DeliveriesTo(pre + [m], s) % 0x1_0000_0000
  {
    RecordsAfterDelivery(v, m);
    var u := OnDataBlock(v, m);
    forall s | s in u.records
      ensures u.records[s].count == DeliveriesTo(pre + [m], s) % 0x1_0000_0000
    {
      assert (pre + [m])[..|pre|] == pre;
      if s == m.sect {
        ModNext(DeliveriesTo(pre, s));
        assert RecordFor(v, s).count == DeliveriesTo(pre, s) % 0x1_0000_0000;
      } else {
        assert u.records[s] == v.records[s];
      }
    }
  }

  lemma {:induction false} MarkStep(v: Task, pre: seq<Message>, m: Message)
    requires Consistent(v) && !v.fault && v.phase == ReceivingBlobs && Tallies(v, pre) && MarksWhatWasSeen(v, pre)
    requires m.FileSeg? && m.segId != 0 && m.segId == v.fileId && IsBlock(v.geo, m.sect, m.blk)
    ensures MarksWhatWasSeen(OnDataBlock(v, m), pre + [m])
  {
    var u := OnDataBlock(v, m);
    DeliveryMarks(v, m);
    RecordsAfterDelivery(v, m);
    TallyStep(v, pre, m);
    forall s | 0 <= s < u.geo.sectionCount
      ensures Marked(u, s) <==> SeenComplete(pre + [m], u.geo, s)
    {
      SeenCompleteNext(pre, m, u.geo, s);
      if s == m.sect {
        NoneMissingIffAllDelivered(u, pre + [m], s);
      } else if AllDelivered(pre + [m], u.geo, s)
                && DeliveriesTo(pre + [m], s) % 0x1_0000_0000 >= SectionSize(u.geo, s) {
        OtherSectionUnmoved(pre, m, u.geo, s);
      }
    }
  }

  /** u is what the deliveries ms make of the fresh receiver t: exact bitsets and counts, and a
      section marked complete just when it was once seen complete. */
  ghost predicate Booked(u: Task, t: Task, ms: seq<Message>, src: seq<Byte>) {
    && !u.fault && Receiving(u, src) && u.phase == ReceivingBlobs
    && u.geo == t.geo && u.fileId == t.fileId && u.self == t.self
    && Tallies(u, ms) && MarksWhatWasSeen(u, ms)
  }

  lemma {:induction false} BookedAtFirst(t: Task, src: seq<Byte>)
    requires Fresh(t, src)
    ensures Booked(t, t, [], src)
  {
    forall s | 0 <= s < t.geo.sectionCount
      ensures !SeenComplete([], t.geo, s)
    {
      assert SectionSize(t.geo, s) > 0;
      assert !Delivered([], s, 0);
    }
  }

  lemma {:induction false} BookedStep(v: Task, t: Task, pre: seq<Message>, m: Message, src: seq<Byte>)
    requires Fresh(t, src) && Booked(v, t, pre, src)
    requires m.FileSeg? && m.segId == t.fileId && GoodBlock(m, src, t.geo)
    ensures Booked(OnDataBlock(v, m), t, pre + [m], src)
  {
    TallyStep(v, pre, m);
    MarkStep(v, pre, m);
    DeliverySucceeds(v, m, src);
  }

  lemma {:induction false} DeliverySucceeds(v: Task, m: Message, src: seq<Byte>)
    requires Receiving(v, src) && !v.fault && v.phase == ReceivingBlobs && v.fileId != 0
    requires m.FileSeg? && m.segId == v.fileId && GoodBlock(m, src, v.geo)
    requires m.sect in v.records ==> v.records[m.sect].missing != []
    ensures var u := OnDataBlock(v, m);
            !u.fault && Receiving(u, src) && u.phase == ReceivingBlobs
            && u.geo == v.geo && u.fileId == v.fileId && u.self == v.self
  {
    DataBlockKeeps(v, m, src);
    DeliveryMarks(v, m);
  }

  /** The bookkeeping after any deliveries is exact, and no delivery faults. */
  lemma {:induction false} BookkeepingIsExact(t: Task, ms: seq<Message>, src: seq<Byte>)
    requires Fresh(t, src) && Deliveries(ms, t, src)
    ensures Booked(DeliverAll(t, ms), t, ms, src)
  {
    if ms == [] {
      BookedAtFirst(t, src);
    } else {
      var pre, m := ms[..|ms| - 1], ms[|ms| - 1];
      assert ms == pre + [m];
      BookkeepingIsExact(t, pre, src);
      BookedStep(DeliverAll(t, pre), t, pre, m, src);
    }
  }

  /** The blocks of section s that were delivered are no more than the deliveries to it. */
  lemma {:induction false} DistinctAtMostDeliveries(ms: seq<Message>, s: nat, bs: set<nat>)
    requires forall b :: b in bs ==> Delivered(ms, s, b)
    ensures |bs| <= DeliveriesTo(ms, s)
  {
    if ms == [] {
      assert forall b :: !Delivered(ms, s, b);
    } else {
      var pre, m := ms[..|ms| - 1], ms[|ms| - 1];
      assert ms == pre + [m];
      var rest := if m.FileSeg? && m.sect == s then bs - {m.blk} else bs;
      assert bs <= rest + (if m.FileSeg? && m.sect == s then {m.blk} else {});
      forall b | b in rest ensures Delivered(pre, s, b) {
        assert Delivered(ms, s, b);
      }
      DistinctAtMostDeliveries(pre, s, rest);
      if m.FileSeg? && m.sect == s && m.blk in bs {
        assert |rest| == |bs| - 1;
      }
    }
  }

  function BlocksBelow(n: nat): (r: set<nat>)
    ensures forall b :: b in r <==> 0 <= b < n
    ensures |r| == n
  {
    if n == 0 then {} else BlocksBelow(n - 1) + {n - 1}
  }

  lemma {:induction false} SeenIffAllDelivered(ms: seq<Message>, g: Geo, s: nat)
    requires DeliveriesTo(ms, s) < 0x1_0000_0000
    ensures SeenComplete(ms, g, s) <==> AllDelivered(ms, g, s)
  {
    assert ms[..|ms|] == ms;
    if AllDelivered(ms, g, s) {
      DistinctAtMostDeliveries(ms, s, BlocksBelow(SectionSize(g, s)));
      assert DeliveriesTo(ms, s) % 0x1_0000_0000 == DeliveriesTo(ms, s);
    }
    if SeenComplete(ms, g, s) {
      var k :| 0 <= k <= |ms| && AllDelivered(ms[..k], g, s)
               && DeliveriesTo(ms[..k], s) % 0x1_0000_0000 >= SectionSize(g, s);
      forall b | 0 <= b < SectionSize(g, s) ensures Delivered(ms, s, b) {
        assert Delivered(ms[..k], s, b);
      }
    }
  }

  /** As long as a section has had fewer than 2^32 deliveries, the guard never hides completion:
      the section is marked complete just when every one of its blocks has arrived. */
  lemma {:induction false} GuardNeverHides(t: Task, ms: seq<Message>, src: seq<Byte>, s: nat)
    requires Fresh(t, src) && Deliveries(ms, t, src) && s < t.geo.sectionCount
    requires DeliveriesTo(ms, s) < 0x1_0000_0000
    ensures Marked(DeliverAll(t, ms), s) <==> AllDelivered(ms, t.geo, s)
  {
    BookkeepingIsExact(t, ms, src);
    SeenIffAllDelivered(ms, t.geo, s);
  }

  /** The good FILE_SEG of one block. */
  function Seg(t: Task, src: seq<Byte>, s: nat, b: nat): (m: Message)
    requires Consistent(t) && t.geo.fileSize == |src| && IsBlock(t.geo, s, b)
    ensures GoodBlock(m, src, t.geo) && m.segId == t.fileId && m.sect == s && m.blk == b
  {
    AbsBelow(t.geo, s, b);
    FileSeg(t.fileId, s, b, BlockData(src, t.geo, AbsBlk(t.geo, s, b)))
  }

  lemma {:induction false} AllToOneSection(ms: seq<Message>, s: nat)
    requires forall m :: m in ms ==> m.FileSeg? && m.sect == s
    ensures DeliveriesTo(ms, s) == |ms|
  {
    if ms != [] {
      AllToOneSection(ms[..|ms| - 1], s);
    }
  }

  /** A section whose last block arrives only with delivery number 2^32 is never seen complete. */
  lemma {:induction false} LastBlockAtWrap(ms: seq<Message>, g: Geo, s: nat)
    requires |ms| == 0x1_0000_0000 && SectionSize(g, s) > 0
    requires forall m :: m in ms ==> m.FileSeg? && m.sect == s
    requires forall i :: 0 <= i < |ms| - 1 ==> ms[i].blk != SectionSize(g, s) - 1
    ensures !SeenComplete(ms, g, s)
  {
    forall k | 0 <= k <= |ms|
      ensures !(AllDelivered(ms[..k], g, s) && DeliveriesTo(ms[..k], s) % 0x1_0000_0000 >= SectionSize(g, s))
    {
      if k < |ms| {
        assert !Delivered(ms[..k], s, SectionSize(g, s) - 1);
      } else {
        AllToOneSection(ms[..k], s);
      }
    }
  }

  /** Past that bound it can: enough repetitions of a section's first block, then its other blocks,
      bring the count to 2^32 just as the last block arrives, and the section is not marked. */
  lemma {:induction false} WrapHidesCompletion(t: Task, src: seq<Byte>, s: nat) returns (ms: seq<Message>)
    requires Fresh(t, src) && s < t.geo.sectionCount && SectionSize(t.geo, s) > 1
    ensures Deliveries(ms, t, src) && |ms| == 0x1_0000_0000
    ensures AllDelivered(ms, t.geo, s) && !Marked(DeliverAll(t, ms), s)
  {
    var n := SectionSize(t.geo, s);
    var first := 0x1_0000_0000 - n;
    ms := seq(0x1_0000_0000, i requires 0 <= i < 0x1_0000_0000 => Seg(t, src, s, if i < first then 0 else i - first));
    forall i | 0 <= i < |ms|
      ensures ms[i] == Seg(t, src, s, if i < first then 0 else i - first)
    {
    }
    forall b | 0 <= b < n ensures Delivered(ms, s, b) {
      assert ms[first + b] in ms;
    }
    BookkeepingIsExact(t, ms, src);
    LastBlockAtWrap(ms, t.geo, s);
  }

  lemma {:induction false} OneMoreDelivery(pre: seq<Message>, m: Message)
    requires m.FileSeg?
    ensures forall s, b :: Delivered(pre + [m], s, b) <==> Delivered(pre, s, b) || (s == m.sect && b == m.blk)
    ensures forall s :: DeliveriesTo(pre + [m], s) == DeliveriesTo(pre, s) + if s == m.sect then 1 else 0
  {
    assert (pre + [m])[..|pre|] == pre;
    forall s, b | Delivered(pre, s, b) ensures Delivered(pre + [m], s, b) {
      var n :| n in pre && n.FileSeg? && n.sect == s && n.blk == b;
      assert n in pre + [m];
    }
    assert m in pre + [m];
  }

  lemma {:induction false} NoneMissingIffAllDelivered(u: Task, ms: seq<Message>, s: nat)
    requires s in u.records && |u.records[s].missing| == SectionSize(u.geo, s) && s < u.geo.sectionCount
    requires forall r, b :: IsBlock(u.geo, r, b) ==> (Arrived(u, r, b) <==> Delivered(ms, r, b))
    ensures NoneSet(u.records[s].missing) <==> AllDelivered(ms, u.geo, s)
  {
    assert forall b :: 0 <= b < SectionSize(u.geo, s) ==> IsBlock(u.geo, s, b);
    assert forall b :: 0 <= b < SectionSize(u.geo, s) ==> (Arrived(u, s, b) <==> !u.records[s].missing[b]);
  }

  lemma {:induction false} OtherSectionUnmoved(pre: seq<Message>, m: Message, g: Geo, s: nat)
    requires m.FileSeg? && m.sect != s
    requires AllDelivered(pre + [m], g, s) && DeliveriesTo(pre + [m], s) % 0x1_0000_0000 >= SectionSize(g, s)
    ensures SeenComplete(pre, g, s)
  {
    OneMoreDelivery(pre, m);
    assert pre[..|pre|] == pre;
  }
}
