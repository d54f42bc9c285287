/** What one DONE brings back: the STATUS packets that it provokes at a receiver, and the block
    numbers that the sender reads out of them (receiver/detail/file_receive_task.cpp:362-368,444-459;
    sender/detail/file_send_task.cpp:560-578). */
module Feedback {
  import opened Geometry
  import opened Messages
  import opened Receiver
  import opened ReceiverFacts
  import opened NakCodec

  /** The (section, block) pairs that a STATUS complains about. */
  function NakPairs(m: Message): set<(nat, nat)>
    requires m.Status?
  {
    set b | b in PlainScan(m.nakMap) :: (m.statusSect, b)
  }

  function AllNakPairs(ms: seq<Message>): set<(nat, nat)>
    requires forall m :: m in ms ==> m.Status?
  {
    if ms == [] then {} else NakPairs(ms[0]) + AllNakPairs(ms[1..])
  }

  /** The absolute block numbers the sender maps the pairs to. */
  function AbsOf(g: Geo, pairs: set<(nat, nat)>): set<nat> {
    set p | p in pairs :: AbsBlk(g, p.0, p.1)
  }

  /** The blocks that have not arrived, as pairs and as absolute numbers. */
  function MissingPairs(t: Task): set<(nat, nat)>
    requires Valid(t.geo)
  {
    set abs | 0 <= abs < t.geo.blockCount && !Arrived(t, SectBlk(t.geo, abs).0, SectBlk(t.geo, abs).1)
      :: SectBlk(t.geo, abs)
  }

  function MissingBlocks(t: Task): set<nat>
    requires Valid(t.geo)
  {
    set abs | 0 <= abs < t.geo.blockCount && !Arrived(t, SectBlk(t.geo, abs).0, SectBlk(t.geo, abs).1)
  }

  predicate SomeArrived(t: Task, s: nat) {
    exists b :: 0 <= b < SectionSize(t.geo, s) && Arrived(t, s, b)
  }

  lemma MissingPairsAre(t: Task, s: nat, b: nat)
    requires Valid(t.geo)
    ensures (s, b) in MissingPairs(t) <==> IsBlock(t.geo, s, b) && !Arrived(t, s, b)
  {
    if IsBlock(t.geo, s, b) {
      PairRoundTrip(t.geo, s, b);
      var abs := AbsBlk(t.geo, s, b);
      assert SectBlk(t.geo, abs).0 == s && SectBlk(t.geo, abs).1 == b;
    }
    if (s, b) in MissingPairs(t) {
      var abs :| 0 <= abs < t.geo.blockCount && (s, b) == SectBlk(t.geo, abs)
                 && !Arrived(t, SectBlk(t.geo, abs).0, SectBlk(t.geo, abs).1);
      AbsRoundTrip(t.geo, abs);
    }
  }

  /** The pairs reported for sections sect..last: the set bits of the unfinished sections' records. */
  predicate IsReported(t: Task, sect: nat, last: nat, s: nat, b: nat)
    requires last < |t.completed|
  {
    sect <= s <= last && !t.completed[s] && s in t.records
    && b < |t.records[s].missing| && t.records[s].missing[b]
  }

  lemma {:induction false} ReportedPairs(t: Task, sect: nat, last: nat, s: nat, b: nat)
    requires Consistent(t) && !t.fault && last < t.geo.sectionCount
    ensures forall m :: m in ReportFrom(t, sect, last).1 ==> m.Status?
    ensures (s, b) in AllNakPairs(ReportFrom(t, sect, last).1) <==> IsReported(t, sect, last, s, b)
    decreases last + 1 - sect
  {
    ReportsAreStatus(t, sect, last);
    if sect <= last {
      if t.completed[sect] {
        ReportedPairs(t, sect + 1, last, s, b);
      } else {
        ReportFits(t, sect);
        var (u, sent) := ReportStatus(t, sect);
        var rec := ReportedRecord(t, sect);
        ReportedPairs(u, sect + 1, last, s, b);
        assert SectionSize(t.geo, sect) <= 0xFFFF;
        ScanOfPacked(rec.missing);
        var more := ReportFrom(u, sect + 1, last).1;
        assert (sent + more)[0] == sent[0] && (sent + more)[1..] == more;
        assert (s, b) in NakPairs(sent[0]) <==> s == sect && b in SetBits(rec.missing);
      }
    }
  }

  /** The union of the NAKs that one DONE for all sections provokes is exactly the set of blocks
      that have not arrived, if and only if at least one block of every section has arrived. */
  lemma FeedbackIsExactIff(t: Task, m: Message)
    requires Consistent(t) && !t.fault && !AllSet(t.completed)
    requires m.Done? && m.doneId != 0 && m.doneId == t.fileId && t.self in m.doneFor
    requires m.lastSect == t.geo.sectionCount - 1
    ensures forall c :: c in OnDone(t, m).1 ==> c.Status? && c.statusFrom == t.self && c.statusId == t.fileId
    ensures AllNakPairs(OnDone(t, m).1) == MissingPairs(t)
            <==> forall s :: 0 <= s < t.geo.sectionCount ==> SomeArrived(t, s)
  {
    ReportsAreStatus(t, 0, m.lastSect);
    ReportsAreOfFile(t, 0, m.lastSect);
    if s :| 0 <= s < t.geo.sectionCount && !SomeArrived(t, s) {
      UnseenIsSilent(t, s);
      ReportedPairs(t, 0, m.lastSect, s, 0);
      MissingPairsAre(t, s, 0);
    } else {
      ReportIsExact(t);
    }
  }

  lemma ReportIsExact(t: Task)
    requires Consistent(t) && !t.fault
    requires forall s :: 0 <= s < t.geo.sectionCount ==> SomeArrived(t, s)
    ensures forall m :: m in ReportFrom(t, 0, t.geo.sectionCount - 1).1 ==> m.Status?
    ensures AllNakPairs(ReportFrom(t, 0, t.geo.sectionCount - 1).1) == MissingPairs(t)
  {
    ReportsAreStatus(t, 0, t.geo.sectionCount - 1);
    forall p: (nat, nat)
      ensures p in AllNakPairs(ReportFrom(t, 0, t.geo.sectionCount - 1).1) <==> p in MissingPairs(t)
    {
      ReportedPairs(t, 0, t.geo.sectionCount - 1, p.0, p.1);
      MissingPairsAre(t, p.0, p.1);
      if p.0 < t.geo.sectionCount {
        assert SomeArrived(t, p.0);
      }
    }
  }

  lemma {:induction false} ReportsAreOfFile(t: Task, sect: nat, last: nat)
    ensures forall c :: c in ReportFrom(t, sect, last).1 ==> c.Status? && c.statusId == t.fileId
    decreases last + 1 - sect
  {
    if !t.fault && sect <= last && sect < |t.completed| {
      if t.completed[sect] {
        ReportsAreOfFile(t, sect + 1, last);
      } else {
        ReportsAreOfFile(ReportStatus(t, sect).0, sect + 1, last);
      }
    }
  }

  /** A section of which nothing has arrived has no bitset to report. */
  lemma UnseenIsSilent(t: Task, s: nat)
    requires Consistent(t) && s < t.geo.sectionCount && !SomeArrived(t, s)
    ensures !Arrived(t, s, 0) && IsBlock(t.geo, s, 0) && !t.completed[s]
    ensures s in t.records ==> t.records[s].missing == []
  {
    if s in t.records && t.records[s].missing != [] {
      var b :| 0 <= b < |t.records[s].missing| && !t.records[s].missing[b];
      assert Arrived(t, s, b);
    }
  }

  /** The absolute numbers that exact feedback maps to are the missing blocks' own, all of them
      below the block count. */
  lemma FeedbackBlocks(t: Task, pairs: set<(nat, nat)>)
    requires Valid(t.geo) && pairs == MissingPairs(t)
    ensures AbsOf(t.geo, pairs) == MissingBlocks(t)
    ensures forall abs :: abs in AbsOf(t.geo, pairs) ==> abs < t.geo.blockCount
  {
    forall abs | abs in MissingBlocks(t) ensures abs in AbsOf(t.geo, pairs) {
      AbsRoundTrip(t.geo, abs);
      assert SectBlk(t.geo, abs) in pairs;
    }
    forall abs | abs in AbsOf(t.geo, pairs) ensures abs in MissingBlocks(t) {
      var p :| p in pairs && abs == AbsBlk(t.geo, p.0, p.1);
      MissingPairsAre(t, p.0, p.1);
      PairRoundTrip(t.geo, p.0, p.1);
    }
  }

  /** The other half of the trouble with a section nothing has arrived from: once it has been
      reported, the next block of it to arrive is marked in an empty bitset. */
  lemma ReportedUnseenFaults(t: Task, done: Message, seg: Message)
    requires Consistent(t) && !t.fault && t.phase == ReceivingBlobs && !AllSet(t.completed)
    requires done.Done? && done.doneId != 0 && done.doneId == t.fileId && t.self in done.doneFor
    requires done.lastSect == t.geo.sectionCount - 1
    requires seg.FileSeg? && seg.segId == t.fileId && IsBlock(t.geo, seg.sect, seg.blk)
    ensures OnDataBlock(OnDone(t, done).0, seg).fault <==> !SomeArrived(t, seg.sect)
  {
    var u := OnDone(t, done).0;
    ReportKeeps(t, 0, done.lastSect);
    ReportTouches(t, 0, done.lastSect, seg.sect);
    DeliveryMarks(u, seg);
    if !SomeArrived(t, seg.sect) {
      UnseenIsSilent(t, seg.sect);
    }
  }

  lemma {:induction false} ReportTouches(t: Task, sect: nat, last: nat, s: nat)
    requires Consistent(t) && !t.fault && last < t.geo.sectionCount && sect <= s <= last
    ensures t.completed[s] || s in ReportFrom(t, sect, last).0.records
    decreases last + 1 - sect
  {
    if t.completed[sect] {
      if sect < s {
        ReportTouches(t, sect + 1, last, s);
      }
    } else {
      ReportFits(t, sect);
      var u := ReportStatus(t, sect).0;
      ReportKeeps(u, sect + 1, last);
      if sect < s {
        ReportTouches(u, sect + 1, last, s);
      }
    }
  }
}
