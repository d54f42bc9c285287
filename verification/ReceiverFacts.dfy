/** What the receiver's bookkeeping guarantees: the invariant of every run, reassembly, and what
    the count guard and the NAK bitmaps say about the blocks that have arrived. */
module ReceiverFacts {
  import opened Common
  import opened Geometry
  import opened Disk
  import opened Messages
  import opened Receiver
  import opened NakCodec

  /** Two different blocks share no byte positions. */
  lemma BlocksDisjoint(g: Geo, a: nat, b: nat)
    requires Valid(g) && a < b < g.blockCount
    ensures Offset(g, a) + BlockLength(g, a) <= Offset(g, b)
  {
    BlocksTile(g, a);
    MulMono(a + 1, b, g.blockSize);
    assert (a + 1) * g.blockSize == a * g.blockSize + g.blockSize;
  }

  /** Writing a block puts it in place and leaves the other blocks in place. */
  lemma WriteKeepsBlocks(src: seq<Byte>, g: Geo, content: seq<Byte>, abs: nat, other: nat)
    requires Valid(g) && g.fileSize == |src| && abs < g.blockCount && other < g.blockCount
    requires |content| <= |src|
    requires other == abs || BlockOnDisk(src, g, content, other)
    ensures |WriteAt(content, Offset(g, abs), BlockData(src, g, abs))| <= |src|
    ensures BlockOnDisk(src, g, WriteAt(content, Offset(g, abs), BlockData(src, g, abs)), other)
  {
    BlocksTile(g, abs);
    BlocksTile(g, other);
    if other < abs {
      BlocksDisjoint(g, other, abs);
    } else if abs < other {
      BlocksDisjoint(g, abs, other);
    }
  }

  /** A fault-free delivery marks its block as arrived, every other block as it was, and posts the write. */
  lemma DeliveryMarks(t: Task, m: Message)
    requires Consistent(t) && !t.fault && t.phase == ReceivingBlobs
    requires m.FileSeg? && m.segId != 0 && m.segId == t.fileId && IsBlock(t.geo, m.sect, m.blk)
    ensures var u := OnDataBlock(t, m);
            u.fault <==> (m.sect in t.records && t.records[m.sect].missing == [])
    ensures var u := OnDataBlock(t, m);
            !u.fault ==>
              && Consistent(u) && u.geo == t.geo && u.phase == t.phase && u.file == t.file
              && u.jobs == t.jobs + [Write(AbsBlk(t.geo, m.sect, m.blk) * t.blockSize, m.data)]
              && forall s, b :: IsBlock(t.geo, s, b) ==>
                   (Arrived(u, s, b) <==> Arrived(t, s, b) || (s == m.sect && b == m.blk))
  {
    var u := OnDataBlock(t, m);
    if !u.fault {
      assert SectionSize(t.geo, m.sect) > 0;
      forall s, b | IsBlock(t.geo, s, b)
        ensures Arrived(u, s, b) <==> Arrived(t, s, b) || (s == m.sect && b == m.blk)
      {
        if s == m.sect {
          assert u.records[s].missing == RecordFor(t, s).missing[m.blk := false];
        }
      }
    }
  }

  /** A block of a section that the file does not have is an access out of range exactly if its number is, or if
      sections are so small that it completes one. */
  lemma StrayBlockFaultsIff(t: Task, m: Message)
    requires Consistent(t) && !t.fault && t.phase == ReceivingBlobs
    requires m.FileSeg? && m.segId != 0 && m.segId == t.fileId && m.sect >= t.geo.sectionCount
    ensures OnDataBlock(t, m).fault <==> m.blk >= t.geo.perSmall || t.geo.perSmall == 1
  {
    var was := RecordFor(t, m.sect);
    if m.blk < t.geo.perSmall {
      assert was.missing[m.blk := false][m.blk] == false;
      if t.geo.perSmall > 1 {
        assert (was.count + 1) % 0x1_0000_0000 == 1;
      }
    }
  }

  /** Deliveries of the source's blocks keep the invariant. */
  lemma DataBlockKeeps(t: Task, m: Message, src: seq<Byte>)
    requires Receiving(t, src) && !t.fault
    requires m.FileSeg? && (m.segId == t.fileId ==> GoodBlock(m, src, t.geo))
    ensures OnDataBlock(t, m).fault || Receiving(OnDataBlock(t, m), src)
  {
    var u := OnDataBlock(t, m);
    if t.phase == ReceivingBlobs && m.segId != 0 && m.segId == t.fileId && !u.fault {
      DeliveryMarks(t, m);
      var abs := AbsBlk(t.geo, m.sect, m.blk);
      RunJobsPost(t.file, t.jobs, Write(Offset(t.geo, abs), m.data));
      assert Written(u).content == WriteAt(Written(t).content, Offset(t.geo, abs), BlockData(src, t.geo, abs));
      WriteKeepsBlocks(src, t.geo, Written(t).content, abs, abs);
      forall s, b | IsBlock(u.geo, s, b) && Arrived(u, s, b)
        ensures AbsBlk(u.geo, s, b) < u.geo.blockCount
        ensures BlockOnDisk(src, u.geo, Written(u).content, AbsBlk(u.geo, s, b))
      {
        AbsBelow(u.geo, s, b);
        WriteKeepsBlocks(src, t.geo, Written(t).content, abs, AbsBlk(t.geo, s, b));
      }
    }
  }

  /** Running a posted job changes nothing about what will be written. */
  lemma FileThreadKeeps(t: Task, src: seq<Byte>)
    requires Receiving(t, src)
    ensures Receiving(RunOneJob(t), src)
    ensures Written(RunOneJob(t)) == Written(t)
  {
    var u := RunOneJob(t);
    assert Written(u) == Written(t);
    assert forall s, b :: Arrived(u, s, b) == Arrived(t, s, b);
  }

  /** Reporting sections changes no block's standing: it only adds empty records. */
  lemma {:induction false} ReportKeeps(t: Task, sect: nat, last: nat)
    requires Consistent(t) && !t.fault && last < t.geo.sectionCount
    ensures !ReportFrom(t, sect, last).0.fault
    ensures Consistent(ReportFrom(t, sect, last).0) && OnlyEmptyAdded(t, ReportFrom(t, sect, last).0)
    decreases last + 1 - sect
  {
    if sect <= last {
      if t.completed[sect] {
        ReportKeeps(t, sect + 1, last);
      } else {
        ReportFits(t, sect);
        var u := ReportStatus(t, sect).0;
        ReportKeeps(u, sect + 1, last);
        AddedTwice(t, u, ReportFrom(u, sect + 1, last).0);
      }
    }
  }

  /** The tasks differ at most in records that are new and empty. */
  predicate OnlyEmptyAdded(t: Task, u: Task) {
    && u == t.(records := u.records)
    && (forall s :: s in t.records ==> s in u.records && u.records[s] == t.records[s])
    && (forall s :: s in u.records && s !in t.records ==> u.records[s] == Record([], 0))
  }

  lemma AddedTwice(t: Task, u: Task, v: Task)
    requires OnlyEmptyAdded(t, u) && OnlyEmptyAdded(u, v)
    ensures OnlyEmptyAdded(t, v)
  {
  }

  /** A section's bitmap fits the packet it is written into. */
  lemma ReportFits(t: Task, sect: nat)
    requires Consistent(t) && sect < t.geo.sectionCount && !t.completed[sect]
    ensures var (u, sent) := ReportStatus(t, sect);
            u.fault == t.fault && Consistent(u) && u == t.(records := t.records[sect := ReportedRecord(t, sect)])
            && sent == [Status(t.self, t.fileId, sect, PackBits(ReportedRecord(t, sect).missing))]
  {
    ValidPartitions(t.geo);
    var rec := ReportedRecord(t, sect);
    if rec.missing != [] {
      assert NakMapLength(t.geo, sect) <= t.geo.blockSize;
      assert (|rec.missing| + 7) / 8 == CeilDiv(|rec.missing|, 8);
    }
  }

  /** Any other bitmap overruns the packet exactly if the section has more blocks than the packet has bits. */
  lemma {:induction false} ReportOverrunsIff(t: Task, sect: nat)
    requires !t.fault
    ensures ReportStatus(t, sect).0.fault <==> |ReportedRecord(t, sect).missing| > 8 * t.blockSize
    ensures ReportStatus(t, sect).0.fault <==> ReportStatus(t, sect).1 == []
  {
    var n: nat := |ReportedRecord(t, sect).missing|;
    assert |PackBits(ReportedRecord(t, sect).missing)| == (n + 7) / 8;
  }

  /** DONE keeps the invariant, and answers COMPLETE only when every section is complete. */
  lemma DoneKeeps(t: Task, m: Message, src: seq<Byte>)
    requires Receiving(t, src) && !t.fault
    requires m.Done? && (m.doneId == t.fileId ==> m.lastSect < t.geo.sectionCount)
    ensures var (u, sent) := OnDone(t, m);
            && !u.fault && Receiving(u, src)
            && u.self == t.self && u.geo == t.geo && u.fileId == t.fileId && u.file == t.file
            && (forall c :: c in sent && c.Complete? ==> u.phase == Completed && c.completeFrom == t.self)
            && (t.phase == Completed ==> u.phase == Completed)
  {
    var (u, sent) := OnDone(t, m);
    if !(m.doneId == 0 || m.doneId != t.fileId || t.self !in m.doneFor) {
      if AllSet(t.completed) {
        RunJobsPost(t.file, t.jobs, Close);
        assert Written(u).content == Written(t).content;
        assert forall s, b :: Arrived(u, s, b) == Arrived(t, s, b);
      } else {
        ReportKeeps(t, 0, m.lastSect);
        ReportsAreStatus(t, 0, m.lastSect);
        assert Written(u) == Written(t);
        assert forall s, b :: Arrived(u, s, b) == Arrived(t, s, b);
      }
    }
  }

  lemma {:induction false} ReportsAreStatus(t: Task, sect: nat, last: nat)
    ensures forall c :: c in ReportFrom(t, sect, last).1 ==> c.Status? && c.statusFrom == t.self
    decreases last + 1 - sect
  {
    if !t.fault && sect <= last && sect < |t.completed| {
      if t.completed[sect] {
        ReportsAreStatus(t, sect + 1, last);
      } else {
        ReportsAreStatus(ReportStatus(t, sect).0, sect + 1, last);
      }
    }
  }

  // ----- Who answers DONE, and how -----

  /** A DONE for the file that names this receiver. */
  predicate Asks(t: Task, m: Message)
    requires m.Done?
  {
    !t.fault && t.self in m.doneFor && m.doneId == t.fileId && t.fileId != 0
  }

  /** The sections from sect to last that are not complete. */
  function Unfinished(completed: seq<bool>, sect: nat, last: nat): set<nat>
    requires last < |completed|
  {
    set s | sect <= s <= last && !completed[s]
  }

  /** These are STATUS packets of the receiver about its file. */
  predicate AreReports(t: Task, sent: seq<Message>) {
    forall k :: 0 <= k < |sent| ==> sent[k].Status? && sent[k].statusFrom == t.self && sent[k].statusId == t.fileId
  }

  /** The sections that they are about, in their order. */
  function Sections(sent: seq<Message>): seq<nat> {
    if sent == [] then []
    else (if sent[0].Status? then [sent[0].statusSect] else []) + Sections(sent[1..])
  }

  lemma {:induction false} OneMoreReport(t: Task, m: Message, more: seq<Message>)
    requires AreReports(t, [m]) && AreReports(t, more) && m.Status?
    ensures AreReports(t, [m] + more) && Sections([m] + more) == [m.statusSect] + Sections(more)
  {
    assert ([m] + more)[1..] == more;
  }

  /** The same, one after the other. */
  function InTurn(completed: seq<bool>, sect: nat, last: nat): seq<nat>
    requires last < |completed|
    decreases last + 1 - sect
  {
    if sect > last then []
    else (if completed[sect] then [] else [sect]) + InTurn(completed, sect + 1, last)
  }

  lemma {:induction false} InTurnIsAscending(completed: seq<bool>, sect: nat, last: nat)
    requires last < |completed|
    ensures InTurn(completed, sect, last) == Ascending(Unfinished(completed, sect, last))
    decreases last + 1 - sect
  {
    var all := Unfinished(completed, sect, last);
    if sect <= last {
      var rest := Unfinished(completed, sect + 1, last);
      InTurnIsAscending(completed, sect + 1, last);
      if completed[sect] {
        assert all == rest;
      } else {
        assert sect in all && IsLeast(sect, all) && IsLeast(Least(all), all);
        assert all - {sect} == rest;
      }
    } else {
      assert all == {};
    }
  }

  lemma {:induction false} ReportsEach(t: Task, sect: nat, last: nat)
    requires Consistent(t) && !t.fault && last < t.geo.sectionCount
    ensures var sent := ReportFrom(t, sect, last).1;
            AreReports(t, sent) && Sections(sent) == InTurn(t.completed, sect, last)
    decreases last + 1 - sect
  {
    if sect <= last {
      if t.completed[sect] {
        ReportsEach(t, sect + 1, last);
      } else {
        var m := ReportsFirst(t, sect, last);
        var u := ReportStatus(t, sect).0;
        ReportsEach(u, sect + 1, last);
        OneMoreReport(t, m, ReportFrom(u, sect + 1, last).1);
      }
    }
  }

  lemma {:induction false} ReportsFirst(t: Task, sect: nat, last: nat) returns (m: Message)
    requires Consistent(t) && !t.fault && sect <= last < t.geo.sectionCount && !t.completed[sect]
    ensures var u := ReportStatus(t, sect).0;
            && Consistent(u) && u == t.(records := u.records)
            && ReportFrom(t, sect, last).1 == [m] + ReportFrom(u, sect + 1, last).1
    ensures AreReports(t, [m]) && m.Status? && m.statusSect == sect
  {
    ReportFits(t, sect);
    m := ReportStatus(t, sect).1[0];
  }

  lemma {:induction false} ReportFaultsIff(t: Task, sect: nat, last: nat)
    requires Consistent(t) && !t.fault && sect <= last && sect <= t.geo.sectionCount
    ensures ReportFrom(t, sect, last).0.fault <==> last >= t.geo.sectionCount
    decreases last + 1 - sect
  {
    if last < t.geo.sectionCount {
      ReportKeeps(t, sect, last);
    } else if sect < t.geo.sectionCount {
      var u := t;
      if !t.completed[sect] {
        ReportFits(t, sect);
        u := ReportStatus(t, sect).0;
      }
      ReportFaultsIff(u, sect + 1, last);
    }
  }

  /** A DONE that does not concern the receiver changes nothing and brings no answer. One that does is answered by
      COMPLETE exactly when every section is complete, as often as it comes, and the file is closed; otherwise by
      one STATUS for each unfinished section up to the one it names, and faults exactly if that is none of the
      file's. */
  lemma {:induction false} DoneIsAnswered(t: Task, m: Message)
    requires Consistent(t) && !t.fault && m.Done?
    ensures !Asks(t, m) ==> OnDone(t, m) == (t, [])
    ensures Asks(t, m) && AllSet(t.completed) ==>
              var (u, sent) := OnDone(t, m);
              && sent == [Complete(t.self, t.fileId, NORMAL)]
              && u == t.(phase := Completed, jobs := u.jobs) && Written(u) == Written(t).(stream := Closed)
    ensures Asks(t, m) && !AllSet(t.completed) ==>
              var (u, sent) := OnDone(t, m);
              && (u.fault <==> m.lastSect >= t.geo.sectionCount)
              && (!u.fault ==>
                    && OnlyEmptyAdded(t, u)
                    && AreReports(t, sent)
                    && Sections(sent) == Ascending(Unfinished(t.completed, 0, m.lastSect)))
  {
    if Asks(t, m) {
      if AllSet(t.completed) {
        RunJobsPost(t.file, t.jobs, Close);
      } else {
        ReportFaultsIff(t, 0, m.lastSect);
        if m.lastSect < t.geo.sectionCount {
          ReportKeeps(t, 0, m.lastSect);
          ReportsEach(t, 0, m.lastSect);
          InTurnIsAscending(t.completed, 0, m.lastSect);
        }
      }
    }
  }

  /** Accepting a file starts the invariant off. */
  lemma AcceptStarts(t: Task, m: Message, src: seq<Byte>)
    requires !t.fault && t.phase == WaitingFileInfo && t.records == map[] && t.jobs == []
    requires m.FileInfo? && t.self in m.infoFor && m.sizeHigh * 0x1_0000_0000 + m.sizeLow == |src|
    requires 0 < t.blockSize && 0 < |src| && WideSectionCount(|src|, t.blockSize) <= 0xFFFF
    ensures var u := OnFileInfo(t, m, Acceptable).0;
            !u.fault && u.phase == ReceivingBlobs && Receiving(u, src) && Learn(|src|, t.blockSize) == Some(u.geo)
  {
    LearnIsValid(|src|, t.blockSize);
    DivideKeepsInputs(|src|, t.blockSize, CeilDiv(|src|, t.blockSize), WideSectionCount(|src|, t.blockSize));
  }

  lemma ByteOnDisk(src: seq<Byte>, g: Geo, content: seq<Byte>, abs: nat, pos: nat)
    requires Valid(g) && g.fileSize == |src| && abs < g.blockCount && BlockOnDisk(src, g, content, abs)
    requires Offset(g, abs) <= pos < Offset(g, abs) + BlockLength(g, abs)
    ensures pos < |content| && pos < |src| && content[pos] == src[pos]
  {
    BlocksTile(g, abs);
    var there := src[pos];
  }

  lemma ByteWritten(t: Task, src: seq<Byte>, pos: nat)
    requires Receiving(t, src) && AllSet(t.completed) && pos < |src|
    ensures pos < |Written(t).content| && Written(t).content[pos] == src[pos]
  {
    var abs := ByteHasBlock(t.geo, pos);
    var s, b := AbsOfSomePair(t.geo, abs);
    assert t.completed[s];
    assert Arrived(t, s, b);
    ByteOnDisk(src, t.geo, Written(t).content, abs, pos);
  }

  /** Reassembly: once every section is marked complete, what is written is the source, byte for
      byte, whatever the order and repetition of the deliveries that led here. */
  lemma CompleteIsSource(t: Task, src: seq<Byte>)
    requires Receiving(t, src) && AllSet(t.completed)
    ensures Written(t).content == src
  {
    ByteWritten(t, src, |src| - 1);
    forall pos | 0 <= pos < |src|
      ensures Written(t).content[pos] == src[pos]
    {
      ByteWritten(t, src, pos);
    }
  }
}
