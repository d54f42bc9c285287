/** receiver/detail/file_receive_task.cpp: the task object, with its fields and its loop, proved against
    the functions of Receiver.dfy. */
module ReceiverTask {
  import opened Common
  import opened Geometry
  import opened Disk
  import opened Messages
  import opened Receiver
  import NakCodec

  /** The geometry fields that a file task inherits from file_transfer_base. */
  class FileTransferBase {
    var fileSize: nat
    var blockSize: nat
    var blockCount: nat
    var sectionCount: nat
    var perSmall: nat
    var perBig: nat
    var bigSections: nat

    ghost function Fields(): Geo
      reads this
    {
      Geo(fileSize, blockSize, blockCount, sectionCount, perSmall, perBig, bigSections)
    }

    /** A new object's fields are zero. */
    constructor ()
      ensures Fields() == Geo(0, 0, 0, 0, 0, 0, 0)
    {
      fileSize, blockSize, blockCount, sectionCount, perSmall, perBig, bigSections := 0, 0, 0, 0, 0, 0, 0;
    }

    /** A quotient rounded up. */
    static method RoundedUp(a: nat, b: nat) returns (q: nat)
      requires b > 0
      ensures q == CeilDiv(a, b)
    {
      q := a / b;
      if a % b != 0 {
        q := q + 1;
      }
    }

    /** The part of on_file_size_learned that shares the blocks out over the sections. */
    method ShareOut(sections: nat) returns (ok: bool)
      modifies this`sectionCount, this`perSmall, this`perBig, this`bigSections
      ensures var geo := Divide(fileSize, blockSize, blockCount, sections);
              ok == geo.Some? && (ok ==> geo == Some(Fields()))
    {
      sectionCount := sections % 0x1_0000;
      if sectionCount == 0 { return false; }
      perSmall := (blockCount / sectionCount) % 0x1_0000;
      perBig := perSmall;
      if blockCount % sectionCount != 0 {
        perBig := (perSmall + 1) % 0x1_0000;
      }
      bigSections := (blockCount - perSmall * sectionCount) % 0x1_0000;
      return true;
    }

    /** on_file_size_learned. What it returns is false when it divides by zero. */
    method OnFileSizeLearned(size: nat, blkSize: nat) returns (ok: bool)
      modifies this
      ensures ok == Learn(size, blkSize).Some?
      ensures ok ==> Fields() == Learn(size, blkSize).value
    {
      if blkSize == 0 { return false; }
      fileSize, blockSize := size, blkSize;
      blockCount := RoundedUp(size, blkSize);
      var sections := RoundedUp(blockCount, MaxPerSection(blkSize));
      ok := ShareOut(sections);
    }
  }

  class FileReceiveTask {
    const self: nat
    const blockSize: nat
    const base: FileTransferBase
    var phase: Phase
    var fileId: nat
    var completedSections: seq<bool>
    var records: map<nat, Record>
    var file: File
    var jobs: seq<Job>
    var fault: bool

    ghost function State(): Task
      reads this, base
    {
      Task(self, blockSize, phase, fileId, base.Fields(), completedSections, records, file, jobs, fault)
    }

    constructor (self: nat, blockSize: nat)
      ensures fresh(base)
      ensures State() == Task(self, blockSize, WaitingFileInfo, 0, Geo(0, 0, 0, 0, 0, 0, 0), [], map[],
                              File(NotOpened, []), [], false)
    {
      this.self, this.blockSize := self, blockSize;
      var b := new FileTransferBase();
      base := b;
      phase, fileId, completedSections, records := WaitingFileInfo, 0, [], map[];
      file, jobs, fault := File(NotOpened, []), [], false;
    }

    method OnFileInfoReceived(m: Message, target: Target) returns (sent: seq<Message>)
      requires m.FileInfo?
      modifies this, base
      ensures !fault ==> (State(), sent) == OnFileInfo(old(State()), m, target)
      ensures fault == OnFileInfo(old(State()), m, target).0.fault && (fault ==> sent == [])
      ensures old(fault) ==> State() == old(State())
    {
      sent := [];
      if fault || self !in m.infoFor { return; }
      if phase == WaitingFileInfo {
        var ok := base.OnFileSizeLearned(m.sizeHigh * 0x1_0000_0000 + m.sizeLow, blockSize);
        if !ok {
          fault := true;
          return;
        }
        fileId := m.infoId;
        completedSections := seq(base.sectionCount, _ => false);
        match target {
          case Acceptable =>
            file, phase := File(Opened, []), ReceivingBlobs;
            sent := [FileInfoAck(self, m.infoId, false)];
          case AlreadyOnDisk =>
            phase := Completed;
            sent := [Complete(self, m.infoId, NORMAL)];
          case NotAcceptable =>
            phase := Rejected;
            sent := [Complete(self, m.infoId, REJECTED)];
        }
      } else if phase == ReceivingBlobs && m.infoId != 0 && m.infoId == fileId {
        sent := [FileInfoAck(self, fileId, false)];
      }
    }

    /** section_block_count and sect_blk_to_abs_block_idx */
    method Locate(sect: nat, blk: nat) returns (size: nat, abs: nat)
      ensures size == SectionSize(base.Fields(), sect) && abs == AbsBlk(base.Fields(), sect, blk)
    {
      if sect >= base.bigSections {
        size := base.perSmall;
        abs := (sect - base.bigSections) * base.perSmall + blk + base.bigSections * base.perBig;
      } else {
        size := base.perBig;
        abs := sect * base.perBig + blk;
      }
    }

    /** The record of a section, made if there is none. */
    method FindRecord(sect: nat, size: nat) returns (rec: Record)
      requires size == SectionSize(base.Fields(), sect)
      modifies this`records
      ensures rec == RecordFor(old(State()), sect) && records == old(records)[sect := rec]
    {
      if sect !in records {
        records := records[sect := Record(seq(size, _ => true), 0)];
      }
      rec := records[sect];
      assert records == old(records)[sect := rec];
    }

    method OnDataBlockReceived(m: Message)
      requires m.FileSeg?
      modifies this
      ensures State() == OnDataBlock(old(State()), m)
    {
      if fault || phase != ReceivingBlobs || m.segId == 0 || m.segId != fileId { return; }
      var size, abs := Locate(m.sect, m.blk);
      jobs := jobs + [Write(abs * blockSize, m.data)];
      var rec := FindRecord(m.sect, size);
      if m.blk >= |rec.missing| {
        fault := true;
        return;
      }
      rec := Record(rec.missing[m.blk := false], (rec.count + 1) % 0x1_0000_0000);
      records := records[m.sect := rec];
      if rec.count >= size {
        var none := NoneMissing(rec.missing);
        if none {
          if m.sect >= |completedSections| {
            fault := true;
            return;
          }
          completedSections := completedSections[m.sect := true];
        }
      }
    }

    static method NoneMissing(bits: seq<bool>) returns (none: bool)
      ensures none == NoneSet(bits)
    {
      none := true;
      for i := 0 to |bits|
        invariant none <==> forall j :: 0 <= j < i ==> !bits[j]
      {
        if bits[i] {
          none := false;
        }
      }
    }

    static method AllComplete(bits: seq<bool>) returns (all: bool)
      ensures all == AllSet(bits)
    {
      all := true;
      for i := 0 to |bits|
        invariant all <==> forall j :: 0 <= j < i ==> bits[j]
      {
        if !bits[i] {
          all := false;
        }
      }
    }

    method DoReportStatus(sect: nat) returns (sent: seq<Message>)
      modifies this`records, this`fault
      ensures (State(), sent) == ReportStatus(old(State()), sect)
    {
      if sect !in records {
        records := records[sect := Record([], 0)];
      }
      assert records == old(records)[sect := ReportedRecord(old(State()), sect)];
      var nak := NakCodec.PackBits(records[sect].missing);
      if |nak| > blockSize {
        fault := true;
        return [];
      }
      return [Status(self, fileId, sect, nak)];
    }

    method OnDoneReceived(m: Message) returns (sent: seq<Message>)
      requires m.Done?
      modifies this
      ensures (State(), sent) == OnDone(old(State()), m)
    {
      sent := [];
      if fault || m.doneId == 0 || m.doneId != fileId || self !in m.doneFor { return; }
      var all := AllComplete(completedSections);
      if all {
        jobs, phase := jobs + [Close], Completed;
        sent := [Complete(self, fileId, NORMAL)];
      } else {
        sent := ReportSections(m.lastSect);
      }
    }

    /** The loop of on_done_received. */
    method ReportSections(last: nat) returns (sent: seq<Message>)
      requires !fault
      modifies this`records, this`fault
      ensures (State(), sent) == ReportFrom(old(State()), 0, last)
    {
      sent := [];
      var sect := 0;
      ghost var goal := ReportFrom(State(), 0, last);
      while sect <= last && !fault
        invariant goal.0 == ReportFrom(State(), sect, last).0 && goal.1 == sent + ReportFrom(State(), sect, last).1
        decreases if fault then 0 else last + 1 - sect
      {
        if sect >= |completedSections| {
          fault := true;
        } else {
          if !completedSections[sect] {
            ghost var before := sent;
            var one := DoReportStatus(sect);
            sent := sent + one;
            ghost var more := ReportFrom(State(), sect + 1, last).1;
            assert before + (one + more) == sent + more;
          }
          sect := sect + 1;
        }
      }
      assert ReportFrom(State(), sect, last) == (State(), []);
      assert sent + [] == sent;
    }

    /** The file thread runs the oldest job that was posted to it. */
    method RunFileThread()
      modifies this`file, this`jobs
      ensures State() == RunOneJob(old(State()))
      ensures Written(State()) == Written(old(State()))
    {
      if jobs != [] {
        file, jobs := RunJob(file, jobs[0]), jobs[1..];
      }
    }
  }
}
