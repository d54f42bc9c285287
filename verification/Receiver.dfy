/** receiver/detail/file_receive_task.cpp: the bookkeeping of one file's reception. This module
    gives the handlers as functions on the task's state; ReceiverTask.dfy has the task itself. */
module Receiver {
  import opened Common
  import opened Geometry
  import opened Disk
  import opened Messages
  import NakCodec

  datatype Phase = WaitingFileInfo | ReceivingBlobs | Completed | Rejected

  /** received_record: a bitset of missing blocks and a 32-bit count of deliveries. */
  datatype Record = Record(missing: seq<bool>, count: nat)

  /** The member fields of file_receive_task. A fault stands for an access outside a bitset or a
      buffer, or a division by zero: the source defines nothing after it, so the task stops. */
  datatype Task = Task(self: nat, blockSize: nat, phase: Phase, fileId: nat, geo: Geo,
                       completed: seq<bool>, records: map<nat, Record>,
                       file: File, jobs: seq<Job>, fault: bool)

  /** How the file system answers when a file is announced. */
  datatype Target = Acceptable | AlreadyOnDisk | NotAcceptable

  predicate AllSet(bits: seq<bool>) {
    forall i :: 0 <= i < |bits| ==> bits[i]
  }

  predicate NoneSet(bits: seq<bool>) {
    forall i :: 0 <= i < |bits| ==> !bits[i]
  }

  function Fault(t: Task): Task {
    t.(fault := true)
  }

  /** on_file_info_received, for a regular file. */
  function OnFileInfo(t: Task, m: Message, target: Target): (Task, seq<Message>)
    requires m.FileInfo?
  {
    if t.fault || t.self !in m.infoFor then (t, [])
    else if t.phase == WaitingFileInfo then
      match Learn(m.sizeHigh * 0x1_0000_0000 + m.sizeLow, t.blockSize)
      case None => (Fault(t), [])
      case Some(g) =>
        var u := t.(fileId := m.infoId, geo := g, completed := seq(g.sectionCount, _ => false));
        match target
        case Acceptable =>
          (u.(file := File(Opened, []), phase := ReceivingBlobs), [FileInfoAck(t.self, m.infoId, false)])
        case AlreadyOnDisk =>
          (u.(phase := Completed), [Complete(t.self, m.infoId, NORMAL)])
        case NotAcceptable =>
          (u.(phase := Rejected), [Complete(t.self, m.infoId, REJECTED)])
    else if t.phase == ReceivingBlobs && m.infoId != 0 && m.infoId == t.fileId then
      (t, [FileInfoAck(t.self, t.fileId, false)])
    else (t, [])
  }

  /** The record that a delivery to a section updates: a new one has every block missing. */
  function RecordFor(t: Task, sect: nat): Record {
    if sect in t.records then t.records[sect]
    else Record(seq(SectionSize(t.geo, sect), _ => true), 0)
  }

  /** on_data_block_received */
  function OnDataBlock(t: Task, m: Message): Task
    requires m.FileSeg?
  {
    if t.fault || t.phase != ReceivingBlobs || m.segId == 0 || m.segId != t.fileId then t
    else
      var size := SectionSize(t.geo, m.sect);
      var posted := t.(jobs := t.jobs + [Write(AbsBlk(t.geo, m.sect, m.blk) * t.blockSize, m.data)]);
      var was := RecordFor(t, m.sect);
      if m.blk >= |was.missing| then Fault(posted.(records := t.records[m.sect := was])) else
      var rec := Record(was.missing[m.blk := false], (was.count + 1) % 0x1_0000_0000);
      var noted := posted.(records := t.records[m.sect := rec]);
      if rec.count < size || !NoneSet(rec.missing) then noted
      else if m.sect >= |t.completed| then Fault(noted)
      else noted.(completed := t.completed[m.sect := true])
  }

  /** The record that reporting a section reads: operator[] makes an empty one if there is none. */
  function ReportedRecord(t: Task, sect: nat): Record {
    if sect in t.records then t.records[sect] else Record([], 0)
  }

  /** do_report_status */
  function ReportStatus(t: Task, sect: nat): (Task, seq<Message>) {
    var rec := ReportedRecord(t, sect);
    var nak := NakCodec.PackBits(rec.missing);
    var u := t.(records := t.records[sect := rec]);
    if |nak| > t.blockSize then (Fault(u), []) else (u, [Status(t.self, t.fileId, sect, nak)])
  }

  /** The loop of on_done_received over the sections sect..last. */
  function ReportFrom(t: Task, sect: nat, last: nat): (Task, seq<Message>)
    decreases last + 1 - sect
  {
    if t.fault || sect > last then (t, [])
    else if sect >= |t.completed| then (Fault(t), [])
    else if t.completed[sect] then ReportFrom(t, sect + 1, last)
    else
      var (u, sent) := ReportStatus(t, sect);
      var (v, more) := ReportFrom(u, sect + 1, last);
      (v, sent + more)
  }

  /** on_done_received, for the file being received. A DONE for another file, or one that leaves
      this receiver out, moves the session on to another task. */
  function OnDone(t: Task, m: Message): (Task, seq<Message>)
    requires m.Done?
  {
    if t.fault || m.doneId == 0 || m.doneId != t.fileId || t.self !in m.doneFor then (t, [])
    else if AllSet(t.completed) then
      (t.(jobs := t.jobs + [Close], phase := Completed), [Complete(t.self, t.fileId, NORMAL)])
    else ReportFrom(t, 0, m.lastSect)
  }

  /** The file thread runs the oldest posted job. */
  function RunOneJob(t: Task): Task {
    if t.jobs == [] then t else t.(file := RunJob(t.file, t.jobs[0]), jobs := t.jobs[1..])
  }

  /** What will be on disk once the file thread has caught up. */
  function Written(t: Task): File {
    RunJobs(t.file, t.jobs)
  }

  // ----- What is kept -----

  predicate IsBlock(g: Geo, sect: nat, blk: nat) {
    sect < g.sectionCount && blk < SectionSize(g, sect)
  }

  /** The receiver knows that this block has arrived. */
  predicate Arrived(t: Task, sect: nat, blk: nat) {
    sect in t.records && blk < |t.records[sect].missing| && !t.records[sect].missing[blk]
  }

  /** The source's bytes of a block. */
  function BlockData(src: seq<Byte>, g: Geo, abs: nat): (d: seq<Byte>)
    requires Valid(g) && g.fileSize == |src| && abs < g.blockCount
    ensures d != []
  {
    BlocksTile(g, abs);
    src[Offset(g, abs) .. Offset(g, abs) + BlockLength(g, abs)]
  }

  /** The bookkeeping fits the geometry: bitsets have their section's size and note some arrival,
      except the empty ones that reporting an unseen section leaves behind, and completed sections
      have no missing block. */
  predicate Consistent(t: Task) {
    && Valid(t.geo) && t.geo.blockSize == t.blockSize
    && |t.completed| == t.geo.sectionCount
    && (forall s :: s in t.records ==>
          s < t.geo.sectionCount &&
          (t.records[s].missing == [] ||
           (|t.records[s].missing| == SectionSize(t.geo, s) && !AllSet(t.records[s].missing))))
    && (forall s :: 0 <= s < t.geo.sectionCount && t.completed[s] ==>
          s in t.records && t.records[s].missing != [] && NoneSet(t.records[s].missing))
  }

  ghost predicate BlockOnDisk(src: seq<Byte>, g: Geo, content: seq<Byte>, abs: nat)
    requires Valid(g) && g.fileSize == |src| && abs < g.blockCount
  {
    forall pos {:trigger content[pos]} {:trigger src[pos]} ::
      Offset(g, abs) <= pos < Offset(g, abs) + BlockLength(g, abs)
      ==> pos < |content| && pos < |src| && content[pos] == src[pos]
  }

  /** Every block that has arrived is, or is about to be, on disk where it belongs. */
  ghost predicate Faithful(t: Task, src: seq<Byte>)
    requires Consistent(t) && t.geo.fileSize == |src|
  {
    && |Written(t).content| <= |src|
    && forall s, b :: IsBlock(t.geo, s, b) && Arrived(t, s, b) ==>
         AbsBlk(t.geo, s, b) < t.geo.blockCount &&
         BlockOnDisk(src, t.geo, Written(t).content, AbsBlk(t.geo, s, b))
  }

  /** A receiver of the file src: the invariant of every run. */
  ghost predicate Receiving(t: Task, src: seq<Byte>) {
    && Consistent(t) && t.geo.fileSize == |src|
    && (t.phase == ReceivingBlobs || t.phase == Completed)
    && (t.phase == ReceivingBlobs ==> Written(t).stream == Opened)
    && (t.phase == Completed ==> AllSet(t.completed) && Written(t).stream == Closed)
    && Faithful(t, src)
  }

  /** A good FILE_SEG for the file src with this id. */
  predicate GoodBlock(m: Message, src: seq<Byte>, g: Geo) {
    m.FileSeg? && Valid(g) && g.fileSize == |src| && IsBlock(g, m.sect, m.blk) &&
    AbsBlk(g, m.sect, m.blk) < g.blockCount && m.data == BlockData(src, g, AbsBlk(g, m.sect, m.blk))
  }
}
