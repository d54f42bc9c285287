/** The receiver's output stream and the jobs posted to its file thread
    (receiver/detail/file_receive_task.cpp:302-306, 340-357). Jobs run one at a time in the order
    in which they were posted. */
module Disk {
  import opened Common

  datatype Stream = NotOpened | Opened | Closed

  datatype File = File(stream: Stream, content: seq<Byte>)

  datatype Job = Write(offset: nat, data: seq<Byte>) | Close

  /** seekp and write: positions between the old end and the new data read as zero. */
  function WriteAt(content: seq<Byte>, offset: nat, data: seq<Byte>): (r: seq<Byte>)
    ensures data != [] ==> |r| == if offset + |data| > |content| then offset + |data| else |content|
    ensures data != [] ==> forall i :: 0 <= i < |r| ==>
                             r[i] == if offset <= i < offset + |data| then data[i - offset]
                                     else if i < |content| then content[i] else 0
    ensures data == [] ==> r == content
  {
    if data == [] then content
    else
      var size := if offset + |data| > |content| then offset + |data| else |content|;
      seq(size, i requires 0 <= i < size =>
        if offset <= i < offset + |data| then data[i - offset]
        else if i < |content| then content[i] else 0)
  }

  /** What the file thread does with one job. Writing to a stream that is not open fails. */
  function RunJob(f: File, j: Job): File {
    match j
    case Write(offset, data) => if f.stream == Opened then f.(content := WriteAt(f.content, offset, data)) else f
    case Close => f.(stream := Closed)
  }

  /** What is on disk after every posted job has run. */
  function RunJobs(f: File, jobs: seq<Job>): File
    decreases |jobs|
  {
    if jobs == [] then f else RunJobs(RunJob(f, jobs[0]), jobs[1..])
  }

  lemma {:induction false} RunJobsPost(f: File, jobs: seq<Job>, j: Job)
    ensures RunJobs(f, jobs + [j]) == RunJob(RunJobs(f, jobs), j)
    decreases |jobs|
  {
    if jobs == [] {
      assert jobs + [j] == [j];
    } else {
      assert (jobs + [j])[1..] == jobs[1..] + [j];
      RunJobsPost(RunJob(f, jobs[0]), jobs[1..], j);
    }
  }

  /** Nothing changes a closed file. */
  lemma {:induction false} ClosedIsFinal(f: File, jobs: seq<Job>)
    requires f.stream == Closed
    ensures RunJobs(f, jobs) == f
    decreases |jobs|
  {
    if jobs != [] {
      ClosedIsFinal(f, jobs[1..]);
    }
  }
}
