/** sender/detail/file_send_task.cpp: one file's transfer, as a state machine. Each function is what
    one of the two threads does between taking or releasing m_state_mutex and its next such point, so
    every interleaving of the file thread's loop with the network thread's handlers is a sequence of
    these steps. SenderTask.dfy has the task itself. */
module Sender {
  import opened Common
  import opened Geometry
  import opened Messages
  import Packing
  import NakCodec

  datatype Phase = Announcing | Sending | WaitingClientStatus | SendingLost

  /** receiver_properties::status */
  datatype Standing = Mute | Lost | Aborted | Registered | Active | ActiveNak | DoneWithFile

  /** Where the file thread is in do_transfer. Entering: about to take the lock at the top of the
      outer loop. InFlight: a block is picked and the lock released. Handed: the worker has answered,
      and the lock is about to be taken again. `lost` tells the two inner loops apart. */
  datatype FileThread = Idle | Entering
                      | InFlight(lost: bool, blk: nat)
                      | Handed(lost: bool, blk: nat, accepted: bool)

  /** m_blocked_task: what is to happen once the bucket has room again. */
  datatype BlockedTask = ResumeTransfer | StartWaiting

  /** The history of a run, for stating properties; the source keeps no such record. */
  datatype Event = NakTaken(blk: nat) | Sent(blk: nat) | FileComplete | FileError

  /** What does not change during a task. */
  datatype Config = Config(fileId: nat, geo: Geo, robust: nat, quitOnError: bool)

  /** The member fields of file_send_task and the receivers it shares with its session. A cursor of c
      stands for an iterator at the first element of naks that is not below c. posted, donePosted and
      timers count the posted do_transfer jobs, the posted do_send_done jobs and the pending calls
      of on_wait_receivers_status_end. A fault is a failed assertion, after which nothing runs. */
  datatype Task = Task(
    cfg: Config,
    phase: Phase, next: nat, eof: bool,
    naks: set<nat>, cursor: Option<nat>, later: set<nat>,
    rounds: nat, standing: map<nat, Standing>,
    blockedMsg: Option<nat>, blockedTask: Option<BlockedTask>,
    thread: FileThread, posted: nat, donePosted: nat, timers: nat,
    log: seq<Event>, fault: bool)

  /** A task that is about to announce its file to the receivers in standing. */
  function Created(cfg: Config, standing: map<nat, Standing>): Task {
    Task(cfg, Announcing, 0, false, {}, None, {}, 0, standing, None, None, Idle, 0, 0, 0, [], false)
  }

  predicate AnyIn(standing: map<nat, Standing>, st: Standing) {
    exists id :: id in standing && standing[id] == st
  }

  predicate AllIn(standing: map<nat, Standing>, sts: set<Standing>) {
    forall id :: id in standing ==> standing[id] in sts
  }

  predicate Any(t: Task, st: Standing) {
    AnyIn(t.standing, st)
  }

  predicate All(t: Task, sts: set<Standing>) {
    AllIn(t.standing, sts)
  }

  /** The NAKs of the current pass that the cursor has yet to reach. */
  function Unsent(t: Task): set<nat> {
    set b | b in t.naks && (t.cursor.None? || b >= t.cursor.value)
  }

  // ----- Announcing -----

  /** next_step of do_send_fileinfo, which runs after each FILE_INFO. The loops that would mark
      silent receivers as lost work on copies. */
  function AnnounceRound(t: Task): Task {
    var again := t.rounds < t.cfg.robust && !All(t, {Active, DoneWithFile});
    var u := t.(rounds := t.rounds + 1);
    if again then u
    else if !All(t, {Registered}) && !All(t, {DoneWithFile}) && t.cfg.geo.fileSize > 0 then
      u.(rounds := 0, phase := Sending, posted := t.posted + 1)
    else u.(log := t.log + [FileComplete])
  }

  /** on_file_info_ack_received, for a receiver that is not a proxy. */
  function OnFileInfoAck(t: Task, source: nat, fileId: nat, done: bool): Task {
    if t.phase == Announcing && fileId == t.cfg.fileId && source in t.standing then
      t.(standing := t.standing[source := if done then DoneWithFile else Active])
    else t
  }

  // ----- do_transfer, between lock points -----

  /** The fields that the file thread leaves alone while it holds the lock. */
  predicate LockFrame(t: Task, u: Task) {
    && u.cfg == t.cfg && u.standing == t.standing && u.rounds == t.rounds && u.timers == t.timers
    && u.blockedMsg == t.blockedMsg && u.blockedTask == t.blockedTask && u.posted == t.posted
    && u.log == t.log && u.fault == t.fault
    && (u.phase == Announcing <==> t.phase == Announcing)
  }

  function StartJob(t: Task): Task {
    if t.thread == Idle && t.posted > 0 then t.(thread := Entering, posted := t.posted - 1) else t
  }

  /** After the loop of the initial pass. */
  function SendingExit(t: Task, blocked: bool): (u: Task)
    ensures t.phase != Announcing ==> LockFrame(t, u)
  {
    if t.eof && !blocked then
      t.(phase := WaitingClientStatus, donePosted := t.donePosted + 1, thread := Idle)
    else t.(thread := Idle)
  }

  /** The worker has answered, and the file thread is about to take the lock again. */
  predicate Back(thread: FileThread, lost: bool, accepted: bool) {
    thread.Handed? && thread.lost == lost && thread.accepted == accepted
  }

  /** The head of the loop of the initial pass. */
  function SendingLoop(t: Task): (u: Task)
    ensures t.phase != Announcing ==> LockFrame(t, u)
  {
    if t.eof then SendingExit(t, false)
    else t.(next := t.next + 1, eof := t.next + 1 >= t.cfg.geo.blockCount, thread := InFlight(false, t.next))
  }

  /** After the loop of a repair pass. */
  function LostExit(t: Task, blocked: bool): (u: Task)
    ensures t.phase != Announcing ==> LockFrame(t, u)
  {
    if Unsent(t) != {} then t.(thread := Idle)
    else
      var u := t.(cursor := None, naks := t.later, later := {});
      if u.naks != {} then u.(thread := Entering)
      else if t.eof then
        u.(phase := WaitingClientStatus, thread := Idle,
           donePosted := if blocked then t.donePosted else t.donePosted + 1)
      else u.(phase := Sending, thread := Entering)
  }

  /** The head of the loop of a repair pass: take the block under the cursor and move on. */
  function LostLoop(t: Task): (u: Task)
    ensures t.phase != Announcing ==> LockFrame(t, u)
  {
    if Unsent(t) == {} then LostExit(t, false)
    else
      var blk := Least(Unsent(t));
      t.(cursor := Some(blk + 1), thread := InFlight(true, blk))
  }

  /** The file thread takes the lock and runs until it releases it. */
  function TakeLock(t: Task): (u: Task)
    ensures t.phase != Announcing ==> LockFrame(t, u)
  {
    match t.thread
    case Entering =>
      if t.phase == Sending then SendingLoop(t)
      else if t.phase == SendingLost then LostLoop(if t.cursor.None? then t.(cursor := Some(0)) else t)
      else t.(thread := Idle)
    case Handed(false, _, accepted) =>
      if accepted && t.phase == Sending then SendingLoop(t) else SendingExit(t, !accepted)
    case Handed(true, _, accepted) =>
      if accepted && t.phase == SendingLost then LostLoop(t) else LostExit(t, !accepted)
    case _ => t
  }

  /** do_send_one_block: a refused block is kept until the bucket has room. */
  function SendBlock(t: Task, accepted: bool): Task {
    match t.thread
    case InFlight(lost, blk) =>
      if accepted then t.(thread := Handed(lost, blk, true), log := t.log + [Sent(blk)])
      else if t.blockedMsg.Some? || t.blockedTask.Some? then t.(fault := true)
      else t.(thread := Handed(lost, blk, false), blockedMsg := Some(blk), blockedTask := Some(ResumeTransfer))
    case _ => t
  }

  // ----- The network thread -----

  /** on_worker_bucket_freed; accepted is the worker's answer to the kept block. */
  function BucketFreed(t: Task, accepted: bool): Task {
    if t.blockedMsg.Some? && !accepted then t.(fault := true)
    else
      var u := if t.blockedMsg.Some? then t.(blockedMsg := None, log := t.log + [Sent(t.blockedMsg.value)]) else t;
      match u.blockedTask
      case None => u
      case Some(ResumeTransfer) => u.(blockedTask := None, posted := u.posted + 1)
      case Some(StartWaiting) => u.(blockedTask := None, timers := u.timers + 1)
  }

  /** The receivers a DONE is addressed to, in map order. */
  function DoneEntries(t: Task): seq<Packing.Entry> {
    var ids := Ascending(t.standing.Keys);
    seq(|ids|, i requires 0 <= i < |ids| =>
      Packing.Entry(ids[i], t.standing[ids[i]] == Active || t.standing[ids[i]] == ActiveNak))
  }

  /** The DONE packets of do_send_done. Each holds a block's worth of ids, four bytes each. */
  function DonePackets(t: Task): seq<Message>
    requires t.cfg.geo.blockSize >= 4
  {
    var lists := Packing.Pack(DoneEntries(t), t.cfg.geo.blockSize / 4);
    var last := if t.cfg.geo.sectionCount > 0 then t.cfg.geo.sectionCount - 1 else 0;
    seq(|lists|, i requires 0 <= i < |lists| => Done(t.cfg.fileId, last, lists[i]))
  }

  /** What do_send_done leaves behind, when the worker takes all the packets and when it does not. */
  function SendDone(t: Task, accepted: bool): Task {
    if accepted then t.(timers := t.timers + 1)
    else if t.blockedTask.Some? then t.(fault := true)
    else t.(blockedTask := Some(StartWaiting))
  }

  function RunPostedDone(t: Task, accepted: bool): Task {
    if t.donePosted == 0 then t else SendDone(t.(donePosted := t.donePosted - 1), accepted)
  }

  function StartRepair(t: Task): Task {
    t.(phase := SendingLost, posted := t.posted + 1)
  }

  /** What on_wait_receivers_status_end can do to the phase, the log and the receivers. */
  predicate WaitFrame(t: Task, u: Task) {
    && u.cfg == t.cfg && u.naks == t.naks && u.cursor == t.cursor && u.later == t.later
    && u.thread == t.thread && u.blockedMsg == t.blockedMsg && u.eof == t.eof
    && (u.log == t.log || u.log == t.log + [FileComplete] || u.log == t.log + [FileError])
    && (u.phase == t.phase || u.phase == SendingLost)
    && (u.standing == t.standing || u.standing == GiveUp(t.standing))
  }

  /** Silent receivers are given up. */
  function GiveUp(standing: map<nat, Standing>): (r: map<nat, Standing>)
    ensures r.Keys == standing.Keys
    ensures forall id :: id in r ==> r[id] != Active && (r[id] == standing[id] || r[id] == Lost)
  {
    map id | id in standing :: if standing[id] == Active then Lost else standing[id]
  }

  /** on_wait_receivers_status_end while the round counter is below the robustness factor. */
  function WaitRound(t: Task, accepted: bool): (u: Task)
    ensures WaitFrame(t, u) && u.standing == t.standing && u.rounds == t.rounds
  {
    if Any(t, Active) then SendDone(t, accepted)
    else if Any(t, ActiveNak) then StartRepair(t)
    else t.(log := t.log + [FileComplete])
  }

  /** on_wait_receivers_status_end when the round counter has reached it. */
  function WaitGivesUp(t: Task): (u: Task)
    ensures WaitFrame(t, u) && u.standing == GiveUp(t.standing)
  {
    var u := t.(rounds := 0, standing := GiveUp(t.standing));
    if Any(t, Active) && t.cfg.quitOnError then u.(log := t.log + [FileError])
    else if Any(t, ActiveNak) then StartRepair(u)
    else u.(log := t.log + [FileComplete])
  }

  /** on_wait_receivers_status_end */
  function AfterWait(t: Task, accepted: bool): (u: Task)
    ensures WaitFrame(t, u)
  {
    var u := t.(rounds := t.rounds + 1);
    if t.rounds < t.cfg.robust then WaitRound(u, accepted) else WaitGivesUp(u)
  }

  /** One of the pending calls of it. */
  function WaitEnds(t: Task, accepted: bool): (u: Task)
    ensures WaitFrame(t, u)
  {
    if t.timers == 0 then t else AfterWait(t.(timers := t.timers - 1), accepted)
  }

  /** Whether that call sends DONE again. */
  predicate WaitSendsDone(t: Task) {
    t.timers > 0 && t.rounds < t.cfg.robust && Any(t, Active)
  }

  function Taken(bs: seq<nat>): seq<Event> {
    seq(|bs|, i requires 0 <= i < |bs| => NakTaken(bs[i]))
  }

  /** The absolute numbers of the blocks a STATUS complains about. */
  function NakedBlocks(t: Task, m: Message): set<nat>
    requires m.Status?
  {
    AbsInSection(t.cfg.geo, m.statusSect, NakCodec.PlainScan(m.nakMap))
  }

  function AbsInSection(g: Geo, sect: nat, blks: set<nat>): set<nat> {
    set b | b in blks :: AbsBlk(g, sect, b)
  }

  /** on_status_msg_received */
  function OnStatus(t: Task, m: Message): (u: Task)
    requires m.Status?
    ensures u.phase == t.phase && t.log <= u.log
    ensures u.standing == t.standing || u.standing == t.standing[m.statusFrom := ActiveNak]
  {
    if m.statusId != t.cfg.fileId || m.statusFrom !in t.standing
       || t.standing[m.statusFrom] == DoneWithFile || NakCodec.PlainScan(m.nakMap) == {} then t
    else
      var blocks := NakedBlocks(t, m);
      var u := t.(standing := t.standing[m.statusFrom := ActiveNak],
                  log := t.log + Taken(Ascending(blocks)));
      if t.phase == WaitingClientStatus then u.(naks := t.naks + blocks)
      else u.(later := t.later + blocks)
  }

  /** on_complete_msg_received, from a receiver that is not a proxy. */
  function OnComplete(t: Task, m: Message): (u: Task)
    requires m.Complete?
    ensures u.phase == t.phase && t.log <= u.log
    ensures u.standing == t.standing || u.standing == t.standing[m.completeFrom := DoneWithFile]
  {
    if (t.phase == WaitingClientStatus || t.phase == Announcing)
       && m.completeId == t.cfg.fileId && m.completeFrom in t.standing then
      var u := t.(standing := t.standing[m.completeFrom := DoneWithFile]);
      if All(u, {DoneWithFile}) then u.(log := t.log + [FileComplete]) else u
    else t
  }

  /** on_abort_msg_received */
  function OnAbort(t: Task, source: nat): Task {
    if source in t.standing then t.(standing := t.standing[source := Aborted]) else t
  }

  // ----- Runs -----

  datatype Input =
    | AnnounceRoundEnds
    | FileThreadStarts
    | FileThreadLocks
    | FileThreadSends(accepted: bool)
    | BucketHasRoom(taken: bool)
    | PostedDoneRuns(doneTaken: bool)
    | WaitTimerFires(doneTaken: bool)
    | MessageArrives(m: Message)
    | AbortArrives(from: nat)

  /** One step of the task. A step that is not enabled changes nothing. */
  function Step(t: Task, i: Input): (u: Task)
    ensures t.log <= u.log
  {
    if t.fault then t else
    match i
    case AnnounceRoundEnds => if t.phase == Announcing then AnnounceRound(t) else t
    case FileThreadStarts => StartJob(t)
    case FileThreadLocks => TakeLock(t)
    case FileThreadSends(accepted) => SendBlock(t, accepted)
    case BucketHasRoom(taken) => BucketFreed(t, taken)
    case PostedDoneRuns(doneTaken) => RunPostedDone(t, doneTaken)
    case WaitTimerFires(doneTaken) => WaitEnds(t, doneTaken)
    case MessageArrives(m) =>
      if m.FileInfoAck? then OnFileInfoAck(t, m.ackFrom, m.ackId, m.ackDone)
      else if m.Status? then OnStatus(t, m)
      else if m.Complete? then OnComplete(t, m)
      else t
    case AbortArrives(from) => OnAbort(t, from)
  }

  /** Whether the step sends DONE. */
  predicate SendsDone(t: Task, i: Input) {
    !t.fault && ((i.PostedDoneRuns? && t.donePosted > 0) || (i.WaitTimerFires? && WaitSendsDone(t)))
  }

  lemma LockKeepsConfig(t: Task)
    ensures TakeLock(t).cfg == t.cfg && TakeLock(t).standing == t.standing
  {
  }

  lemma WaitKeepsConfig(t: Task, accepted: bool)
    ensures WaitEnds(t, accepted).cfg == t.cfg
    ensures WaitEnds(t, accepted).standing.Keys == t.standing.Keys
  {
  }

  /** A task's file, session parameters and set of receivers stay the same. */
  lemma StepKeepsConfig(t: Task, i: Input)
    ensures Step(t, i).cfg == t.cfg
    ensures Step(t, i).standing.Keys == t.standing.Keys
  {
    if i.WaitTimerFires? {
      WaitKeepsConfig(t, i.doneTaken);
    } else if i.FileThreadLocks? {
      LockKeepsConfig(t);
    }
  }

  /** The state after a sequence of inputs. */
  function Run(t: Task, inputs: seq<Input>): Task {
    if inputs == [] then t else Step(Run(t, inputs[..|inputs| - 1]), inputs[|inputs| - 1])
  }

  lemma {:induction false} RunAppend(t: Task, a: seq<Input>, b: seq<Input>)
    ensures Run(t, a + b) == Run(Run(t, a), b)
  {
    if b == [] {
      assert a + b == a;
    } else {
      assert (a + b)[..|a + b| - 1] == a + b[..|b| - 1];
      RunAppend(t, a, b[..|b| - 1]);
    }
  }
}
