/** A repair round without losses: the DONE, the STATUS packets it provokes, the blocks resent for
    them, and what the receiver then has. */
module Repair {
  import opened Common
  import opened Geometry
  import opened Messages
  import opened Sender
  import opened SenderSafety
  import R = Receiver
  import ReceiverFacts
  import opened CountGuard
  import opened Feedback
  import NakCodec

  // ----- The repair pass at the sender -----

  function SentEvents(bs: seq<nat>): seq<Event> {
    seq(|bs|, i requires 0 <= i < |bs| => Sent(bs[i]))
  }

  lemma {:induction false} RunFirst(t: Task, i: Input, rest: seq<Input>)
    ensures Run(t, [i] + rest) == Run(Step(t, i), rest)
  {
    RunAppend(t, [i], rest);
    assert [i][..0] == [];
  }

  lemma {:induction false} RunTwo(t: Task, i: Input, j: Input, rest: seq<Input>)
    ensures Run(t, [i, j] + rest) == Run(Step(Step(t, i), j), rest)
  {
    assert [i, j] + rest == [i] + ([j] + rest);
    RunFirst(t, i, [j] + rest);
    RunFirst(Step(t, i), j, rest);
  }

  /** The file thread's steps when nothing is refused. */
  predicate Unrefused(i: Input) {
    i == FileThreadStarts || i == FileThreadLocks || i == FileThreadSends(true)
  }

  /** A repair pass that has this block in hand. */
  predicate MidPass(t: Task) {
    && t.phase == SendingLost && t.thread.InFlight? && t.thread.lost && t.cursor == Some(t.thread.blk + 1)
    && t.eof && !t.fault
  }

  /** The pass is over: these blocks have been sent, DONE is posted, and the records are empty. */
  predicate PassOver(t: Task, u: Task, sent: seq<nat>) {
    u == t.(log := t.log + SentEvents(sent), phase := WaitingClientStatus, thread := Idle,
            donePosted := t.donePosted + 1, naks := {}, later := {}, cursor := None, posted := u.posted)
  }

  /** The block in hand has been sent, and the next one is in hand. */
  predicate WentOn(t: Task, u: Task)
    requires t.thread.InFlight?
  {
    && MidPass(u)
    && u == t.(log := t.log + [Sent(t.thread.blk)], thread := u.thread, cursor := u.cursor,
               naks := u.naks, later := u.later)
  }

  lemma SendAndPick(t: Task)
    requires MidPass(t) && Unsent(t) != {}
    ensures var u := Step(Step(t, FileThreadSends(true)), FileThreadLocks);
            && WentOn(t, u) && u.later == t.later
            && u.thread.blk == Least(Unsent(t)) && Unsent(u) == Unsent(t) - {Least(Unsent(t))}
  {
    var v := Step(t, FileThreadSends(true));
    assert Unsent(v) == Unsent(t);
  }

  lemma SendAndFinish(t: Task)
    requires MidPass(t) && Unsent(t) == {} && t.later == {}
    ensures PassOver(t, Step(Step(t, FileThreadSends(true)), FileThreadLocks), [t.thread.blk])
  {
    var v := Step(t, FileThreadSends(true));
    assert Unsent(v) == Unsent(t);
    assert SentEvents([t.thread.blk]) == [Sent(t.thread.blk)];
  }

  /** The NAKs that came in during the pass make the next one. */
  lemma SendAndRewind(t: Task)
    requires MidPass(t) && Unsent(t) == {} && t.later != {}
    ensures var u := Step(Step(Step(t, FileThreadSends(true)), FileThreadLocks), FileThreadLocks);
            && WentOn(t, u) && u.later == {}
            && u.thread.blk == Least(t.later) && Unsent(u) == t.later - {Least(t.later)}
  {
    var v := Step(t, FileThreadSends(true));
    assert Unsent(v) == Unsent(t);
    EntersPass(Step(v, FileThreadLocks));
  }

  /** The file thread takes the lock at the start of a pass over these records. */
  lemma EntersPass(t: Task)
    requires t.phase == SendingLost && t.thread == Entering && t.cursor.None? && t.naks != {} && !t.fault
    ensures var u := Step(t, FileThreadLocks);
            && u == t.(cursor := Some(Least(t.naks) + 1), thread := InFlight(true, Least(t.naks)))
            && Unsent(u) == t.naks - {Least(t.naks)}
  {
    assert Unsent(t.(cursor := Some(0))) == t.naks;
  }

  lemma PassOverAfter(t: Task, u: Task, v: Task, first: nat, rest: seq<nat>)
    requires t.thread.InFlight? && t.thread.blk == first && WentOn(t, u) && PassOver(u, v, rest)
    ensures PassOver(t, v, [first] + rest)
  {
    assert SentEvents([first] + rest) == [Sent(first)] + SentEvents(rest);
    assert t.log + SentEvents([first] + rest) == u.log + SentEvents(rest);
  }

  /** What is still to be sent, in the order in which it will be. */
  function StillToSend(t: Task): seq<nat> {
    Ascending(Unsent(t)) + Ascending(t.later)
  }

  lemma {:induction false} PicksNext(t: Task) returns (u: Task, inputs: seq<Input>)
    requires MidPass(t) && Unsent(t) != {}
    ensures WentOn(t, u) && u == Run(t, inputs) && forall i :: i in inputs ==> Unrefused(i)
    ensures [u.thread.blk] + StillToSend(u) == StillToSend(t)
    ensures u.later == t.later && |Unsent(u)| < |Unsent(t)|
  {
    SendAndPick(t);
    u := Step(Step(t, FileThreadSends(true)), FileThreadLocks);
    inputs := [FileThreadSends(true), FileThreadLocks] + [];
    RunTwo(t, FileThreadSends(true), FileThreadLocks, []);
    assert Unsent(t) == Unsent(u) + {u.thread.blk};
  }

  lemma {:induction false} GoesRound(t: Task) returns (u: Task, inputs: seq<Input>)
    requires MidPass(t) && Unsent(t) == {} && t.later != {}
    ensures WentOn(t, u) && u == Run(t, inputs) && forall i :: i in inputs ==> Unrefused(i)
    ensures [u.thread.blk] + StillToSend(u) == StillToSend(t)
    ensures u.later == {}
  {
    SendAndRewind(t);
    var v := Step(Step(t, FileThreadSends(true)), FileThreadLocks);
    u := Step(v, FileThreadLocks);
    inputs := [FileThreadSends(true), FileThreadLocks] + ([FileThreadLocks] + []);
    RunTwo(t, FileThreadSends(true), FileThreadLocks, [FileThreadLocks] + []);
    RunFirst(v, FileThreadLocks, []);
  }

  /** Left to itself, the pass sends the block in hand, then the rest in ascending order, and then in a
      pass of their own the NAKs that had come in meanwhile. */
  lemma {:induction false} PassFrom(t: Task) returns (inputs: seq<Input>)
    requires MidPass(t)
    ensures forall i :: i in inputs ==> Unrefused(i)
    ensures PassOver(t, Run(t, inputs), [t.thread.blk] + StillToSend(t))
    decreases |t.later|, |Unsent(t)|
  {
    if Unsent(t) == {} && t.later == {} {
      SendAndFinish(t);
      assert [t.thread.blk] + StillToSend(t) == [t.thread.blk];
      inputs := [FileThreadSends(true), FileThreadLocks] + [];
      RunTwo(t, FileThreadSends(true), FileThreadLocks, []);
    } else {
      var u, pre;
      if Unsent(t) != {} {
        u, pre := PicksNext(t);
      } else {
        u, pre := GoesRound(t);
      }
      var rest := PassFrom(u);
      PassOverAfter(t, u, Run(u, rest), t.thread.blk, [u.thread.blk] + StillToSend(u));
      inputs := pre + rest;
      RunAppend(t, pre, rest);
    }
  }

  /** A repair pass that is about to start. */
  predicate PassPosted(t: Task) {
    && t.phase == SendingLost && t.thread == Idle && t.posted > 0 && t.cursor.None? && t.naks != {}
    && t.eof && !t.fault
  }

  /** The pass sends every block complained about, once each and in ascending order, then the NAKs that
      had come in too late for it, and posts DONE. */
  lemma {:induction false} PassSendsAll(t: Task) returns (inputs: seq<Input>)
    requires PassPosted(t)
    ensures forall i :: i in inputs ==> Unrefused(i)
    ensures PassOver(t, Run(t, inputs), Ascending(t.naks) + Ascending(t.later))
  {
    StartsJob(t);
    var u := PassEntered(t.(thread := Entering, posted := t.posted - 1));
    var rest := PassFrom(u);
    inputs := [FileThreadStarts, FileThreadLocks] + rest;
    RunTwo(t, FileThreadStarts, FileThreadLocks, rest);
  }

  lemma {:induction false} FirstOfAscending(keys: set<nat>, rest: seq<nat>)
    requires keys != {}
    ensures Ascending(keys) + rest == [Least(keys)] + (Ascending(keys - {Least(keys)}) + rest)
  {
    assert Ascending(keys) == [Least(keys)] + Ascending(keys - {Least(keys)});
  }

  lemma StartsJob(t: Task)
    requires t.thread == Idle && t.posted > 0 && !t.fault
    ensures Step(t, FileThreadStarts) == t.(thread := Entering, posted := t.posted - 1)
  {
  }

  lemma {:induction false} PassEntered(t: Task) returns (u: Task)
    requires t.phase == SendingLost && t.thread == Entering && t.cursor.None? && t.naks != {} && t.eof && !t.fault
    ensures u == Step(t, FileThreadLocks) && MidPass(u) && u == t.(thread := u.thread, cursor := u.cursor)
    ensures [u.thread.blk] + StillToSend(u) == Ascending(t.naks) + Ascending(t.later)
  {
    EntersPass(t);
    FirstOfAscending(t.naks, Ascending(t.later));
    u := t.(cursor := Some(Least(t.naks) + 1), thread := InFlight(true, Least(t.naks)));
  }

  /** When the wait for STATUS ends in a repair, the pass that follows sends exactly the recorded NAKs. */
  lemma {:induction false} WaitThenPass(t: Task, taken: bool) returns (inputs: seq<Input>)
    requires Waiting(t) && t.naks != {} && WaitEnds(t, taken).phase == SendingLost
    ensures inputs != [] && inputs[0] == WaitTimerFires(taken) && forall i :: i in inputs[1..] ==> Unrefused(i)
    ensures PassOver(WaitEnds(t, taken), Run(t, inputs), Ascending(t.naks) + Ascending(t.later))
  {
    WaitPostsPass(t, taken);
    var w := Step(t, WaitTimerFires(taken));
    var rest := PassSendsAll(w);
    inputs := [WaitTimerFires(taken)] + rest;
    RunFirst(t, WaitTimerFires(taken), rest);
  }

  lemma {:induction false} WaitPostsPass(t: Task, taken: bool)
    requires Waiting(t) && t.naks != {} && WaitEnds(t, taken).phase == SendingLost
    ensures PassPosted(WaitEnds(t, taken))
    ensures WaitEnds(t, taken).naks == t.naks && WaitEnds(t, taken).later == t.later
    ensures Step(t, WaitTimerFires(taken)) == WaitEnds(t, taken)
  {
  }

  /** The sender has sent DONE and waits for answers. */
  predicate Waiting(t: Task) {
    Coherent(t) && !t.fault && t.phase == WaitingClientStatus && t.thread == Idle && t.timers > 0
  }

  // ----- The STATUS packets at the sender -----

  /** The sender takes in a sequence of STATUS packets. */
  function TakeAll(t: Task, ms: seq<Message>): Task
    requires forall m :: m in ms ==> m.Status?
    decreases |ms|
  {
    if ms == [] then t else TakeAll(OnStatus(t, ms[0]), ms[1..])
  }

  lemma NakedArePairs(t: Task, m: Message)
    requires m.Status?
    ensures NakedBlocks(t, m) == AbsOf(t.cfg.geo, NakPairs(m))
    ensures NakPairs(m) == {} <==> NakCodec.PlainScan(m.nakMap) == {}
  {
    forall b | b in NakCodec.PlainScan(m.nakMap)
      ensures (m.statusSect, b) in NakPairs(m)
      ensures AbsBlk(t.cfg.geo, m.statusSect, b) in AbsOf(t.cfg.geo, NakPairs(m))
    {
      assert (m.statusSect, b) in NakPairs(m);
    }
  }

  /** A waiting sender whose records have grown by these blocks, on the word of this receiver. */
  predicate Collected(t: Task, u: Task, blocks: set<nat>, source: nat) {
    && u.naks == t.naks + blocks
    && u == t.(naks := u.naks, standing := u.standing, log := u.log)
    && (u.standing == t.standing || u.standing == t.standing[source := ActiveNak])
    && (blocks != {} ==> u.standing == t.standing[source := ActiveNak])
  }

  lemma OneCollects(t: Task, m: Message)
    requires t.phase == WaitingClientStatus && m.Status? && m.statusId == t.cfg.fileId
    requires m.statusFrom in t.standing && t.standing[m.statusFrom] != DoneWithFile
    ensures Collected(t, OnStatus(t, m), AbsOf(t.cfg.geo, NakPairs(m)), m.statusFrom)
  {
    NakedArePairs(t, m);
  }

  lemma CollectedBoth(t: Task, v: Task, u: Task, a: set<nat>, b: set<nat>, source: nat)
    requires Collected(t, v, a, source) && Collected(v, u, b, source)
    ensures Collected(t, u, a + b, source)
  {
  }

  /** While it waits, the sender adds exactly the blocks complained about to its NAK records. */
  lemma {:induction false} TakeAllCollects(t: Task, ms: seq<Message>, source: nat)
    requires t.phase == WaitingClientStatus && source in t.standing && t.standing[source] != DoneWithFile
    requires forall m :: m in ms ==> m.Status? && m.statusFrom == source && m.statusId == t.cfg.fileId
    ensures Collected(t, TakeAll(t, ms), AbsOf(t.cfg.geo, AllNakPairs(ms)), source)
    decreases |ms|
  {
    if ms == [] {
      assert AbsOf(t.cfg.geo, {}) == {};
    } else {
      var v := OnStatus(t, ms[0]);
      OneCollects(t, ms[0]);
      AbsOfUnion(t.cfg.geo, NakPairs(ms[0]), AllNakPairs(ms[1..]));
      TakeAllCollects(v, ms[1..], source);
      CollectedBoth(t, v, TakeAll(v, ms[1..]), AbsOf(t.cfg.geo, NakPairs(ms[0])),
                    AbsOf(t.cfg.geo, AllNakPairs(ms[1..])), source);
    }
  }

  lemma AbsOfUnion(g: Geo, a: set<(nat, nat)>, b: set<(nat, nat)>)
    ensures AbsOf(g, a + b) == AbsOf(g, a) + AbsOf(g, b)
  {
  }

  // ----- The round -----

  /** Reporting to DONE changes nothing at a receiver that has seen every section. */
  lemma {:induction false} ReportLeavesAlone(t: R.Task, sect: nat, last: nat)
    requires R.Consistent(t) && !t.fault && last < t.geo.sectionCount
    requires forall s :: 0 <= s < t.geo.sectionCount ==> SomeArrived(t, s)
    ensures R.ReportFrom(t, sect, last).0 == t
    decreases last + 1 - sect
  {
    if sect <= last {
      if !t.completed[sect] {
        assert SomeArrived(t, sect);
        ReceiverFacts.ReportFits(t, sect);
        assert t.records[sect := R.ReportedRecord(t, sect)] == t.records;
      }
      ReportLeavesAlone(t, sect + 1, last);
    }
  }

  lemma {:induction false} DeliverAppend(t: R.Task, a: seq<Message>, b: seq<Message>)
    requires forall m :: m in a + b ==> m.FileSeg?
    ensures forall m :: m in a ==> m.FileSeg?
    ensures forall m :: m in b ==> m.FileSeg?
    ensures DeliverAll(t, a + b) == DeliverAll(DeliverAll(t, a), b)
  {
    forall m | m in a ensures m.FileSeg? { assert m in a + b; }
    forall m | m in b ensures m.FileSeg? { assert m in a + b; }
    if b == [] {
      assert a + b == a;
    } else {
      assert (a + b)[..|a + b| - 1] == a + b[..|b| - 1];
      assert forall m :: m in a + b[..|b| - 1] ==> m in a + b;
      DeliverAppend(t, a, b[..|b| - 1]);
    }
  }

  /** The resent blocks are delivered: each block sent arrives at least once, in any order. */
  ghost predicate AllArrive(sent: set<nat>, segs: seq<Message>, g: Geo) {
    forall abs :: abs in sent && abs < g.blockCount && g.perSmall > 0 && g.perBig > 0
                  ==> Delivered(segs, SectBlk(g, abs).0, SectBlk(g, abs).1)
  }

  /** A receiver that has missed some blocks but none of a whole section. */
  ghost predicate PartialReception(r: R.Task, first: R.Task, got: seq<Message>, src: seq<Byte>) {
    && Fresh(first, src) && Deliveries(got, first, src) && r == DeliverAll(first, got)
    && !R.AllSet(r.completed)
    && forall s :: 0 <= s < first.geo.sectionCount ==> SomeArrived(r, s)
  }

  /** The DONE that covers the whole file and names the receiver. */
  predicate DoneForAll(m: Message, r: R.Task) {
    m.Done? && m.doneId != 0 && m.doneId == r.fileId && r.self in m.doneFor && m.lastSect == r.geo.sectionCount - 1
  }

  /** From any partial reception that has seen every section: the DONE leaves the receiver as it was,
      and the sender's NAK records grow by exactly the missing blocks. */
  lemma {:induction false} RoundTripOfNaks(
    t: Task, r: R.Task, first: R.Task, got: seq<Message>, src: seq<Byte>, done: Message)
    requires PartialReception(r, first, got, src) && DoneForAll(done, r)
    requires t.phase == WaitingClientStatus && t.cfg.geo == r.geo && t.cfg.fileId == r.fileId
    requires r.self in t.standing && t.standing[r.self] != DoneWithFile
    ensures R.OnDone(r, done).0 == r
    ensures forall m :: m in R.OnDone(r, done).1 ==> m.Status?
    ensures Collected(t, TakeAll(t, R.OnDone(r, done).1), MissingBlocks(r), r.self)
  {
    BookkeepingIsExact(first, got, src);
    ReportLeavesAlone(r, 0, done.lastSect);
    FeedbackIsExactIff(r, done);
    var sts := R.OnDone(r, done).1;
    FeedbackBlocks(r, AllNakPairs(sts));
    TakeAllCollects(t, sts, r.self);
  }

  /** Delivering what was missing completes every section. */
  lemma {:induction false} MissingDelivered(
    r: R.Task, first: R.Task, got: seq<Message>, src: seq<Byte>, sent: set<nat>, segs: seq<Message>)
    requires Fresh(first, src) && Deliveries(got, first, src) && r == DeliverAll(first, got)
    requires Valid(r.geo) && MissingBlocks(r) <= sent
    requires Deliveries(segs, first, src) && AllArrive(sent, segs, first.geo) && Few(got + segs, first.geo)
    ensures R.AllSet(DeliverAll(r, segs).completed) && !DeliverAll(r, segs).fault
  {
    BookkeepingIsExact(first, got, src);
    BookkeepingIsExact(first, got + segs, src);
    DeliverAppend(first, got, segs);
    forall s | 0 <= s < first.geo.sectionCount
      ensures Marked(DeliverAll(first, got + segs), s)
    {
      EveryBlockDelivered(r, got, segs, sent, s);
      GuardNeverHides(first, got + segs, src, s);
    }
    AllMarkedIsComplete(DeliverAll(first, got + segs));
  }

  lemma {:induction false} EveryBlockDelivered(r: R.Task, got: seq<Message>, segs: seq<Message>, sent: set<nat>, s: nat)
    requires Valid(r.geo) && s < r.geo.sectionCount && MissingBlocks(r) <= sent && AllArrive(sent, segs, r.geo)
    requires Tallies(r, got)
    ensures AllDelivered(got + segs, r.geo, s)
  {
    forall b | 0 <= b < SectionSize(r.geo, s)
      ensures Delivered(got + segs, s, b)
    {
      BlockGetsThere(r, got, segs, sent, s, b);
    }
  }

  lemma AllMarkedIsComplete(u: R.Task)
    requires |u.completed| == u.geo.sectionCount
    requires forall s :: 0 <= s < u.geo.sectionCount ==> Marked(u, s)
    ensures R.AllSet(u.completed)
  {
    forall i | 0 <= i < |u.completed| ensures u.completed[i] {
      assert Marked(u, i);
    }
  }

  /** Fewer than 2^32 deliveries to any section. */
  predicate Few(ms: seq<Message>, g: Geo) {
    forall s :: 0 <= s < g.sectionCount ==> DeliveriesTo(ms, s) < 0x1_0000_0000
  }

  lemma {:induction false} SomethingIsMissing(r: R.Task, first: R.Task, got: seq<Message>, src: seq<Byte>)
    requires PartialReception(r, first, got, src) && Few(got, first.geo)
    ensures MissingBlocks(r) != {}
  {
    BookkeepingIsExact(first, got, src);
    var s :| 0 <= s < |r.completed| && !r.completed[s];
    assert !Marked(r, s);
    GuardNeverHides(first, got, src, s);
    var b :| 0 <= b < SectionSize(r.geo, s) && !Delivered(got, s, b);
    assert R.IsBlock(r.geo, s, b) && !R.Arrived(r, s, b);
    PairRoundTrip(r.geo, s, b);
    assert AbsBlk(r.geo, s, b) in MissingBlocks(r);
  }

  /** No other receiver keeps the end of the wait from starting a repair: none is silent, or the silent
      ones are now given up and that is not taken for an error. */
  predicate OthersSettled(t: Task, r: nat) {
    || (forall id :: id in t.standing && id != r ==> t.standing[id] != Active)
    || (t.rounds >= t.cfg.robust && !t.cfg.quitOnError)
  }

  lemma WaitEndsInRepair(t: Task, r: nat, taken: bool)
    requires t.phase == WaitingClientStatus && t.timers > 0
    requires r in t.standing && t.standing[r] == ActiveNak && OthersSettled(t, r)
    ensures WaitEnds(t, taken).phase == SendingLost && WaitEnds(t, taken).log == t.log
    ensures WaitEnds(t, taken).donePosted == t.donePosted
  {
  }

  /** The blocks that were sent on the way from t to u. */
  function SentSince(t: Task, u: Task): set<nat> {
    set k | |t.log| <= k < |u.log| && u.log[k].Sent? :: u.log[k].blk
  }

  lemma {:induction false} SentInPass(t: Task, u: Task, order: seq<nat>, bs: set<nat>)
    requires t.log <= u.log && u.log[|t.log|..] == SentEvents(order) && forall b :: b in order <==> b in bs
    ensures SentSince(t, u) == bs
  {
    var n := |t.log|;
    assert forall k :: n <= k < |u.log| ==> u.log[k] == u.log[n..][k - n];
    assert forall i :: 0 <= i < |order| ==> u.log[n..][i] == Sent(order[i]);
    forall b | b in bs ensures b in SentSince(t, u) {
      var i :| 0 <= i < |order| && order[i] == b;
      assert u.log[n + i].Sent? && u.log[n + i].blk == b;
    }
    forall b | b in SentSince(t, u) ensures b in bs {
      var k :| n <= k < |u.log| && u.log[k].Sent? && u.log[k].blk == b;
      assert u.log[k] == Sent(order[k - n]);
    }
  }

  /** Whatever the order and repetition in which these blocks are delivered, the file is complete. */
  ghost predicate DeliveryFinishes(r: R.Task, first: R.Task, got: seq<Message>, src: seq<Byte>, sent: set<nat>) {
    forall segs :: Deliveries(segs, first, src) && AllArrive(sent, segs, first.geo) && Few(got + segs, first.geo)
                   ==> R.AllSet(DeliverAll(r, segs).completed) && !DeliverAll(r, segs).fault
  }

  /** The sender's side of the round: the wait ends, and everything recorded is sent. */
  lemma {:induction false} RepairRound(u: Task, r: nat, taken: bool) returns (inputs: seq<Input>)
    requires Waiting(u) && OthersSettled(u, r) && r in u.standing && u.standing[r] == ActiveNak && u.naks != {}
    ensures inputs != [] && inputs[0] == WaitTimerFires(taken) && forall i :: i in inputs[1..] ==> Unrefused(i)
    ensures var v := Run(u, inputs);
            && v.phase == WaitingClientStatus && v.donePosted == u.donePosted + 1 && v.naks == {} && !v.fault
            && v.thread == Idle && v.standing == WaitEnds(u, taken).standing
            && SentSince(u, v) == u.naks + u.later
  {
    WaitEndsInRepair(u, r, taken);
    inputs := WaitThenPass(u, taken);
    var order := Ascending(u.naks) + Ascending(u.later);
    assert Run(u, inputs).log[|u.log|..] == SentEvents(order);
    SentInPass(u, Run(u, inputs), order, u.naks + u.later);
  }

  /** A round with nothing recorded: what was set aside, if anything, is sent, and DONE is posted. */
  lemma {:induction false} EmptyRound(u: Task, r: nat, taken: bool) returns (inputs: seq<Input>)
    requires Waiting(u) && OthersSettled(u, r) && r in u.standing && u.standing[r] == ActiveNak && u.naks == {}
    ensures inputs != [] && inputs[0] == WaitTimerFires(taken) && forall i :: i in inputs[1..] ==> Unrefused(i)
    ensures var v := Run(u, inputs);
            && v.phase == WaitingClientStatus && v.donePosted == u.donePosted + 1 && v.naks == {} && !v.fault
            && v.thread == Idle && v.standing == WaitEnds(u, taken).standing
  {
    WaitEndsInRepair(u, r, taken);
    EmptyRoundStarts(u, taken);
    var w := Step(u, WaitTimerFires(taken));
    var rest := EmptyPass(w);
    inputs := [WaitTimerFires(taken)] + rest;
    RunFirst(u, WaitTimerFires(taken), rest);
  }

  lemma EmptyRoundStarts(u: Task, taken: bool)
    requires Waiting(u) && u.naks == {} && WaitEnds(u, taken).phase == SendingLost
    ensures EmptyPosted(WaitEnds(u, taken)) && Step(u, WaitTimerFires(taken)) == WaitEnds(u, taken)
    ensures WaitEnds(u, taken).donePosted == u.donePosted
  {
  }

  predicate EmptyPosted(t: Task) {
    && t.phase == SendingLost && t.thread == Idle && t.posted > 0 && t.cursor.None? && t.naks == {}
    && t.eof && !t.fault
  }

  lemma {:induction false} EmptyPass(t: Task) returns (inputs: seq<Input>)
    requires EmptyPosted(t)
    ensures forall i :: i in inputs ==> Unrefused(i)
    ensures PassOver(t, Run(t, inputs), Ascending(t.later))
  {
    StartsJob(t);
    var a := t.(thread := Entering, posted := t.posted - 1);
    FindsNothing(a);
    var b := Step(a, FileThreadLocks);
    if t.later == {} {
      inputs := [FileThreadStarts, FileThreadLocks] + [];
      RunTwo(t, FileThreadStarts, FileThreadLocks, []);
      assert t.log + SentEvents([]) == t.log;
    } else {
      var c := PassEntered(b);
      var rest := PassFrom(c);
      assert Ascending(b.naks) + Ascending({}) == Ascending(t.later);
      inputs := [FileThreadStarts, FileThreadLocks] + ([FileThreadLocks] + rest);
      RunTwo(t, FileThreadStarts, FileThreadLocks, [FileThreadLocks] + rest);
      RunFirst(b, FileThreadLocks, rest);
    }
  }

  lemma FindsNothing(t: Task)
    requires t.phase == SendingLost && t.thread == Entering && t.cursor.None? && t.naks == {} && t.eof && !t.fault
    ensures Step(t, FileThreadLocks)
            == if t.later == {} then t.(phase := WaitingClientStatus, thread := Idle, donePosted := t.donePosted + 1)
               else t.(naks := t.later, later := {})
  {
    assert Unsent(t.(cursor := Some(0))) == {};
  }

  /** One lossless repair round finishes the file. Take any partial reception that has seen every
      section, and a sender that waits for answers to its DONE, where no other receiver is silent or the
      silent ones are now given up. If the DONE and the STATUS packets it provokes arrive, then when the
      wait ends the sender sends everything that was complained about, whether in this wait or set aside
      before, and posts DONE again; and if what it sent arrives, in any order and with any repetition,
      every section is marked complete. */
  lemma {:induction false} OneLosslessRound(
    t: Task, r: R.Task, first: R.Task, got: seq<Message>, src: seq<Byte>, done: Message, taken: bool)
    returns (inputs: seq<Input>)
    requires PartialReception(r, first, got, src) && DoneForAll(done, r) && Few(got, first.geo)
    requires Waiting(t) && OthersSettled(t, r.self) && t.cfg.geo == r.geo && t.cfg.fileId == r.fileId
    requires r.self in t.standing && t.standing[r.self] != DoneWithFile
    ensures forall m :: m in R.OnDone(r, done).1 ==> m.Status?
    ensures inputs != [] && inputs[0] == WaitTimerFires(taken) && forall i :: i in inputs[1..] ==> Unrefused(i)
    ensures var u := TakeAll(t, R.OnDone(r, done).1);
            var v := Run(u, inputs);
            && v.phase == WaitingClientStatus && v.donePosted == t.donePosted + 1 && v.naks == {} && !v.fault
            && SentSince(u, v) == t.naks + MissingBlocks(r) + t.later
            && DeliveryFinishes(R.OnDone(r, done).0, first, got, src, SentSince(u, v))
  {
    RoundTripOfNaks(t, r, first, got, src, done);
    SomethingIsMissing(r, first, got, src);
    var u := TakeAll(t, R.OnDone(r, done).1);
    assert u.standing[r.self] == ActiveNak;
    inputs := RepairRound(u, r.self, taken);
    forall segs | Deliveries(segs, first, src) && AllArrive(u.naks + u.later, segs, first.geo)
                  && Few(got + segs, first.geo)
      ensures R.AllSet(DeliverAll(r, segs).completed) && !DeliverAll(r, segs).fault
    {
      MissingDelivered(r, first, got, src, u.naks + u.later, segs);
    }
  }

  lemma {:induction false} BlockGetsThere(
    r: R.Task, got: seq<Message>, segs: seq<Message>, sent: set<nat>, s: nat, b: nat)
    requires Valid(r.geo) && R.IsBlock(r.geo, s, b) && MissingBlocks(r) <= sent && AllArrive(sent, segs, r.geo)
    requires Tallies(r, got)
    ensures Delivered(got + segs, s, b)
  {
    PairRoundTrip(r.geo, s, b);
    if R.Arrived(r, s, b) {
      var m :| m in got && m.FileSeg? && m.sect == s && m.blk == b;
      assert m in got + segs;
    } else {
      assert AbsBlk(r.geo, s, b) in MissingBlocks(r);
      assert Delivered(segs, s, b);
      var m :| m in segs && m.FileSeg? && m.sect == s && m.blk == b;
      assert m in got + segs;
    }
  }
}
