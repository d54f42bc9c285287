/** Everything that is on its way is lost for good, at any moment at which the sender waits for answers. If
    nothing more is lost, the sender asks again, resends what is missing, and brings the file to every
    receiver that it has not given up. */
module Losses {
  import opened Common
  import opened Geometry
  import opened Messages
  import opened Protocol
  import opened Lossless
  import opened Recovery
  import S = Sender
  import R = Receiver
  import CountGuard
  import Disk
  import Feedback
  import Repair

  /** A section all of whose blocks have arrived is marked complete: its count has not wrapped. */
  ghost predicate Unhidden(t: R.Task) {
    forall s :: 0 <= s < t.geo.sectionCount && HasAll(t, s) ==> CountGuard.Marked(t, s)
  }

  predicate HasAll(t: R.Task, s: nat) {
    forall b :: 0 <= b < SectionSize(t.geo, s) ==> R.Arrived(t, s, b)
  }

  lemma NothingMissingIsComplete(t: R.Task, r: nat, cfg: S.Config, src: seq<Byte>)
    requires Partly(t, r, cfg, src) && Unhidden(t) && Feedback.MissingBlocks(t) == {}
    ensures R.AllSet(t.completed)
  {
    forall s | 0 <= s < t.geo.sectionCount ensures CountGuard.Marked(t, s) {
      forall b | 0 <= b < SectionSize(t.geo, s) ensures R.Arrived(t, s, b) {
        AllArrivedIn(t, s, b);
      }
      assert HasAll(t, s);
    }
    Repair.AllMarkedIsComplete(t);
  }

  /** What is missing is on the network, and what is not missing is marked. */
  lemma UnhiddenIsFixable(net: set<Message>, t: R.Task, r: nat, cfg: S.Config, src: seq<Byte>)
    requires Valid(cfg.geo) && Partly(t, r, cfg, src) && Unhidden(t) && MissingIsOut(net, t, cfg, src)
    ensures Fixable(net, t, cfg, src)
  {
    forall s | 0 <= s < cfg.geo.sectionCount && !CountGuard.Marked(t, s) ensures SectionIsOut(net, s, cfg, src) {
      assert !HasAll(t, s);
      var b :| 0 <= b < SectionSize(t.geo, s) && !R.Arrived(t, s, b);
      PairRoundTrip(t.geo, s, b);
      assert AbsBlk(t.geo, s, b) in Feedback.MissingBlocks(t);
    }
  }

  /** Beyond these receivers nothing has changed. */
  predicate AlikeBeyond(w: World, v: World, ids: set<nat>) {
    && v.rcv.Keys == w.rcv.Keys && v.snd.standing.Keys == w.snd.standing.Keys
    && (forall id :: id in w.rcv && id !in ids ==> v.rcv[id] == w.rcv[id])
    && (forall id :: id in w.snd.standing && id !in ids ==> v.snd.standing[id] == w.snd.standing[id])
  }

  lemma AlikeOn(w: World, u: World, v: World, r: nat, ids: set<nat>)
    requires r in ids && AlikeBeyond(w, u, {r}) && AlikeBeyond(u, v, ids - {r})
    ensures AlikeBeyond(w, v, ids)
  {
  }

  // ----- Asking again -----

  /** r is partly there, or has finished, and the sender does not know it to be done and has not given it up. */
  ghost predicate Ready(w: World, r: nat, src: seq<Byte>) {
    && r in w.rcv && Unserved(w.snd, r)
    && (Served(w.rcv[r], r, w.snd.cfg, src) || (Partly(w.rcv[r], r, w.snd.cfg, src) && Unhidden(w.rcv[r])))
  }

  lemma AsksSilent(t: S.Task)
    requires Repair.Waiting(t) && t.rounds < t.cfg.robust && S.Any(t, S.Active)
    ensures S.Step(t, S.WaitTimerFires(true)) == t.(rounds := t.rounds + 1)
    ensures S.SendsDone(t, S.WaitTimerFires(true))
  {
  }

  lemma NoneGivenUp(t: S.Task)
    requires !S.Any(t, S.Active)
    ensures S.WaitEnds(t, true).standing == t.standing
  {
    forall id | id in t.standing ensures S.GiveUp(t.standing)[id] == t.standing[id] {
    }
    assert S.GiveUp(t.standing) == t.standing;
  }

  lemma NoneSilentIsSettled(t: S.Task, r: nat)
    requires !S.Any(t, S.Active)
    ensures Repair.OthersSettled(t, r)
  {
  }

  /** A pass over what is recorded, if anything, and then DONE. */
  lemma {:induction false} Passes(o: World, w: World, r: nat, src: seq<Byte>) returns (v: World)
    requires Under(o, w, src) && Repair.Waiting(w.snd) && !S.Any(w.snd, S.Active)
    requires r in w.snd.standing && w.snd.standing[r] == S.ActiveNak
    ensures Under(o, v, src) && v.rcv == w.rcv && w.net <= v.net && v.snd.standing == w.snd.standing
    ensures Repair.Waiting(v.snd)
    ensures forall id :: Unserved(v.snd, id) ==> Called(v.net, id, v.snd.cfg)
    ensures forall b :: b in w.snd.naks ==> SegOf(w.snd.cfg, src, b) in v.net
  {
    NoneSilentIsSettled(w.snd, r);
    NoneGivenUp(w.snd);
    var u;
    if w.snd.naks != {} {
      u := Resends(o, w, r, src);
    } else {
      var inputs := Repair.EmptyRound(w.snd, r, true);
      NoArrivals(inputs);
      u := SenderRuns(o, w, inputs, src, |w.snd.log|);
      CoherentRuns(w.snd, inputs);
    }
    v := AsksAll(o, u, src);
  }

  /** Everybody who is not given up is asked, once more or for the first time since the losses. */
  lemma {:induction false} AsksAnew(o: World, w: World, src: seq<Byte>) returns (v: World)
    requires Under(o, w, src) && Repair.Waiting(w.snd)
    requires S.Any(w.snd, S.Active) ==> w.snd.rounds < w.snd.cfg.robust
    ensures Under(o, v, src) && v.rcv == w.rcv && v.snd.standing == w.snd.standing && Repair.Waiting(v.snd)
    ensures forall id :: Unserved(v.snd, id) ==> Called(v.net, id, v.snd.cfg)
  {
    if S.Any(w.snd, S.Active) {
      AsksSilent(w.snd);
      v := SenderMoves(o, w, S.WaitTimerFires(true), src);
      forall id | Unserved(w.snd, id) ensures Called(v.net, id, w.snd.cfg) {
        CallsOut(w.snd, S.WaitTimerFires(true), src, w.net, id);
      }
    } else if S.Any(w.snd, S.ActiveNak) {
      var r :| r in w.snd.standing && w.snd.standing[r] == S.ActiveNak;
      v := Passes(o, w, r, src);
    } else {
      v := w;
    }
  }

  // ----- Hearing everybody -----

  /** r is served, or its complaint is recorded. */
  ghost predicate Heard(w: World, r: nat, src: seq<Byte>) {
    && r in w.rcv && r in w.snd.standing
    && ((w.snd.standing[r] == S.DoneWithFile && Served(w.rcv[r], r, w.snd.cfg, src))
        || (w.snd.standing[r] == S.ActiveNak && Partly(w.rcv[r], r, w.snd.cfg, src) && Unhidden(w.rcv[r])
            && Feedback.MissingBlocks(w.rcv[r]) != {} && Feedback.MissingBlocks(w.rcv[r]) <= w.snd.naks))
  }

  lemma {:induction false} HearsOne(o: World, w: World, r: nat, src: seq<Byte>) returns (v: World)
    requires Under(o, w, src) && Repair.Waiting(w.snd) && Ready(w, r, src) && Called(w.net, r, w.snd.cfg)
    ensures Under(o, v, src) && AlikeBeyond(w, v, {r}) && w.net <= v.net && Heard(v, r, src)
    ensures v.snd == w.snd.(naks := v.snd.naks, standing := v.snd.standing, log := v.snd.log)
    ensures w.snd.naks <= v.snd.naks
  {
    if Served(w.rcv[r], r, w.snd.cfg, src) {
      v := Concludes(o, w, r, src);
    } else if Feedback.MissingBlocks(w.rcv[r]) == {} {
      NothingMissingIsComplete(w.rcv[r], r, w.snd.cfg, src);
      v := Concludes(o, w, r, src);
    } else {
      v := Complains(o, w, r, src);
    }
  }

  lemma HeardStays(w: World, v: World, r: nat, ids: set<nat>, src: seq<Byte>)
    requires Heard(w, r, src) && AlikeBeyond(w, v, ids) && r !in ids
    requires v.snd.cfg == w.snd.cfg && w.snd.naks <= v.snd.naks
    ensures Heard(v, r, src)
  {
  }

  lemma ReadyStays(w: World, v: World, id: nat, r: nat, src: seq<Byte>)
    requires Ready(w, id, src) && AlikeBeyond(w, v, {r}) && id != r && v.snd.cfg == w.snd.cfg
    ensures Ready(v, id, src)
  {
  }

  lemma {:induction false} HearsAll(o: World, w: World, ids: set<nat>, src: seq<Byte>) returns (v: World)
    requires Under(o, w, src) && Repair.Waiting(w.snd)
    requires forall id :: id in ids ==> Ready(w, id, src) && Called(w.net, id, w.snd.cfg)
    ensures Under(o, v, src) && AlikeBeyond(w, v, ids) && w.net <= v.net
    ensures v.snd == w.snd.(naks := v.snd.naks, standing := v.snd.standing, log := v.snd.log)
    ensures w.snd.naks <= v.snd.naks
    ensures forall id :: id in ids ==> Heard(v, id, src)
    decreases |ids|
  {
    if ids == {} {
      v := w;
    } else {
      var r := Least(ids);
      var rest := ids - {r};
      var u := HearsOne(o, w, r, src);
      forall id | id in rest ensures Ready(u, id, src) && Called(u.net, id, u.snd.cfg) {
        ReadyStays(w, u, id, r, src);
        CalledStays(w.net, u.net, id, w.snd.cfg);
      }
      v := HearsAll(o, u, rest, src);
      HeardStays(u, v, r, rest, src);
      AlikeOn(w, u, v, r, ids);
    }
  }

  // ----- Serving everybody -----

  /** r is served, or what it misses is on the network together with a DONE for it. */
  ghost predicate InReach(w: World, r: nat, src: seq<Byte>)
    requires Valid(w.snd.cfg.geo)
  {
    && r in w.rcv && r in w.snd.standing
    && ((w.snd.standing[r] == S.DoneWithFile && Served(w.rcv[r], r, w.snd.cfg, src))
        || (Partly(w.rcv[r], r, w.snd.cfg, src) && Unhidden(w.rcv[r]) && Called(w.net, r, w.snd.cfg)
            && MissingIsOut(w.net, w.rcv[r], w.snd.cfg, src)))
  }

  ghost predicate Provided(w: World, r: nat, src: seq<Byte>) {
    && r in w.rcv && r in w.snd.standing
    && w.snd.standing[r] == S.DoneWithFile && Served(w.rcv[r], r, w.snd.cfg, src)
  }

  lemma {:induction false} ServesOne(o: World, w: World, r: nat, src: seq<Byte>) returns (v: World)
    requires Under(o, w, src) && Repair.Waiting(w.snd) && InReach(w, r, src)
    ensures Under(o, v, src) && AlikeBeyond(w, v, {r}) && w.net <= v.net && Provided(v, r, src)
    ensures v.snd == w.snd.(standing := v.snd.standing, log := v.snd.log)
  {
    if w.snd.standing[r] == S.DoneWithFile && Served(w.rcv[r], r, w.snd.cfg, src) {
      v := w;
    } else {
      UnhiddenIsFixable(w.net, w.rcv[r], r, w.snd.cfg, src);
      v := Finishes(o, w, r, src);
    }
  }

  lemma InReachStays(w: World, v: World, id: nat, r: nat, src: seq<Byte>)
    requires Valid(w.snd.cfg.geo) && InReach(w, id, src) && AlikeBeyond(w, v, {r}) && id != r
    requires v.snd.cfg == w.snd.cfg && w.net <= v.net
    ensures InReach(v, id, src)
  {
    if Called(w.net, id, w.snd.cfg) {
      CalledStays(w.net, v.net, id, w.snd.cfg);
    }
  }

  lemma ProvidedStays(w: World, v: World, r: nat, ids: set<nat>, src: seq<Byte>)
    requires Provided(w, r, src) && AlikeBeyond(w, v, ids) && r !in ids && v.snd.cfg == w.snd.cfg
    ensures Provided(v, r, src)
  {
  }

  lemma {:induction false} ServesAll(o: World, w: World, ids: set<nat>, src: seq<Byte>) returns (v: World)
    requires Under(o, w, src) && Repair.Waiting(w.snd) && forall id :: id in ids ==> InReach(w, id, src)
    ensures Under(o, v, src) && AlikeBeyond(w, v, ids) && w.net <= v.net
    ensures v.snd == w.snd.(standing := v.snd.standing, log := v.snd.log)
    ensures forall id :: id in ids ==> Provided(v, id, src)
    decreases |ids|
  {
    if ids == {} {
      v := w;
    } else {
      var r := Least(ids);
      var rest := ids - {r};
      var u := ServesOne(o, w, r, src);
      forall id | id in rest ensures InReach(u, id, src) {
        InReachStays(w, u, id, r, src);
      }
      v := ServesAll(o, u, rest, src);
      ProvidedStays(u, v, r, rest, src);
      AlikeOn(w, u, v, r, ids);
    }
  }

  /** The file threads catch up. */
  lemma {:induction false} WritesAll(o: World, w: World, ids: set<nat>, src: seq<Byte>) returns (v: World)
    requires Under(o, w, src) && forall id :: id in ids ==> id in w.rcv && Served(w.rcv[id], id, w.snd.cfg, src)
    ensures Under(o, v, src) && AlikeBeyond(w, v, ids) && v.snd == w.snd
    ensures forall id :: id in ids ==>
              id in v.rcv && v.rcv[id].jobs == [] && v.rcv[id].file == Disk.File(Disk.Closed, src)
    decreases |ids|
  {
    if ids == {} {
      v := w;
    } else {
      var r := Least(ids);
      var u := Writes(o, w, r, src);
      v := WritesAll(o, u, ids - {r}, src);
      AlikeOn(w, u, v, r, ids);
    }
  }

  // ----- The end -----

  lemma NothingLeft(t: S.Task)
    requires Repair.Waiting(t) && forall id :: !Unserved(t, id)
    ensures var u := S.Step(t, S.WaitTimerFires(true));
            u == t.(timers := t.timers - 1, rounds := u.rounds, standing := u.standing, log := t.log + [S.FileComplete])
            && u.standing == t.standing
  {
    if id :| id in t.standing && (t.standing[id] == S.Active || t.standing[id] == S.ActiveNak) {
      assert Unserved(t, id);
    }
    NoneGivenUp(t);
  }

  /** The receivers that the sender has not given up. */
  function Concerned(t: S.Task): (ids: set<nat>)
    ensures forall id :: id in ids <==> Unserved(t, id)
  {
    set id | id in t.standing && Unserved(t, id)
  }

  /** Everybody has been asked anew: the complaints come in, are repaired, and everybody is served. */
  lemma {:induction false} ServesConcerned(o: World, w: World, src: seq<Byte>) returns (v: World)
    requires Under(o, w, src) && Repair.Waiting(w.snd)
    requires forall id :: Unserved(w.snd, id) ==> Ready(w, id, src) && Called(w.net, id, w.snd.cfg)
    ensures Under(o, v, src) && Repair.Waiting(v.snd) && AlikeBeyond(w, v, Concerned(w.snd))
    ensures forall id :: id in Concerned(w.snd) ==> Provided(v, id, src)
  {
    var ids := Concerned(w.snd);
    var a := HearsAll(o, w, ids, src);
    assert !S.Any(a.snd, S.Active) by {
      forall id | id in a.snd.standing ensures a.snd.standing[id] != S.Active {
        if id in ids {
          assert Heard(a, id, src);
        } else {
          assert !Unserved(w.snd, id);
        }
      }
    }
    var b := a;
    if S.Any(a.snd, S.ActiveNak) {
      var r :| r in a.snd.standing && a.snd.standing[r] == S.ActiveNak;
      b := Passes(o, a, r, src);
    }
    forall id | id in ids ensures InReach(b, id, src) {
      ComesInReach(a, b, id, src);
    }
    v := ServesAll(o, b, ids, src);
  }

  lemma ComesInReach(a: World, b: World, id: nat, src: seq<Byte>)
    requires Heard(a, id, src) && Valid(a.snd.cfg.geo) && b.rcv == a.rcv && b.snd.standing == a.snd.standing
    requires b.snd.cfg == a.snd.cfg
    requires a.snd.standing[id] == S.ActiveNak ==>
               Called(b.net, id, b.snd.cfg) && forall x :: x in a.snd.naks ==> SegOf(a.snd.cfg, src, x) in b.net
    ensures InReach(b, id, src)
  {
  }

  /** Take any reachable world in which the sender waits for answers, with rounds left if a receiver is
      silent, and in which every receiver that it has not given up has opened the file, has seen every
      section, and has no complete section hidden by a wrapped count. Let everything that is on the network
      be lost. Then from there a run leads to a world in which all these receivers are done, with nothing left
      to their file threads and the source on their disks, and the file has been declared complete. */
  lemma {:induction false} LossesAreMadeGood(w: World, src: seq<Byte>) returns (v: World)
    requires Reachable(w, src) && Repair.Waiting(w.snd)
    requires S.Any(w.snd, S.Active) ==> w.snd.rounds < w.snd.cfg.robust
    requires forall id :: Unserved(w.snd, id) ==> HasSeen(w, id) && Unhidden(w.rcv[id])
    ensures Leads(w.(net := {}), v, src)
    ensures forall id :: Unserved(w.snd, id) ==>
              && id in v.snd.standing && v.snd.standing[id] == S.DoneWithFile
              && id in v.rcv && v.rcv[id].jobs == [] && v.rcv[id].file == Disk.File(Disk.Closed, src)
    ensures w.snd.log <= v.snd.log && S.FileComplete in v.snd.log[|w.snd.log|..]
  {
    StartsHere(w, src);
    var o := w.(net := {});
    LeadsNowhere(o, src);
    var ids := Concerned(w.snd);
    forall id | id in ids ensures Ready(o, id, src) {
      IsPartly(w, id, src);
    }
    v := ServesEverybody(o, src);
  }

  lemma {:induction false} ServesEverybody(o: World, src: seq<Byte>) returns (v: World)
    requires Under(o, o, src) && Repair.Waiting(o.snd)
    requires S.Any(o.snd, S.Active) ==> o.snd.rounds < o.snd.cfg.robust
    requires forall id :: id in Concerned(o.snd) ==> Ready(o, id, src)
    ensures Under(o, v, src) && S.FileComplete in v.snd.log[|o.snd.log|..]
    ensures forall id :: id in Concerned(o.snd) ==>
              && id in v.snd.standing && v.snd.standing[id] == S.DoneWithFile
              && id in v.rcv && v.rcv[id].jobs == [] && v.rcv[id].file == Disk.File(Disk.Closed, src)
  {
    var a := AsksAnew(o, o, src);
    forall id | Unserved(a.snd, id) ensures Ready(a, id, src) {
      assert id in Concerned(o.snd);
      StillReady(o, a, id, src);
    }
    var b := ServesConcerned(o, a, src);
    SameConcern(o.snd, a.snd);
    forall id | id !in Concerned(o.snd) ensures !Unserved(b.snd, id) {
      assert !Unserved(a.snd, id);
    }
    v := WindsUp(o, b, Concerned(o.snd), src);
  }

  lemma StillReady(o: World, a: World, id: nat, src: seq<Byte>)
    requires Ready(o, id, src) && a.rcv == o.rcv && a.snd.standing == o.snd.standing && a.snd.cfg == o.snd.cfg
    ensures Ready(a, id, src)
  {
  }

  lemma SameConcern(t: S.Task, u: S.Task)
    requires u.standing == t.standing
    ensures Concerned(u) == Concerned(t)
  {
    assert forall id :: Unserved(u, id) <==> Unserved(t, id);
  }

  /** Everybody is provided for: the file threads catch up, and the wait ends. */
  lemma {:induction false} WindsUp(o: World, b: World, ids: set<nat>, src: seq<Byte>) returns (v: World)
    requires Under(o, b, src) && Repair.Waiting(b.snd)
    requires forall id :: id in ids ==> Provided(b, id, src)
    requires forall id :: id !in ids ==> !Unserved(b.snd, id)
    ensures Under(o, v, src) && S.FileComplete in v.snd.log[|o.snd.log|..]
    ensures forall id :: id in ids ==>
              && id in v.snd.standing && v.snd.standing[id] == S.DoneWithFile
              && id in v.rcv && v.rcv[id].jobs == [] && v.rcv[id].file == Disk.File(Disk.Closed, src)
  {
    var c := WritesAll(o, b, ids, src);
    forall id ensures !Unserved(c.snd, id) {
      if id in ids {
        assert Provided(b, id, src);
      }
    }
    v := Ends(o, c, src);
    forall id | id in ids ensures id in v.snd.standing && v.snd.standing[id] == S.DoneWithFile {
      assert Provided(b, id, src);
    }
  }

  /** The wait ends and finds nobody to wait for. */
  lemma Ends(o: World, w: World, src: seq<Byte>) returns (v: World)
    requires Under(o, w, src) && Repair.Waiting(w.snd) && forall id :: !Unserved(w.snd, id)
    ensures Under(o, v, src) && v.rcv == w.rcv && v.snd.standing == w.snd.standing
    ensures S.FileComplete in v.snd.log[|o.snd.log|..]
  {
    NothingLeft(w.snd);
    v := SenderMoves(o, w, S.WaitTimerFires(true), src);
    assert v.snd.log[|w.snd.log|] == S.FileComplete;
    assert v.snd.log[|o.snd.log|..][|w.snd.log| - |o.snd.log|] == S.FileComplete;
  }
}
