/** How announcing leads to the transfer (sender/detail/files_delivery_session.cpp:111-136, 286-304): each ANNOUNCE
    schedules a round of REG_CONF, each round that is not refused the next ANNOUNCE, and the last ANNOUNCE the
    transfer. */
module AnnounceChain {
  import opened Registration
  import Sender

  // ----- Counting -----

  /** How many ANNOUNCEs have gone out. */
  function AnnouncesSent(s: Session, inputs: seq<Input>): nat {
    if inputs == [] then 0
    else
      var v := Run(s, inputs[..|inputs| - 1]);
      AnnouncesSent(s, inputs[..|inputs| - 1]) +
      if inputs[|inputs| - 1].AnnounceSent? && !v.fault && v.ahead == Announcement then 1 else 0
  }

  /** After n ANNOUNCEs: a round is ahead only if rounds are left, and the transfer exactly when there are none. */
  predicate ChainAt(s: Session, n: nat) {
    && (s.announcing ==> s.rounds == n <= s.robust + 1)
    && match s.ahead
       case Announcement => s.announcing && n <= s.robust
       case Round => s.announcing && 0 < n <= s.robust
       case Transfer => s.announcing && n == s.robust + 1
       case Nothing => true
  }

  lemma {:induction false} StepChain(v: Session, i: Input, n: nat)
    requires ChainAt(v, n)
    ensures ChainAt(Step(v, i), n + if i.AnnounceSent? && !v.fault && v.ahead == Announcement then 1 else 0)
    ensures Step(v, i).robust == v.robust
  {
    if i.RegisterArrives? {
      RegisterIsHeard(v, i, i.source);
    }
  }

  /** In every run the transfer is ahead only after exactly one ANNOUNCE more than the robustness factor, and as
      long as the session announces there are no more than that. */
  lemma {:induction false} AnnouncementsAreCounted(s: Session, inputs: seq<Input>)
    requires Initial(s)
    ensures ChainAt(Run(s, inputs), AnnouncesSent(s, inputs)) && Run(s, inputs).robust == s.robust
  {
    if inputs != [] {
      var pre, i := inputs[..|inputs| - 1], inputs[|inputs| - 1];
      AnnouncementsAreCounted(s, pre);
      StepChain(Run(s, pre), i, AnnouncesSent(s, pre));
    }
  }

  /** No assertion has failed, and a refused REG_CONF has nothing ahead of it. */
  predicate FaultFree(s: Session) {
    !s.fault && (s.blocked ==> s.ahead == Nothing)
  }

  lemma {:induction false} StepFaultFree(v: Session, i: Input)
    requires FaultFree(v)
    ensures FaultFree(Step(v, i))
  {
    match i
    case RegisterArrives(source, clients) => RegisterIsHeard(v, i, source);
    case RoundEnds(room, accepted) =>
      if Tells(v, i) {
        ConfirmAgrees(v, room, accepted);
      }
    case _ =>
  }

  /** In no run does an assertion of the session fail: a REG_CONF is never refused while an earlier one is kept. */
  lemma {:induction false} NeverFaults(s: Session, inputs: seq<Input>)
    requires Initial(s)
    ensures FaultFree(Run(s, inputs))
  {
    if inputs != [] {
      NeverFaults(s, inputs[..|inputs| - 1]);
      StepFaultFree(Run(s, inputs[..|inputs| - 1]), inputs[|inputs| - 1]);
    }
  }

  // ----- Who makes the transfer start -----

  /** Only registered receivers are marked as told. */
  ghost predicate ToldAreRegistered(s: Session) {
    forall id :: id in s.members && s.members[id].confirmSent ==> s.members[id].standing == Sender.Registered
  }

  lemma {:induction false} MembersAfter(v: Session, i: Input)
    requires !i.RegisterArrives?
    ensures Step(v, i).members == v.members || Step(v, i).members == Told(v.members)
  {
    match i
    case RoundEnds(room, accepted) =>
      if Tells(v, i) {
        ConfirmAgrees(v, room, accepted);
      }
    case BucketHasRoom(room, accepted) =>
      if room > 0 {
        assert SendConfirm(v.(blocked := false, count := 0), room, accepted).0.members == v.members;
      }
    case _ =>
  }

  lemma {:induction false} StepToldAreRegistered(v: Session, i: Input)
    requires ToldAreRegistered(v)
    ensures ToldAreRegistered(Step(v, i))
  {
    var u := Step(v, i);
    if i.RegisterArrives? {
      forall id | id in u.members && u.members[id].confirmSent ensures u.members[id].standing == Sender.Registered {
        RegisterIsHeard(v, i, id);
      }
    } else {
      MembersAfter(v, i);
    }
  }

  lemma {:induction false} RunToldAreRegistered(s: Session, inputs: seq<Input>)
    requires Initial(s)
    ensures ToldAreRegistered(Run(s, inputs))
  {
    if inputs != [] {
      RunToldAreRegistered(s, inputs[..|inputs| - 1]);
      StepToldAreRegistered(Run(s, inputs[..|inputs| - 1]), inputs[|inputs| - 1]);
    }
  }

  /** The run leaves this receiver told. */
  predicate LeavesTold(s: Session, inputs: seq<Input>, id: nat) {
    ToldSince(s, inputs, id)
  }

  lemma {:induction false} EntersOnlySo(v: Session, i: Input)
    ensures v.announcing && !Step(v, i).announcing ==> !v.fault && i == AnnouncingEnds && v.ahead == Transfer
  {
    if i.RegisterArrives? {
      RegisterIsHeard(v, i, i.source);
    }
  }

  /** In every run the announcing gives way to the transfer exactly when the last ANNOUNCE has been waited for and
      some receiver has been listed in a REG_CONF since its latest REGISTER came; the rounds then start anew. */
  lemma {:induction false} EntersTransferIff(s: Session, inputs: seq<Input>, i: Input)
    requires Initial(s)
    ensures var v := Run(s, inputs);
            v.announcing && !Step(v, i).announcing <==>
            i == AnnouncingEnds && v.ahead == Transfer && exists id :: LeavesTold(s, inputs, id)
    ensures var v := Run(s, inputs);
            v.announcing && !Step(v, i).announcing ==>
              Step(v, i) == v.(announcing := false, rounds := 0, ahead := Nothing)
  {
    var v := Run(s, inputs);
    AnnouncementsAreCounted(s, inputs);
    NeverFaults(s, inputs);
    EntersOnlySo(v, i);
    if i == AnnouncingEnds && v.ahead == Transfer {
      SomeToldIff(s, inputs);
      assert v.announcing && Step(v, i) == EnterTransfer(v);
    }
  }

  predicate IsTold(s: Session, id: nat) {
    id in s.members && s.members[id].standing == Sender.Registered && s.members[id].confirmSent
  }

  lemma {:induction false} ToldIff(s: Session, inputs: seq<Input>, id: nat)
    requires Initial(s)
    ensures IsTold(Run(s, inputs), id) <==> LeavesTold(s, inputs, id)
  {
    RunToldAreRegistered(s, inputs);
    FlagsTellTheHistory(s, inputs, id);
  }

  lemma {:induction false} SomeToldIff(s: Session, inputs: seq<Input>)
    requires Initial(s)
    ensures var v := Run(s, inputs);
            (exists id :: id in v.members && v.members[id].standing == Sender.Registered && v.members[id].confirmSent)
            <==> exists id :: LeavesTold(s, inputs, id)
  {
    var v := Run(s, inputs);
    if id: nat :| id in v.members && v.members[id].standing == Sender.Registered && v.members[id].confirmSent {
      ToldIff(s, inputs, id);
      assert IsTold(v, id) && LeavesTold(s, inputs, id);
    }
    if id: nat :| LeavesTold(s, inputs, id) {
      ToldIff(s, inputs, id);
      assert IsTold(v, id);
    }
  }

  // ----- Reaching it -----

  lemma RunOne(s: Session, i: Input)
    ensures Run(s, [i]) == Step(s, i)
  {
    assert [i][..0] == [];
  }

  lemma RunMore(s: Session, pre: seq<Input>, i: Input)
    ensures Run(s, pre + [i]) == Step(Run(s, pre), i)
  {
    assert (pre + [i])[..|pre|] == pre;
  }

  /** The next ANNOUNCE is on its way out, and the receiver has been told. */
  predicate Going(s: Session, id: nat) {
    && s.announcing && s.ahead == Announcement && !s.blocked && !s.fault && s.count == 0
    && id in s.members && s.members[id] == Member(Sender.Registered, true, false)
  }

  predicate Smooth(inputs: seq<Input>) {
    forall i :: i in inputs && i.RoundEnds? ==> i.accepted
  }

  /** The first ANNOUNCE, a REGISTER, and the REG_CONF that answers it. */
  lemma {:induction false} FirstRound(s: Session, room: nat, id: nat)
    requires Initial(s) && s.robust > 0 && room > 0
    ensures var u := Step(Step(Step(s, AnnounceSent), RegisterArrives(id, [])), RoundEnds(room, true));
            Going(u, id) && u.rounds == 1 && u.robust == s.robust
  {
    var a := Step(s, AnnounceSent);
    RegisterIsHeard(a, RegisterArrives(id, []), id);
  }

  /** An ANNOUNCE and a round after it with nobody to confirm. */
  lemma NextRound(v: Session, room: nat, id: nat)
    requires Going(v, id) && v.rounds < v.robust && room > 0
    ensures Step(Step(v, AnnounceSent), RoundEnds(room, true)) == v.(rounds := v.rounds + 1)
  {
  }

  /** The last ANNOUNCE and the end of the announcing. */
  lemma LastRound(v: Session, id: nat)
    requires Going(v, id) && v.rounds == v.robust
    ensures Step(Step(v, AnnounceSent), AnnouncingEnds) == v.(announcing := false, rounds := 0, ahead := Nothing)
  {
    assert id in v.members && v.members[id].standing == Sender.Registered && v.members[id].confirmSent;
  }

  lemma {:induction false} GetsGoing(s: Session, room: nat, id: nat)
    requires Initial(s) && s.robust > 0 && room > 0
    ensures var u := Run(s, [AnnounceSent] + [RegisterArrives(id, [])] + [RoundEnds(room, true)]);
            Going(u, id) && u.rounds == 1 && u.robust == s.robust
  {
    RunOne(s, AnnounceSent);
    RunMore(s, [AnnounceSent], RegisterArrives(id, []));
    RunMore(s, [AnnounceSent] + [RegisterArrives(id, [])], RoundEnds(room, true));
    FirstRound(s, room, id);
  }

  lemma {:induction false} GoesOn(s: Session, pre: seq<Input>, v: Session, room: nat, id: nat)
    requires v == Run(s, pre) && Going(v, id) && v.rounds < v.robust && room > 0
    ensures Run(s, pre + [AnnounceSent] + [RoundEnds(room, true)]) == v.(rounds := v.rounds + 1)
  {
    RunMore(s, pre, AnnounceSent);
    RunMore(s, pre + [AnnounceSent], RoundEnds(room, true));
    NextRound(v, room, id);
  }

  lemma {:induction false} GetsThere(s: Session, pre: seq<Input>, v: Session, id: nat)
    requires v == Run(s, pre) && Going(v, id) && v.rounds == v.robust
    ensures Run(s, pre + [AnnounceSent] + [AnnouncingEnds]) == v.(announcing := false, rounds := 0, ahead := Nothing)
  {
    RunMore(s, pre, AnnounceSent);
    RunMore(s, pre + [AnnounceSent], AnnouncingEnds);
    LastRound(v, id);
  }

  lemma SmoothMore(pre: seq<Input>, i: Input, j: Input)
    requires Smooth(pre) && Smooth([i]) && Smooth([j])
    ensures Smooth(pre + [i] + [j]) && pre <= pre + [i] + [j]
  {
    forall k | k in pre + [i] + [j] && k.RoundEnds? ensures k.accepted {
      if k !in pre {
        assert k in [i] || k in [j];
      }
    }
  }

  lemma {:induction false} GoesAllTheWay(s: Session, pre: seq<Input>, v: Session, room: nat, id: nat)
    returns (inputs: seq<Input>)
    requires v == Run(s, pre) && Going(v, id) && v.rounds <= v.robust && room > 0 && Smooth(pre)
    ensures !Run(s, inputs).announcing && !Run(s, inputs).fault && Smooth(inputs) && pre <= inputs
    decreases v.robust - v.rounds
  {
    if v.rounds == v.robust {
      inputs := pre + [AnnounceSent] + [AnnouncingEnds];
      GetsThere(s, pre, v, id);
      SmoothMore(pre, AnnounceSent, AnnouncingEnds);
    } else {
      var more := pre + [AnnounceSent] + [RoundEnds(room, true)];
      GoesOn(s, pre, v, room, id);
      SmoothMore(pre, AnnounceSent, RoundEnds(room, true));
      inputs := GoesAllTheWay(s, more, v.(rounds := v.rounds + 1), room, id);
    }
  }

  /** Unless the robustness factor is zero, every receiver that registers after the first ANNOUNCE gets the session
      to the transfer, in a run in which no REG_CONF is refused. */
  lemma {:induction false} TransferIsReached(s: Session, room: nat, id: nat) returns (inputs: seq<Input>)
    requires Initial(s) && s.robust > 0 && room > 0
    ensures Run(s, inputs).announcing == Run(s, inputs).fault == false && Smooth(inputs)
    ensures [AnnounceSent, RegisterArrives(id, [])] <= inputs
  {
    var pre := [AnnounceSent] + [RegisterArrives(id, [])] + [RoundEnds(room, true)];
    GetsGoing(s, room, id);
    inputs := GoesAllTheWay(s, pre, Run(s, pre), room, id);
  }

  /** With a robustness factor of zero nobody is ever told, and no run gets there. */
  lemma {:induction false} NoTransferWithoutRounds(s: Session, inputs: seq<Input>)
    requires Initial(s) && s.robust == 0
    ensures Run(s, inputs).announcing && forall id :: !LeavesTold(s, inputs, id)
  {
    if inputs != [] {
      var pre, i := inputs[..|inputs| - 1], inputs[|inputs| - 1];
      NoTransferWithoutRounds(s, pre);
      AnnouncementsAreCounted(s, pre);
      EntersTransferIff(s, pre, i);
      forall id: nat ensures !LeavesTold(s, inputs, id) {
        assert !LeavesTold(s, pre, id);
      }
    }
  }
}
