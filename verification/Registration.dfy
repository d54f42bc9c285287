/** sender/detail/files_delivery_session.cpp:163-305: who has registered with a session, and who has
    been told so. A count of the REGISTERs since the last round gates the sending of REG_CONF. */
module Registration {
  import opened Common
  import Sender
  import opened Packing

  /** receiver_properties, without the round trip time. */
  datatype Member = Member(standing: Sender.Standing, confirmSent: bool, isProxy: bool)

  /** What the announcing goes on with: an ANNOUNCE is on its way out, the next round or the transfer is
      scheduled, or nothing is. */
  datatype Ahead = Announcement | Round | Transfer | Nothing

  /** blocked says that m_blocked_task holds what do_send_registered_confirm put there; count is
      m_last_round_response_count, 32 bits wide. confirmed has the id lists of the packets of each REG_CONF so
      far; it is history, for stating properties. A fault is a failed assertion. */
  datatype Session = Session(members: map<nat, Member>, count: nat, announcing: bool, rounds: nat, robust: nat,
                             ahead: Ahead, blocked: bool, confirmed: seq<seq<seq<nat>>>, fault: bool)

  /** A receiver that is to be told that it is registered. */
  predicate Awaits(m: Member) {
    m.standing == Sender.Registered && !m.confirmSent && !m.isProxy
  }

  /** A REGISTER for id: one that is not known yet is added, one that is has to be told again. */
  function Enrolled(members: map<nat, Member>, id: nat): map<nat, Member> {
    members[id := Member(Sender.Registered, false, id in members && members[id].isProxy)]
  }

  function EnrolOne(s: Session, id: nat): Session {
    s.(members := Enrolled(s.members, id), count := (s.count + 1) % 0x1_0000_0000)
  }

  function EnrolAll(s: Session, ids: seq<nat>): Session {
    if ids == [] then s else EnrolOne(EnrolAll(s, ids[..|ids| - 1]), ids[|ids| - 1])
  }

  /** on_register_msg_received. A REGISTER with clients in it comes from a proxy, which is not itself
      counted. */
  function OnRegister(s: Session, source: nat, clients: seq<nat>): Session {
    if !s.announcing then s
    else if clients == [] then
      if source in s.members && s.members[source].isProxy then s else EnrolOne(s, source)
    else
      if source in s.members && !s.members[source].isProxy then s
      else EnrolAll(s.(members := s.members[source := Member(Sender.Registered, false, true)]), clients)
  }

  /** The members in map order, with what the filter says of each. */
  function Entries(members: map<nat, Member>): seq<Entry> {
    var ids := Ascending(members.Keys);
    seq(|ids|, i requires 0 <= i < |ids| => Entry(ids[i], Awaits(members[ids[i]])))
  }

  /** What the filter leaves behind: it marks each member that it picks. */
  function Told(members: map<nat, Member>): map<nat, Member> {
    map id | id in members :: if Awaits(members[id]) then members[id].(confirmSent := true) else members[id]
  }

  /** do_send_registered_confirm, and whether the announcing goes on. The filter has marked everybody
      it picked before the worker says whether it takes the packets. */
  function SendConfirm(s: Session, room: nat, accepted: bool): (Session, bool)
    requires room > 0
  {
    if s.count == 0 then (s, true)
    else
      var u := s.(members := Told(s.members), confirmed := s.confirmed + [Pack(Entries(s.members), room)]);
      if accepted then (u.(count := 0), true)
      else if s.blocked then (u.(fault := true), false)
      else (u.(blocked := true), false)
  }

  /** on_worker_bucket_freed */
  function Resume(s: Session, room: nat, accepted: bool): Session
    requires room > 0
  {
    if !s.blocked then s
    else
      var u := s.(blocked := false, count := 0);
      if u.announcing then SendConfirm(u, room, accepted).0 else u
  }

  /** after_sent of do_announce, when the ANNOUNCE has gone out. */
  function AfterAnnounce(s: Session): Session {
    s.(rounds := s.rounds + 1, ahead := if s.rounds < s.robust then Round else Transfer)
  }

  /** do_resend of do_announce: only a round whose REG_CONF was not refused is followed by an ANNOUNCE. */
  function EndRound(s: Session, room: nat, accepted: bool): Session
    requires room > 0
  {
    var (u, goOn) := SendConfirm(s, room, accepted);
    u.(ahead := if goOn && u.announcing then Announcement else Nothing)
  }

  /** enter_transfer_phase */
  function EnterTransfer(s: Session): Session {
    if exists id :: id in s.members && s.members[id].standing == Sender.Registered && s.members[id].confirmSent
    then s.(announcing := false, rounds := 0, ahead := Nothing) else s.(ahead := Nothing)
  }

  datatype Input =
    | AnnounceSent
    | RegisterArrives(source: nat, clients: seq<nat>)
    | RoundEnds(room: nat, accepted: bool)
    | BucketHasRoom(room: nat, accepted: bool)
    | AnnouncingEnds

  /** One step of the session. A step that is not ahead changes nothing. */
  function Step(s: Session, i: Input): Session {
    if s.fault then s else
    match i
    case AnnounceSent => if s.ahead == Announcement then AfterAnnounce(s) else s
    case RegisterArrives(source, clients) => OnRegister(s, source, clients)
    case RoundEnds(room, accepted) => if room > 0 && s.ahead == Round then EndRound(s, room, accepted) else s
    case BucketHasRoom(room, accepted) => if room > 0 then Resume(s, room, accepted) else s
    case AnnouncingEnds => if s.ahead == Transfer then EnterTransfer(s) else s
  }

  function Run(s: Session, inputs: seq<Input>): Session {
    if inputs == [] then s else Step(Run(s, inputs[..|inputs| - 1]), inputs[|inputs| - 1])
  }

  /** A session that starts to announce: its members, if it is a closed group, are all mute. */
  predicate Initial(s: Session) {
    && s.count == 0 && s.announcing && s.rounds == 0 && s.ahead == Announcement
    && !s.blocked && s.confirmed == [] && !s.fault
    && forall id :: id in s.members ==> s.members[id] == Member(Sender.Mute, false, false)
  }

  // ----- What a REGISTER does -----

  predicate KnownProxy(s: Session, id: nat) {
    id in s.members && s.members[id].isProxy
  }

  predicate KnownReceiver(s: Session, id: nat) {
    id in s.members && !s.members[id].isProxy
  }

  /** The receivers for whom this input brings a REGISTER: its source, or the clients that a proxy lists. A proxy
      that lists none is ignored, and so is a receiver that is known by itself and lists some. */
  function HeardFrom(s: Session, i: Input): seq<nat> {
    if s.fault || !i.RegisterArrives? || !s.announcing then []
    else if i.clients == [] then if KnownProxy(s, i.source) then [] else [i.source]
    else if KnownReceiver(s, i.source) then [] else i.clients
  }

  /** The input makes its source a proxy, or is the repetition of one that did. */
  predicate FromProxy(s: Session, i: Input) {
    !s.fault && i.RegisterArrives? && s.announcing && i.clients != [] && !KnownReceiver(s, i.source)
  }

  lemma WrapAdds(c: nat, n: nat)
    ensures ((c + n) % 0x1_0000_0000 + 1) % 0x1_0000_0000 == (c + n + 1) % 0x1_0000_0000
  {
  }

  /** What enrolling these receivers does to the count and to each member. */
  lemma {:induction false} EnrolsAll(s: Session, ids: seq<nat>, id: nat)
    ensures var u := EnrolAll(s, ids);
            && u == s.(members := u.members, count := u.count)
            && (ids != [] ==> u.count == (s.count + |ids|) % 0x1_0000_0000)
            && (id in u.members <==> id in s.members || id in ids)
            && (id in ids ==> u.members[id] == Member(Sender.Registered, false, KnownProxy(s, id)))
            && (id in s.members && id !in ids ==> u.members[id] == s.members[id])
    decreases |ids|
  {
    if ids != [] {
      var pre, last := ids[..|ids| - 1], ids[|ids| - 1];
      assert ids == pre + [last];
      EnrolsAll(s, pre, id);
      EnrolsAll(s, pre, last);
      WrapAdds(s.count, |pre|);
    }
  }

  /** A REGISTER leaves exactly the receivers that it was heard for waiting to be told, however often they have
      been told before, and counts each of them; a proxy is known as one from then on; and that is all. */
  lemma {:induction false} RegisterIsHeard(s: Session, i: Input, id: nat)
    requires i.RegisterArrives?
    ensures var u, ids := Step(s, i), HeardFrom(s, i);
            && u == s.(members := u.members, count := u.count)
            && u.count == (if ids == [] then s.count else (s.count + |ids|) % 0x1_0000_0000)
            && (id in u.members <==> id in s.members || id in ids || (FromProxy(s, i) && id == i.source))
            && (id in u.members ==>
                  (u.members[id].isProxy <==> KnownProxy(s, id) || (FromProxy(s, i) && id == i.source)))
            && (id in ids || (FromProxy(s, i) && id == i.source) ==>
                  u.members[id] == Member(Sender.Registered, false, u.members[id].isProxy))
            && (id in ids && !u.members[id].isProxy ==> Awaits(u.members[id]))
            && (id in s.members && id !in ids && !(FromProxy(s, i) && id == i.source) ==>
                  u.members[id] == s.members[id])
  {
    if !s.fault && s.announcing {
      if i.clients == [] {
        EnrolsAll(s, [i.source], id);
        assert EnrolAll(s, [i.source][..0]) == s;
      } else {
        EnrolsAll(s.(members := s.members[i.source := Member(Sender.Registered, false, true)]), i.clients, id);
      }
    }
  }

  // ----- What the history says -----

  predicate Listed(lists: seq<seq<nat>>, id: nat) {
    exists l :: l in lists && id in l
  }

  /** This input makes the session send a REG_CONF, whether the worker takes it or not. */
  predicate Tells(s: Session, i: Input) {
    !s.fault && i.RoundEnds? && i.room > 0 && s.ahead == Round && s.count > 0
  }

  /** The receivers from which a REGISTER has come since the latest REG_CONF. */
  function Due(s: Session, inputs: seq<Input>): set<nat> {
    if inputs == [] then {}
    else
      var v, i := Run(s, inputs[..|inputs| - 1]), inputs[|inputs| - 1];
      if Tells(v, i) then {} else Due(s, inputs[..|inputs| - 1]) + set id | id in HeardFrom(v, i)
  }

  /** A REG_CONF has listed the id since its latest REGISTER came. */
  predicate ToldSince(s: Session, inputs: seq<Input>, id: nat) {
    if inputs == [] then false
    else
      var v, i := Run(s, inputs[..|inputs| - 1]), inputs[|inputs| - 1];
      && id !in HeardFrom(v, i)
      && (ToldSince(s, inputs[..|inputs| - 1], id) || (Tells(v, i) && Listed(Pack(Entries(v.members), i.room), id)))
  }

  /** The flags of a member, if it is no proxy, say whether it was told and whether it is due to be. */
  predicate FlagsAt(s: Session, id: nat, due: bool, told: bool) {
    if id !in s.members then !due && !told
    else if s.members[id].isProxy then !s.members[id].confirmSent && !told
    else (s.members[id].confirmSent <==> told) && (Awaits(s.members[id]) <==> due)
  }

  /** A receiver is in the lists exactly if it was waiting to be told. */
  lemma {:induction false} ListsWhoAwaits(members: map<nat, Member>, room: nat, id: nat)
    requires room > 0
    ensures Listed(Pack(Entries(members), room), id) <==> id in members && Awaits(members[id])
  {
    FindsItselfIff(Entries(members), room, id);
    var ids := Ascending(members.Keys);
    if id in members {
      assert id in ids;
      var i :| 0 <= i < |ids| && ids[i] == id;
      assert Entries(members)[i].id == id;
      assert Entries(members)[i] in Entries(members);
    }
  }

  lemma {:induction false} ConfirmFlags(s: Session, room: nat, accepted: bool, id: nat, due: bool, told: bool)
    requires FlagsAt(s, id, due, told) && room > 0 && s.count > 0
    ensures FlagsAt(SendConfirm(s, room, accepted).0, id, false, told || Listed(Pack(Entries(s.members), room), id))
  {
    ListsWhoAwaits(s.members, room, id);
  }

  /** A round puts everybody who waits in a REG_CONF and leaves nobody waiting, its packets join the history, and
      its refusal is kept, where another one is kept already against an assertion. */
  lemma {:induction false} ConfirmAgrees(s: Session, room: nat, accepted: bool)
    requires room > 0 && s.count > 0
    ensures var (u, goOn) := SendConfirm(s, room, accepted);
            && u == s.(members := Told(s.members), confirmed := s.confirmed + [Pack(Entries(s.members), room)],
                       count := u.count, blocked := u.blocked, fault := u.fault)
            && goOn == accepted && u.count == (if accepted then 0 else s.count)
            && u.blocked == (s.blocked || !accepted) && u.fault == (s.fault || (s.blocked && !accepted))
    ensures ToldAre(s.members, Pack(Entries(s.members), room), Told(s.members))
  {
    forall id | id in s.members
      ensures Told(s.members)[id].confirmSent <==>
                s.members[id].confirmSent || Listed(Pack(Entries(s.members), room), id)
    {
      ListsWhoAwaits(s.members, room, id);
    }
  }

  /** Nobody waits any longer, and the marks are those there were and one for each that is listed. */
  ghost predicate ToldAre(was: map<nat, Member>, lists: seq<seq<nat>>, now: map<nat, Member>) {
    && now.Keys == was.Keys
    && (forall id :: id in now ==> !Awaits(now[id]))
    && (forall id :: id in now ==> (now[id].confirmSent <==> was[id].confirmSent || Listed(lists, id)))
  }

  lemma {:induction false} RegisterFlags(s: Session, i: Input, id: nat, due: bool, told: bool)
    requires FlagsAt(s, id, due, told) && i.RegisterArrives?
    ensures var heard := id in HeardFrom(s, i); FlagsAt(Step(s, i), id, due || heard, !heard && told)
  {
    RegisterIsHeard(s, i, id);
  }

  lemma {:induction false} StepFlags(s: Session, i: Input, id: nat, due: bool, told: bool)
    requires FlagsAt(s, id, due, told)
    ensures var heard, tells := id in HeardFrom(s, i), Tells(s, i);
            FlagsAt(Step(s, i), id, !tells && (due || heard),
                    !heard && (told || (tells && Listed(Pack(Entries(s.members), i.room), id))))
  {
    if !s.fault {
      match i
      case RegisterArrives(source, clients) => RegisterFlags(s, i, id, due, told);
      case RoundEnds(room, accepted) =>
        if Tells(s, i) {
          ConfirmFlags(s, room, accepted, id, due, told);
        }
      case _ =>
    }
  }

  /** In every run: a receiver's confirm_sent is set if and only if a REG_CONF has listed it since its latest
      REGISTER came, and it is waiting to be told if and only if a REGISTER has come from it, or for it, since
      the latest REG_CONF. */
  lemma {:induction false} FlagsTellTheHistory(s: Session, inputs: seq<Input>, id: nat)
    requires Initial(s)
    ensures FlagsAt(Run(s, inputs), id, id in Due(s, inputs), ToldSince(s, inputs, id))
  {
    if inputs != [] {
      FlagsTellTheHistory(s, inputs[..|inputs| - 1], id);
      StepFlags(Run(s, inputs[..|inputs| - 1]), inputs[|inputs| - 1], id,
                id in Due(s, inputs[..|inputs| - 1]), ToldSince(s, inputs[..|inputs| - 1], id));
    }
  }

  // ----- The gate -----

  /** No round is skipped while somebody waits to be told. */
  predicate GateHolds(s: Session) {
    s.count == 0 ==> forall id :: id in s.members ==> !Awaits(s.members[id])
  }

  /** How many registrations the inputs bring, at most. */
  function Offers(inputs: seq<Input>): nat {
    if inputs == [] then 0
    else
      var i := inputs[|inputs| - 1];
      Offers(inputs[..|inputs| - 1]) +
      if i.RegisterArrives? then (if i.clients == [] then 1 else |i.clients|) else 0
  }

  /** The bucket gets room for a refused REG_CONF, and a REGISTER has come since: a receiver is due. */
  predicate LateRegistration(s: Session, i: Input, due: set<nat>) {
    !s.fault && i.BucketHasRoom? && i.room > 0 && s.blocked && exists id :: id in due && KnownReceiver(s, id)
  }

  /** Those who wait to be told are those who are due. */
  ghost predicate DueAwait(s: Session, due: set<nat>) {
    forall id :: id in s.members ==> (Awaits(s.members[id]) <==> id in due && !s.members[id].isProxy)
  }

  lemma {:induction false} StepCounts(s: Session, i: Input, pre: seq<Input>, due: set<nat>)
    requires DueAwait(s, due) && s.count <= Offers(pre) && Offers(pre + [i]) < 0x1_0000_0000
    ensures Step(s, i).count <= Offers(pre + [i])
    ensures GateHolds(s) ==> (GateHolds(Step(s, i)) <==> !LateRegistration(s, i, due))
  {
    assert (pre + [i])[..|pre|] == pre;
    if !s.fault {
      match i
      case RegisterArrives(source, clients) => RegisterKeepsGate(s, i);
      case RoundEnds(room, accepted) =>
        if Tells(s, i) {
          ConfirmAgrees(s, room, accepted);
        }
      case BucketHasRoom(room, accepted) =>
        if room > 0 && s.blocked {
          ResumeGate(s, room, accepted, due);
        }
      case _ =>
    }
  }

  lemma CountsOn(c: nat, n: nat)
    requires c + n < 0x1_0000_0000
    ensures (c + n) % 0x1_0000_0000 == c + n
  {
  }

  lemma {:induction false} RegisterKeepsGate(s: Session, i: Input)
    requires i.RegisterArrives? && s.count + |HeardFrom(s, i)| < 0x1_0000_0000
    ensures Step(s, i).count == s.count + |HeardFrom(s, i)|
    ensures GateHolds(s) ==> GateHolds(Step(s, i))
  {
    RegisterIsHeard(s, i, i.source);
    CountsOn(s.count, |HeardFrom(s, i)|);
    var u := Step(s, i);
    if GateHolds(s) && u.count == 0 {
      forall id | id in u.members ensures !Awaits(u.members[id]) {
        RegisterIsHeard(s, i, id);
      }
    }
  }

  lemma {:induction false} ResumeGate(s: Session, room: nat, accepted: bool, due: set<nat>)
    requires DueAwait(s, due) && room > 0 && s.blocked
    ensures Resume(s, room, accepted) == s.(blocked := false, count := 0)
    ensures GateHolds(Resume(s, room, accepted)) <==> !exists id :: id in due && KnownReceiver(s, id)
  {
  }

  ghost predicate GateHoldsThroughout(s: Session, inputs: seq<Input>) {
    forall k :: 0 <= k <= |inputs| ==> GateHolds(Run(s, inputs[..k]))
  }

  ghost predicate NoLateRegistration(s: Session, inputs: seq<Input>) {
    forall k :: 0 <= k < |inputs| ==> !LateRegistration(Run(s, inputs[..k]), inputs[k], Due(s, inputs[..k]))
  }

  lemma {:induction false} CountBounded(s: Session, inputs: seq<Input>)
    requires Initial(s) && Offers(inputs) < 0x1_0000_0000
    ensures DueAwait(Run(s, inputs), Due(s, inputs)) && Run(s, inputs).count <= Offers(inputs)
  {
    forall id | id in Run(s, inputs).members
      ensures Awaits(Run(s, inputs).members[id]) <==>
              id in Due(s, inputs) && !Run(s, inputs).members[id].isProxy
    {
      FlagsTellTheHistory(s, inputs, id);
    }
    if inputs != [] {
      var pre, i := inputs[..|inputs| - 1], inputs[|inputs| - 1];
      assert inputs == pre + [i];
      CountBounded(s, pre);
      StepCounts(Run(s, pre), i, pre, Due(s, pre));
    }
  }

  lemma SamePrefix(pre: seq<Input>, i: Input, k: nat)
    requires k <= |pre|
    ensures (pre + [i])[..k] == pre[..k] && pre[..|pre|] == pre && (pre + [i])[..|pre| + 1] == pre + [i]
  {
  }

  lemma {:induction false} HoldsAt(s: Session, inputs: seq<Input>, k: nat)
    requires GateHoldsThroughout(s, inputs) && k <= |inputs|
    ensures GateHolds(Run(s, inputs[..k]))
  {
  }

  lemma {:induction false} ThroughoutNext(s: Session, pre: seq<Input>, i: Input)
    ensures GateHoldsThroughout(s, pre + [i]) <==> GateHoldsThroughout(s, pre) && GateHolds(Run(s, pre + [i]))
    ensures GateHoldsThroughout(s, pre) ==> GateHolds(Run(s, pre))
  {
    SamePrefix(pre, i, |pre|);
    if GateHoldsThroughout(s, pre + [i]) {
      HoldsAt(s, pre + [i], |pre| + 1);
      forall k | 0 <= k <= |pre| ensures GateHolds(Run(s, pre[..k])) {
        SamePrefix(pre, i, k);
        HoldsAt(s, pre + [i], k);
      }
    }
    if GateHoldsThroughout(s, pre) {
      HoldsAt(s, pre, |pre|);
      if GateHolds(Run(s, pre + [i])) {
        forall k | 0 <= k <= |pre + [i]| ensures GateHolds(Run(s, (pre + [i])[..k])) {
          if k <= |pre| {
            SamePrefix(pre, i, k);
            HoldsAt(s, pre, k);
          }
        }
      }
    }
  }

  lemma {:induction false} NoneLateAt(s: Session, inputs: seq<Input>, k: nat)
    requires NoLateRegistration(s, inputs) && k < |inputs|
    ensures !LateRegistration(Run(s, inputs[..k]), inputs[k], Due(s, inputs[..k]))
  {
  }

  lemma {:induction false} NoLateNext(s: Session, pre: seq<Input>, i: Input)
    ensures NoLateRegistration(s, pre + [i]) <==>
            NoLateRegistration(s, pre) && !LateRegistration(Run(s, pre), i, Due(s, pre))
  {
    SamePrefix(pre, i, |pre|);
    assert (pre + [i])[|pre|] == i;
    if NoLateRegistration(s, pre + [i]) {
      NoneLateAt(s, pre + [i], |pre|);
      forall k | 0 <= k < |pre| ensures !LateRegistration(Run(s, pre[..k]), pre[k], Due(s, pre[..k])) {
        SamePrefix(pre, i, k);
        NoneLateAt(s, pre + [i], k);
      }
    }
    if NoLateRegistration(s, pre) && !LateRegistration(Run(s, pre), i, Due(s, pre)) {
      forall k | 0 <= k < |pre + [i]|
        ensures !LateRegistration(Run(s, (pre + [i])[..k]), (pre + [i])[k], Due(s, (pre + [i])[..k]))
      {
        SamePrefix(pre, i, k);
        if k < |pre| {
          NoneLateAt(s, pre, k);
        }
      }
    }
  }

  /** The registration gate. Over a run with fewer than 2^32 registrations, a count of zero means in
      every state that nobody is waiting to be told, if and only if no receiver registers between the
      refusal of a REG_CONF and the moment when the bucket has room again. */
  lemma {:induction false} GateIsSoundIff(s: Session, inputs: seq<Input>)
    requires Initial(s) && Offers(inputs) < 0x1_0000_0000
    ensures GateHoldsThroughout(s, inputs) <==> NoLateRegistration(s, inputs)
  {
    if inputs == [] {
      assert inputs[..0] == [];
    } else {
      var pre, i := inputs[..|inputs| - 1], inputs[|inputs| - 1];
      assert inputs == pre + [i];
      GateIsSoundIff(s, pre);
      CountBounded(s, pre);
      StepCounts(Run(s, pre), i, pre, Due(s, pre));
      ThroughoutNext(s, pre, i);
      NoLateNext(s, pre, i);
    }
  }

  // ----- A refused REG_CONF -----

  /** Nothing is ahead, and the announcing is not over. */
  predicate Stuck(s: Session) {
    s.ahead == Nothing && s.announcing && !s.fault
  }

  predicate StillAwaits(s: Session, id: nat) {
    id in s.members && Awaits(s.members[id])
  }

  /** What a stuck session can still do: take REGISTERs. */
  ghost predicate OnlyRegisters(s: Session, u: Session) {
    Stuck(u) && u.confirmed == s.confirmed && forall id :: StillAwaits(s, id) ==> StillAwaits(u, id)
  }

  lemma {:induction false} StepStuck(s: Session, i: Input)
    requires Stuck(s)
    ensures OnlyRegisters(s, Step(s, i))
  {
    if i.RegisterArrives? {
      RegisterIsHeard(s, i, i.source);
      forall id | StillAwaits(s, id) ensures StillAwaits(Step(s, i), id) {
        RegisterIsHeard(s, i, id);
      }
    }
  }

  lemma {:induction false} RunStuck(s: Session, inputs: seq<Input>)
    requires Stuck(s)
    ensures OnlyRegisters(s, Run(s, inputs))
  {
    if inputs != [] {
      var v := Run(s, inputs[..|inputs| - 1]);
      RunStuck(s, inputs[..|inputs| - 1]);
      StepStuck(v, inputs[|inputs| - 1]);
    }
  }

  /** A refused REG_CONF ends the announcing for good: whatever happens then, no further REG_CONF is made,
      no ANNOUNCE follows and the transfer is not entered, although the bucket gets room again. */
  lemma {:induction false} RefusalEndsAnnouncing(s: Session, room: nat, inputs: seq<Input>)
    requires room > 0 && s.ahead == Round && s.announcing && !s.fault && s.count > 0 && !s.blocked
    ensures var u := Step(s, RoundEnds(room, false));
            Stuck(u) && u.blocked && OnlyRegisters(u, Run(u, inputs))
  {
    RunStuck(Step(s, RoundEnds(room, false)), inputs);
  }

  /** So a receiver that registers after the refusal, for the first time or again, is never told so. */
  lemma {:induction false} LateReceiverIsForgotten(s: Session, id: nat, inputs: seq<Input>)
    requires Stuck(s) && !KnownProxy(s, id)
    ensures var u := Run(Step(s, RegisterArrives(id, [])), inputs);
            Stuck(u) && StillAwaits(u, id) && u.confirmed == s.confirmed
  {
    var v := Step(s, RegisterArrives(id, []));
    StepStuck(s, RegisterArrives(id, []));
    RunStuck(v, inputs);
    assert StillAwaits(v, id);
  }

  /** Such a state is reached when the first REG_CONF is refused. */
  lemma {:induction false} RefusalIsReached(s: Session, room: nat, id: nat) returns (inputs: seq<Input>)
    requires Initial(s) && s.robust > 0 && room > 0 && id !in s.members
    ensures Stuck(Run(s, inputs)) && Run(s, inputs).blocked && Run(s, inputs).members.Keys == s.members.Keys + {id}
  {
    var a := Step(s, AnnounceSent);
    var b := Step(a, RegisterArrives(id, []));
    var c := Step(b, RoundEnds(room, false));
    inputs := [AnnounceSent, RegisterArrives(id, []), RoundEnds(room, false)];
    assert inputs[..2][..1] == [AnnounceSent] && inputs[..2][..1][..0] == [];
    assert Run(s, inputs[..2][..1]) == a;
    assert Run(s, inputs[..2]) == b;
    assert Run(s, inputs) == c;
    assert b.members.Keys == s.members.Keys + {id} && b.count == 1;
  }
}
