/** sender/detail/files_delivery_session.cpp: the session object during registration, with its fields and
    loops, proved against Registration.dfy. */
module DeliverySession {
  import opened Common
  import opened Packing
  import opened Registration
  import Sender

  predicate Fits(was: map<nat, Member>, e: Entry) {
    e.id in was && e.selected == Awaits(was[e.id])
  }

  /** The first n entries are members in ascending order, with what the filter says of each. */
  predicate InStep(was: map<nat, Member>, rs: seq<Entry>, n: nat)
    requires n <= |rs|
  {
    n == 0 || (InStep(was, rs, n - 1) && Fits(was, rs[n - 1]) && (n > 1 ==> rs[n - 2].id < rs[n - 1].id))
  }

  lemma {:induction false} EntriesInStep(was: map<nat, Member>, n: nat)
    requires n <= |Entries(was)|
    ensures InStep(was, Entries(was), n)
  {
    if n > 0 {
      EntriesInStep(was, n - 1);
      assert Ascending(was.Keys)[n - 1] in was.Keys;
    }
  }

  lemma {:induction false} InStepAt(was: map<nat, Member>, rs: seq<Entry>, n: nat, k: nat)
    requires k < n <= |rs| && InStep(was, rs, n)
    ensures Fits(was, rs[k])
  {
    if k < n - 1 {
      InStepAt(was, rs, n - 1, k);
    }
  }

  lemma {:induction false} InStepLess(was: map<nat, Member>, rs: seq<Entry>, n: nat, i: nat, j: nat)
    requires i < j < n <= |rs| && InStep(was, rs, n)
    ensures rs[i].id < rs[j].id
  {
    if j < n - 1 {
      InStepLess(was, rs, n - 1, i, j);
    } else if i < j - 1 {
      InStepLess(was, rs, n - 1, i, j - 1);
    }
  }

  /** The members after the filter has been asked about the first n of them. */
  function ToldUpTo(was: map<nat, Member>, rs: seq<Entry>, n: nat): map<nat, Member>
    requires n <= |rs|
  {
    if n == 0 then was
    else
      var now, id := ToldUpTo(was, rs, n - 1), rs[n - 1].id;
      if id in now && rs[n - 1].selected then now[id := now[id].(confirmSent := true)] else now
  }

  lemma {:induction false} ToldUpToAt(was: map<nat, Member>, rs: seq<Entry>, n: nat, k: nat)
    requires n <= |rs| && k < |rs| && InStep(was, rs, |rs|)
    ensures ToldUpTo(was, rs, n).Keys == was.Keys && rs[k].id in was
    ensures ToldUpTo(was, rs, n)[rs[k].id]
            == if k < n && rs[k].selected then was[rs[k].id].(confirmSent := true) else was[rs[k].id]
  {
    InStepAt(was, rs, |rs|, k);
    if n > 0 {
      ToldUpToAt(was, rs, n - 1, k);
      InStepAt(was, rs, |rs|, n - 1);
      if k < n - 1 {
        InStepLess(was, rs, |rs|, k, n - 1);
      } else if n - 1 < k {
        InStepLess(was, rs, |rs|, n - 1, k);
      }
    }
  }

  predicate HasEntry(rs: seq<Entry>, id: nat) {
    exists k :: 0 <= k < |rs| && rs[k].id == id
  }

  lemma {:induction false} EachHasEntry(was: map<nat, Member>, id: nat)
    requires id in was
    ensures HasEntry(Entries(was), id)
  {
    var ids := Ascending(was.Keys);
    var k :| 0 <= k < |ids| && ids[k] == id;
    assert Entries(was)[k].id == id;
  }

  lemma {:induction false} AllTold(was: map<nat, Member>, rs: seq<Entry>)
    requires InStep(was, rs, |rs|) && forall id :: id in was ==> HasEntry(rs, id)
    ensures ToldUpTo(was, rs, |rs|) == Told(was)
  {
    var now := ToldUpTo(was, rs, |rs|);
    if rs == [] {
      assert forall id :: id in was ==> HasEntry(rs, id);
    } else {
      ToldUpToAt(was, rs, |rs|, 0);
    }
    forall id | id in was ensures id in now && now[id] == Told(was)[id] {
      var k :| 0 <= k < |rs| && rs[k].id == id;
      ToldUpToAt(was, rs, |rs|, k);
      InStepAt(was, rs, |rs|, k);
    }
  }

  /** ids are the entries' receivers. */
  predicate IdsOf(ids: seq<nat>, rs: seq<Entry>) {
    |ids| == |rs| && forall k :: 0 <= k < |ids| ==> ids[k] == rs[k].id
  }

  predicate MayTransfer(m: Member) {
    m.standing == Sender.Registered && m.confirmSent
  }

  lemma SomeMayTransfer(s: Session)
    ensures EnterTransfer(s) == if exists id :: id in s.members && MayTransfer(s.members[id])
                                then s.(announcing := false, rounds := 0, ahead := Nothing)
                                else s.(ahead := Nothing)
  {
    if id :| id in s.members && MayTransfer(s.members[id]) {
      assert s.members[id].standing == Sender.Registered && s.members[id].confirmSent;
    }
  }

  class FilesDeliverySession {
    var members: map<nat, Member>
    var lastRoundResponseCount: nat
    var announcing: bool
    var rounds: nat
    const robustFactor: nat
    var ahead: Ahead
    var blocked: bool
    var fault: bool
    ghost var confirmed: seq<seq<seq<nat>>>

    ghost function State(): Session
      reads this
    {
      Session(members, lastRoundResponseCount, announcing, rounds, robustFactor, ahead, blocked, confirmed, fault)
    }

    constructor (known: set<nat>, robust: nat)
      ensures Initial(State()) && members.Keys == known && robustFactor == robust
    {
      robustFactor, rounds, ahead := robust, 0, Announcement;
      members := map id | id in known :: Member(Sender.Mute, false, false);
      lastRoundResponseCount, announcing, blocked, fault, confirmed := 0, true, false, false, [];
    }

    /** A REGISTER for one receiver, which counts. */
    method EnrolReceiver(id: nat)
      modifies this
      ensures State() == EnrolOne(old(State()), id)
    {
      if id !in members {
        members := members[id := Member(Sender.Registered, false, false)];
      } else {
        members := members[id := members[id].(standing := Sender.Registered, confirmSent := false)];
      }
      lastRoundResponseCount := (lastRoundResponseCount + 1) % 0x1_0000_0000;
    }

    method OnRegisterMsgReceived(source: nat, clients: seq<nat>)
      modifies this
      ensures State() == OnRegister(old(State()), source, clients)
    {
      if !announcing { return; }
      if clients == [] {
        if source in members && members[source].isProxy { return; }
        EnrolReceiver(source);
      } else {
        if source !in members {
          members := members[source := Member(Sender.Registered, false, true)];
        } else if !members[source].isProxy {
          return;
        } else {
          members := members[source := members[source].(standing := Sender.Registered, confirmSent := false)];
        }
        EnrolClients(clients);
      }
    }

    method EnrolClients(clients: seq<nat>)
      modifies this
      ensures State() == EnrolAll(old(State()), clients)
    {
      assert clients[..0] == [];
      for k := 0 to |clients|
        invariant State() == EnrolAll(old(State()), clients[..k])
      {
        assert clients[..k + 1][..k] == clients[..k];
        EnrolReceiver(clients[k]);
      }
      assert clients[..|clients|] == clients;
    }

    /** The filter of do_send_registered_confirm, asked about one receiver. */
    method AskFilter(id: nat, n: nat, ghost was: map<nat, Member>, ghost rs: seq<Entry>) returns (picked: bool)
      requires n < |rs| && id == rs[n].id && InStep(was, rs, |rs|) && members == ToldUpTo(was, rs, n)
      modifies this`members
      ensures picked == rs[n].selected && members == ToldUpTo(was, rs, n + 1)
    {
      ToldUpToAt(was, rs, n, n);
      InStepAt(was, rs, |rs|, n);
      picked := Awaits(members[id]);
      if picked {
        members := members[id := members[id].(confirmSent := true)];
      }
    }

    /** write_receivers_id with the filter of do_send_registered_confirm, which marks as it picks. */
    method WriteAwaiting(ids: seq<nat>, start: nat, room: nat, ghost was: map<nat, Member>, ghost rs: seq<Entry>)
      returns (list: seq<nat>, next: nat)
      requires IdsOf(ids, rs) && start <= |ids| && InStep(was, rs, |rs|) && members == ToldUpTo(was, rs, start)
      modifies this`members
      ensures next == start + Passed(rs[start..], room) <= |ids|
      ensures list == Selected(rs[start..next])
      ensures members == ToldUpTo(was, rs, next)
    {
      list, next := [], start;
      while next < |ids| && |list| < room
        invariant Writing(rs, start, next, room, list)
        invariant members == ToldUpTo(was, rs, next)
        decreases |ids| - next
      {
        var picked := AskFilter(ids[next], next, was, rs);
        if picked {
          list := list + [ids[next]];
        }
        next := next + 1;
      }
      WritingEnds(rs, start, next, room, list);
    }

    /** The loop of send_to_targeted_receivers with that filter. */
    method PackAwaiting(ids: seq<nat>, room: nat, ghost was: map<nat, Member>, ghost rs: seq<Entry>)
      returns (lists: seq<seq<nat>>)
      requires room > 0 && IdsOf(ids, rs) && InStep(was, rs, |rs|) && members == was
      modifies this`members
      ensures lists == Pack(rs, room) && members == ToldUpTo(was, rs, |rs|)
    {
      lists := [];
      var at := 0;
      PackingStarts(rs, room);
      while at < |ids|
        invariant PackedSoFar(rs, at, room, lists)
        invariant members == ToldUpTo(was, rs, at)
        decreases |ids| - at
      {
        var list, next := WriteAwaiting(ids, at, room, was, rs);
        PackingGoesOn(rs, at, next, room, lists);
        lists := lists + [list];
        at := next;
      }
      PackingEnds(rs, room, lists);
    }

    /** send_to_targeted_receivers with that filter, up to where the packets are handed on. */
    method PackConfirmations(room: nat) returns (lists: seq<seq<nat>>)
      requires room > 0
      modifies this`members
      ensures lists == Pack(Entries(old(members)), room)
      ensures members == Told(old(members))
    {
      var ids := Ascending(members.Keys);
      ghost var was, rs := members, Entries(members);
      EntriesInStep(was, |rs|);
      forall id | id in was ensures HasEntry(rs, id) {
        EachHasEntry(was, id);
      }
      AllTold(was, rs);
      lists := PackAwaiting(ids, room, was, rs);
    }

    method DoSendRegisteredConfirm(room: nat, accepted: bool) returns (goOn: bool)
      requires room > 0
      modifies this
      ensures (State(), goOn) == SendConfirm(old(State()), room, accepted)
    {
      goOn := true;
      if lastRoundResponseCount > 0 {
        var lists := PackConfirmations(room);
        confirmed := confirmed + [lists];
        if accepted {
          lastRoundResponseCount := 0;
        } else {
          goOn := false;
          if blocked {
            fault := true;
          } else {
            blocked := true;
          }
        }
      }
    }

    method OnWorkerBucketFreed(room: nat, accepted: bool)
      requires room > 0
      modifies this
      ensures State() == Resume(old(State()), room, accepted)
    {
      if blocked {
        blocked, lastRoundResponseCount := false, 0;
        if announcing {
          var _ := DoSendRegisteredConfirm(room, accepted);
        }
      }
    }

    /** after_sent of do_announce */
    method AfterAnnounceSent()
      modifies this`rounds, this`ahead
      ensures State() == AfterAnnounce(old(State()))
    {
      rounds := rounds + 1;
      ahead := if rounds <= robustFactor then Round else Transfer;
    }

    /** do_resend of do_announce */
    method DoResend(room: nat, accepted: bool)
      requires room > 0
      modifies this
      ensures State() == EndRound(old(State()), room, accepted)
    {
      var goOn := DoSendRegisteredConfirm(room, accepted);
      ahead := Nothing;
      if goOn {
        if announcing {
          ahead := Announcement;
        }
      }
    }

    method EnterTransferPhase()
      modifies this
      ensures State() == EnterTransfer(old(State()))
    {
      SomeMayTransfer(State());
      var anyone := FindConfirmed();
      ahead := Nothing;
      if anyone {
        announcing, rounds := false, 0;
      }
    }

    method FindConfirmed() returns (anyone: bool)
      ensures anyone <==> exists id :: id in members && MayTransfer(members[id])
    {
      var ids := Ascending(members.Keys);
      for k := 0 to |ids|
        invariant forall j :: 0 <= j < k ==> !MayTransfer(members[ids[j]])
      {
        if members[ids[k]].standing == Sender.Registered && members[ids[k]].confirmSent {
          return true;
        }
      }
      forall id | id in members ensures !MayTransfer(members[id]) {
        var j :| 0 <= j < |ids| && ids[j] == id;
      }
      return false;
    }

    /** One thing that happens to the session. What is not ahead does not happen. */
    method Handle(i: Input)
      modifies this
      ensures State() == Step(old(State()), i)
    {
      if fault { return; }
      match i {
        case AnnounceSent =>
          if ahead == Announcement {
            AfterAnnounceSent();
          }
        case RegisterArrives(source, clients) => OnRegisterMsgReceived(source, clients);
        case RoundEnds(room, accepted) =>
          if room > 0 && ahead == Round {
            DoResend(room, accepted);
          }
        case BucketHasRoom(room, accepted) =>
          if room > 0 {
            OnWorkerBucketFreed(room, accepted);
          }
        case AnnouncingEnds =>
          if ahead == Transfer {
            EnterTransferPhase();
          }
      }
    }

    /** Everything that happens during registration, in any order: the fields go through a run, and the flags
        tell who was put in a REG_CONF since its latest REGISTER and who still waits. */
    method HandleAll(inputs: seq<Input>)
      modifies this
      ensures State() == Run(old(State()), inputs)
      ensures old(Initial(State())) ==> forall id ::
                FlagsAt(State(), id, id in Due(old(State()), inputs), ToldSince(old(State()), inputs, id))
    {
      assert inputs[..0] == [];
      for k := 0 to |inputs|
        invariant State() == Run(old(State()), inputs[..k])
      {
        assert inputs[..k + 1][..k] == inputs[..k];
        Handle(inputs[k]);
      }
      assert inputs[..|inputs|] == inputs;
      if old(Initial(State())) {
        forall id: nat
          ensures FlagsAt(State(), id, id in Due(old(State()), inputs), ToldSince(old(State()), inputs, id))
        {
          FlagsTellTheHistory(old(State()), inputs, id);
        }
      }
    }
  }
}
