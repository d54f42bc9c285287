/** sender/detail/worker.cpp:134-150,306-331: the ids of the receivers that a filter picks are
    spread over as many packets as they need. */
module Packing {

  /** A receiver as the packing loop meets it, in the order of the receivers map. */
  datatype Entry = Entry(id: nat, selected: bool)

  function Selected(rs: seq<Entry>): seq<nat> {
    if rs == [] then [] else (if rs[0].selected then [rs[0].id] else []) + Selected(rs[1..])
  }

  /** How many receivers write_receivers_id passes over before the buffer or the map ends. */
  function Passed(rs: seq<Entry>, room: nat): (n: nat)
    ensures n <= |rs|
    ensures n == 0 <==> rs == [] || room == 0
  {
    if rs == [] || room == 0 then 0
    else 1 + Passed(rs[1..], if rs[0].selected then room - 1 else room)
  }

  /** The same two functions on positions in the map: where the writing stops, and what it writes. */
  function StopsAt(rs: seq<Entry>, from: nat, room: nat): (n: nat)
    requires from <= |rs|
    ensures from <= n <= |rs|
    decreases |rs| - from
  {
    if from == |rs| || room == 0 then from else StopsAt(rs, from + 1, if rs[from].selected then room - 1 else room)
  }

  function SelectedIn(rs: seq<Entry>, from: nat, to: nat): seq<nat>
    requires from <= to <= |rs|
  {
    if from == to then []
    else SelectedIn(rs, from, to - 1) + if rs[to - 1].selected then [rs[to - 1].id] else []
  }

  lemma {:induction false} StopsAfterPassed(rs: seq<Entry>, from: nat, room: nat)
    requires from <= |rs|
    ensures StopsAt(rs, from, room) == from + Passed(rs[from..], room)
    decreases |rs| - from
  {
    if from < |rs| && room > 0 {
      StopsAfterPassed(rs, from + 1, if rs[from].selected then room - 1 else room);
      assert rs[from..][1..] == rs[from + 1..];
    }
  }

  lemma {:induction false} SelectedInIsSelected(rs: seq<Entry>, from: nat, to: nat)
    requires from <= to <= |rs|
    ensures SelectedIn(rs, from, to) == Selected(rs[from..to])
  {
    if from < to {
      SelectedInIsSelected(rs, from, to - 1);
      assert rs[from..to] == rs[from..to - 1] + [rs[to - 1]];
      SelectedSplit(rs[from..to - 1], [rs[to - 1]]);
    }
  }

  /** The loop of write_receivers_id under way: from `start` on, receivers before `next` are passed over,
      and list has the ids picked among them. */
  predicate Writing(rs: seq<Entry>, start: nat, next: nat, room: nat, list: seq<nat>) {
    && start <= next <= |rs| && |list| <= room
    && StopsAt(rs, next, room - |list|) == StopsAt(rs, start, room)
    && list == SelectedIn(rs, start, next)
  }

  lemma {:induction false} WritingEnds(rs: seq<Entry>, start: nat, next: nat, room: nat, list: seq<nat>)
    requires Writing(rs, start, next, room, list) && (next == |rs| || |list| == room)
    ensures next == start + Passed(rs[start..], room) && list == Selected(rs[start..next])
  {
    StopsAfterPassed(rs, start, room);
    SelectedInIsSelected(rs, start, next);
  }

  /** The id lists of the packets that send_to_targeted_receivers builds. With no room for a single
      id the loop makes no progress and never ends. */
  function Pack(rs: seq<Entry>, room: nat): seq<seq<nat>>
    requires room > 0
    decreases |rs|
  {
    if rs == [] then []
    else
      var n := Passed(rs, room);
      [Selected(rs[..n])] + Pack(rs[n..], room)
  }

  /** One turn of the loop, for the receivers from position `at` on. */
  lemma {:induction false} PackTurn(rs: seq<Entry>, at: nat, next: nat, room: nat)
    requires room > 0 && at < |rs| && next == at + Passed(rs[at..], room)
    ensures at < next <= |rs|
    ensures Pack(rs[at..], room) == [Selected(rs[at..next])] + Pack(rs[next..], room)
  {
    assert rs[at..][..next - at] == rs[at..next] && rs[at..][next - at..] == rs[next..];
  }

  /** The loop of send_to_targeted_receivers under way, with these lists made so far. */
  predicate PackedSoFar(rs: seq<Entry>, at: nat, room: nat, lists: seq<seq<nat>>)
    requires room > 0
  {
    at <= |rs| && Pack(rs, room) == lists + Pack(rs[at..], room)
  }

  lemma {:induction false} PackingStarts(rs: seq<Entry>, room: nat)
    requires room > 0
    ensures PackedSoFar(rs, 0, room, [])
  {
    assert rs[0..] == rs;
  }

  lemma {:induction false} PackingGoesOn(rs: seq<Entry>, at: nat, next: nat, room: nat, lists: seq<seq<nat>>)
    requires room > 0 && PackedSoFar(rs, at, room, lists)
    requires at < |rs| && next == at + Passed(rs[at..], room)
    ensures at < next <= |rs| && PackedSoFar(rs, next, room, lists + [Selected(rs[at..next])])
  {
    PackTurn(rs, at, next, room);
  }

  lemma {:induction false} PackingEnds(rs: seq<Entry>, room: nat, lists: seq<seq<nat>>)
    requires room > 0 && PackedSoFar(rs, |rs|, room, lists)
    ensures lists == Pack(rs, room)
  {
    assert rs[|rs|..] == [];
  }

  function Concat(lists: seq<seq<nat>>): seq<nat> {
    if lists == [] then [] else lists[0] + Concat(lists[1..])
  }

  lemma {:induction false} SelectedSplit(a: seq<Entry>, b: seq<Entry>)
    ensures Selected(a + b) == Selected(a) + Selected(b)
  {
    if a == [] {
      assert a + b == b;
    } else {
      SelectedSplit(a[1..], b);
      assert (a + b)[0] == a[0] && (a + b)[1..] == a[1..] + b;
      var head := if a[0].selected then [a[0].id] else [];
      assert head + (Selected(a[1..]) + Selected(b)) == (head + Selected(a[1..])) + Selected(b);
    }
  }

  /** The ids written fit the buffer; the buffer is full or the map has ended. */
  lemma {:induction false} PassedFits(rs: seq<Entry>, room: nat)
    ensures |Selected(rs[..Passed(rs, room)])| <= room
    ensures |Selected(rs[..Passed(rs, room)])| == room || Passed(rs, room) == |rs|
  {
    if rs != [] && room > 0 {
      var left := if rs[0].selected then room - 1 else room;
      PassedFits(rs[1..], left);
      var n := Passed(rs, room);
      assert rs[..n][1..] == rs[1..][..n - 1];
    }
  }

  /** Nothing selected is left out, repeated or reordered, every list fits its packet, and only the
      last one may be short. */
  lemma {:induction false} PackIsComplete(rs: seq<Entry>, room: nat)
    requires room > 0
    ensures Concat(Pack(rs, room)) == Selected(rs)
    ensures forall k :: 0 <= k < |Pack(rs, room)| ==> |Pack(rs, room)[k]| <= room
    ensures forall k :: 0 <= k < |Pack(rs, room)| - 1 ==> |Pack(rs, room)[k]| == room
    ensures |Pack(rs, room)| == 0 <==> rs == []
    decreases |rs|
  {
    if rs != [] {
      var n := Passed(rs, room);
      assert rs == rs[..n] + rs[n..];
      SelectedSplit(rs[..n], rs[n..]);
      PassedFits(rs, room);
      PackIsComplete(rs[n..], room);
    }
  }

  lemma {:induction false} InSelected(rs: seq<Entry>, id: nat)
    ensures id in Selected(rs) <==> exists e :: e in rs && e.selected && e.id == id
  {
    if rs != [] {
      InSelected(rs[1..], id);
      if id in Selected(rs) {
        if rs[0].selected && rs[0].id == id {
          assert rs[0] in rs;
        } else {
          var e :| e in rs[1..] && e.selected && e.id == id;
          assert e in rs;
        }
      }
    }
  }

  lemma {:induction false} InConcat(lists: seq<seq<nat>>, id: nat)
    ensures id in Concat(lists) <==> exists l :: l in lists && id in l
  {
    if lists != [] {
      InConcat(lists[1..], id);
      if id in Concat(lists) && id !in lists[0] {
        var l :| l in lists[1..] && id in l;
        assert l in lists;
      }
    }
  }

  /** The packets with their sequence numbers, which count on from the first one's modulo 2^16. */
  function Numbered(lists: seq<seq<nat>>, first: nat): seq<(nat, seq<nat>)> {
    if lists == [] then [] else [(first, lists[0])] + Numbered(lists[1..], (first + 1) % 0x1_0000)
  }

  lemma {:induction false} NumberedAt(lists: seq<seq<nat>>, first: nat, k: nat)
    requires first < 0x1_0000
    ensures |Numbered(lists, first)| == |lists|
    ensures k < |lists| ==> Numbered(lists, first)[k] == ((first + k) % 0x1_0000, lists[k])
  {
    if lists != [] {
      NumberedAt(lists[1..], (first + 1) % 0x1_0000, if k > 0 then k - 1 else 0);
    }
  }

  /** That loop with the sequence numbers: these packets have been made, and the next one takes number. */
  predicate NumberedSoFar(
    rs: seq<Entry>, at: nat, room: nat, first: nat, number: nat, packets: seq<(nat, seq<nat>)>)
    requires room > 0
  {
    at <= |rs| && number < 0x1_0000
    && Numbered(Pack(rs, room), first) == packets + Numbered(Pack(rs[at..], room), number)
  }

  lemma {:induction false} NumberingStarts(rs: seq<Entry>, room: nat, first: nat)
    requires room > 0 && first < 0x1_0000
    ensures NumberedSoFar(rs, 0, room, first, first, [])
  {
    assert rs[0..] == rs;
  }

  lemma {:induction false} NumberingGoesOn(
    rs: seq<Entry>, at: nat, next: nat, room: nat, first: nat, number: nat, packets: seq<(nat, seq<nat>)>)
    requires room > 0 && NumberedSoFar(rs, at, room, first, number, packets)
    requires at < |rs| && next == at + Passed(rs[at..], room)
    ensures at < next <= |rs|
    ensures NumberedSoFar(rs, next, room, first, (number + 1) % 0x1_0000, packets + [(number, Selected(rs[at..next]))])
  {
    PackTurn(rs, at, next, room);
    var list, rest := Selected(rs[at..next]), Pack(rs[next..], room);
    assert ([list] + rest)[1..] == rest;
    assert Numbered([list] + rest, number) == [(number, list)] + Numbered(rest, (number + 1) % 0x1_0000);
  }

  lemma {:induction false} NumberingEnds(
    rs: seq<Entry>, room: nat, first: nat, number: nat, packets: seq<(nat, seq<nat>)>)
    requires room > 0 && NumberedSoFar(rs, |rs|, room, first, number, packets)
    ensures packets == Numbered(Pack(rs, room), first)
  {
    assert rs[|rs|..] == [];
  }

  /** A receiver finds itself in some packet exactly if the filter picked it. */
  lemma {:induction false} FindsItselfIff(rs: seq<Entry>, room: nat, id: nat)
    requires room > 0
    ensures (exists l :: l in Pack(rs, room) && id in l) <==> exists e :: e in rs && e.selected && e.id == id
  {
    PackIsComplete(rs, room);
    InConcat(Pack(rs, room), id);
    InSelected(rs, id);
  }

  predicate Distinct(s: seq<nat>) {
    forall i, j :: 0 <= i < j < |s| ==> s[i] != s[j]
  }

  /** The map's keys are distinct, so no receiver is listed twice. */
  lemma {:induction false} NoneListedTwice(rs: seq<Entry>)
    requires forall i, j :: 0 <= i < j < |rs| ==> rs[i].id != rs[j].id
    ensures Distinct(Selected(rs))
  {
    if rs != [] {
      NoneListedTwice(rs[1..]);
      InSelected(rs[1..], rs[0].id);
    }
  }
}
