/** detail/message.cpp and detail/message.hpp: the packed headers on the wire. A field is stored in
    the host's byte order and turned into network order in place by make_transfer_ready; parse_packet
    turns it back in place on the receiving host, whose byte order may differ. */
module Wire {
  import opened Common
  import opened Messages

  datatype Host = LittleEndian | BigEndian

  type Word16 = x: int | 0 <= x < 0x1_0000
  type Word32 = x: int | 0 <= x < 0x1_0000_0000

  /** A 16-bit field as the host stores it. */
  function Native16(h: Host, x: Word16): (s: seq<Byte>)
    ensures |s| == 2
  {
    if h == LittleEndian then [x % 0x100, x / 0x100] else [x / 0x100, x % 0x100]
  }

  /** The number that a host reads from a stored field. */
  function Value16(h: Host, s: seq<Byte>): Word16
    requires |s| == 2
  {
    var a: int, b: int := s[0], s[1];
    if h == LittleEndian then a + 0x100 * b else b + 0x100 * a
  }

  /** boost::endian::native_to_big_inplace and big_to_native_inplace: a little-endian host reverses
      the bytes, a big-endian one leaves them. */
  function Swap(h: Host, s: seq<Byte>): (r: seq<Byte>)
    requires |s| == 2
    ensures |r| == 2
  {
    if h == LittleEndian then [s[1], s[0]] else s
  }

  function Put16(h: Host, x: Word16): (s: seq<Byte>)
    ensures |s| == 2
  {
    Swap(h, Native16(h, x))
  }

  function Get16(h: Host, s: seq<Byte>): Word16
    requires |s| == 2
  {
    Value16(h, Swap(h, s))
  }

  /** The bytes on the wire do not depend on the host. */
  lemma Field16(h: Host, k: Host, x: Word16)
    ensures Put16(h, x) == [x / 0x100, x % 0x100]
    ensures Get16(k, Put16(h, x)) == x
  {
  }

  /** Member ids are kept in network order throughout and compared as they are. */
  function PutId(id: Word32): (s: seq<Byte>)
    ensures |s| == 4
  {
    [id / 0x100_0000, id / 0x1_0000 % 0x100, id / 0x100 % 0x100, id % 0x100]
  }

  function GetId(s: seq<Byte>): Word32
    requires |s| == 4
  {
    var a: int, b: int, c: int, d: int := s[0], s[1], s[2], s[3];
    a * 0x100_0000 + b * 0x1_0000 + c * 0x100 + d
  }

  predicate AreIds(ids: seq<nat>) {
    forall k :: 0 <= k < |ids| ==> ids[k] < 0x1_0000_0000
  }

  function PutIds(ids: seq<nat>): (s: seq<Byte>)
    requires AreIds(ids)
    ensures |s| == 4 * |ids|
  {
    if ids == [] then [] else PutId(ids[0]) + PutIds(ids[1..])
  }

  /** The ids of a body; bytes that make no whole id are left over. */
  function GetIds(s: seq<Byte>): seq<nat> {
    if |s| < 4 then [] else [GetId(s[..4])] + GetIds(s[4..])
  }

  lemma DivideTwice(x: nat, y: nat)
    requires y == 0x100 || y == 0x1_0000
    ensures x / (0x100 * y) == x / y / 0x100
  {
  }

  lemma IdField(id: Word32)
    ensures GetId(PutId(id)) == id
  {
    var u: nat, t: nat := id / 0x100, id / 0x1_0000;
    DivideTwice(id, 0x100);
    DivideTwice(id, 0x1_0000);
    assert id == 0x100 * u + id % 0x100;
    assert u == 0x100 * t + u % 0x100;
    assert t == 0x100 * (t / 0x100) + t % 0x100;
    assert PutId(id) == [t / 0x100, t % 0x100, u % 0x100, id % 0x100];
  }

  lemma {:induction false} IdsField(ids: seq<nat>)
    requires AreIds(ids)
    ensures GetIds(PutIds(ids)) == ids
  {
    if ids != [] {
      IdField(ids[0]);
      IdsField(ids[1..]);
      assert PutIds(ids)[..4] == PutId(ids[0]) && PutIds(ids)[4..] == PutIds(ids[1..]);
    }
  }

  const FILE_SEG: Byte := 9
  const DONE: Byte := 10
  const STATUS: Byte := 11
  const COMPLETE: Byte := 12

  /** What can be put on the wire: fields that fit their width. */
  predicate Sendable(m: Message) {
    match m
    case FileSeg(id, sect, blk, _) => id < 0x1_0000 && sect < 0x1_0000 && blk < 0x1_0000
    case Done(id, sect, ids) => id < 0x1_0000 && sect < 0x1_0000 && AreIds(ids)
    case Status(_, id, sect, _) => id < 0x1_0000 && sect < 0x1_0000
    case Complete(_, id, sub) => id < 0x1_0000 && sub < 0x100
    case _ => false
  }

  /** The message with its header, after make_transfer_ready. The header length counts words of four
      bytes; the sender of a STATUS or COMPLETE is named in the protocol header, not here. */
  function Build(h: Host, m: Message): seq<Byte>
    requires Sendable(m)
  {
    match m
    case FileSeg(id, sect, blk, data) => [FILE_SEG, 2] + Put16(h, id) + Put16(h, sect) + (Put16(h, blk) + data)
    case Done(id, sect, ids) => [DONE, 2] + Put16(h, id) + Put16(h, sect) + ([0, 0] + PutIds(ids))
    case Status(_, id, sect, nak) => [STATUS, 2] + Put16(h, id) + Put16(h, sect) + ([0, 0] + nak)
    case Complete(_, id, sub) => [COMPLETE, 2] + Put16(h, id) + [sub, 0] + [0, 0]
  }

  /** parse_packet of the four messages: the header must name its role, be long enough and lie inside
      the packet. source comes from the protocol header. */
  function Parse(h: Host, source: nat, packet: seq<Byte>): Option<Message> {
    if |packet| < 8 then None else
    var role: int, words: int := packet[0], packet[1];
    var length := words * 4;
    if length < 8 || length > |packet| then None else
    var body := packet[length..];
    if role == FILE_SEG then
      Some(FileSeg(Get16(h, packet[2..4]), Get16(h, packet[4..6]), Get16(h, packet[6..8]), body))
    else if role == DONE then
      Some(Done(Get16(h, packet[2..4]), Get16(h, packet[4..6]), GetIds(body)))
    else if role == STATUS then
      Some(Status(source, Get16(h, packet[2..4]), Get16(h, packet[4..6]), body))
    else if role == COMPLETE then
      Some(Complete(source, Get16(h, packet[2..4]), packet[4]))
    else None
  }

  lemma Joined(role: Byte, a: seq<Byte>, b: seq<Byte>, rest: seq<Byte>)
    requires |a| == |b| == 2
    ensures [role, 2] + a + b + rest == [role, 2, a[0], a[1], b[0], b[1]] + rest
  {
  }

  lemma SegBytes(h: Host, id: Word16, sect: Word16, blk: Word16, data: seq<Byte>)
    ensures [FILE_SEG, 2] + Put16(h, id) + Put16(h, sect) + (Put16(h, blk) + data)
            == [9, 2, id / 256, id % 256, sect / 256, sect % 256] + ([blk / 256, blk % 256] + data)
  {
    Field16(h, h, id);
    Field16(h, h, sect);
    Field16(h, h, blk);
    Joined(FILE_SEG, Put16(h, id), Put16(h, sect), Put16(h, blk) + data);
  }

  lemma TwoFieldBytes(h: Host, role: Byte, id: Word16, sect: Word16, rest: seq<Byte>)
    ensures [role, 2] + Put16(h, id) + Put16(h, sect) + rest
            == [role, 2, id / 256, id % 256, sect / 256, sect % 256] + rest
  {
    Field16(h, h, id);
    Field16(h, h, sect);
    Joined(role, Put16(h, id), Put16(h, sect), rest);
  }

  lemma CompleteBytes(h: Host, id: Word16, sub: Byte)
    ensures [COMPLETE, 2] + Put16(h, id) + [sub, 0] + [0, 0] == [12, 2, id / 256, id % 256, sub, 0] + [0, 0]
  {
    Field16(h, h, id);
    Joined(COMPLETE, Put16(h, id), [sub, 0], [0, 0]);
  }

  /** The bytes of the four messages on the wire. */
  lemma BuiltBytes(h: Host, m: Message)
    requires Sendable(m)
    ensures Build(h, m) ==
            match m
            case FileSeg(id, sect, blk, data) =>
              [9, 2, id / 256, id % 256, sect / 256, sect % 256] + ([blk / 256, blk % 256] + data)
            case Done(id, sect, ids) => [10, 2, id / 256, id % 256, sect / 256, sect % 256] + ([0, 0] + PutIds(ids))
            case Status(_, id, sect, nak) => [11, 2, id / 256, id % 256, sect / 256, sect % 256] + ([0, 0] + nak)
            case Complete(_, id, sub) => [12, 2, id / 256, id % 256, sub, 0] + [0, 0]
  {
    match m
    case FileSeg(id, sect, blk, data) => SegBytes(h, id, sect, blk, data);
    case Done(id, sect, ids) => TwoFieldBytes(h, DONE, id, sect, [0, 0] + PutIds(ids));
    case Status(_, id, sect, nak) => TwoFieldBytes(h, STATUS, id, sect, [0, 0] + nak);
    case Complete(_, id, sub) => CompleteBytes(h, id, sub);
  }

  /** A packet is taken for one of the four messages exactly if its first byte says so and its header, at least
      eight bytes long, lies inside it. */
  lemma ParsesIff(h: Host, source: nat, packet: seq<Byte>)
    ensures Parse(h, source, packet).Some? <==>
            |packet| >= 8 && 9 <= packet[0] <= 12 && 8 <= 4 * packet[1] <= |packet|
  {
  }

  /** The claimed sender of a message that names one. */
  function SourceOf(m: Message): nat {
    match m
    case Status(from, _, _, _) => from
    case Complete(from, _, _) => from
    case _ => 0
  }

  /** A header of three pairs of bytes and the rest, taken apart. */
  lemma Pieces(a: seq<Byte>, b: seq<Byte>, c: seq<Byte>, rest: seq<Byte>)
    requires |a| == |b| == |c| == 2
    ensures var s := a + b + c + rest;
            s[..2] == a && s[2..4] == b && s[4..6] == c && s[4..] == c + rest && s[6..] == rest && s[0] == a[0]
  {
  }

  lemma PutTogether(s: seq<Byte>)
    requires |s| >= 8
    ensures s == s[..2] + s[2..4] + s[4..6] + s[6..]
    ensures s[6..] == s[6..8] + s[8..] && s[4..] == s[4..6] + s[6..]
  {
  }

  /** Wire round trip: whatever the two hosts' byte orders, for every field value and payload, parsing
      what was built gives the message back. */
  lemma BuildThenParse(h: Host, k: Host, m: Message)
    requires Sendable(m)
    ensures Parse(k, SourceOf(m), Build(h, m)) == Some(m)
  {
    match m
    case FileSeg(_, _, _, _) => SegParsed(h, k, m);
    case Done(_, _, _) => DoneParsed(h, k, m);
    case Status(_, _, _, _) => StatusParsed(h, k, m);
    case Complete(_, _, _) => CompleteParsed(h, k, m);
  }

  lemma DoneParsed(h: Host, k: Host, m: Message)
    requires Sendable(m) && m.Done?
    ensures Parse(k, 0, Build(h, m)) == Some(m)
  {
    Field16(h, k, m.doneId);
    Field16(h, k, m.lastSect);
    IdsField(m.doneFor);
    var rest := [0, 0] + PutIds(m.doneFor);
    Pieces([DONE, 2], Put16(h, m.doneId), Put16(h, m.lastSect), rest);
    assert Build(h, m)[8..] == rest[2..] == PutIds(m.doneFor);
  }

  lemma StatusParsed(h: Host, k: Host, m: Message)
    requires Sendable(m) && m.Status?
    ensures Parse(k, m.statusFrom, Build(h, m)) == Some(m)
  {
    Field16(h, k, m.statusId);
    Field16(h, k, m.statusSect);
    var rest := [0, 0] + m.nakMap;
    Pieces([STATUS, 2], Put16(h, m.statusId), Put16(h, m.statusSect), rest);
    assert Build(h, m)[8..] == rest[2..] == m.nakMap;
  }

  lemma CompleteParsed(h: Host, k: Host, m: Message)
    requires Sendable(m) && m.Complete?
    ensures Parse(k, m.completeFrom, Build(h, m)) == Some(m)
  {
    Field16(h, k, m.completeId);
    Pieces([COMPLETE, 2], Put16(h, m.completeId), [m.sub, 0], [0, 0]);
  }

  lemma SegParsed(h: Host, k: Host, m: Message)
    requires Sendable(m) && m.FileSeg?
    ensures Parse(k, 0, Build(h, m)) == Some(m)
  {
    Field16(h, k, m.segId);
    Field16(h, k, m.sect);
    Field16(h, k, m.blk);
    var rest := Put16(h, m.blk) + m.data;
    Pieces([FILE_SEG, 2], Put16(h, m.segId), Put16(h, m.sect), rest);
    var p := Build(h, m);
    assert p[6..8] == rest[..2] == Put16(h, m.blk) && p[8..] == rest[2..] == m.data;
  }

  // ----- In place -----

  /** Where a role's 16-bit header fields are. */
  function FieldOffsets(role: Byte): seq<nat> {
    if role == FILE_SEG then [2, 4, 6]
    else if role == DONE || role == STATUS then [2, 4]
    else if role == COMPLETE then [2]
    else []
  }

  /** The message as its fields are assigned, before make_transfer_ready. */
  function Assigned(h: Host, m: Message): seq<Byte>
    requires Sendable(m)
  {
    match m
    case FileSeg(id, sect, blk, data) => [FILE_SEG, 2] + Native16(h, id) + Native16(h, sect) + (Native16(h, blk) + data)
    case Done(id, sect, ids) => [DONE, 2] + Native16(h, id) + Native16(h, sect) + ([0, 0] + PutIds(ids))
    case Status(_, id, sect, nak) => [STATUS, 2] + Native16(h, id) + Native16(h, sect) + ([0, 0] + nak)
    case Complete(_, id, sub) => [COMPLETE, 2] + Native16(h, id) + [sub, 0] + [0, 0]
  }

  function SwapAt(h: Host, s: seq<Byte>, at: nat): (r: seq<Byte>)
    requires at + 2 <= |s|
    ensures |r| == |s|
  {
    s[..at] + Swap(h, s[at..at + 2]) + s[at + 2..]
  }

  /** native_to_big_inplace and big_to_native_inplace on one field of a buffer. */
  method SwapInPlace(h: Host, buffer: array<Byte>, at: nat)
    requires at + 2 <= buffer.Length
    modifies buffer
    ensures buffer[..] == SwapAt(h, old(buffer[..]), at)
  {
    if h == LittleEndian {
      buffer[at], buffer[at + 1] := buffer[at + 1], buffer[at];
    }
  }

  function SwapAll(h: Host, s: seq<Byte>, offsets: seq<nat>): (r: seq<Byte>)
    requires forall k :: 0 <= k < |offsets| ==> offsets[k] + 2 <= |s|
    ensures |r| == |s|
  {
    if offsets == [] then s else SwapAt(h, SwapAll(h, s, offsets[..|offsets| - 1]), offsets[|offsets| - 1])
  }

  /** The four make_transfer_ready functions, and the swaps of the four parse_packet functions. */
  method SwapFields(h: Host, buffer: array<Byte>)
    requires buffer.Length >= 8
    modifies buffer
    ensures buffer[..] == SwapAll(h, old(buffer[..]), FieldOffsets(old(buffer[0])))
  {
    var offsets := FieldOffsets(buffer[0]);
    assert offsets[..0] == [];
    for k := 0 to |offsets|
      invariant buffer[..] == SwapAll(h, old(buffer[..]), offsets[..k])
    {
      assert offsets[..k + 1][..k] == offsets[..k];
      SwapInPlace(h, buffer, offsets[k]);
    }
    assert offsets[..|offsets|] == offsets;
  }

  lemma {:induction false} OneByOne(h: Host, s: seq<Byte>, offsets: seq<nat>)
    requires forall k :: 0 <= k < |offsets| ==> offsets[k] + 2 <= |s|
    ensures |offsets| == 1 ==> SwapAll(h, s, offsets) == SwapAt(h, s, offsets[0])
    ensures |offsets| == 2 ==> SwapAll(h, s, offsets) == SwapAt(h, SwapAt(h, s, offsets[0]), offsets[1])
    ensures |offsets| == 3 ==>
      SwapAll(h, s, offsets) == SwapAt(h, SwapAt(h, SwapAt(h, s, offsets[0]), offsets[1]), offsets[2])
  {
    if 0 < |offsets| <= 3 {
      var rest := offsets[..|offsets| - 1];
      OneByOne(h, s, rest);
    }
  }

  lemma SwapAtLocal(h: Host, s: seq<Byte>, at: nat)
    requires at + 2 <= |s|
    ensures var r := SwapAt(h, s, at);
            && r[..at] == s[..at] && r[at..at + 2] == Swap(h, s[at..at + 2]) && r[at + 2..] == s[at + 2..]
  {
  }

  /** Swapping changes the fields, each by itself, and nothing else. */
  lemma {:induction false} FieldsSwapped(h: Host, s: seq<Byte>, role: Byte)
    requires |s| >= 8
    ensures var r := SwapAll(h, s, FieldOffsets(role));
            && |r| == |s| && r[..2] == s[..2]
            && (FieldOffsets(role) != [] ==> r[2..4] == Swap(h, s[2..4]))
            && (FieldOffsets(role) == [2] ==> r[4..] == s[4..])
            && (|FieldOffsets(role)| >= 2 ==> r[4..6] == Swap(h, s[4..6]))
            && (FieldOffsets(role) == [2, 4] ==> r[6..] == s[6..])
            && (FieldOffsets(role) == [2, 4, 6] ==> r[6..8] == Swap(h, s[6..8]))
            && r[8..] == s[8..]
  {
    OneByOne(h, s, FieldOffsets(role));
    SwapAtLocal(h, s, 2);
    var one := SwapAt(h, s, 2);
    assert one[..2] == s[..2] && one[2..4] == Swap(h, s[2..4]) && one[4..] == s[4..];
    SwapTail(h, one, s);
  }

  lemma SwapTail(h: Host, one: seq<Byte>, s: seq<Byte>)
    requires |one| == |s| >= 8 && one[4..] == s[4..]
    ensures one[8..] == s[8..]
    ensures var two := SwapAt(h, one, 4);
            && two[..4] == one[..4] && two[..2] == one[..2] && two[2..4] == one[2..4]
            && two[4..6] == Swap(h, s[4..6]) && two[6..] == s[6..] && two[8..] == s[8..]
            && var three := SwapAt(h, two, 6);
               && three[..2] == one[..2] && three[2..4] == one[2..4] && three[4..6] == two[4..6]
               && three[6..8] == Swap(h, s[6..8]) && three[8..] == s[8..]
  {
    SwapAtLocal(h, one, 4);
    assert one[4..6] == s[4..6] by { assert one[4..][..2] == one[4..6] && s[4..][..2] == s[4..6]; }
    var two := SwapAt(h, one, 4);
    SwapAtLocal(h, two, 6);
    assert one[4..][4..] == one[8..] && s[4..][4..] == s[8..];
    assert one[4..][2..] == one[6..] && s[4..][2..] == s[6..];
    assert two[6..][..2] == two[6..8] && s[6..][..2] == s[6..8];
    assert two[6..][2..] == two[8..] && s[6..][2..] == s[8..];
    var three := SwapAt(h, two, 6);
    assert three[..6][..2] == three[..2] && two[..6][..2] == two[..2];
    assert three[..6][2..4] == three[2..4] && two[..6][2..4] == two[2..4];
    assert three[..6][4..6] == three[4..6] && two[..6][4..6] == two[4..6];
    assert two[..4][..2] == two[..2] && one[..4][..2] == one[..2];
    assert two[..4][2..4] == two[2..4] && one[..4][2..4] == one[2..4];
  }

  /** make_transfer_ready turns the assigned fields into the message on the wire. */
  lemma {:induction false} ReadyIsBuilt(h: Host, m: Message)
    requires Sendable(m)
    ensures |Assigned(h, m)| >= 8
    ensures SwapAll(h, Assigned(h, m), FieldOffsets(Assigned(h, m)[0])) == Build(h, m)
  {
    match m
    case FileSeg(id, sect, blk, data) => SegReady(h, id, sect, blk, data);
    case Done(id, sect, ids) => TwoFieldsReady(h, DONE, id, sect, [0, 0] + PutIds(ids));
    case Status(_, id, sect, nak) => TwoFieldsReady(h, STATUS, id, sect, [0, 0] + nak);
    case Complete(_, id, sub) => CompleteReady(h, id, sub);
  }

  lemma {:induction false} SegReady(h: Host, id: Word16, sect: Word16, blk: Word16, data: seq<Byte>)
    ensures SwapAll(h, [FILE_SEG, 2] + Native16(h, id) + Native16(h, sect) + (Native16(h, blk) + data), [2, 4, 6])
            == [FILE_SEG, 2] + Put16(h, id) + Put16(h, sect) + (Put16(h, blk) + data)
  {
    var rest := Native16(h, blk) + data;
    var s := [FILE_SEG, 2] + Native16(h, id) + Native16(h, sect) + rest;
    Pieces([FILE_SEG, 2], Native16(h, id), Native16(h, sect), rest);
    FieldsSwapped(h, s, FILE_SEG);
    assert s[6..8] == rest[..2] == Native16(h, blk) && s[8..] == rest[2..] == data;
    PutTogether(SwapAll(h, s, [2, 4, 6]));
  }

  lemma {:induction false} TwoFieldsReady(h: Host, role: Byte, id: Word16, sect: Word16, rest: seq<Byte>)
    requires role == DONE || role == STATUS
    requires |rest| >= 2
    ensures SwapAll(h, [role, 2] + Native16(h, id) + Native16(h, sect) + rest, [2, 4])
            == [role, 2] + Put16(h, id) + Put16(h, sect) + rest
  {
    var s := [role, 2] + Native16(h, id) + Native16(h, sect) + rest;
    Pieces([role, 2], Native16(h, id), Native16(h, sect), rest);
    FieldsSwapped(h, s, role);
    PutTogether(SwapAll(h, s, [2, 4]));
  }

  lemma {:induction false} CompleteReady(h: Host, id: Word16, sub: Byte)
    ensures SwapAll(h, [COMPLETE, 2] + Native16(h, id) + [sub, 0] + [0, 0], [2])
            == [COMPLETE, 2] + Put16(h, id) + [sub, 0] + [0, 0]
  {
    var s := [COMPLETE, 2] + Native16(h, id) + [sub, 0] + [0, 0];
    Pieces([COMPLETE, 2], Native16(h, id), [sub, 0], [0, 0]);
    FieldsSwapped(h, s, COMPLETE);
    var r := SwapAll(h, s, [2]);
    PutTogether(r);
    assert r[4..6] == r[4..][..2] && s[4..6] == s[4..][..2];
    assert r[6..] == r[4..][2..] && s[6..] == s[4..][2..];
  }

  lemma DropThenIndex(s: seq<Byte>, at: nat, k: nat)
    requires at + k < |s|
    ensures s[at..][k] == s[at + k]
  {
  }

  /** The four parse_packet functions on the received buffer: the fields are swapped where they are and
      then read as the host's own numbers. */
  method ParseInPlace(h: Host, source: nat, buffer: array<Byte>) returns (r: Option<Message>)
    modifies buffer
    ensures r == Parse(h, source, old(buffer[..]))
  {
    if buffer.Length < 8 { return None; }
    var role: Byte := buffer[0];
    var words: int := buffer[1];
    var length := words * 4;
    if length < 8 || length > buffer.Length || FieldOffsets(role) == [] { return None; }
    ghost var packet := buffer[..];
    FieldsSwapped(h, packet, role);
    SwapFields(h, buffer);
    ghost var now := buffer[..];
    assert now[8..][length - 8..] == now[length..] && packet[8..][length - 8..] == packet[length..];
    DropThenIndex(now, 4, 0);
    DropThenIndex(packet, 4, 0);
    var id := Value16(h, buffer[2..4]);
    if role == COMPLETE {
      r := Some(Complete(source, id, buffer[4]));
    } else {
      var sect := Value16(h, buffer[4..6]);
      if role == FILE_SEG {
        r := Some(FileSeg(id, sect, Value16(h, buffer[6..8]), buffer[length..]));
      } else if role == DONE {
        r := Some(Done(id, sect, GetIds(buffer[length..])));
      } else {
        r := Some(Status(source, id, sect, buffer[length..]));
      }
    }
  }

  // ----- The size in FILE_INFO -----

  /** size_high_word: bits 32 to 47 of the size, masked but not shifted, stored into 16 bits. */
  function SizeHighWord(fileSize: nat): nat {
    (fileSize / 0x1_0000_0000 % 0x1_0000 * 0x1_0000_0000) % 0x1_0000
  }

  function SizeLowDword(fileSize: nat): nat {
    fileSize % 0x1_0000_0000
  }

  /** How the receiver puts the two together. */
  function DecodedSize(high: nat, low: nat): nat {
    high * 0x1_0000_0000 + low
  }

  /** The size arrives modulo 2^32, and so is exact if and only if it is below 2^32. */
  lemma SizeDecodesModulo(fileSize: nat)
    ensures DecodedSize(SizeHighWord(fileSize), SizeLowDword(fileSize)) == fileSize % 0x1_0000_0000
    ensures DecodedSize(SizeHighWord(fileSize), SizeLowDword(fileSize)) == fileSize <==> fileSize < 0x1_0000_0000
  {
    var high := fileSize / 0x1_0000_0000 % 0x1_0000;
    DivModOf(high * 0x1_0000_0000, high * 0x1_0000, 0x1_0000, 0);
    assert SizeHighWord(fileSize) == 0;
  }
}
