/** detail/message.cpp, extract_lost_blocks_ids, and the byte layout of the bitset it reads
    (boost::dynamic_bitset<uint8_t> written out by to_block_range in the receiver's
    do_report_status): bit i of a NAK map says that block i of the section is missing. */
module NakCodec {
  import opened Common

  /** (b >> k) & 1, shifting one place at a time. */
  function Bit(b: Byte, k: nat): bool {
    if k == 0 then b % 2 == 1 else Bit(b / 2, k - 1)
  }

  /** Bit i of a byte string. */
  function BitAt(nak: seq<Byte>, i: nat): bool
    requires i < 8 * |nak|
  {
    Bit(nak[i / 8], i % 8)
  }

  /** The byte whose low bits are the given ones; a dynamic_bitset keeps its unused bits zero. */
  function PackByte(bits: seq<bool>): (b: nat)
    requires |bits| <= 8
    ensures b < PowerOf2(|bits|)
  {
    if bits == [] then 0 else (if bits[0] then 1 else 0) + 2 * PackByte(bits[1..])
  }

  function PowerOf2(n: nat): nat {
    if n == 0 then 1 else 2 * PowerOf2(n - 1)
  }

  lemma {:induction false} PackedByteFits(bits: seq<bool>)
    requires |bits| <= 8
    ensures PackByte(bits) < 0x100
  {
    PowerGrows(|bits|, 8);
    assert PowerOf2(8) == 0x100;
  }

  lemma {:induction false} PowerGrows(m: nat, n: nat)
    requires m <= n
    ensures PowerOf2(m) <= PowerOf2(n)
  {
    if m < n {
      PowerGrows(m, n - 1);
    }
  }

  /** to_block_range: the bitset's bytes, eight bits to each. */
  function PackBits(bits: seq<bool>): (nak: seq<Byte>)
    ensures |nak| == (|bits| + 7) / 8
  {
    if bits == [] then []
    else if |bits| <= 8 then
      PackedByteFits(bits);
      [PackByte(bits)]
    else
      PackedByteFits(bits[..8]);
      [PackByte(bits[..8])] + PackBits(bits[8..])
  }

  lemma {:induction false} BitOfPackedByte(bits: seq<bool>, k: nat)
    requires |bits| <= 8 && k < 8
    ensures PackByte(bits) < 0x100
    ensures Bit(PackByte(bits), k) == (k < |bits| && bits[k])
  {
    PackedByteFits(bits);
    if bits == [] {
      ZeroHasNoBits(k);
    } else if k > 0 {
      assert PackByte(bits) / 2 == PackByte(bits[1..]);
      BitOfPackedByte(bits[1..], k - 1);
    }
  }

  lemma {:induction false} ZeroHasNoBits(k: nat)
    ensures !Bit(0, k)
  {
    if k > 0 {
      ZeroHasNoBits(k - 1);
    }
  }

  /** Reading a bit of the packed map gives the bit that was packed, and zero past the end. */
  lemma {:induction false} BitOfPacked(bits: seq<bool>, i: nat)
    requires i < 8 * |PackBits(bits)|
    ensures BitAt(PackBits(bits), i) == (i < |bits| && bits[i])
    decreases |bits|
  {
    if |bits| <= 8 {
      BitOfPackedByte(bits, i);
    } else if i < 8 {
      BitOfPackedByte(bits[..8], i);
    } else {
      BitOfPacked(bits[8..], i - 8);
      assert PackBits(bits)[i / 8] == PackBits(bits[8..])[(i - 8) / 8];
    }
  }

  /** The ids a plain bit-by-bit scan of the first n bits finds. Ids are stored into 16-bit integers. */
  function IdsBelow(nak: seq<Byte>, n: nat): set<nat>
    requires n <= 8 * |nak|
  {
    if n == 0 then {}
    else IdsBelow(nak, n - 1) + if BitAt(nak, n - 1) then {(n - 1) % 0x1_0000} else {}
  }

  function PlainScan(nak: seq<Byte>): set<nat> {
    IdsBelow(nak, 8 * |nak|)
  }

  /** A scan finds a number exactly if it is, cut to 16 bits, the position of a set bit. */
  lemma {:induction false} ScanIff(nak: seq<Byte>, n: nat, id: nat)
    requires n <= 8 * |nak|
    ensures id in IdsBelow(nak, n) <==> exists k :: 0 <= k < n && BitAt(nak, k) && id == k % 0x1_0000
  {
    if n > 0 {
      ScanIff(nak, n - 1, id);
      if BitAt(nak, n - 1) && id == (n - 1) % 0x1_0000 {
        assert id in IdsBelow(nak, n);
      }
    }
  }

  /** A stretch without set bits adds no ids. */
  lemma {:induction false} ClearBitsAddNothing(nak: seq<Byte>, from: nat, to: nat)
    requires from <= to <= 8 * |nak|
    requires forall j :: from / 8 <= j < |nak| && 8 * j < to ==> nak[j] == 0
    ensures IdsBelow(nak, to) == IdsBelow(nak, from)
  {
    if from < to {
      ClearBitsAddNothing(nak, from, to - 1);
      assert nak[(to - 1) / 8] == 0;
      ZeroHasNoBits((to - 1) % 8);
    }
  }

  /** The native integer that a run of bytes reads as, here on a little-endian machine. */
  function Word(bytes: seq<Byte>): nat {
    if bytes == [] then 0 else bytes[0] + 0x100 * Word(bytes[1..])
  }

  /** A native integer is zero just when its bytes are, whichever way they are ordered. */
  lemma {:induction false} WordIsZeroIff(bytes: seq<Byte>)
    ensures Word(bytes) == 0 <==> forall j :: 0 <= j < |bytes| ==> bytes[j] == 0
  {
    if bytes != [] {
      WordIsZeroIff(bytes[1..]);
      if Word(bytes) == 0 {
        forall j | 0 <= j < |bytes| ensures bytes[j] == 0 {
          if j > 0 {
            assert bytes[j] == bytes[1..][j - 1];
          }
        }
      } else if bytes[0] == 0 {
        var j :| 0 <= j < |bytes[1..]| && bytes[1..][j] != 0;
        assert bytes[j + 1] != 0;
      }
    }
  }

  /** The eight-bit inner loop, which both halves of the scan share. */
  method ScanByte(nak: seq<Byte>, j: nat, ids: set<nat>) returns (out: set<nat>)
    requires j < |nak| && ids == IdsBelow(nak, 8 * j)
    ensures out == IdsBelow(nak, 8 * (j + 1))
  {
    out := ids;
    if nak[j] != 0 {
      for k := 0 to 8
        invariant out == IdsBelow(nak, 8 * j + k)
      {
        assert (8 * j + k) / 8 == j && (8 * j + k) % 8 == k;
        if Bit(nak[j], k) {
          out := out + {(j * 8 + k) % 0x1_0000};
        }
      }
    } else {
      ClearBitsAddNothing(nak, 8 * j, 8 * (j + 1));
    }
  }

  /** One step of the word loop: a word is looked into only when it is not zero. */
  method ScanWord(nak: seq<Byte>, from: nat, to: nat, ids: set<nat>) returns (out: set<nat>)
    requires from <= to <= |nak| && ids == IdsBelow(nak, 8 * from)
    ensures out == IdsBelow(nak, 8 * to)
  {
    out := ids;
    WordIsZeroIff(nak[from..to]);
    if Word(nak[from..to]) != 0 {
      var j := from;
      while j < to
        invariant from <= j <= to
        invariant out == IdsBelow(nak, 8 * j)
      {
        out := ScanByte(nak, j, out);
        j := j + 1;
      }
    } else {
      forall j | from <= j < to ensures nak[j] == 0 {
        assert nak[from..to][j - from] == 0;
      }
      ClearBitsAddNothing(nak, 8 * from, 8 * to);
    }
  }

  /** The word loop over the whole native words of the map. */
  method ScanWords(nak: seq<Byte>, words: nat, wordSize: nat, end: nat) returns (ids: set<nat>)
    requires end == words * wordSize && end <= |nak|
    ensures ids == IdsBelow(nak, 8 * end)
  {
    ids := {};
    var at := 0;
    for i := 0 to words
      invariant at == i * wordSize && at <= |nak| && ids == IdsBelow(nak, 8 * at)
    {
      MulMono(i + 1, words, wordSize);
      assert (i + 1) * wordSize == at + wordSize;
      ids := ScanWord(nak, at, at + wordSize, ids);
      at := at + wordSize;
    }
  }

  /** extract_lost_blocks_ids. wordSize is sizeof(native_uint), which is 4 or 8. Whole words are
      skipped when they are zero; the bytes of an incomplete last word are scanned one by one. */
  method ExtractLostBlocksIds(nak: seq<Byte>, wordSize: nat) returns (ids: set<nat>)
    requires wordSize == 4 || wordSize == 8
    ensures ids == PlainScan(nak)
  {
    var words, tail := |nak| / wordSize, |nak| % wordSize;
    assert words * wordSize == |nak| - tail;
    ids := ScanWords(nak, words, wordSize, |nak| - tail);
    if tail != 0 {
      var j := |nak| - tail;
      while j < |nak|
        invariant |nak| - tail <= j <= |nak|
        invariant ids == IdsBelow(nak, 8 * j)
      {
        ids := ScanByte(nak, j, ids);
        j := j + 1;
      }
    }
  }

  /** The positions of a bitset's set bits. */
  function SetBits(bits: seq<bool>): set<nat> {
    set i | 0 <= i < |bits| && bits[i]
  }

  lemma {:induction false} IdsAreSetBits(bits: seq<bool>, n: nat)
    requires n <= 8 * |PackBits(bits)| && n <= 0x1_0000
    ensures forall x :: x in IdsBelow(PackBits(bits), n) <==> 0 <= x < |bits| && x < n && bits[x]
  {
    if n > 0 {
      IdsAreSetBits(bits, n - 1);
      BitOfPacked(bits, n - 1);
      OneMoreId(PackBits(bits), n - 1);
    }
  }

  /** Below 2^16 an id is its bit's position. */
  lemma OneMoreId(nak: seq<Byte>, n: nat)
    requires n < 8 * |nak| && n < 0x1_0000
    ensures IdsBelow(nak, n + 1) == IdsBelow(nak, n) + if BitAt(nak, n) then {n} else {}
  {
  }

  /** Scanning a packed bitset of at most 2^16 bits gives exactly the positions of its set bits. */
  lemma {:induction false} ScanOfPacked(bits: seq<bool>)
    requires |bits| <= 0x1_0000
    ensures PlainScan(PackBits(bits)) == SetBits(bits)
  {
    IdsAreSetBits(bits, 8 * |PackBits(bits)|);
  }
}
