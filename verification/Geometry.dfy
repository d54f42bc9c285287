/** detail/file_transfer_base.cpp: how a file is cut into blocks and sections, and the index
    conversions between absolute block numbers and (section, block) pairs. Sender and receiver
    each compute this from the file size and the block size alone. */
module Geometry {
  import opened Common

  /** The member fields that on_file_size_learned assigns, with the sizes they came from. */
  datatype Geo = Geo(fileSize: nat, blockSize: nat, blockCount: nat,
                     sectionCount: nat, perSmall: nat, perBig: nat, bigSections: nat)

  function CeilDiv(a: nat, b: nat): nat
    requires b > 0
  {
    a / b + if a % b != 0 then 1 else 0
  }

  /** max_block_count_per_section of the session contexts. */
  function MaxPerSection(blockSize: nat): nat {
    if blockSize * 8 > 0xFFFF then 0xFFFF else blockSize * 8
  }

  /** The section count before it is stored into its 16-bit field. */
  function WideSectionCount(fileSize: nat, blockSize: nat): nat
    requires blockSize > 0
  {
    CeilDiv(CeilDiv(fileSize, blockSize), MaxPerSection(blockSize))
  }

  /** on_file_size_learned. Every field but the block count is 16 bits wide and drops the rest;
      None stands for the integer division by zero that a zero block or section count causes. */
  function Learn(fileSize: nat, blockSize: nat): Option<Geo> {
    if blockSize == 0 then None
    else Divide(fileSize, blockSize, CeilDiv(fileSize, blockSize), WideSectionCount(fileSize, blockSize))
  }

  function Divide(fileSize: nat, blockSize: nat, blockCount: nat, wideCount: nat): Option<Geo> {
    var sectionCount := wideCount % 0x1_0000;
    if sectionCount == 0 then None else
    var perSmall := (blockCount / sectionCount) % 0x1_0000;
    var perBig := (perSmall + if blockCount % sectionCount != 0 then 1 else 0) % 0x1_0000;
    var bigSections := (blockCount - perSmall * sectionCount) % 0x1_0000;
    Some(Geo(fileSize, blockSize, blockCount, sectionCount, perSmall, perBig, bigSections))
  }

  /** section_block_count */
  function SectionSize(g: Geo, sect: nat): nat {
    if sect >= g.bigSections then g.perSmall else g.perBig
  }

  /** abs_block_idx_to_sect_blk, whose results are stored into 16-bit fields. */
  function SectBlk(g: Geo, abs: nat): (nat, nat)
    requires g.perSmall > 0 && g.perBig > 0
  {
    if abs >= g.perBig * g.bigSections then
      (((abs - g.bigSections * g.perBig) / g.perSmall + g.bigSections) % 0x1_0000,
       ((abs - g.bigSections * g.perBig) % g.perSmall) % 0x1_0000)
    else
      ((abs / g.perBig) % 0x1_0000, (abs % g.perBig) % 0x1_0000)
  }

  /** sect_blk_to_abs_block_idx */
  function AbsBlk(g: Geo, sect: nat, blk: nat): nat {
    if sect >= g.bigSections then
      (sect - g.bigSections) * g.perSmall + blk + g.bigSections * g.perBig
    else
      sect * g.perBig + blk
  }

  /** The sizes of sections 0..n added up. */
  function SizesUpTo(g: Geo, n: nat): nat {
    if n == 0 then 0 else SizesUpTo(g, n - 1) + SectionSize(g, n - 1)
  }

  /** The bytes a section's NAK bitmap takes. */
  function NakMapLength(g: Geo, sect: nat): nat {
    CeilDiv(SectionSize(g, sect), 8)
  }

  /** What a geometry has to be for the transfer to work: sections that partition the blocks, whose bitmaps
      fit the body of one packet, and whose blocks can be numbered with 16 bits. */
  ghost predicate Partitions(g: Geo) {
    && SizesUpTo(g, g.sectionCount) == g.blockCount
    && (forall s :: 0 <= s < g.sectionCount ==> 0 < SectionSize(g, s) <= 8 * g.blockSize && SectionSize(g, s) <= 0xFFFF)
  }

  /** So many blocks fit into c sections of at most a block's worth of bits and 65535 blocks each. */
  predicate FitInto(blockCount: nat, blockSize: nat, c: nat) {
    blockCount <= c * (8 * blockSize) && blockCount <= c * 0xFFFF
  }

  /** The arithmetic shape of a block count shared out over sections. */
  predicate Shared(g: Geo) {
    && 0 < g.blockSize
    && 0 < g.sectionCount <= 0xFFFF
    && 0 < g.perSmall <= g.perBig <= MaxPerSection(g.blockSize)
    && g.perBig <= g.perSmall + 1
    && 0 <= g.bigSections < g.sectionCount
    && (g.bigSections > 0 ==> g.perBig == g.perSmall + 1)
    && g.perSmall * g.sectionCount + g.bigSections == g.blockCount
  }

  /** A geometry in which nothing was cut off. */
  predicate Valid(g: Geo) {
    && Shared(g)
    && 0 < g.fileSize
    && g.blockCount == CeilDiv(g.fileSize, g.blockSize)
  }

  lemma CeilDivBounds(a: nat, b: nat)
    requires b > 0
    ensures a <= CeilDiv(a, b) * b < a + b
    ensures CeilDiv(a, b) == 0 <==> a == 0
  {
    assert a == (a / b) * b + a % b;
    assert (a / b + 1) * b == (a / b) * b + b;
  }

  lemma {:induction false} SizesUpToClosed(g: Geo, n: nat)
    ensures SizesUpTo(g, n) == if n <= g.bigSections then n * g.perBig
                               else g.bigSections * g.perBig + (n - g.bigSections) * g.perSmall
  {
    if n > 0 {
      SizesUpToClosed(g, n - 1);
      if n <= g.bigSections {
        assert (n - 1) * g.perBig + g.perBig == n * g.perBig;
      } else {
        assert (n - 1 - g.bigSections) * g.perSmall + g.perSmall == (n - g.bigSections) * g.perSmall;
      }
    }
  }

  lemma {:induction false} SizesBounded(g: Geo, n: nat, most: nat)
    requires forall s :: 0 <= s < n ==> SectionSize(g, s) <= most
    ensures SizesUpTo(g, n) <= n * most
  {
    if n > 0 {
      SizesBounded(g, n - 1, most);
      assert (n - 1) * most + most == n * most;
    }
  }

  /** Sharing n blocks out over c sections of at most `most`, none of which can be spared: every
      section gets a block and none gets too many. */
  lemma BalancedShare(n: nat, most: nat, c: nat, q: nat, r: nat)
    requires n == q * c + r && r < c && 0 < most
    requires (c - 1) * most < n <= c * most
    ensures 0 < q && q + (if r != 0 then 1 else 0) <= most
  {
    MulMono(most + 1, q, c);
    MulMono(most, q, c);
    assert (most + 1) * c == most * c + c;
    assert most * c == c * most;
    MulMono(1, most, c - 1);
    assert most * (c - 1) == (c - 1) * most;
  }

  lemma FitsIff(bc: nat, blockSize: nat, c: nat)
    ensures FitInto(bc, blockSize, c) <==> bc <= c * MaxPerSection(blockSize)
  {
    var most := MaxPerSection(blockSize);
    MulMono(most, 8 * blockSize, c);
    MulMono(most, 0xFFFF, c);
    assert c * most == most * c && c * (8 * blockSize) == (8 * blockSize) * c;
  }

  /** A quotient rounded up is the least number of times the divisor has to be taken. */
  lemma CeilIsLeast(a: nat, b: nat, c: nat)
    requires b > 0
    ensures a <= c * b <==> c >= CeilDiv(a, b)
  {
    var n := CeilDiv(a, b);
    CeilDivBounds(a, b);
    if c >= n {
      MulMono(n, c, b);
    } else {
      MulMono(c, n - 1, b);
      assert (n - 1) * b == n * b - b;
    }
  }

  /** There are as few sections as there can be. */
  lemma WideCountIsLeast(fileSize: nat, blockSize: nat, c: nat)
    requires 0 < blockSize
    ensures FitInto(CeilDiv(fileSize, blockSize), blockSize, c) <==> c >= WideSectionCount(fileSize, blockSize)
  {
    FitsIff(CeilDiv(fileSize, blockSize), blockSize, c);
    CeilIsLeast(CeilDiv(fileSize, blockSize), MaxPerSection(blockSize), c);
  }

  /** A nonempty file whose section count fits its 16-bit field gets a valid geometry. */
  lemma LearnIsValid(fileSize: nat, blockSize: nat)
    requires 0 < blockSize && 0 < fileSize && WideSectionCount(fileSize, blockSize) <= 0xFFFF
    ensures Learn(fileSize, blockSize).Some? && Valid(Learn(fileSize, blockSize).value)
  {
    CeilDivBounds(fileSize, blockSize);
    CeilDivBounds(CeilDiv(fileSize, blockSize), MaxPerSection(blockSize));
    DivideIsShared(fileSize, blockSize, CeilDiv(fileSize, blockSize), WideSectionCount(fileSize, blockSize));
  }

  lemma DivideIsShared(fileSize: nat, blockSize: nat, bc: nat, sc: nat)
    requires 0 < blockSize && 0 < bc && 0 < sc <= 0xFFFF
    requires bc <= sc * MaxPerSection(blockSize) < bc + MaxPerSection(blockSize)
    ensures Divide(fileSize, blockSize, bc, sc).Some?
    ensures var g := Divide(fileSize, blockSize, bc, sc).value;
            Shared(g) && g.fileSize == fileSize && g.blockSize == blockSize && g.blockCount == bc
  {
    var most := MaxPerSection(blockSize);
    var q, r := bc / sc, bc % sc;
    assert bc == q * sc + r;
    assert (sc - 1) * most == sc * most - most;
    BalancedShare(bc, most, sc, q, r);
    DivideFields(fileSize, blockSize, bc, sc, q, r);
  }

  lemma DivideFields(fileSize: nat, blockSize: nat, bc: nat, sc: nat, q: nat, r: nat)
    requires 0 < sc <= 0xFFFF && q == bc / sc && r == bc % sc && q * sc + r == bc
    requires q + (if r != 0 then 1 else 0) <= 0xFFFF
    ensures Divide(fileSize, blockSize, bc, sc)
            == Some(Geo(fileSize, blockSize, bc, sc, q, q + (if r != 0 then 1 else 0), r))
  {
    FitsWord(sc);
    FitsWord(q);
    FitsWord(q + if r != 0 then 1 else 0);
    FitsWord(r);
    assert bc - q * sc == r;
  }

  lemma FitsWord(x: nat)
    requires x <= 0xFFFF
    ensures x % 0x1_0000 == x
  {
  }

  /** The exact condition under which the computed sections partition the file's blocks and their
      bitmaps fit: the file is not empty and the section count was not cut off. */
  lemma LearnPartitionsIff(fileSize: nat, blockSize: nat)
    requires 0 < blockSize
    ensures (Learn(fileSize, blockSize).Some? && Partitions(Learn(fileSize, blockSize).value))
            <==> (0 < fileSize && WideSectionCount(fileSize, blockSize) <= 0xFFFF)
  {
    if 0 < fileSize && WideSectionCount(fileSize, blockSize) <= 0xFFFF {
      LearnIsValid(fileSize, blockSize);
      ValidPartitions(Learn(fileSize, blockSize).value);
    } else {
      CeilDivBounds(fileSize, blockSize);
      CeilDivBounds(CeilDiv(fileSize, blockSize), MaxPerSection(blockSize));
      if Learn(fileSize, blockSize).Some? {
        var bc, wide := CeilDiv(fileSize, blockSize), WideSectionCount(fileSize, blockSize);
        CutOffDoesNotPartition(fileSize, blockSize, bc, wide);
      }
    }
  }

  lemma TooFewSections(g: Geo, wide: nat)
    requires g.sectionCount < wide && (wide - 1) * MaxPerSection(g.blockSize) < g.blockCount
    ensures !Partitions(g)
  {
    if Partitions(g) {
      SizesBounded(g, g.sectionCount, MaxPerSection(g.blockSize));
      MulMono(g.sectionCount, wide - 1, MaxPerSection(g.blockSize));
    }
  }

  lemma CutOffDoesNotPartition(fileSize: nat, blockSize: nat, bc: nat, wide: nat)
    requires Divide(fileSize, blockSize, bc, wide).Some? && wide > 0xFFFF
    requires wide * MaxPerSection(blockSize) < bc + MaxPerSection(blockSize)
    ensures !Partitions(Divide(fileSize, blockSize, bc, wide).value)
  {
    var most := MaxPerSection(blockSize);
    assert (wide - 1) * most == wide * most - most;
    DivideKeepsInputs(fileSize, blockSize, bc, wide);
    TooFewSections(Divide(fileSize, blockSize, bc, wide).value, wide);
  }

  lemma DivideKeepsInputs(fileSize: nat, blockSize: nat, bc: nat, wide: nat)
    requires Divide(fileSize, blockSize, bc, wide).Some?
    ensures var g := Divide(fileSize, blockSize, bc, wide).value;
            g.blockSize == blockSize && g.blockCount == bc && g.sectionCount == wide % 0x1_0000
  {
  }

  /** Such a file has as few blocks as can hold it, in as few sections as can hold them, as equal in size as
      they can be with the larger ones first. */
  lemma LearnIsTight(fileSize: nat, blockSize: nat)
    requires 0 < blockSize && 0 < fileSize && WideSectionCount(fileSize, blockSize) <= 0xFFFF
    ensures Learn(fileSize, blockSize).Some?
    ensures var g := Learn(fileSize, blockSize).value;
            && Partitions(g) && g.fileSize == fileSize && g.blockSize == blockSize
            && (g.blockCount - 1) * blockSize < fileSize <= g.blockCount * blockSize
            && (forall c :: 0 <= c < g.sectionCount ==>
                  g.blockCount > c * (8 * blockSize) || g.blockCount > c * 0xFFFF)
            && (forall s, t :: 0 <= s <= t < g.sectionCount ==>
                  SectionSize(g, t) <= SectionSize(g, s) <= SectionSize(g, t) + 1)
  {
    LearnIsValid(fileSize, blockSize);
    var bc, sc := CeilDiv(fileSize, blockSize), WideSectionCount(fileSize, blockSize);
    ValidPartitions(Learn(fileSize, blockSize).value);
    FitsWord(sc);
    DivideKeepsInputs(fileSize, blockSize, bc, sc);
    BlocksAreFewest(fileSize, blockSize);
    SectionsAreFewest(fileSize, blockSize);
  }

  lemma BlocksAreFewest(fileSize: nat, blockSize: nat)
    requires 0 < blockSize
    ensures (CeilDiv(fileSize, blockSize) - 1) * blockSize < fileSize <= CeilDiv(fileSize, blockSize) * blockSize
  {
    CeilDivBounds(fileSize, blockSize);
    var bc := CeilDiv(fileSize, blockSize);
    assert (bc - 1) * blockSize == bc * blockSize - blockSize;
  }

  lemma SectionsAreFewest(fileSize: nat, blockSize: nat)
    requires 0 < blockSize
    ensures forall c :: 0 <= c < WideSectionCount(fileSize, blockSize) ==>
              CeilDiv(fileSize, blockSize) > c * (8 * blockSize) || CeilDiv(fileSize, blockSize) > c * 0xFFFF
  {
    forall c | 0 <= c < WideSectionCount(fileSize, blockSize)
      ensures CeilDiv(fileSize, blockSize) > c * (8 * blockSize) || CeilDiv(fileSize, blockSize) > c * 0xFFFF
    {
      WideCountIsLeast(fileSize, blockSize, c);
    }
  }

  /** Section sizes add up to the block count, are positive and balanced to within one block, and
      every section's bitmap fits in one block's worth of bytes. */
  lemma ValidPartitions(g: Geo)
    requires Valid(g)
    ensures Partitions(g)
    ensures forall s, t :: 0 <= s < g.sectionCount && 0 <= t < g.sectionCount
                           ==> SectionSize(g, s) <= SectionSize(g, t) + 1
    ensures forall s :: 0 <= s < g.sectionCount ==> NakMapLength(g, s) <= g.blockSize
  {
    SizesUpToClosed(g, g.sectionCount);
    TotalIsBlockCount(g);
    forall s | 0 <= s < g.sectionCount
      ensures NakMapLength(g, s) <= g.blockSize
    {
    }
  }

  /** The big sections and then the small ones hold all the blocks. */
  lemma TotalIsBlockCount(g: Geo)
    requires Valid(g)
    ensures g.bigSections * g.perBig + (g.sectionCount - g.bigSections) * g.perSmall == g.blockCount
  {
    var k, n, p := g.bigSections, g.sectionCount, g.perSmall;
    assert k * g.perBig == k * p + k by {
      if k > 0 {
        assert k * (p + 1) == k * p + k;
      }
    }
    assert (n - k) * p == n * p - k * p;
    assert n * p == p * n;
  }

  /** A number below n * d splits into a quotient below n and a remainder. */
  lemma Split(x: nat, n: nat, d: nat) returns (q: nat, r: nat)
    requires 0 < d && x < n * d
    ensures q < n && r < d && x == q * d + r
  {
    q, r := x / d, x % d;
    MulMono(n, q, d);
  }

  /** A pair below (n, d) has a mixed-radix number below n * d. */
  lemma MixedBelow(q: nat, r: nat, n: nat, d: nat)
    requires q < n && r < d
    ensures q * d + r < n * d
  {
    MulMono(q + 1, n, d);
    assert (q + 1) * d == q * d + d;
  }

  /** Where the small sections begin. */
  function BigTotal(g: Geo): nat {
    g.bigSections * g.perBig
  }

  lemma PairRoundTripSmall(g: Geo, s: nat, b: nat, q: nat)
    requires g.perSmall > 0 && g.perBig > 0 && s == q + g.bigSections && b < g.perSmall
    requires s <= 0xFFFF && g.perSmall <= 0xFFFF
    ensures SectBlk(g, AbsBlk(g, s, b)) == (s, b)
  {
    assert g.bigSections * g.perBig == g.perBig * g.bigSections;
    DivModOf(q * g.perSmall + b, q, g.perSmall, b);
  }

  lemma PairRoundTripBig(g: Geo, s: nat, b: nat)
    requires g.perSmall > 0 && g.perBig > 0 && s < g.bigSections && b < g.perBig
    requires s <= 0xFFFF && g.perBig <= 0xFFFF
    ensures SectBlk(g, AbsBlk(g, s, b)) == (s, b)
  {
    assert g.bigSections * g.perBig == g.perBig * g.bigSections;
    MixedBelow(s, b, g.bigSections, g.perBig);
    DivModOf(s * g.perBig + b, s, g.perBig, b);
  }

  /** A pair that names a block has an absolute index below the block count. */
  lemma AbsBelow(g: Geo, s: nat, b: nat)
    requires Valid(g) && s < g.sectionCount && b < SectionSize(g, s)
    ensures AbsBlk(g, s, b) < g.blockCount
  {
    TotalIsBlockCount(g);
    if s >= g.bigSections {
      MixedBelow(s - g.bigSections, b, g.sectionCount - g.bigSections, g.perSmall);
    } else {
      MixedBelow(s, b, g.bigSections, g.perBig);
      MulMono(0, g.sectionCount - g.bigSections, g.perSmall);
    }
  }

  /** Converting a pair that names a block to its absolute index and back gives the pair. */
  lemma PairRoundTrip(g: Geo, s: nat, b: nat)
    requires Valid(g) && s < g.sectionCount && b < SectionSize(g, s)
    ensures AbsBlk(g, s, b) < g.blockCount
    ensures SectBlk(g, AbsBlk(g, s, b)) == (s, b)
  {
    AbsBelow(g, s, b);
    if s >= g.bigSections {
      PairRoundTripSmall(g, s, b, s - g.bigSections);
    } else {
      PairRoundTripBig(g, s, b);
    }
  }

  /** Every index below the block count is the absolute index of some block. */
  lemma AbsOfSomePair(g: Geo, abs: nat) returns (s: nat, b: nat)
    requires Valid(g) && abs < g.blockCount
    ensures s < g.sectionCount && b < SectionSize(g, s) && AbsBlk(g, s, b) == abs
  {
    TotalIsBlockCount(g);
    if abs >= BigTotal(g) {
      var q;
      q, b := Split(abs - BigTotal(g), g.sectionCount - g.bigSections, g.perSmall);
      s := q + g.bigSections;
    } else {
      s, b := Split(abs, g.bigSections, g.perBig);
    }
  }

  /** Converting an absolute index to a pair and back gives the index; the pair names a block. */
  lemma AbsRoundTrip(g: Geo, abs: nat)
    requires Valid(g) && abs < g.blockCount
    ensures var (s, b) := SectBlk(g, abs);
            s < g.sectionCount && b < SectionSize(g, s) && AbsBlk(g, s, b) == abs
  {
    var s, b := AbsOfSomePair(g, abs);
    PairRoundTrip(g, s, b);
  }

  /** A section starts where the sections before it end. */
  lemma AbsIsOffset(g: Geo, s: nat, b: nat)
    ensures AbsBlk(g, s, b) == SizesUpTo(g, s) + b
  {
    SizesUpToClosed(g, s);
  }

  lemma {:induction false} SizesGrow(g: Geo, s: nat, t: nat)
    requires s < t
    ensures SizesUpTo(g, s) + SectionSize(g, s) <= SizesUpTo(g, t)
  {
    if s + 1 < t {
      SizesGrow(g, s, t - 1);
    }
  }

  /** Absolute order is the lexicographic order of (section, block). */
  lemma AbsOrderIsLexicographic(g: Geo, s: nat, b: nat, t: nat, c: nat)
    requires Valid(g)
    requires s < g.sectionCount && b < SectionSize(g, s)
    requires t < g.sectionCount && c < SectionSize(g, t)
    ensures AbsBlk(g, s, b) < AbsBlk(g, t, c) <==> s < t || (s == t && b < c)
  {
    AbsIsOffset(g, s, b);
    AbsIsOffset(g, t, c);
    if s < t {
      SizesGrow(g, s, t);
    } else if t < s {
      SizesGrow(g, t, s);
    }
  }

  /** Where a block's bytes begin in the file. */
  function Offset(g: Geo, abs: nat): nat {
    abs * g.blockSize
  }

  /** How many bytes the block holds: block_size, except perhaps for the last one. */
  function BlockLength(g: Geo, abs: nat): (n: int) {
    if Offset(g, abs) + g.blockSize <= g.fileSize then g.blockSize else g.fileSize - Offset(g, abs)
  }

  /** Blocks are nonempty, lie inside the file, and their ends meet. */
  lemma BlocksTile(g: Geo, abs: nat)
    requires Valid(g) && abs < g.blockCount
    ensures 0 < BlockLength(g, abs) <= g.blockSize
    ensures Offset(g, abs) + BlockLength(g, abs) <= g.fileSize
    ensures abs + 1 < g.blockCount ==> Offset(g, abs) + BlockLength(g, abs) == Offset(g, abs + 1)
    ensures abs + 1 == g.blockCount ==> Offset(g, abs) + BlockLength(g, abs) == g.fileSize
  {
    CeilDivBounds(g.fileSize, g.blockSize);
    assert (abs + 1) * g.blockSize == abs * g.blockSize + g.blockSize;
    MulMono(abs + 1, g.blockCount, g.blockSize);
    assert g.blockCount * g.blockSize - g.blockSize == (g.blockCount - 1) * g.blockSize;
    MulMono(abs, g.blockCount - 1, g.blockSize);
    if abs + 1 < g.blockCount {
      MulMono(abs + 1, g.blockCount - 1, g.blockSize);
    }
  }

  /** Every byte of the file lies in exactly the block its position divides into. */
  lemma ByteHasBlock(g: Geo, pos: nat) returns (abs: nat)
    requires Valid(g) && pos < g.fileSize
    ensures abs < g.blockCount && Offset(g, abs) <= pos < Offset(g, abs) + BlockLength(g, abs)
  {
    CeilDivBounds(g.fileSize, g.blockSize);
    var r;
    abs, r := Split(pos, g.blockCount, g.blockSize);
  }
}
