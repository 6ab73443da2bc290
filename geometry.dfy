/**
 * The nRF52 RAM geometry that `ram_range_retain` walks.
 *
 * RAM (the AHB slaves behind `sram0`) is split into blocks, one POWER
 * RAM[x] register each. Blocks 0..7 each hold two small sections of 4 KiB,
 * 64 KiB in all; from LARGE_SECTION_BEGIN on, block 8 and the blocks after
 * it hold large sections of 32 KiB, up to 16 per block. A section is the
 * unit whose retention in System OFF can be switched.
 *
 * Addresses are mathematical naturals. The start of RAM is a parameter,
 * assumed 32 KiB aligned: the walk advances with the absolute
 * `addr % section_size`, which lands on section boundaries only then.
 */
module Geometry {

  /** Size of a section in the small blocks. */
  const SmallSectionSize: nat := 4096
  /** Sections in each small block. */
  const SmallSectionsPerBlock: nat := 2
  /** Span of a small block. */
  const SmallBlockSize: nat := SmallSectionsPerBlock * SmallSectionSize
  /** Number of small blocks. */
  const SmallBlockCount: nat := 8
  /** Number of small sections, all blocks together. */
  const SmallSectionCount: nat := SmallBlockCount * SmallSectionsPerBlock
  /** Span covered by the small sections: 8 blocks of 2 sections of 4 KiB. */
  const SmallSectionSpan: nat := SmallBlockCount * SmallBlockSize
  /** Size of a section in the large blocks. */
  const LargeSectionSize: nat := 32768
  /** Sections in each large block: RAM[x] has room for 16. */
  const LargeSectionsPerBlock: nat := 16
  /** The first large block. */
  const FirstLargeBlock: nat := 8

  /** The RAM of the device: start address and size, as the devicetree gives them. */
  datatype Sram = Sram(begin: nat, size: nat)

  /** The start of RAM is on a large-section boundary. */
  predicate Aligned(g: Sram) {
    g.begin % LargeSectionSize == 0
  }

  /** Exclusive end of RAM (SRAM_END). */
  function End(g: Sram): nat {
    g.begin + g.size
  }

  /** First address covered by large sections (LARGE_SECTION_BEGIN). */
  function LargeBegin(g: Sram): nat {
    g.begin + SmallSectionSpan
  }

  /** Where an address sits: its block (the RAM[x] register), the section
      inside that block, and the size of its section. */
  datatype Location = Location(block: nat, section: nat, size: nat)

  /** Sections per block for a section of the given size. */
  function PerBlock(size: nat): nat {
    if size == SmallSectionSize then SmallSectionsPerBlock else LargeSectionsPerBlock
  }

  /**
   * The body of the walk: the block, section and section size of `addr`.
   * A section number past the end of its block carries into the block
   * number.
   */
  function Locate(g: Sram, addr: nat): (loc: Location)
    requires g.begin <= addr
    ensures addr < LargeBegin(g) ==>
              var s := (addr - g.begin) / SmallSectionSize;
              loc == Location(s / SmallSectionsPerBlock, s % SmallSectionsPerBlock, SmallSectionSize)
              && loc.block < SmallBlockCount
    ensures addr >= LargeBegin(g) ==>
              var s := (addr - LargeBegin(g)) / LargeSectionSize;
              loc == Location(FirstLargeBlock + s / LargeSectionsPerBlock, s % LargeSectionsPerBlock, LargeSectionSize)
              && loc.block >= FirstLargeBlock
    ensures loc.section < PerBlock(loc.size)
  {
    var large := addr >= LargeBegin(g);
    var base := if large then LargeBegin(g) else g.begin;
    var size := if large then LargeSectionSize else SmallSectionSize;
    var perBlock := if large then LargeSectionsPerBlock else SmallSectionsPerBlock;
    var block := if large then FirstLargeBlock else 0;
    var section := (addr - base) / size;
    if section >= perBlock then
      Location(block + section / perBlock, section % perBlock, size)
    else
      Location(block, section, size)
  }

  /** The first address of the section after the one holding `addr`. */
  function Advance(g: Sram, addr: nat): (next: nat)
    requires g.begin <= addr
    ensures addr < next
  {
    var size := Locate(g, addr).size;
    addr + size - addr % size
  }

  /**
   * The locations the do-while loop of `ram_range_retain` visits for the
   * range `[addr, end)`: the one of `addr`, then, while the next section
   * starts below `end`, those from there on.
   */
  function Walk(g: Sram, addr: nat, end: nat): (w: seq<Location>)
    requires g.begin <= addr
    decreases end - addr
  {
    var next := Advance(g, addr);
    [Locate(g, addr)] + if next < end then Walk(g, next, end) else []
  }

  /* ---------------------------------------------------------------------
   * Sections in address order
   * ------------------------------------------------------------------- */

  /** The number of the section holding `addr`, counting from the start of
      RAM across both kinds of section. */
  function Index(g: Sram, addr: nat): nat
    requires g.begin <= addr
  {
    if addr < LargeBegin(g) then (addr - g.begin) / SmallSectionSize
    else SmallSectionCount + (addr - LargeBegin(g)) / LargeSectionSize
  }

  /** The same number read back from a location. */
  function Ordinal(loc: Location): int {
    if loc.size == SmallSectionSize then loc.block * SmallSectionsPerBlock + loc.section
    else SmallSectionCount + (loc.block - FirstLargeBlock) * LargeSectionsPerBlock + loc.section
  }

  lemma OrdinalOfLocate(g: Sram, addr: nat)
    requires g.begin <= addr
    ensures Ordinal(Locate(g, addr)) == Index(g, addr)
  {
  }

  /** Two addresses share a location exactly when they share a section. */
  lemma LocateIffIndex(g: Sram, a: nat, b: nat)
    requires g.begin <= a && g.begin <= b
    ensures Locate(g, a) == Locate(g, b) <==> Index(g, a) == Index(g, b)
  {
    OrdinalOfLocate(g, a);
    OrdinalOfLocate(g, b);
  }

  lemma AdvanceSmall(g: Sram, addr: nat)
    requires Aligned(g) && g.begin <= addr < LargeBegin(g)
    ensures Advance(g, addr) <= LargeBegin(g)
    ensures Index(g, Advance(g, addr)) == Index(g, addr) + 1
    ensures Index(g, Advance(g, addr) - 1) == Index(g, addr)
  {
    assert g.begin % SmallSectionSize == 0;
    var q := (addr - g.begin) / SmallSectionSize;
    assert Advance(g, addr) == g.begin + SmallSectionSize * (q + 1);
  }

  lemma AdvanceLarge(g: Sram, addr: nat)
    requires Aligned(g) && LargeBegin(g) <= addr
    ensures Index(g, Advance(g, addr)) == Index(g, addr) + 1
    ensures Index(g, Advance(g, addr) - 1) == Index(g, addr)
  {
    var q := (addr - LargeBegin(g)) / LargeSectionSize;
    assert Advance(g, addr) == LargeBegin(g) + LargeSectionSize * (q + 1);
  }

  /** `Advance` lands on the first address of the very next section, and it
      crosses from small to large sections exactly at LARGE_SECTION_BEGIN. */
  lemma AdvanceToNextSection(g: Sram, addr: nat)
    requires Aligned(g) && g.begin <= addr
    ensures Index(g, Advance(g, addr)) == Index(g, addr) + 1
    ensures Index(g, Advance(g, addr) - 1) == Index(g, addr)
    ensures addr < LargeBegin(g) ==> Advance(g, addr) <= LargeBegin(g)
  {
    if addr < LargeBegin(g) {
      AdvanceSmall(g, addr);
    } else {
      AdvanceLarge(g, addr);
    }
  }

  /** Section numbers never decrease with the address. */
  lemma IndexMonotone(g: Sram, a: nat, b: nat)
    requires g.begin <= a <= b
    ensures Index(g, a) <= Index(g, b)
  {
  }

  /** Every address from `addr` up to, but excluding, `Advance(g, addr)` lies
      in the section of `addr`. */
  lemma SameSection(g: Sram, addr: nat, b: nat)
    requires Aligned(g) && g.begin <= addr <= b < Advance(g, addr)
    ensures Index(g, b) == Index(g, addr)
  {
    AdvanceToNextSection(g, addr);
    IndexMonotone(g, addr, b);
    IndexMonotone(g, b, Advance(g, addr) - 1);
  }

  /** Every address at or past `Advance(g, addr)` lies in a later section. */
  lemma LaterSection(g: Sram, addr: nat, b: nat)
    requires Aligned(g) && g.begin <= addr && Advance(g, addr) <= b
    ensures Index(g, b) > Index(g, addr)
  {
    AdvanceToNextSection(g, addr);
    IndexMonotone(g, Advance(g, addr), b);
  }

  /* ---------------------------------------------------------------------
   * The walk covers every overlapped section exactly once
   * ------------------------------------------------------------------- */

  /** Everything the walk visits is the location of an address of the range. */
  lemma {:induction false} WalkSound(g: Sram, addr: nat, end: nat, i: nat)
    requires g.begin <= addr < end && i < |Walk(g, addr, end)|
    ensures exists a :: addr <= a < end && Locate(g, a) == Walk(g, addr, end)[i]
    decreases end - addr
  {
    if i > 0 {
      var next := Advance(g, addr);
      WalkSound(g, next, end, i - 1);
      var a :| next <= a < end && Locate(g, a) == Walk(g, next, end)[i - 1];
    }
  }

  /** The walk visits the location of every address of the range, the
      partly covered first and last sections included. */
  lemma {:induction false} WalkComplete(g: Sram, addr: nat, end: nat, a: nat)
    requires Aligned(g) && g.begin <= addr <= a < end
    ensures Locate(g, a) in Walk(g, addr, end)
    decreases end - addr
  {
    var next := Advance(g, addr);
    if a < next {
      SameSection(g, addr, a);
      LocateIffIndex(g, addr, a);
    } else {
      WalkComplete(g, next, end, a);
    }
  }

  /** The walk only moves forward: every location it visits is at or past
      the section of its start. */
  lemma {:induction false} WalkFrom(g: Sram, addr: nat, end: nat, i: nat)
    requires Aligned(g) && g.begin <= addr && i < |Walk(g, addr, end)|
    ensures Ordinal(Walk(g, addr, end)[i]) >= Index(g, addr) + i
    decreases end - addr
  {
    OrdinalOfLocate(g, addr);
    if i > 0 {
      var next := Advance(g, addr);
      AdvanceToNextSection(g, addr);
      WalkFrom(g, next, end, i - 1);
    }
  }

  /** The sections are visited in strictly increasing order, so none twice. */
  lemma {:induction false} WalkIncreasing(g: Sram, addr: nat, end: nat, i: nat, j: nat)
    requires Aligned(g) && g.begin <= addr && i < j < |Walk(g, addr, end)|
    ensures Ordinal(Walk(g, addr, end)[i]) < Ordinal(Walk(g, addr, end)[j])
    decreases end - addr
  {
    var next := Advance(g, addr);
    AdvanceToNextSection(g, addr);
    if i == 0 {
      OrdinalOfLocate(g, addr);
      WalkFrom(g, next, end, j - 1);
    } else {
      WalkIncreasing(g, next, end, i - 1, j - 1);
    }
  }

  lemma WalkDistinct(g: Sram, addr: nat, end: nat, i: nat, j: nat)
    requires Aligned(g) && g.begin <= addr && i < j < |Walk(g, addr, end)|
    ensures Walk(g, addr, end)[i] != Walk(g, addr, end)[j]
  {
    WalkIncreasing(g, addr, end, i, j);
  }

  /** The walk names section `s` of block `b` exactly when some address of
      the range lies in that section. */
  lemma WalkNamesExactly(g: Sram, addr: nat, end: nat, b: nat, s: nat)
    requires Aligned(g) && g.begin <= addr < end
    ensures (exists k :: 0 <= k < |Walk(g, addr, end)| && Walk(g, addr, end)[k].block == b && Walk(g, addr, end)[k].section == s)
            <==> exists a :: addr <= a < end && Locate(g, a).block == b && Locate(g, a).section == s
  {
    var w := Walk(g, addr, end);
    if exists k :: 0 <= k < |w| && w[k].block == b && w[k].section == s {
      var k :| 0 <= k < |w| && w[k].block == b && w[k].section == s;
      WalkSound(g, addr, end, k);
    }
    if exists a :: addr <= a < end && Locate(g, a).block == b && Locate(g, a).section == s {
      var a :| addr <= a < end && Locate(g, a).block == b && Locate(g, a).section == s;
      WalkComplete(g, addr, end, a);
      var k :| 0 <= k < |w| && w[k] == Locate(g, a);
    }
  }

  /**
   * Why the walk lemmas need an aligned start of RAM: with RAM at
   * 0x2000_1000 the advance from 0x2001_1000 stops at the 32 KiB boundary
   * 0x2001_8000, inside the same section, which is then visited twice.
   */
  lemma UnalignedVisitsTwice()
    ensures Walk(Sram(0x2000_1000, 0x4_0000), 0x2001_1000, 0x2001_9000)
            == [Location(8, 0, LargeSectionSize), Location(8, 0, LargeSectionSize)]
  {
    var g := Sram(0x2000_1000, 0x4_0000);
    assert Advance(g, 0x2001_1000) == 0x2001_8000;
    assert Advance(g, 0x2001_8000) == 0x2002_0000;
  }

  /* ---------------------------------------------------------------------
   * Bounds
   * ------------------------------------------------------------------- */

  /** Blocks never decrease with the address. */
  lemma LocateBlockMonotone(g: Sram, a: nat, b: nat)
    requires g.begin <= a <= b
    ensures Locate(g, a).block <= Locate(g, b).block
  {
  }

  /** The highest block of RAM: the block of its last byte. */
  function TopBlock(g: Sram): (top: nat)
    requires g.size > 0
    ensures top >= FirstLargeBlock <==> g.size > SmallSectionSpan
  {
    Locate(g, End(g) - 1).block
  }

  /** Walking a range inside RAM touches only blocks up to `TopBlock` and
      sections that exist in their block. */
  lemma WalkInBounds(g: Sram, addr: nat, end: nat, i: nat)
    requires g.begin <= addr < end <= End(g) && i < |Walk(g, addr, end)|
    ensures Walk(g, addr, end)[i].block <= TopBlock(g)
    ensures Walk(g, addr, end)[i].section < PerBlock(Walk(g, addr, end)[i].size)
  {
    WalkSound(g, addr, end, i);
    var a :| addr <= a < end && Locate(g, a) == Walk(g, addr, end)[i];
    LocateBlockMonotone(g, a, End(g) - 1);
  }
}
