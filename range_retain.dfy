/**
 * `ram_range_retain`: switch System OFF retention on or off for every RAM
 * section that overlaps the range `[addr, addr + len)`.
 *
 * The range is first checked to be non-empty and inside RAM; then a
 * do-while loop visits one section per turn, writes its retention bit into
 * the register of its block, and moves the cursor to the first address of
 * the next section.
 */
module RangeRetention {
  import opened Geometry
  import opened Power

  /** Zephyr's EINVAL; the function returns its negation. */
  const EINVAL: int := 22

  /** The range `[addr, addr + len)` is non-empty and lies inside RAM. */
  predicate InRange(g: Sram, addr: nat, len: nat) {
    len > 0 && g.begin <= addr && addr + len <= End(g)
  }

  /** `a` is an address of RAM. */
  predicate InRam(g: Sram, a: nat) {
    g.begin <= a < End(g)
  }

  /** `InRange` says what the guard's comment asks: the range is non-empty
      and every address of it lies in RAM. */
  lemma InRangeIff(g: Sram, addr: nat, len: nat)
    ensures InRange(g, addr, len) <==> len > 0 && forall a :: addr <= a < addr + len ==> InRam(g, a)
  {
    if len > 0 && forall a :: addr <= a < addr + len ==> InRam(g, a) {
      assert InRam(g, addr) && InRam(g, addr + len - 1);
    }
  }

  /* ---------------------------------------------------------------------
   * The guard in 32-bit arithmetic
   * ------------------------------------------------------------------- */

  /** Values of `uintptr_t` and `size_t` on the nRF52: below 2^32. */
  const WordModulus: nat := 0x1_0000_0000

  /**
   * The guard as the C code evaluates it: `SRAM_END - len` is computed in
   * `uintptr_t`, so it wraps around when `len` exceeds `SRAM_END`.
   */
  predicate RejectsAsWritten(g: Sram, addr: nat, len: nat)
    requires End(g) < WordModulus && addr < WordModulus && len < WordModulus
  {
    len == 0 || addr < g.begin || addr > (End(g) - len) % WordModulus
  }

  /** While `len` is at most `SRAM_END` the 32-bit guard rejects exactly the
      ranges that are not inside RAM. */
  lemma RejectsAsWrittenWhenNoWrap(g: Sram, addr: nat, len: nat)
    requires End(g) < WordModulus && addr < WordModulus && len < WordModulus
    requires len <= End(g)
    ensures RejectsAsWritten(g, addr, len) <==> !InRange(g, addr, len)
  {
  }

  /**
   * A length past `SRAM_END` slips through: with 256 KiB of RAM at
   * 0x2000_0000, the range of 0xFFFF_FFFF bytes from the start of RAM is not
   * inside RAM, yet the 32-bit guard lets it through.
   */
  lemma RejectsAsWrittenMissesHugeLength()
    ensures var g := Sram(0x2000_0000, 0x4_0000);
            !RejectsAsWritten(g, 0x2000_0000, 0xFFFF_FFFF) && !InRange(g, 0x2000_0000, 0xFFFF_FFFF)
  {
  }

  /** The POWER peripheral has a RAM[x] register for every block of RAM. */
  predicate Covers(g: Sram, power: PowerRam)
    reads power
  {
    g.size > 0 && TopBlock(g) < power.ram.Length
  }

  /** Every location of a walk inside RAM names an existing register and bit. */
  lemma WalkFits(g: Sram, addr: nat, end: nat, blocks: nat)
    requires g.size > 0 && g.begin <= addr < end <= End(g) && TopBlock(g) < blocks
    ensures Fits(Walk(g, addr, end), blocks)
  {
    var w := Walk(g, addr, end);
    forall k | 0 <= k < |w|
      ensures w[k].block < blocks && w[k].section < LargeSectionsPerBlock
    {
      WalkInBounds(g, addr, end, k);
    }
  }

  /** The registers after a successful call over `[addr, addr + len)`. */
  function RangeRegisters(g: Sram, regs: seq<bv32>, addr: nat, len: nat, enable: bool): (out: seq<bv32>)
    requires g.size > 0 && TopBlock(g) < |regs| && InRange(g, addr, len)
    ensures |out| == |regs|
  {
    WalkFits(g, addr, addr + len, |regs|);
    RetainAll(regs, Walk(g, addr, addr + len), enable)
  }

  /** The walk from `cursor` is its first location, then the walk from the
      next section if that still starts inside the range. */
  lemma WalkStep(g: Sram, regs: seq<bv32>, cursor: nat, end: nat, enable: bool)
    requires g.begin <= cursor && Fits(Walk(g, cursor, end), |regs|)
    ensures var w := Walk(g, cursor, end);
            var next := Advance(g, cursor);
            w[0] == Locate(g, cursor)
            && (next < end ==> Fits(Walk(g, next, end), |regs|))
            && RetainAll(regs, w, enable)
               == if next < end then RetainAll(Retain(regs, w[0], enable), Walk(g, next, end), enable)
                  else Retain(regs, w[0], enable)
  {
    var w := Walk(g, cursor, end);
    var next := Advance(g, cursor);
    assert w[1..] == if next < end then Walk(g, next, end) else [];
    if next < end {
      forall k | 0 <= k < |w[1..]|
        ensures w[1..][k] == w[k + 1]
      {
      }
    }
  }

  /**
   * One turn of the do-while loop: locate the section of `cursor`, set or
   * clear its retention bit, and return the first address of the next
   * section.
   */
  method RetainSection(g: Sram, power: PowerRam, cursor: nat, enable: bool) returns (next: nat)
    requires g.begin <= cursor
    requires Locate(g, cursor).block < power.ram.Length
    modifies power.ram
    ensures next == Advance(g, cursor)
    ensures power.ram[..] == Retain(old(power.ram[..]), Locate(g, cursor), enable)
  {
    var large := cursor >= LargeBegin(g);
    var base := if large then LargeBegin(g) else g.begin;
    var size := if large then LargeSectionSize else SmallSectionSize;
    var perBlock := if large then LargeSectionsPerBlock else SmallSectionsPerBlock;
    var block := if large then FirstLargeBlock else 0;
    var section := (cursor - base) / size;
    if section >= perBlock {
      block := block + section / perBlock;
      section := section % perBlock;
    }
    assert Location(block, section, size) == Locate(g, cursor);
    var mask := RetentionMask(section);
    if enable {
      power.MaskOn(block, mask);
    } else {
      power.MaskOff(block, mask);
    }
    next := cursor + size - cursor % size;
  }

  /**
   * The do-while loop over `[addr, end)`: one turn per section, until the
   * next section starts at or past `end`.
   */
  method Sweep(g: Sram, power: PowerRam, addr: nat, end: nat, enable: bool)
    requires g.size > 0 && g.begin <= addr < end <= End(g) && TopBlock(g) < power.ram.Length
    modifies power.ram
    ensures Fits(Walk(g, addr, end), power.ram.Length)
    ensures power.ram[..] == RetainAll(old(power.ram[..]), Walk(g, addr, end), enable)
  {
    var cursor := addr;
    WalkFits(g, addr, end, power.ram.Length);
    while true
      invariant g.begin <= cursor < end
      invariant Fits(Walk(g, cursor, end), power.ram.Length)
      invariant RetainAll(old(power.ram[..]), Walk(g, addr, end), enable)
                == RetainAll(power.ram[..], Walk(g, cursor, end), enable)
      decreases end - cursor
    {
      WalkStep(g, power.ram[..], cursor, end, enable);
      cursor := RetainSection(g, power, cursor, enable);
      if cursor >= end {
        break;
      }
    }
  }

  /**
   * The whole function. Out of range it returns `-EINVAL` and writes no
   * register; otherwise it returns 0 and the registers are those after one
   * `Retain` per location of `Walk`, in order.
   */
  method RangeRetain(g: Sram, power: PowerRam, addr: nat, len: nat, enable: bool) returns (rc: int)
    requires Covers(g, power)
    modifies power.ram
    ensures !InRange(g, addr, len) ==> rc == -EINVAL && power.ram[..] == old(power.ram[..])
    ensures InRange(g, addr, len) ==>
              rc == 0 && power.ram[..] == RangeRegisters(g, old(power.ram[..]), addr, len, enable)
  {
    var end := addr + len;
    if len == 0 || addr < g.begin || addr > End(g) - len {
      assert !InRange(g, addr, len);
      return -EINVAL;
    }
    assert InRange(g, addr, len);
    Sweep(g, power, addr, end, enable);
    return 0;
  }

  /* ---------------------------------------------------------------------
   * What a successful call does to the registers
   * ------------------------------------------------------------------- */

  /**
   * After a successful call, block `b` has ORed in (`enable`) or cleared
   * the bits `Touched` that the walk names in it.
   */
  lemma RangeRegistersAt(g: Sram, regs: seq<bv32>, addr: nat, len: nat, enable: bool, b: nat)
    requires g.size > 0 && TopBlock(g) < |regs| && InRange(g, addr, len) && b < |regs|
    ensures Fits(Walk(g, addr, addr + len), |regs|)
    ensures RangeRegisters(g, regs, addr, len, enable)[b]
            == SetOrClear(regs[b], Touched(Walk(g, addr, addr + len), b), enable)
  {
    WalkFits(g, addr, addr + len, |regs|);
    RetainAllEffect(regs, Walk(g, addr, addr + len), enable, b);
  }

  /**
   * The bits a call writes into block `b`: the retention bit of section `s`
   * is among them exactly when some address of the range lies in section
   * `s` of block `b`, and no power bit (0..15) is.
   */
  lemma RangeBits(g: Sram, addr: nat, len: nat, b: nat, s: nat)
    requires Aligned(g) && InRange(g, addr, len) && s < LargeSectionsPerBlock
    ensures SectionsFit(Walk(g, addr, addr + len))
    ensures Touched(Walk(g, addr, addr + len), b) & 0xFFFF == 0
    ensures Touched(Walk(g, addr, addr + len), b) & RetentionMask(s) != 0
            <==> exists a :: addr <= a < addr + len && Locate(g, a).block == b && Locate(g, a).section == s
  {
    var w := Walk(g, addr, addr + len);
    WalkFits(g, addr, addr + len, TopBlock(g) + 1);
    TouchedBits(w, b, s);
    WalkNamesExactly(g, addr, addr + len, b, s);
  }

  /** Repeating a successful call leaves the registers as one call does. */
  lemma RangeRegistersIdempotent(g: Sram, regs: seq<bv32>, addr: nat, len: nat, enable: bool)
    requires g.size > 0 && TopBlock(g) < |regs| && InRange(g, addr, len)
    ensures var once := RangeRegisters(g, regs, addr, len, enable);
            RangeRegisters(g, once, addr, len, enable) == once
  {
    WalkFits(g, addr, addr + len, |regs|);
    RetainAllIdempotent(regs, Walk(g, addr, addr + len), enable);
  }
}
