/**
 * The POWER peripheral's RAM[x].POWER registers, one 32-bit word per RAM
 * block: bits 0..15 switch sections on while the chip is on, bits 16..31
 * keep sections retained in System OFF. The HAL calls
 * `nrf_power_rampower_mask_on` and `nrf_power_rampower_mask_off` write the
 * write-one-to-set POWERSET and write-one-to-clear POWERCLR aliases, so on
 * the POWER word they are an OR and an AND-NOT.
 */
module Power {
  import opened Geometry

  /** Position of the section 0 retention bit (POWER_RAM_POWERSET_S0RETENTION_Pos). */
  const RetentionPos: nat := 16

  /**
   * The retention bit of `section` in its block's register: exactly bit
   * `section + 16` is set, so it is clear in the power half (bits 0..15).
   */
  function RetentionMask(section: nat): (m: bv32)
    requires section < LargeSectionsPerBlock
    ensures m >> (section + RetentionPos) == 1
    ensures m & ((1 << (section + RetentionPos)) - 1) == 0
    ensures m & 0xFFFF == 0
  {
    1 << (section + RetentionPos)
  }

  /** Two sections of a block share no retention bit. */
  lemma MaskDisjoint(s: nat, t: nat)
    requires s < LargeSectionsPerBlock && t < LargeSectionsPerBlock
    ensures RetentionMask(s) & RetentionMask(t) != 0 <==> s == t
  {
  }

  /** Every location names a section that a register has a bit for. */
  predicate SectionsFit(w: seq<Location>) {
    forall k :: 0 <= k < |w| ==> w[k].section < LargeSectionsPerBlock
  }

  /** Every location names one of `blocks` registers and a section it has a bit for. */
  predicate Fits(w: seq<Location>, blocks: nat) {
    SectionsFit(w) && forall k :: 0 <= k < |w| ==> w[k].block < blocks
  }

  /** The retention bit `loc` names in block `b`, if it is in that block. */
  function MaskIn(loc: Location, b: nat): bv32
    requires loc.section < LargeSectionsPerBlock
  {
    if loc.block == b then RetentionMask(loc.section) else 0
  }

  /** A register after `nrf_power_rampower_mask_on` (`enable`) or
      `nrf_power_rampower_mask_off` with mask `m`. */
  function SetOrClear(r: bv32, m: bv32, enable: bool): bv32 {
    if enable then r | m else r & !m
  }

  /** The registers after setting (`enable`) or clearing the retention bit of `loc`. */
  function Retain(regs: seq<bv32>, loc: Location, enable: bool): seq<bv32>
    requires loc.block < |regs| && loc.section < LargeSectionsPerBlock
  {
    regs[loc.block := SetOrClear(regs[loc.block], RetentionMask(loc.section), enable)]
  }

  /** The registers after `Retain` for every location of `w`, first to last. */
  function RetainAll(regs: seq<bv32>, w: seq<Location>, enable: bool): (out: seq<bv32>)
    requires Fits(w, |regs|)
    ensures |out| == |regs|
    decreases |w|
  {
    if w == [] then regs else RetainAll(Retain(regs, w[0], enable), w[1..], enable)
  }

  /** The retention bits that `w` names in block `b`. */
  function Touched(w: seq<Location>, b: nat): bv32
    requires SectionsFit(w)
    decreases |w|
  {
    if w == [] then 0 else MaskIn(w[0], b) | Touched(w[1..], b)
  }

  lemma OrMasked(x: bv32, y: bv32, m: bv32)
    ensures (x | y) & m != 0 <==> x & m != 0 || y & m != 0
    ensures (x | y) & 0xFFFF == 0 <==> x & 0xFFFF == 0 && y & 0xFFFF == 0
  {
  }

  /**
   * `Touched(w, b)` holds the retention bit of section `s` exactly when `w`
   * names section `s` of block `b`, and no bit of the power half.
   */
  lemma {:induction false} TouchedBits(w: seq<Location>, b: nat, s: nat)
    requires SectionsFit(w) && s < LargeSectionsPerBlock
    ensures Touched(w, b) & RetentionMask(s) != 0
            <==> exists k :: 0 <= k < |w| && w[k].block == b && w[k].section == s
    ensures Touched(w, b) & 0xFFFF == 0
    decreases |w|
  {
    if w != [] {
      TouchedBits(w[1..], b, s);
      MaskDisjoint(w[0].section, s);
      OrMasked(MaskIn(w[0], b), Touched(w[1..], b), RetentionMask(s));
      if exists k :: 1 <= k < |w| && w[k].block == b && w[k].section == s {
        var k :| 1 <= k < |w| && w[k].block == b && w[k].section == s;
        assert w[1..][k - 1] == w[k];
      }
    }
  }

  lemma SetIsOr(r: bv32, m: bv32)
    ensures SetOrClear(r, m, true) == r | m
  {
  }

  lemma ClearIsAndNot(r: bv32, m: bv32)
    ensures SetOrClear(r, m, false) == r & !m
  {
  }

  lemma OrNothing(r: bv32)
    ensures r | 0 == r
  {
  }

  lemma AndNotNothing(r: bv32)
    ensures r & !0 == r
  {
  }

  lemma SetNothing(r: bv32)
    ensures SetOrClear(r, 0, true) == r
  {
    SetIsOr(r, 0);
    OrNothing(r);
  }

  lemma ClearNothing(r: bv32)
    ensures SetOrClear(r, 0, false) == r
  {
    ClearIsAndNot(r, 0);
    AndNotNothing(r);
  }

  /** Setting or clearing no bit changes nothing. */
  lemma NoBit(r: bv32, enable: bool)
    ensures SetOrClear(r, 0, enable) == r
  {
    if enable {
      SetNothing(r);
    } else {
      ClearNothing(r);
    }
  }

  lemma OrTwice(r: bv32, m: bv32, t: bv32)
    ensures (r | m) | t == r | (m | t)
  {
  }

  lemma AndNotTwice(r: bv32, m: bv32, t: bv32)
    ensures (r & !m) & !t == r & !(m | t)
  {
  }

  lemma SetTwice(r: bv32, m: bv32, t: bv32)
    ensures SetOrClear(SetOrClear(r, m, true), t, true) == SetOrClear(r, m | t, true)
  {
    SetIsOr(r, m);
    SetIsOr(r | m, t);
    SetIsOr(r, m | t);
    OrTwice(r, m, t);
  }

  lemma ClearTwice(r: bv32, m: bv32, t: bv32)
    ensures SetOrClear(SetOrClear(r, m, false), t, false) == SetOrClear(r, m | t, false)
  {
    ClearIsAndNot(r, m);
    ClearIsAndNot(r & !m, t);
    ClearIsAndNot(r, m | t);
    AndNotTwice(r, m, t);
  }

  /** Setting (or clearing) two masks in turn is setting (or clearing) their union. */
  lemma SetOrClearTwice(r: bv32, m: bv32, t: bv32, enable: bool)
    ensures SetOrClear(SetOrClear(r, m, enable), t, enable) == SetOrClear(r, m | t, enable)
  {
    if enable {
      SetTwice(r, m, t);
    } else {
      ClearTwice(r, m, t);
    }
  }

  lemma OrAgain(r: bv32, m: bv32)
    ensures (r | m) | m == r | m
  {
  }

  lemma AndNotAgain(r: bv32, m: bv32)
    ensures (r & !m) & !m == r & !m
  {
  }

  lemma SetAgain(r: bv32, m: bv32)
    ensures SetOrClear(SetOrClear(r, m, true), m, true) == SetOrClear(r, m, true)
  {
    SetIsOr(r, m);
    SetIsOr(r | m, m);
    OrAgain(r, m);
  }

  lemma ClearAgain(r: bv32, m: bv32)
    ensures SetOrClear(SetOrClear(r, m, false), m, false) == SetOrClear(r, m, false)
  {
    ClearIsAndNot(r, m);
    ClearIsAndNot(r & !m, m);
    AndNotAgain(r, m);
  }

  /** Setting (or clearing) the same mask again changes nothing. */
  lemma SetOrClearAgain(r: bv32, m: bv32, enable: bool)
    ensures SetOrClear(SetOrClear(r, m, enable), m, enable) == SetOrClear(r, m, enable)
  {
    if enable {
      SetAgain(r, m);
    } else {
      ClearAgain(r, m);
    }
  }

  /** One `Retain` changes block `b` by the bit it names there, if any. */
  lemma RetainAt(regs: seq<bv32>, loc: Location, enable: bool, b: nat)
    requires loc.block < |regs| && loc.section < LargeSectionsPerBlock && b < |regs|
    ensures Retain(regs, loc, enable)[b] == SetOrClear(regs[b], MaskIn(loc, b), enable)
  {
    if loc.block != b {
      NoBit(regs[b], enable);
    }
  }

  /**
   * The effect of the whole walk in one formula: with `enable` every block
   * gets the bits `w` names in it set, otherwise cleared; a block `w` does
   * not name keeps its value.
   */
  lemma {:induction false} RetainAllEffect(regs: seq<bv32>, w: seq<Location>, enable: bool, b: nat)
    requires Fits(w, |regs|) && b < |regs|
    ensures RetainAll(regs, w, enable)[b] == SetOrClear(regs[b], Touched(w, b), enable)
    decreases |w|
  {
    if w == [] {
      NoBit(regs[b], enable);
    } else {
      RetainAllEffect(Retain(regs, w[0], enable), w[1..], enable, b);
      RetainAt(regs, w[0], enable, b);
      SetOrClearTwice(regs[b], MaskIn(w[0], b), Touched(w[1..], b), enable);
    }
  }

  /** Running the same walk twice leaves the registers as running it once. */
  lemma RetainAllIdempotent(regs: seq<bv32>, w: seq<Location>, enable: bool)
    requires Fits(w, |regs|)
    ensures RetainAll(RetainAll(regs, w, enable), w, enable) == RetainAll(regs, w, enable)
  {
    var once := RetainAll(regs, w, enable);
    forall b | 0 <= b < |regs|
      ensures RetainAll(once, w, enable)[b] == once[b]
    {
      RetainAllEffect(regs, w, enable, b);
      RetainAllEffect(once, w, enable, b);
      SetOrClearAgain(regs[b], Touched(w, b), enable);
    }
  }

  /** The registers RAM[0..] of the POWER peripheral. */
  class PowerRam {
    /** RAM[x].POWER, one word per block. */
    const ram: array<bv32>

    constructor (init: seq<bv32>)
      ensures ram[..] == init && fresh(ram)
    {
      ram := new bv32[|init|](i requires 0 <= i < |init| => init[i]);
    }

    /** `nrf_power_rampower_mask_on`: set the bits of `mask` in block `block`. */
    method MaskOn(block: nat, mask: bv32)
      requires block < ram.Length
      modifies ram
      ensures ram[..] == old(ram[..])[block := SetOrClear(old(ram[block]), mask, true)]
    {
      ram[block] := ram[block] | mask;
    }

    /** `nrf_power_rampower_mask_off`: clear the bits of `mask` in block `block`. */
    method MaskOff(block: nat, mask: bv32)
      requires block < ram.Length
      modifies ram
      ensures ram[..] == old(ram[..])[block := SetOrClear(old(ram[block]), mask, false)]
    {
      ram[block] := ram[block] & !mask;
    }
  }
}
