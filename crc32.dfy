/**
 * CRC-32/ISO-HDLC, the frame check sequence of ISO/IEC 13239 HDLC and of
 * IEEE 802.3 clause 3.2.9 (Zephyr's `crc32_ieee`): generator polynomial
 * 0x04C11DB7 processed least significant bit first (0xEDB88320 reflected),
 * register preset to 0xFFFFFFFF, result complemented.
 *
 * The 32-bit register is held as its four bytes, least significant first,
 * which is also the order in which the `*crc_ptr = sys_cpu_to_le32(crc)` store
 * leaves a CRC in the memory of the little-endian Cortex-M4.
 * `Shift` is one bit step of the register; `ShiftIsBitwise` ties it to the
 * textbook word-level step `c & 1 ? (c >> 1) ^ 0xEDB88320 : c >> 1`.
 *
 * Proved here:
 *   - a message followed by four bytes has CRC 0x2144DF1C (the residue)
 *     exactly when those bytes are the message's own CRC, least
 *     significant byte first;
 *   - any corruption confined to four consecutive bytes changes the CRC.
 */
module Crc32 {

  /** The reflected generator polynomial. */
  const Poly: bv32 := 0xEDB8_8320

  /** Preset of the shift register, and the final complement. */
  const Init: bv32 := 0xFFFF_FFFF

  /** CRC of any message followed by its own CRC, least significant byte first. */
  const Residue: bv32 := 0x2144_DF1C

  /** The shift register: the bytes of the 32-bit word, least significant first. */
  type Reg = r: seq<bv8> | |r| == 4 witness [0, 0, 0, 0]

  /** The cleared register. */
  const Zero: Reg := [0, 0, 0, 0]

  /** The register preset, `Init` byte by byte. */
  const Preset: Reg := [0xFF, 0xFF, 0xFF, 0xFF]

  /** The four bytes of `w`, least significant first (`sys_cpu_to_le32` on a little-endian CPU). */
  function LittleEndian(w: bv32): Reg {
    [(w & 0xFF) as bv8, ((w >> 8) & 0xFF) as bv8, ((w >> 16) & 0xFF) as bv8, (w >> 24) as bv8]
  }

  /** The word whose little-endian bytes are `bytes`. */
  function FromLittleEndian(bytes: seq<bv8>): bv32
    requires |bytes| == 4
  {
    (bytes[0] as bv32) | ((bytes[1] as bv32) << 8) | ((bytes[2] as bv32) << 16) | ((bytes[3] as bv32) << 24)
  }

  lemma LittleEndianRoundTrip(w: bv32)
    ensures FromLittleEndian(LittleEndian(w)) == w
  {
  }

  lemma FromLittleEndianRoundTrip(bytes: seq<bv8>)
    requires |bytes| == 4
    ensures LittleEndian(FromLittleEndian(bytes)) == bytes
  {
  }

  lemma FromLittleEndianInjective(a: Reg, b: Reg)
    ensures FromLittleEndian(a) == FromLittleEndian(b) ==> a == b
  {
    FromLittleEndianRoundTrip(a);
    FromLittleEndianRoundTrip(b);
  }

  /* ---------------------------------------------------------------------
   * The bit step
   * ------------------------------------------------------------------- */

  /** Byte `k` of `Poly`. */
  function PolyByte(k: int): bv8 {
    if k == 0 then 0x20 else if k == 1 then 0x83 else if k == 2 then 0xB8 else 0xED
  }

  /** `PolyByte` spells out `Poly`, and `Preset` spells out `Init`. */
  lemma ConstantBytes()
    ensures LittleEndian(Poly) == [PolyByte(0), PolyByte(1), PolyByte(2), PolyByte(3)]
    ensures Preset == LittleEndian(Init)
  {
  }

  /** All ones when bit 0 of `x` is set, zero otherwise. */
  function Spread(x: bv8): bv8 {
    if x & 1 == 1 then 0xFF else 0
  }

  /** One byte of a bit step: shift right, take the next byte's low bit in at
      the top, and add `p` where the feedback `fb` says so. */
  function StepByte(x: bv8, next: bv8, fb: bv8, p: bv8): bv8 {
    ((x >> 1) | ((next & 1) << 7)) ^ (p & fb)
  }

  /** The byte above byte `k`, zero above the top. */
  function Next(r: Reg, k: int): bv8
    requires 0 <= k < 4
  {
    if k < 3 then r[k + 1] else 0
  }

  /** One bit step of the reflected register: shift the word right by one
      and add `Poly` when the bit shifted out was set. */
  function Shift(r: Reg): Reg {
    seq(4, k requires 0 <= k < 4 => StepByte(r[k], Next(r, k), Spread(r[0]), PolyByte(k)))
  }

  /** `Shift` is the textbook word-level step of the reflected CRC. */
  lemma ShiftIsBitwise(r: Reg)
    ensures var c := FromLittleEndian(r);
            FromLittleEndian(Shift(r)) == if c & 1 == 1 then (c >> 1) ^ 0xEDB8_8320 else c >> 1
  {
  }

  /** `n` bit steps. */
  function Steps(r: Reg, n: nat): Reg
    decreases n
  {
    if n == 0 then r else Shift(Steps(r, n - 1))
  }

  /** The eight bit steps that consume one byte. */
  function Shift8(r: Reg): Reg {
    Steps(r, 8)
  }

  /** The 32 bit steps that consume one word. */
  function Turn(r: Reg): Reg {
    Shift8(Shift8(Shift8(Shift8(r))))
  }

  /** Byte-wise exclusive or of two registers. */
  function Xor(a: Reg, b: Reg): Reg {
    seq(4, k requires 0 <= k < 4 => a[k] ^ b[k])
  }

  /** Feed one byte: XOR it into the low byte of the register, then run its
      eight bit steps (the byte loop of `crc32_ieee_update`). */
  function FeedByte(r: Reg, b: bv8): Reg {
    Shift8(Xor(r, [b, 0, 0, 0]))
  }

  /** The register after feeding `s`, first byte first, starting from `r`. */
  function Register(r: Reg, s: seq<bv8>): Reg
    decreases |s|
  {
    if s == [] then r else FeedByte(Register(r, s[..|s| - 1]), s[|s| - 1])
  }

  /** CRC-32/ISO-HDLC of `s`: preset, feed every byte, complement. */
  function Crc(s: seq<bv8>): bv32 {
    FromLittleEndian(Register(Preset, s)) ^ 0xFFFF_FFFF
  }

  /* ---------------------------------------------------------------------
   * The register is linear over GF(2), and its steps are invertible
   * ------------------------------------------------------------------- */

  lemma XorZero(a: Reg)
    ensures Xor(a, Zero) == a
  {
  }

  lemma XorLeftZero(a: Reg)
    ensures Xor(Zero, a) == a
  {
  }

  lemma FromLittleEndianXor(a: Reg, b: Reg)
    ensures FromLittleEndian(Xor(a, b)) == FromLittleEndian(a) ^ FromLittleEndian(b)
  {
  }

  lemma XorWordIff(a: bv32, b: bv32, c: bv32)
    ensures a ^ b == c <==> b == a ^ c
  {
  }

  /** A bit step is linear over GF(2). */
  lemma ShiftLinear(a: Reg, b: Reg)
    ensures Shift(Xor(a, b)) == Xor(Shift(a), Shift(b))
  {
  }

  lemma {:induction false} StepsLinear(a: Reg, b: Reg, n: nat)
    ensures Steps(Xor(a, b), n) == Xor(Steps(a, n), Steps(b, n))
  {
    if n > 0 {
      StepsLinear(a, b, n - 1);
      ShiftLinear(Steps(a, n - 1), Steps(b, n - 1));
    }
  }

  lemma Shift8Linear(a: Reg, b: Reg)
    ensures Shift8(Xor(a, b)) == Xor(Shift8(a), Shift8(b))
  {
    StepsLinear(a, b, 8);
  }

  /** Running `m` steps and then `n` more is running `m + n` steps. */
  lemma {:induction false} StepsAdd(r: Reg, m: nat, n: nat)
    ensures Steps(Steps(r, m), n) == Steps(r, m + n)
  {
    if n > 0 {
      StepsAdd(r, m, n - 1);
    }
  }

  lemma ShiftInjective(a: Reg, b: Reg)
    ensures Shift(a) == Shift(b) ==> a == b
  {
    if Shift(a) == Shift(b) {
      assert Shift(a)[3] == Shift(b)[3];
      assert Spread(a[0]) == Spread(b[0]);
      forall k | 0 <= k < 4
        ensures a[k] == b[k]
      {
        assert Shift(a)[k] == Shift(b)[k];
        if k > 0 {
          assert Shift(a)[k - 1] == Shift(b)[k - 1];
        }
      }
    }
  }

  /** Distinct registers stay distinct under any number of steps. */
  lemma {:induction false} StepsInjective(a: Reg, b: Reg, n: nat)
    ensures Steps(a, n) == Steps(b, n) ==> a == b
  {
    if n > 0 {
      ShiftInjective(Steps(a, n - 1), Steps(b, n - 1));
      StepsInjective(a, b, n - 1);
    }
  }

  lemma Shift8Injective(a: Reg, b: Reg)
    ensures Shift8(a) == Shift8(b) ==> a == b
  {
    StepsInjective(a, b, 8);
  }

  lemma TurnInjective(a: Reg, b: Reg)
    ensures Turn(a) == Turn(b) ==> a == b
  {
    Shift8Injective(a, b);
    Shift8Injective(Shift8(a), Shift8(b));
    Shift8Injective(Shift8(Shift8(a)), Shift8(Shift8(b)));
    Shift8Injective(Shift8(Shift8(Shift8(a))), Shift8(Shift8(Shift8(b))));
  }

  /* ---------------------------------------------------------------------
   * Without feedback the register just shifts
   * ------------------------------------------------------------------- */

  /** Without feedback a bit step is a plain right shift of the word. */
  lemma ShiftEven(r: Reg, w: bv32)
    requires FromLittleEndian(r) == w && w & 1 == 0
    ensures FromLittleEndian(Shift(r)) == w >> 1
  {
    ShiftIsBitwise(r);
  }

  lemma TwoEven(r: Reg, w: bv32)
    requires FromLittleEndian(r) == w && w & 3 == 0
    ensures FromLittleEndian(Steps(r, 2)) == w >> 2
  {
    ShiftEven(r, w);
    ShiftEven(Shift(r), w >> 1);
  }

  lemma FourEven(r: Reg, w: bv32)
    requires FromLittleEndian(r) == w && w & 0xF == 0
    ensures FromLittleEndian(Steps(r, 4)) == w >> 4
  {
    TwoEven(r, w);
    TwoEven(Steps(r, 2), w >> 2);
    StepsAdd(r, 2, 2);
  }

  /** Eight steps over a word whose low byte is clear shift it down a byte. */
  lemma EightEven(r: Reg, w: bv32)
    requires FromLittleEndian(r) == w && w & 0xFF == 0
    ensures FromLittleEndian(Steps(r, 8)) == w >> 8
  {
    FourEven(r, w);
    FourEven(Steps(r, 4), w >> 4);
    StepsAdd(r, 4, 4);
  }

  lemma LowByteClear(r: Reg)
    requires r[0] == 0
    ensures FromLittleEndian(r) & 0xFF == 0
    ensures LittleEndian(FromLittleEndian(r) >> 8) == [r[1], r[2], r[3], 0]
  {
  }

  /** Eight steps over a register whose low byte is clear move every byte down
      one place, without feedback. */
  lemma Shift8Aligned(r: Reg)
    requires r[0] == 0
    ensures Shift8(r) == [r[1], r[2], r[3], 0]
  {
    LowByteClear(r);
    EightEven(r, FromLittleEndian(r));
    FromLittleEndianRoundTrip(Shift8(r));
  }

  /* ---------------------------------------------------------------------
   * Feeding bytes
   * ------------------------------------------------------------------- */

  // FeedSecond..FeedFourth, XorByte1..XorByte3 and FeedTwo..FeedFour are
  // proof steps with no counterpart in the C code: one four-byte feed is
  // split into single-byte stages to keep each proof obligation small.

  lemma RegisterSnoc(r: Reg, s: seq<bv8>, b: bv8)
    ensures Register(r, s + [b]) == FeedByte(Register(r, s), b)
  {
    assert (s + [b])[..|s|] == s;
  }

  /** Feeding `s + t` is feeding `s`, then `t`. */
  lemma {:induction false} RegisterAppend(r: Reg, s: seq<bv8>, t: seq<bv8>)
    ensures Register(r, s + t) == Register(Register(r, s), t)
    decreases |t|
  {
    if t == [] {
      assert s + t == s;
    } else {
      assert (s + t)[..|s + t| - 1] == s + t[..|t| - 1];
      RegisterAppend(r, s, t[..|t| - 1]);
    }
  }

  lemma RegisterOfFour(r: Reg, bs: Reg)
    ensures Register(r, bs) == FeedByte(FeedByte(FeedByte(FeedByte(r, bs[0]), bs[1]), bs[2]), bs[3])
  {
    assert bs == [] + [bs[0]] + [bs[1]] + [bs[2]] + [bs[3]];
    RegisterSnoc(r, [], bs[0]);
    RegisterSnoc(r, [bs[0]], bs[1]);
    RegisterSnoc(r, [bs[0]] + [bs[1]], bs[2]);
    RegisterSnoc(r, [bs[0]] + [bs[1]] + [bs[2]], bs[3]);
  }

  /** A byte fed after `Shift8(a)` acts as `q` XORed into `a` one byte step
      earlier, when eight steps carry `q` down to that byte. */
  lemma FeedLate(a: Reg, q: Reg, b: bv8)
    requires Shift8(q) == [b, 0, 0, 0]
    ensures FeedByte(Shift8(a), b) == Shift8(Shift8(Xor(a, q)))
  {
    Shift8Linear(a, q);
  }

  lemma FeedSecond(x0: Reg, b: bv8)
    ensures FeedByte(Shift8(x0), b) == Shift8(Shift8(Xor(x0, [0, b, 0, 0])))
  {
    Shift8Aligned([0, b, 0, 0]);
    FeedLate(x0, [0, b, 0, 0], b);
  }

  lemma FeedThird(x1: Reg, b: bv8)
    ensures FeedByte(Shift8(Shift8(x1)), b) == Shift8(Shift8(Shift8(Xor(x1, [0, 0, b, 0]))))
  {
    var p: Reg := [0, 0, b, 0];
    Shift8Aligned(p);
    Shift8Aligned(Shift8(p));
    FeedLate(Shift8(x1), Shift8(p), b);
    Shift8Linear(x1, p);
  }

  lemma FeedFourth(x2: Reg, b: bv8)
    ensures FeedByte(Shift8(Shift8(Shift8(x2))), b) == Turn(Xor(x2, [0, 0, 0, b]))
  {
    var p: Reg := [0, 0, 0, b];
    Shift8Aligned(p);
    Shift8Aligned(Shift8(p));
    Shift8Aligned(Shift8(Shift8(p)));
    FeedLate(Shift8(Shift8(x2)), Shift8(Shift8(p)), b);
    Shift8Linear(Shift8(x2), Shift8(p));
    Shift8Linear(x2, p);
  }

  lemma XorLow(a: Reg, b: bv8) ensures Xor(a, [b, 0, 0, 0]) == [a[0] ^ b, a[1], a[2], a[3]] {}

  lemma XorByte1(a: Reg, b: bv8) ensures Xor(a, [0, b, 0, 0]) == [a[0], a[1] ^ b, a[2], a[3]] {}

  lemma XorByte2(a: Reg, b: bv8) ensures Xor(a, [0, 0, b, 0]) == [a[0], a[1], a[2] ^ b, a[3]] {}

  lemma XorByte3(a: Reg, b: bv8) ensures Xor(a, [0, 0, 0, b]) == [a[0], a[1], a[2], a[3] ^ b] {}

  /** XORing the four bytes one at a time, each in its place, XORs the word. */
  lemma XorPlaced(r: Reg, bs: Reg)
    ensures Xor(Xor(Xor(Xor(r, [bs[0], 0, 0, 0]), [0, bs[1], 0, 0]), [0, 0, bs[2], 0]), [0, 0, 0, bs[3]]) == Xor(r, bs)
  {
    var x0 := Xor(r, [bs[0], 0, 0, 0]);
    XorLow(r, bs[0]);
    var x1 := Xor(x0, [0, bs[1], 0, 0]);
    XorByte1(x0, bs[1]);
    var x2 := Xor(x1, [0, 0, bs[2], 0]);
    XorByte2(x1, bs[2]);
    XorByte3(x2, bs[3]);
  }

  lemma FeedTwo(r: Reg, bs: Reg)
    ensures Register(r, bs) == FeedByte(FeedByte(Shift8(Shift8(Xor(Xor(r, [bs[0], 0, 0, 0]), [0, bs[1], 0, 0]))), bs[2]), bs[3])
  {
    RegisterOfFour(r, bs);
    FeedSecond(Xor(r, [bs[0], 0, 0, 0]), bs[1]);
  }

  lemma FeedThree(r: Reg, bs: Reg)
    ensures Register(r, bs) == FeedByte(Shift8(Shift8(Shift8(Xor(Xor(Xor(r, [bs[0], 0, 0, 0]), [0, bs[1], 0, 0]), [0, 0, bs[2], 0])))), bs[3])
  {
    FeedTwo(r, bs);
    FeedThird(Xor(Xor(r, [bs[0], 0, 0, 0]), [0, bs[1], 0, 0]), bs[2]);
  }

  lemma FeedFour(r: Reg, bs: Reg)
    ensures Register(r, bs) == Turn(Xor(Xor(Xor(Xor(r, [bs[0], 0, 0, 0]), [0, bs[1], 0, 0]), [0, 0, bs[2], 0]), [0, 0, 0, bs[3]]))
  {
    FeedThree(r, bs);
    FeedFourth(Xor(Xor(Xor(r, [bs[0], 0, 0, 0]), [0, bs[1], 0, 0]), [0, 0, bs[2], 0]), bs[3]);
  }

  /** Feeding four bytes is XORing them into the register as a word and
      running one full turn. */
  lemma FeedWord(r: Reg, bs: Reg)
    ensures Register(r, bs) == Turn(Xor(r, bs))
  {
    FeedFour(r, bs);
    XorPlaced(r, bs);
  }

  /** The CRC of a four-byte message is one turn of the preset with the
      message XORed in, complemented. */
  lemma CrcOfWord(bs: Reg)
    ensures Crc(bs) == FromLittleEndian(Turn(Xor(Preset, bs))) ^ 0xFFFF_FFFF
  {
    FeedWord(Preset, bs);
  }

  /* ---------------------------------------------------------------------
   * The residue
   * ------------------------------------------------------------------- */

  // Eval1Preset..Eval4Preset each evaluate one byte step on a literal
  // register; they are proof steps, split so each stays small.

  lemma Eval1Preset()
    ensures Shift8([0xFF, 0xFF, 0xFF, 0xFF]) == [0x72, 0x10, 0xFD, 0x2D]
  {
  }

  lemma Eval2Preset()
    ensures Shift8([0x72, 0x10, 0xFD, 0x2D]) == [0x00, 0xED, 0x26, 0xBE]
  {
  }

  lemma Eval3Preset()
    ensures Shift8([0x00, 0xED, 0x26, 0xBE]) == [0xED, 0x26, 0xBE, 0x00]
  {
  }

  lemma Eval4Preset()
    ensures Shift8([0xED, 0x26, 0xBE, 0x00]) == [0xE3, 0x20, 0xBB, 0xDE]
  {
  }

  /** A full turn of the preset register, a byte at a time. */
  lemma TurnOfPreset()
    ensures Turn(Preset) == [0xE3, 0x20, 0xBB, 0xDE]
  {
    Eval1Preset();
    Eval2Preset();
    Eval3Preset();
    Eval4Preset();
  }

  /** The complemented register is the residue exactly when the register is
      one turn of the preset. */
  lemma ResidueOfTurn(t: Reg)
    ensures FromLittleEndian(t) ^ 0xFFFF_FFFF == 0x2144_DF1C <==> t == Turn(Preset)
  {
    TurnOfPreset();
  }

  /** XORing `field` into `x` gives the preset exactly when `field` holds the
      complement of `x`. */
  lemma XorPresetIff(x: Reg, field: Reg)
    ensures Xor(x, field) == Preset <==> FromLittleEndian(field) == FromLittleEndian(x) ^ 0xFFFF_FFFF
  {
    FromLittleEndianXor(x, field);
    FromLittleEndianInjective(Xor(x, field), Preset);
    assert FromLittleEndian(Preset) == 0xFFFF_FFFF;
    XorWordIff(FromLittleEndian(x), FromLittleEndian(field), 0xFFFF_FFFF);
  }

  lemma RegisterThenWord(m: seq<bv8>, field: Reg)
    ensures Register(Preset, m + field) == Turn(Xor(Register(Preset, m), field))
  {
    RegisterAppend(Preset, m, field);
    FeedWord(Register(Preset, m), field);
  }

  lemma StampIff(m: seq<bv8>, field: Reg)
    ensures Crc(m + field) == 0x2144_DF1C <==> Xor(Register(Preset, m), field) == Preset
  {
    var y := Xor(Register(Preset, m), field);
    RegisterThenWord(m, field);
    ResidueOfTurn(Turn(y));
    TurnInjective(y, Preset);
  }

  /**
   * A message followed by four bytes has CRC `Residue` exactly when those
   * bytes are the message's own CRC, least significant byte first.
   */
  lemma ResidueIff(m: seq<bv8>, field: seq<bv8>)
    requires |field| == 4
    ensures Crc(m + field) == Residue <==> FromLittleEndian(field) == Crc(m)
  {
    StampIff(m, field);
    XorPresetIff(Register(Preset, m), field);
  }

  /** The residue property: a message stamped with its own CRC checks. */
  lemma CrcOfStamped(m: seq<bv8>)
    ensures Crc(m + LittleEndian(Crc(m))) == Residue
  {
    LittleEndianRoundTrip(Crc(m));
    ResidueIff(m, LittleEndian(Crc(m)));
  }

  /* ---------------------------------------------------------------------
   * Error detection
   * ------------------------------------------------------------------- */

  /** Byte-wise exclusive or of two messages of the same length. */
  function XorBytes(s: seq<bv8>, t: seq<bv8>): (u: seq<bv8>)
    requires |s| == |t|
    ensures |u| == |s| && forall i :: 0 <= i < |u| ==> u[i] == s[i] ^ t[i]
  {
    seq(|s|, i requires 0 <= i < |s| => s[i] ^ t[i])
  }

  lemma FeedByteLinear(a: Reg, b: Reg, x: bv8, y: bv8)
    ensures FeedByte(Xor(a, b), x ^ y) == Xor(FeedByte(a, x), FeedByte(b, y))
  {
    assert Xor(Xor(a, b), [x ^ y, 0, 0, 0]) == Xor(Xor(a, [x, 0, 0, 0]), Xor(b, [y, 0, 0, 0]));
    Shift8Linear(Xor(a, [x, 0, 0, 0]), Xor(b, [y, 0, 0, 0]));
  }

  /** The register is linear in its start value and in the message together. */
  lemma {:induction false} RegisterLinear(a: Reg, b: Reg, s: seq<bv8>, t: seq<bv8>)
    requires |s| == |t|
    ensures Register(Xor(a, b), XorBytes(s, t)) == Xor(Register(a, s), Register(b, t))
    decreases |s|
  {
    if s != [] {
      var n := |s| - 1;
      assert XorBytes(s, t)[..n] == XorBytes(s[..n], t[..n]);
      RegisterLinear(a, b, s[..n], t[..n]);
      FeedByteLinear(Register(a, s[..n]), Register(b, t[..n]), s[n], t[n]);
    }
  }

  function Zeros(n: nat): (z: seq<bv8>)
    ensures |z| == n && forall i :: 0 <= i < n ==> z[i] == 0
  {
    seq(n, _ => 0)
  }

  lemma Shift8OfZero()
    ensures Shift8(Zero) == Zero
  {
  }

  lemma FeedZeroByte(q: Reg)
    ensures FeedByte(q, 0) == Zero <==> q == Zero
  {
    XorZero(q);
    Shift8OfZero();
    Shift8Injective(q, Zero);
  }

  /** Zero bytes keep a non-zero register non-zero and a cleared one cleared. */
  lemma {:induction false} RegisterOfZeros(r: Reg, n: nat)
    ensures Register(r, Zeros(n)) == Zero <==> r == Zero
    decreases n
  {
    if n > 0 {
      assert Zeros(n) == Zeros(n - 1) + [0];
      RegisterSnoc(r, Zeros(n - 1), 0);
      RegisterOfZeros(r, n - 1);
      FeedZeroByte(Register(r, Zeros(n - 1)));
    } else {
      assert Zeros(n) == [];
    }
  }

  lemma TurnOfNonZero(burst: Reg)
    requires burst != Zero
    ensures Register(Zero, burst) != Zero
  {
    FeedWord(Zero, burst);
    XorLeftZero(burst);
    Shift8OfZero();
    TurnInjective(burst, Zero);
  }

  /** An error pattern that is non-zero only inside four consecutive bytes
      drives a cleared register away from zero. */
  lemma ErrorRegister(j: nat, burst: Reg, n: nat)
    requires burst != Zero
    ensures Register(Zero, Zeros(j) + burst + Zeros(n)) != Zero
  {
    RegisterAppend(Zero, Zeros(j) + burst, Zeros(n));
    RegisterAppend(Zero, Zeros(j), burst);
    RegisterOfZeros(Zero, j);
    TurnOfNonZero(burst);
    RegisterOfZeros(Register(Zero, burst), n);
  }

  lemma WindowOfEqual(s: seq<bv8>, t: seq<bv8>, j: nat)
    requires |s| == |t| && j + 4 <= |s|
    requires forall i :: 0 <= i < |s| && !(j <= i < j + 4) ==> s[i] == t[i]
    ensures XorBytes(s, t)[j..j + 4] == Zero ==> s == t
  {
    var e := XorBytes(s, t);
    if e[j..j + 4] == Zero {
      forall i | 0 <= i < |s|
        ensures s[i] == t[i]
      {
        if j <= i < j + 4 {
          assert e[i] == e[j..j + 4][i - j];
        }
      }
      assert s == t;
    }
  }

  lemma BurstShape(s: seq<bv8>, t: seq<bv8>, j: nat)
    requires |s| == |t| && j + 4 <= |s|
    requires forall i :: 0 <= i < |s| && !(j <= i < j + 4) ==> s[i] == t[i]
    requires s != t
    ensures var e := XorBytes(s, t); e == Zeros(j) + e[j..j + 4] + Zeros(|s| - j - 4) && e[j..j + 4] != Zero
  {
    var e := XorBytes(s, t);
    assert e == Zeros(j) + e[j..j + 4] + Zeros(|s| - j - 4);
    WindowOfEqual(s, t, j);
  }

  lemma XorBytesCancel(s: seq<bv8>, t: seq<bv8>)
    requires |s| == |t|
    ensures XorBytes(s, XorBytes(s, t)) == t
  {
  }

  lemma CrcOfDifference(s: seq<bv8>, e: seq<bv8>)
    requires |s| == |e|
    ensures Register(Preset, XorBytes(s, e)) == Xor(Register(Preset, s), Register(Zero, e))
  {
    XorZero(Preset);
    RegisterLinear(Preset, Zero, s, e);
  }

  lemma XorNonZeroChanges(x: Reg, d: Reg)
    requires d != Zero
    ensures FromLittleEndian(Xor(x, d)) != FromLittleEndian(x)
  {
    FromLittleEndianXor(x, d);
    FromLittleEndianInjective(d, Zero);
  }

  /**
   * Any two messages of the same length that differ only inside four
   * consecutive bytes have different CRCs (an error burst of at most 32 bits).
   */
  lemma BurstDetected(s: seq<bv8>, t: seq<bv8>, j: nat)
    requires |s| == |t| && j + 4 <= |s|
    requires forall i :: 0 <= i < |s| && !(j <= i < j + 4) ==> s[i] == t[i]
    requires s != t
    ensures Crc(s) != Crc(t)
  {
    var e := XorBytes(s, t);
    BurstShape(s, t, j);
    ErrorRegister(j, e[j..j + 4], |s| - j - 4);
    XorBytesCancel(s, t);
    CrcOfDifference(s, e);
    XorNonZeroChanges(Register(Preset, s), Register(Zero, e));
  }

  /* ---------------------------------------------------------------------
   * Concrete values
   * ------------------------------------------------------------------- */

  // The Eval*CounterOne lemmas are single literal evaluations, proof steps
  // with no counterpart in the C code.

  lemma Eval1CounterOne()
    ensures Shift8([0xFE, 0xFF, 0xFF, 0xFF]) == [0xE4, 0x20, 0xFA, 0x5A]
  {
  }

  lemma Eval2CounterOne()
    ensures Shift8([0xE4, 0x20, 0xFA, 0x5A]) == [0x41, 0xDC, 0x3D, 0xA7]
  {
  }

  lemma Eval3CounterOne()
    ensures Shift8([0x41, 0xDC, 0x3D, 0xA7]) == [0xDA, 0x4C, 0x7C, 0x01]
  {
  }

  lemma Eval4CounterOne()
    ensures Shift8([0xDA, 0x4C, 0x7C, 0x01]) == [0x86, 0x47, 0x07, 0x66]
  {
  }

  lemma TurnOfCounterOne()
    ensures Turn([0xFE, 0xFF, 0xFF, 0xFF]) == [0x86, 0x47, 0x07, 0x66]
  {
    Eval1CounterOne();
    Eval2CounterOne();
    Eval3CounterOne();
    Eval4CounterOne();
  }

  lemma PresetXorCounterOne()
    ensures Xor(Preset, [1, 0, 0, 0]) == [0xFE, 0xFF, 0xFF, 0xFF]
  {
  }

  lemma CrcOfCounterOneAsTurn()
    ensures Crc([1, 0, 0, 0]) == FromLittleEndian(Turn([0xFE, 0xFF, 0xFF, 0xFF])) ^ 0xFFFF_FFFF
  {
    CrcOfWord([1, 0, 0, 0]);
    PresetXorCounterOne();
  }

  lemma CounterOneComplement()
    ensures FromLittleEndian([0x86, 0x47, 0x07, 0x66]) ^ 0xFFFF_FFFF == 0x99F8_B879
  {
  }

  /** CRC-32/ISO-HDLC of the 32-bit counter value 1 stored little-endian. */
  lemma CrcOfCounterOne()
    ensures Crc([1, 0, 0, 0]) == 0x99F8_B879
  {
    CrcOfCounterOneAsTurn();
    TurnOfCounterOne();
    CounterOneComplement();
  }

  /** Four zero bytes have the residue as their CRC: the zero word is its own
      stamp over the empty message. */
  lemma CrcOfFourZeros()
    ensures Crc([0, 0, 0, 0]) == Residue
  {
    FeedWord(Preset, Zero);
    XorZero(Preset);
    TurnOfPreset();
  }

  lemma Eval1Turned()
    ensures Shift8([0xE3, 0x20, 0xBB, 0xDE]) == [0xE2, 0x08, 0xDD, 0x39]
  {
  }

  lemma Eval2Turned()
    ensures Shift8([0xE2, 0x08, 0xDD, 0x39]) == [0x5C, 0x5E, 0x3D, 0x4E]
  {
  }

  lemma Eval3Turned()
    ensures Shift8([0x5C, 0x5E, 0x3D, 0x4E]) == [0x81, 0x20, 0x93, 0x62]
  {
  }

  lemma Eval4Turned()
    ensures Shift8([0x81, 0x20, 0x93, 0x62]) == [0x96, 0x20, 0xDD, 0x9A]
  {
  }

  /** Two full turns of the preset register. */
  lemma TurnOfTurnedPreset()
    ensures Turn([0xE3, 0x20, 0xBB, 0xDE]) == [0x96, 0x20, 0xDD, 0x9A]
  {
    Eval1Turned();
    Eval2Turned();
    Eval3Turned();
    Eval4Turned();
  }

  lemma EightZerosComplement()
    ensures FromLittleEndian([0x96, 0x20, 0xDD, 0x9A]) ^ 0xFFFF_FFFF == 0x6522_DF69
  {
  }

  lemma EightZerosSplit()
    ensures Zeros(8) == Zeros(4) + Zeros(4)
    ensures Zeros(4) == Zero
  {
  }

  /** The register after four zero bytes from the preset: one turn of it. */
  lemma RegisterOfFourZeros()
    ensures Register(Preset, Zeros(4)) == [0xE3, 0x20, 0xBB, 0xDE]
  {
    EightZerosSplit();
    FeedWord(Preset, Zero);
    XorZero(Preset);
    TurnOfPreset();
  }

  /** CRC-32/ISO-HDLC of eight zero bytes is 0x6522DF69, not 0. */
  lemma CrcOfEightZeros()
    ensures Crc(Zeros(8)) == 0x6522_DF69
  {
    EightZerosSplit();
    RegisterAppend(Preset, Zeros(4), Zeros(4));
    RegisterOfFourZeros();
    FeedWord([0xE3, 0x20, 0xBB, 0xDE], Zero);
    XorZero([0xE3, 0x20, 0xBB, 0xDE]);
    TurnOfTurnedPreset();
    EightZerosComplement();
  }
}
