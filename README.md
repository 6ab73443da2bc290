# nRF52 RAM retention, modelled in Dafny

This project models the RAM-retention core of `src/ram_retention/ram_retention_utils.c`. That code keeps chosen variables alive across the nRF52's System OFF state. It has two parts.

- **`ram_range_retain`** checks that a byte range lies in RAM. It then walks the range one RAM section at a time and sets or clears each section's retention bit in the POWER peripheral's RAM[x].POWER register:
  - blocks 0..7 each hold two 4 KiB sections;
  - from `LARGE_SECTION_BEGIN` (64 KiB into RAM) on, block 8 and the blocks after it hold 32 KiB sections, 16 per block;
  - the retention bit of section `s` is bit `s + 16`.
- **The CRC-guarded record protocol.** A retained record is a variable followed by a `uint32_t crc`.
  - `ram_retained_update` stores the CRC-32 of the variable's bytes little-endian in the crc field.
  - `ram_retained_validate` runs CRC-32 over the variable and the crc field and accepts the record when the result is the CRC-32 residue `0x2144DF1C`. It zeroes a rejected record, and in both cases it asks for the checked bytes to be retained.
  - `RR_Init_Variable_Ram_Retention` forwards to `ram_retained_validate`.

Files, one Dafny module each:

- `crc32.dfy` (`Crc32`): CRC-32/ISO-HDLC written from the standard. This is the frame check sequence of ISO/IEC 13239 and IEEE 802.3 clause 3.2.9, which Zephyr calls `crc32_ieee`. The file proves:
  - the residue property;
  - detection of any error confined to four consecutive bytes;
  - two concrete values.
- `geometry.dfy` (`Geometry`): the section geometry and the body of the do-while loop.
  - `Locate` computes the block, section and size for an address.
  - `Advance` gives the next cursor.
  - `Walk` is the sequence of locations the loop visits.
  - Proved: every overlapped section is visited exactly once, in increasing order, and within bounds.
- `power.dfy` (`Power`): the RAM[x].POWER registers.
  - `PowerRam` is a class over an array of words. Its methods `MaskOn` and `MaskOff` stand for the HAL calls.
  - `RetentionMask` computes the mask for one section.
  - `RetainAll` is the effect of a whole walk, with its per-block closed form and idempotence.
- `range_retain.dfy` (`RangeRetention`):
  - `RangeRetain` is the whole function as a method with its do-while loop;
  - the range guard and its 32-bit as-written form (see Findings);
  - the effect of a successful call stated address by address.
- `retained.dfy` (`Retained`): the record as a byte array.
  - `Update`, `Validate` (with `Clear` for the `memset`) and `InitVariableRamRetention` are methods.
  - The specification functions are `Stamped`, `Checks` and `Zeroed`.
  - Proved: the round trip "update, then validate succeeds", and the first-boot life of a retained counter.

Addresses are unbounded naturals. The start and size of RAM (devicetree values) are the parameter `Sram`. The number of RAM[x] registers is the length of the `PowerRam` array.

CRC-32/ISO-HDLC of eight zero bytes is 0x6522DF69, not 0. A never-written counter record is rejected because the CRC of its four zero value bytes is the residue 0x2144DF1C, which its zero crc field does not hold (`Crc32.CrcOfEightZeros`, `Retained.ZeroCounterFails`).

## Model

| member | source | states |
|---|---|---|
| Crc32.Crc | src/ram_retention/ram_retention_utils.c:81 | CRC-32/ISO-HDLC: preset 0xFFFFFFFF, bytes fed least significant bit first through 0xEDB88320, result complemented; its properties are the lemmas below |
| Crc32.ShiftIsBitwise | src/ram_retention/ram_retention_utils.c:74-81 | one bit step of the byte-held register is the reflected CRC-32 step: shift right, and XOR 0xEDB88320 when the bit shifted out was 1 |
| Crc32.ConstantBytes | src/ram_retention/ram_retention_utils.c:74-81 | the byte tables used by the step hold the reflected polynomial 0xEDB88320 and the preset 0xFFFFFFFF |
| Crc32.LittleEndianRoundTrip | src/ram_retention/ram_retention_utils.c:107-108 | reading back the four little-endian bytes of a word gives the word |
| Crc32.FromLittleEndianRoundTrip | src/ram_retention/ram_retention_utils.c:107-108 | the word read from four bytes stores back to the same bytes |
| Crc32.ShiftLinear | src/ram_retention/ram_retention_utils.c:81 | the bit step is linear over GF(2): the step of an XOR is the XOR of the steps |
| Crc32.StepsLinear | src/ram_retention/ram_retention_utils.c:81 | linearity carries over to any number of bit steps |
| Crc32.ShiftInjective | src/ram_retention/ram_retention_utils.c:81 | the bit step is one-to-one |
| Crc32.TurnInjective | src/ram_retention/ram_retention_utils.c:81 | the 32 steps that consume one word are one-to-one |
| Crc32.RegisterAppend | src/ram_retention/ram_retention_utils.c:81 | feeding `s + t` is feeding `s`, then `t` |
| Crc32.CrcOfWord | src/ram_retention/ram_retention_utils.c:81 | the CRC of four bytes in closed form: the preset XOR the bytes, turned 32 steps, complemented |
| Crc32.ResidueIff | src/ram_retention/ram_retention_utils.c:74-83 | a message followed by four bytes has CRC 0x2144DF1C exactly when those bytes, read little-endian, are the message's CRC |
| Crc32.CrcOfStamped | src/ram_retention/ram_retention_utils.c:74-78 | a message followed by its own little-endian CRC has CRC equal to the residue |
| Crc32.RegisterLinear | src/ram_retention/ram_retention_utils.c:81 | the register after feeding the XOR of two equal-length messages from the XOR of two presets is the XOR of the two registers |
| Crc32.RegisterOfZeros | src/ram_retention/ram_retention_utils.c:81 | feeding any number of zero bytes ends in the zero register exactly when it starts there |
| Crc32.BurstDetected | src/ram_retention/ram_retention_utils.c:83-87 | two different messages of one length that differ only inside four consecutive bytes have different CRCs |
| Crc32.CrcOfCounterOne | src/ram_retention/ram_retention_utils.c:105 | the CRC of the `uint32_t` 1 stored little-endian is 0x99F8B879 |
| Crc32.CrcOfFourZeros | src/ram_retention/ram_retention_utils.c:79 | the CRC of four zero bytes is the residue 0x2144DF1C |
| Crc32.CrcOfEightZeros | src/ram_retention/ram_retention_utils.c:81 | the CRC of eight zero bytes, a never-written counter record, is 0x6522DF69 and not 0 |
| Geometry.Locate | src/ram_retention/ram_retention_utils.c:143-168 | below LARGE_SECTION_BEGIN, with s = (addr - SRAM_BEGIN) / 4096, the location is block s / 2, section s % 2, size 4096, and the block is below 8; from LARGE_SECTION_BEGIN on, with s = (addr - LARGE_SECTION_BEGIN) / 32768, it is block 8 + s / 16, section s % 16, size 32768; the section is always below sections_per_block |
| Geometry.Advance | src/ram_retention/ram_retention_utils.c:180-181 | the cursor strictly increases on every turn |
| Geometry.Walk | src/ram_retention/ram_retention_utils.c:142-182 | the locations the do-while loop visits: the location of the cursor, then those from the next section while it starts before addr_end; its properties are the Walk lemmas below |
| Geometry.OrdinalOfLocate | src/ram_retention/ram_retention_utils.c:163-168 | the location read back as a running section number is the section number of the address |
| Geometry.LocateIffIndex | src/ram_retention/ram_retention_utils.c:163-168 | two addresses get the same location exactly when they lie in the same section |
| Geometry.AdvanceToNextSection | src/ram_retention/ram_retention_utils.c:180-181 | with 32 KiB-aligned RAM the cursor moves to the first address of the very next section; from a small section it never jumps past LARGE_SECTION_BEGIN, so the walk switches to 32 KiB sections exactly there |
| Geometry.IndexMonotone | src/ram_retention/ram_retention_utils.c:163 | section numbers never decrease with the address |
| Geometry.SameSection | src/ram_retention/ram_retention_utils.c:180-181 | every address the cursor skips lies in the section just handled |
| Geometry.LaterSection | src/ram_retention/ram_retention_utils.c:180-182 | every address at or past the new cursor lies in a later section |
| Geometry.WalkSound | src/ram_retention/ram_retention_utils.c:142-182 | every location the loop visits is the location of an address of the range, so nothing past a range that ends on a section boundary |
| Geometry.WalkComplete | src/ram_retention/ram_retention_utils.c:139-141 | the loop visits the location of every address of the range, the partly covered first and last sections included |
| Geometry.WalkFrom | src/ram_retention/ram_retention_utils.c:142-182 | the i-th visited location is at least i sections past the start |
| Geometry.WalkIncreasing | src/ram_retention/ram_retention_utils.c:142-182 | visited sections strictly increase |
| Geometry.WalkDistinct | src/ram_retention/ram_retention_utils.c:139-141 | no section is visited twice |
| Geometry.WalkNamesExactly | src/ram_retention/ram_retention_utils.c:139-141 | the walk names section s of block b exactly when some address of the range lies in that section |
| Geometry.LocateBlockMonotone | src/ram_retention/ram_retention_utils.c:163-168 | block numbers never decrease with the address |
| Geometry.UnalignedVisitsTwice | src/ram_retention/ram_retention_utils.c:180-182 | with RAM starting at 0x2000_1000, not on a 32 KiB boundary, the loop over [0x2001_1000, 0x2001_9000) visits section 0 of block 8 twice, because the advance stops at an absolute 32 KiB boundary inside that section |
| Geometry.TopBlock | src/ram_retention/ram_retention_utils.c:19-26 | the block of the last byte of RAM is a large block exactly when RAM is bigger than the 64 KiB of small sections |
| Geometry.WalkInBounds | src/ram_retention/ram_retention_utils.c:154-168 | a walk inside RAM names only blocks up to the last block of RAM and sections that exist in their block |
| Power.RetentionMask | src/ram_retention/ram_retention_utils.c:154-172 | the mask has exactly one bit set, bit section + 16, so it lies in the retention half 16..31 and leaves the power bits 0..15 clear |
| Power.MaskDisjoint | src/ram_retention/ram_retention_utils.c:170-172 | masks of two sections overlap exactly when the sections are equal |
| Power.TouchedBits | src/ram_retention/ram_retention_utils.c:170-178 | the bits a walk writes into block b include the retention bit of section s exactly when the walk names section s of block b, and never a power bit |
| Power.RetainAt | src/ram_retention/ram_retention_utils.c:174-178 | one turn ORs (or AND-NOTs) its mask into its own block and leaves every other block as it was |
| Power.SetOrClearTwice | src/ram_retention/ram_retention_utils.c:174-178 | setting or clearing two masks in turn is setting or clearing their union |
| Power.SetOrClearAgain | src/ram_retention/ram_retention_utils.c:174-178 | setting or clearing the same mask again changes nothing |
| Power.RetainAllEffect | src/ram_retention/ram_retention_utils.c:142-182 | after the whole walk, each block is its old value ORed with (enable) or cleared of the bits the walk names in it; blocks it does not name are unchanged |
| Power.RetainAllIdempotent | src/ram_retention/ram_retention_utils.c:142-182 | running the same walk twice leaves the registers as running it once |
| Power.PowerRam.MaskOn | src/ram_retention/ram_retention_utils.c:175 | the register of the block becomes its old value OR the mask; the others are unchanged |
| Power.PowerRam.MaskOff | src/ram_retention/ram_retention_utils.c:177 | the register of the block becomes its old value AND NOT the mask; the others are unchanged |
| RangeRetention.InRangeIff | src/ram_retention/ram_retention_utils.c:130-137 | the accepted ranges are exactly the non-empty ones whose every address lies in RAM |
| RangeRetention.RejectsAsWritten | src/ram_retention/ram_retention_utils.c:133-135 | the guard as written, with `SRAM_END - len` reduced modulo 2^32; its behaviour is stated by the two lemmas below |
| RangeRetention.RejectsAsWrittenWhenNoWrap | src/ram_retention/ram_retention_utils.c:133-137 | while len is at most SRAM_END, the 32-bit guard rejects exactly the ranges that are empty, start below SRAM_BEGIN or end past SRAM_END |
| RangeRetention.RejectsAsWrittenMissesHugeLength | src/ram_retention/ram_retention_utils.c:135 | with 256 KiB of RAM at 0x2000_0000, the 32-bit guard lets the 0xFFFF_FFFF-byte range from the start of RAM through although it is not inside RAM |
| RangeRetention.WalkFits | src/ram_retention/ram_retention_utils.c:154-160 | every location of a walk inside RAM names an existing register and a bit below 16 |
| RangeRetention.WalkStep | src/ram_retention/ram_retention_utils.c:142-182 | one turn of the loop handles the cursor's own section, then continues from the next section while that still starts inside the range |
| RangeRetention.RetainSection | src/ram_retention/ram_retention_utils.c:143-181 | one turn writes the retention bit of the cursor's location into its block and returns the first address of the next section |
| RangeRetention.Sweep | src/ram_retention/ram_retention_utils.c:142-182 | the do-while loop leaves the registers as one set/clear per location of the walk over the range, in order |
| RangeRetention.RangeRetain | src/ram_retention/ram_retention_utils.c:123-185 | an empty range, a start below SRAM_BEGIN or an end past SRAM_END gives -EINVAL and no register changes; otherwise it returns 0 and the registers are those after one set/clear per location of the walk, in order |
| RangeRetention.RangeRegistersAt | src/ram_retention/ram_retention_utils.c:142-182 | after a successful call block b is its old value ORed with (enable) or cleared of the bits the walk names in it |
| RangeRetention.RangeBits | src/ram_retention/ram_retention_utils.c:139-178 | the bits a successful call writes into block b include no power bit, and include the retention bit of section s exactly when some address of the range lies in section s of block b |
| RangeRetention.RangeRegistersIdempotent | src/ram_retention/ram_retention_utils.c:123-185 | a second identical call leaves the registers as the first left them |
| Retained.Image | src/ram_retention/ram_retention_utils.h:55-59 | a record in memory is the value bytes followed by the four crc bytes |
| Retained.Update | src/ram_retention/ram_retention_utils.c:103-109 | the record afterwards is the old record with the little-endian CRC of bytes [0, crc_offset) stored at crc_offset |
| Retained.Clear | src/ram_retention/ram_retention_utils.c:86 | the first n bytes become zero and the rest are unchanged |
| Retained.Validate | src/ram_retention/ram_retention_utils.c:72-98 | returns true exactly when the CRC of the first crc_offset + crc_size bytes is 0x2144DF1C; true leaves the record unchanged, false zeroes its first var_size bytes and keeps the rest; the registers are those of ram_range_retain(ptr, crc_offset + crc_size, true), whose error code is dropped |
| Retained.InitVariableRamRetention | src/ram_retention/ram_retention_utils.c:58-63 | returns exactly what the validation returns, with the same effect on the record and the registers |
| Retained.UpdateThenValidate | src/ram_retention/ram_retention_utils.c:72-109 | for any record size var_size, padding after the crc field included, a validation right after an update returns true and leaves the updated record as it is |
| Retained.SpliceFrame | src/ram_retention/ram_retention_utils.c:107-108 | storing a field changes the bytes it covers and no other byte |
| Retained.StampedFrame | src/ram_retention/ram_retention_utils.c:103-109 | the update writes the four crc bytes with the little-endian CRC and keeps every other byte and the length |
| Retained.StampedChecks | src/ram_retention/ram_retention_utils.c:74-78 | an updated record passes the check |
| Retained.ChecksIff | src/ram_retention/ram_retention_utils.c:79-83 | the check accepts exactly the records whose crc field holds the little-endian CRC of the bytes before it |
| Retained.SpliceUnchangedIff | src/ram_retention/ram_retention_utils.c:107-108 | storing a field leaves the bytes unchanged exactly when they already hold that field there |
| Retained.StampedUnchangedIff | src/ram_retention/ram_retention_utils.c:103-109 | an update leaves a record unchanged exactly when the record already passes the check |
| Retained.StampedIdempotent | src/ram_retention/ram_retention_utils.c:103-109 | updating twice gives the same bytes as updating once |
| Retained.RecordChecksIff | src/ram_retention/ram_retention_utils.h:55-59 | a record `{value; crc}` passes the check exactly when crc is the CRC of value |
| Retained.RecordStamped | src/ram_retention/ram_retention_utils.h:55-59 | updating a record in memory sets its crc field to the CRC of its value and nothing else |
| Retained.BurstFailsCheck | src/ram_retention/ram_retention_utils.c:83-87 | a record that passed the check fails it once damaged inside four consecutive checked bytes, so a flipped bit is caught |
| Retained.CounterRecord | src/ram_retention/ram_retention_utils.c:103-109 | updating the counter record holding 1 gives the bytes 01 00 00 00 79 B8 F8 99, which pass the check |
| Retained.ZeroCounterFails | src/ram_retention/ram_retention_utils.c:79-87 | the eight zero bytes of a never-initialised counter record fail the check |
| Retained.CounterLifecycle | src/ram_retention/ram_retention_utils.c:58-109 | on first boot the zero counter record is rejected; after setting it to 1 and updating, the next validation accepts it, and the counter still reads 1 |

## Left out

- Addresses, lengths and the loop cursor are unbounded naturals. The only 32-bit arithmetic modelled is the guard's `SRAM_END - len` (see Findings). The `addr + len` of `addr_end` cannot wrap once the guard has accepted a range inside RAM below 2^32.
- The `uint8_t` type of `block` is not modelled. The block number `8 + s / 16` first reaches 256 at offset 124 MiB + 64 KiB (0x7C1_0000) from SRAM_BEGIN, so it wraps only for RAM larger than about 124 MiB, far beyond any nRF52.
- Geometry.AdvanceToNextSection, Geometry.SameSection, Geometry.LaterSection, Geometry.WalkFrom, Geometry.WalkIncreasing, Geometry.WalkDistinct, Geometry.WalkComplete, Geometry.WalkNamesExactly and RangeRetention.RangeBits (the walk lemmas) require a 32 KiB-aligned SRAM_BEGIN. The loop advances with the absolute `addr % section_size` and relies on this. Without it the loop can visit a section twice: with RAM at 0x2000_1000, the range [0x2001_1000, 0x2001_9000) visits section 0 of block 8 twice (Geometry.UnalignedVisitsTwice). `RangeRetain` itself holds for any start of RAM.
- RangeRetention.RangeRetain, Retained.Validate, Retained.InitVariableRamRetention, Retained.UpdateThenValidate and Retained.CounterLifecycle require `Covers`: RAM is non-empty and the POWER peripheral has a RAM[x] register for every block of RAM. This is a property of the chip, not a check the code makes.
- The Nordic HAL (`nrf_power_rampower_mask_on/off`, `NRF_POWER`) is not part of this model. Its write-one-to-set and write-one-to-clear registers are modelled as an OR and an AND-NOT on one word per block.
- Zephyr's `crc32_ieee` implementation is not part of this model. CRC-32 is written from the standard it computes, bit step by bit step.
- A record is a byte array plus a separate address. The address decides which sections are retained, and the model does not tie it to the array. The unaligned 32-bit store of the crc field is modelled as four byte writes.
- Retained.Validate and Retained.Update require the checked, zeroed or written bytes to lie inside the record. The C code trusts its caller for this.
- The generated types, defines and `SYS_INIT` wrappers of `ram_retention_utils.h` are preprocessor code generation and boot-order glue. So are the `__noinit` placement, the `RR_Var_Ram_Retain` forwarder to `ram_retained_update`, logging and the `RamRetBoolConditions` constants.
- The demo in `main.c` is timing, atomics, printing and floating point, and is not modelled.
- Retention surviving System OFF is hardware behaviour and is not modelled. So are concurrent writers of the POWER registers or of the record.

## Findings

| source | as written | input that shows it | evidently intended | confidence | as-written member | corrected member |
|---|---|---|---|---|---|---|
| src/ram_retention/ram_retention_utils.c:133-137 | `addr > (SRAM_END - len)` is evaluated in 32-bit `uintptr_t`, so `SRAM_END - len` wraps around when `len > SRAM_END` | RAM at 0x2000_0000 of 256 KiB, `ptr` = 0x2000_0000, `len` = 0xFFFF_FFFF: the guard does not reject the range | reject every range that is empty or not entirely inside RAM, as the comment at lines 130-131 says | not executed | RangeRetention.RejectsAsWrittenMissesHugeLength | RangeRetention.InRangeIff |
