/**
 * Variables kept in RAM across System OFF, guarded by a CRC.
 *
 * A retained record is the variable followed by a `uint32_t crc` (the
 * layout `RamRetTypeDeclare` declares). `ram_retained_update` stores the
 * CRC-32 of the bytes before the crc field into it, least significant byte
 * first; `ram_retained_validate` runs CRC-32 over the bytes up to and
 * including the crc field and accepts the record when the result is the
 * CRC-32 residue, zeroing the record otherwise, and in both cases asks the
 * POWER peripheral to retain the checked bytes in System OFF.
 *
 * Memory is a byte array; the record's address in RAM, which decides the
 * sections to retain, is a separate parameter.
 */
module Retained {
  import opened Crc32
  import opened Geometry
  import opened Power
  import opened RangeRetention

  /** Size of the crc field: a `uint32_t`. */
  const CrcSize: nat := 4

  /** A retained record: the bytes before the crc field (the variable and
      any padding), and the crc field. */
  datatype Record = Record(value: seq<bv8>, crc: bv32)

  /** The record as it lies in memory on the little-endian Cortex-M4. */
  function Image(r: Record): (bytes: seq<bv8>)
    ensures |bytes| == |r.value| + CrcSize
  {
    r.value + LittleEndian(r.crc)
  }

  /** CRC-32 over the first `n` bytes gives the residue. */
  predicate Checks(bytes: seq<bv8>, n: nat)
    requires n <= |bytes|
  {
    Crc(bytes[..n]) == Residue
  }

  /** `bytes` with `field` written over it from `off` on. */
  function Splice(bytes: seq<bv8>, off: nat, field: seq<bv8>): seq<bv8>
    requires off + |field| <= |bytes|
  {
    bytes[..off] + field + bytes[off + |field|..]
  }

  /** `bytes` with the CRC of its first `off` bytes stored little-endian at `off`. */
  function Stamped(bytes: seq<bv8>, off: nat): seq<bv8>
    requires off + CrcSize <= |bytes|
  {
    Splice(bytes, off, LittleEndian(Crc(bytes[..off])))
  }

  /** `bytes` with its first `n` bytes set to zero. */
  function Zeroed(bytes: seq<bv8>, n: nat): seq<bv8>
    requires n <= |bytes|
  {
    Zeros(n) + bytes[n..]
  }

  /* ---------------------------------------------------------------------
   * The operations
   * ------------------------------------------------------------------- */

  /**
   * `ram_retained_update`: store the CRC of the bytes before the crc field
   * into the crc field, in one 32-bit little-endian store.
   */
  method Update(rec: array<bv8>, crcOffset: nat)
    requires crcOffset + CrcSize <= rec.Length
    modifies rec
    ensures rec[..] == Stamped(old(rec[..]), crcOffset)
  {
    var crc := Crc(rec[..crcOffset]);
    var field := LittleEndian(crc);
    forall i | 0 <= i < CrcSize {
      rec[crcOffset + i] := field[i];
    }
  }

  /** `memset(rec, 0, n)`. */
  method Clear(rec: array<bv8>, n: nat)
    requires n <= rec.Length
    modifies rec
    ensures rec[..] == Zeroed(old(rec[..]), n)
  {
    forall i | 0 <= i < n {
      rec[i] := 0;
    }
    assert rec[..] == Zeroed(old(rec[..]), n);
  }

  /**
   * `ram_retained_validate`: the record is valid when CRC-32 over the
   * `crcOffset + crcSize` checked bytes is the residue; an invalid record
   * has its first `varSize` bytes zeroed. Either way retention is then
   * requested for the checked bytes, and the result of that request is
   * dropped.
   */
  method Validate(g: Sram, power: PowerRam, rec: array<bv8>, addr: nat, varSize: nat, crcOffset: nat, crcSize: nat)
    returns (valid: bool)
    requires Covers(g, power)
    requires crcOffset + crcSize <= rec.Length && varSize <= rec.Length
    modifies rec, power.ram
    ensures valid <==> Checks(old(rec[..]), crcOffset + crcSize)
    ensures valid ==> rec[..] == old(rec[..])
    ensures !valid ==> rec[..] == Zeroed(old(rec[..]), varSize)
    ensures InRange(g, addr, crcOffset + crcSize) ==>
              power.ram[..] == RangeRegisters(g, old(power.ram[..]), addr, crcOffset + crcSize, true)
    ensures !InRange(g, addr, crcOffset + crcSize) ==> power.ram[..] == old(power.ram[..])
  {
    var checked := crcOffset + crcSize;
    var crc := Crc(rec[..checked]);
    valid := crc == Residue;
    if !valid {
      Clear(rec, varSize);
    }
    var _ := RangeRetain(g, power, addr, checked, true);
  }

  /** `RR_Init_Variable_Ram_Retention`: validate the record and report the result. */
  method InitVariableRamRetention(g: Sram, power: PowerRam, rec: array<bv8>, addr: nat, varSize: nat, crcOffset: nat, crcSize: nat)
    returns (valid: bool)
    requires Covers(g, power)
    requires crcOffset + crcSize <= rec.Length && varSize <= rec.Length
    modifies rec, power.ram
    ensures valid <==> Checks(old(rec[..]), crcOffset + crcSize)
    ensures valid ==> rec[..] == old(rec[..])
    ensures !valid ==> rec[..] == Zeroed(old(rec[..]), varSize)
    ensures InRange(g, addr, crcOffset + crcSize) ==>
              power.ram[..] == RangeRegisters(g, old(power.ram[..]), addr, crcOffset + crcSize, true)
    ensures !InRange(g, addr, crcOffset + crcSize) ==> power.ram[..] == old(power.ram[..])
  {
    valid := Validate(g, power, rec, addr, varSize, crcOffset, crcSize);
  }

  /**
   * A record updated before System OFF validates on the next boot and
   * keeps its bytes: update, then validate it with its full size
   * `varSize`, trailing padding after the crc field included.
   */
  method UpdateThenValidate(g: Sram, power: PowerRam, rec: array<bv8>, addr: nat, varSize: nat, crcOffset: nat)
    returns (valid: bool)
    requires Covers(g, power)
    requires crcOffset + CrcSize <= rec.Length && varSize <= rec.Length
    modifies rec, power.ram
    ensures valid
    ensures rec[..] == Stamped(old(rec[..]), crcOffset)
  {
    Update(rec, crcOffset);
    StampedChecks(old(rec[..]), crcOffset);
    valid := Validate(g, power, rec, addr, varSize, crcOffset, CrcSize);
  }

  /* ---------------------------------------------------------------------
   * The stamp and the check
   * ------------------------------------------------------------------- */

  /** Writing `field` at `off` changes the bytes it covers and no other. */
  lemma SpliceFrame(bytes: seq<bv8>, off: nat, field: seq<bv8>, i: nat)
    requires off + |field| <= |bytes| && i < |bytes|
    ensures |Splice(bytes, off, field)| == |bytes|
    ensures Splice(bytes, off, field)[i] == if off <= i < off + |field| then field[i - off] else bytes[i]
  {
    var s := Splice(bytes, off, field);
    if i < off {
      assert s[i] == bytes[..off][i];
    } else if i >= off + |field| {
      assert s[i] == bytes[off + |field|..][i - off - |field|];
    }
  }

  /** The update writes the four bytes of the crc field and no other byte. */
  lemma StampedFrame(bytes: seq<bv8>, off: nat, i: nat)
    requires off + CrcSize <= |bytes| && i < |bytes|
    ensures |Stamped(bytes, off)| == |bytes|
    ensures off <= i < off + CrcSize ==> Stamped(bytes, off)[i] == LittleEndian(Crc(bytes[..off]))[i - off]
    ensures !(off <= i < off + CrcSize) ==> Stamped(bytes, off)[i] == bytes[i]
  {
    SpliceFrame(bytes, off, LittleEndian(Crc(bytes[..off])), i);
  }

  /** The bytes up to the end of a written field: the bytes before it, then the field. */
  lemma SplicePrefix(bytes: seq<bv8>, off: nat, field: seq<bv8>)
    requires off + |field| <= |bytes|
    ensures Splice(bytes, off, field)[..off] == bytes[..off]
    ensures Splice(bytes, off, field)[..off + |field|] == bytes[..off] + field
  {
    var s := Splice(bytes, off, field);
    assert s[..off + |field|] == bytes[..off] + field;
  }

  /** The checked bytes of a stamped record: the message, then its CRC. */
  lemma StampedPrefix(bytes: seq<bv8>, off: nat)
    requires off + CrcSize <= |bytes|
    ensures Stamped(bytes, off)[..off] == bytes[..off]
    ensures Stamped(bytes, off)[..off + CrcSize] == bytes[..off] + LittleEndian(Crc(bytes[..off]))
  {
    SplicePrefix(bytes, off, LittleEndian(Crc(bytes[..off])));
  }

  /** After an update the record validates: the residue property of CRC-32. */
  lemma StampedChecks(bytes: seq<bv8>, off: nat)
    requires off + CrcSize <= |bytes|
    ensures Checks(Stamped(bytes, off), off + CrcSize)
  {
    StampedPrefix(bytes, off);
    CrcOfStamped(bytes[..off]);
  }

  /**
   * The check accepts exactly the records whose crc field holds the CRC of
   * the bytes before it, least significant byte first.
   */
  lemma ChecksIff(bytes: seq<bv8>, off: nat)
    requires off + CrcSize <= |bytes|
    ensures Checks(bytes, off + CrcSize) <==> bytes[off..off + CrcSize] == LittleEndian(Crc(bytes[..off]))
  {
    var field := bytes[off..off + CrcSize];
    assert bytes[..off + CrcSize] == bytes[..off] + field;
    ResidueIff(bytes[..off], field);
    LittleEndianRoundTrip(Crc(bytes[..off]));
    FromLittleEndianRoundTrip(field);
  }

  /** Writing `field` at `off` leaves `bytes` as they are exactly when they already hold it there. */
  lemma SpliceUnchangedIff(bytes: seq<bv8>, off: nat, field: seq<bv8>)
    requires off + |field| <= |bytes|
    ensures Splice(bytes, off, field) == bytes <==> bytes[off..off + |field|] == field
  {
    var s := Splice(bytes, off, field);
    assert s[off..off + |field|] == field;
    if bytes[off..off + |field|] == field {
      assert bytes == bytes[..off] + bytes[off..off + |field|] + bytes[off + |field|..];
    }
  }

  /** An update leaves the record as it is exactly when the record already validates. */
  lemma StampedUnchangedIff(bytes: seq<bv8>, off: nat)
    requires off + CrcSize <= |bytes|
    ensures Stamped(bytes, off) == bytes <==> Checks(bytes, off + CrcSize)
  {
    ChecksIff(bytes, off);
    SpliceUnchangedIff(bytes, off, LittleEndian(Crc(bytes[..off])));
  }

  /** Updating twice stores the same CRC as updating once. */
  lemma StampedIdempotent(bytes: seq<bv8>, off: nat)
    requires off + CrcSize <= |bytes|
    ensures Stamped(Stamped(bytes, off), off) == Stamped(bytes, off)
  {
    StampedChecks(bytes, off);
    StampedUnchangedIff(Stamped(bytes, off), off);
  }

  /** A record validates exactly when its crc field is the CRC of its value. */
  lemma RecordChecksIff(r: Record)
    ensures Checks(Image(r), |r.value| + CrcSize) <==> r.crc == Crc(r.value)
  {
    var bytes := Image(r);
    assert bytes[..|r.value| + CrcSize] == r.value + LittleEndian(r.crc);
    ResidueIff(r.value, LittleEndian(r.crc));
    LittleEndianRoundTrip(r.crc);
  }

  /** Updating a record in memory is setting its crc field to the CRC of its value. */
  lemma RecordStamped(r: Record)
    ensures Stamped(Image(r), |r.value|) == Image(Record(r.value, Crc(r.value)))
  {
    var bytes := Image(r);
    assert bytes[..|r.value|] == r.value;
    assert bytes[|r.value| + CrcSize..] == [];
  }

  /**
   * Damage to a validated record confined to four consecutive checked
   * bytes makes it fail the check.
   */
  lemma BurstFailsCheck(bytes: seq<bv8>, damaged: seq<bv8>, n: nat, j: nat)
    requires n <= |bytes| == |damaged| && j + 4 <= n
    requires forall i :: 0 <= i < n && !(j <= i < j + 4) ==> bytes[i] == damaged[i]
    requires bytes[..n] != damaged[..n]
    requires Checks(bytes, n)
    ensures !Checks(damaged, n)
  {
    BurstDetected(bytes[..n], damaged[..n], j);
  }

  /* ---------------------------------------------------------------------
   * A concrete record
   * ------------------------------------------------------------------- */

  /** The little-endian bytes of the counter record's CRC. */
  lemma CounterCrcBytes()
    ensures LittleEndian(0x99F8_B879) == [0x79, 0xB8, 0xF8, 0x99]
  {
  }

  lemma CounterPrefix(bytes: seq<bv8>)
    requires bytes == [1, 0, 0, 0, 0, 0, 0, 0]
    ensures Crc(bytes[..4]) == 0x99F8_B879
  {
    assert bytes[..4] == [1, 0, 0, 0];
    CrcOfCounterOne();
  }

  lemma CounterSplice(bytes: seq<bv8>, field: seq<bv8>)
    requires bytes == [1, 0, 0, 0, 0, 0, 0, 0] && field == [0x79, 0xB8, 0xF8, 0x99]
    ensures Splice(bytes, 4, field) == [1, 0, 0, 0, 0x79, 0xB8, 0xF8, 0x99]
  {
  }

  /**
   * A retained `uint32_t` counter holding 1: the update stores 0x99F8_B879
   * little-endian after it, and the record then validates.
   */
  lemma CounterRecord()
    ensures Stamped([1, 0, 0, 0, 0, 0, 0, 0], 4) == [1, 0, 0, 0, 0x79, 0xB8, 0xF8, 0x99]
    ensures Checks([1, 0, 0, 0, 0x79, 0xB8, 0xF8, 0x99], 8)
  {
    var bytes: seq<bv8> := [1, 0, 0, 0, 0, 0, 0, 0];
    CounterPrefix(bytes);
    CounterCrcBytes();
    CounterSplice(bytes, LittleEndian(0x99F8_B879));
    StampedChecks(bytes, 4);
  }

  /**
   * A never-initialised counter record of eight zero bytes fails the check:
   * its crc field would have to hold the CRC of four zero bytes, which is
   * the residue and not zero.
   */
  lemma ZeroCounterFails()
    ensures !Checks([0, 0, 0, 0, 0, 0, 0, 0], 8)
  {
    var bytes: seq<bv8> := [0, 0, 0, 0, 0, 0, 0, 0];
    assert bytes[..4] == [0, 0, 0, 0];
    assert bytes[4..8] == [0, 0, 0, 0];
    CrcOfFourZeros();
    ChecksIff(bytes, 4);
  }

  /**
   * First boot of a retained `uint32_t` counter: the zero record is
   * rejected, the counter is set to 1 and updated, and the next
   * validation accepts it with the counter still 1.
   */
  method CounterLifecycle(g: Sram, power: PowerRam, addr: nat) returns (first: bool, second: bool, rec: array<bv8>)
    requires Covers(g, power)
    modifies power.ram
    ensures !first && second
    ensures rec[..] == [1, 0, 0, 0, 0x79, 0xB8, 0xF8, 0x99]
  {
    rec := new bv8[8](_ => 0);
    assert rec[..] == [0, 0, 0, 0, 0, 0, 0, 0];
    ZeroCounterFails();
    first := InitVariableRamRetention(g, power, rec, addr, 8, 4, CrcSize);
    rec[0] := 1;
    assert rec[..] == [1, 0, 0, 0, 0, 0, 0, 0];
    CounterRecord();
    second := UpdateThenValidate(g, power, rec, addr, 8, 4);
  }
}
