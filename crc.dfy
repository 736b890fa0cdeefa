/**
 * The CRC-32 of section 5.5 of the PNG Specification (Second Edition): reflected polynomial
 * 0xEDB88320, register preset to all ones, final complement. It stands for the `crc_any`
 * routine, which is called as an incremental digest: a register that is fed byte ranges one
 * after the other and read out at the end.
 */
module Crc {
  import opened Bytes

  const POLYNOMIAL: bv32 := 0xEDB8_8320
  const PRESET: bv32 := 0xFFFF_FFFF

  /** `k` rounds of the bitwise shift-register step. */
  function Shift(c: bv32, k: nat): bv32
    decreases k
  {
    if k == 0 then c
    else Shift(if c & 1 == 1 then POLYNOMIAL ^ (c >> 1) else c >> 1, k - 1)
  }

  /** Feeds one byte into the register. */
  function Step(c: bv32, b: byte): bv32 {
    Shift(c ^ (b as bv32), 8)
  }

  /** Feeds a byte range into the register, first byte first (`CRC::digest`). */
  function Update(c: bv32, s: seq<byte>): bv32
    decreases |s|
  {
    if s == [] then c else Update(Step(c, s[0]), s[1..])
  }

  /** The register read out (`CRC::get_crc`). */
  function Finish(c: bv32): bv32 {
    c ^ PRESET
  }

  /** The CRC-32 of a whole byte string. */
  function Crc32(s: seq<byte>): bv32 {
    Finish(Update(PRESET, s))
  }

  /** Digesting `a` and then `b` leaves the register as digesting `a + b` in one go. */
  lemma {:induction false} UpdateAppend(c: bv32, a: seq<byte>, b: seq<byte>)
    ensures Update(c, a + b) == Update(Update(c, a), b)
    decreases |a|
  {
    if a == [] {
      assert a + b == b;
    } else {
      assert (a + b)[0] == a[0];
      assert (a + b)[1..] == a[1..] + b;
      UpdateAppend(Step(c, a[0]), a[1..], b);
    }
  }

  /** Three successive digests, as `Chunk::crc` does them, give the CRC of the concatenation. */
  lemma DigestThree(a: seq<byte>, b: seq<byte>, d: seq<byte>)
    ensures Finish(Update(Update(Update(PRESET, a), b), d)) == Crc32(a + b + d)
  {
    UpdateAppend(PRESET, a, b);
    UpdateAppend(PRESET, a + b, d);
  }
}
