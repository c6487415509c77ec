/**
 * The file checksum. `compute_crc` (source/dfuse-pack.py:37-38) negates the value
 * of zlib's CRC-32 and keeps the low 32 bits. zlib's CRC-32 is the reflected CRC
 * with polynomial 0xEDB88320, register preset to all ones and a final inversion;
 * it is given here bit by bit, on integers, as the specification of that external routine.
 */
module Crc {
  import opened Bytes

  const Polynomial: nat := 0xEDB8_8320
  const AllOnes: nat := 0xFFFF_FFFF

  function Pow2(k: nat): (r: nat)
    ensures r >= 1
  {
    if k == 0 then 1 else 2 * Pow2(k - 1)
  }

  /** Bitwise exclusive or of two natural numbers. */
  function Xor(a: nat, b: nat): nat
    decreases a + b
  {
    if a == 0 && b == 0 then 0
    else (if a % 2 == b % 2 then 0 else 1) + 2 * Xor(a / 2, b / 2)
  }

  /** Exclusive or of two k-bit values is a k-bit value. */
  lemma {:induction false} XorBound(a: nat, b: nat, k: nat)
    requires a < Pow2(k) && b < Pow2(k)
    ensures Xor(a, b) < Pow2(k)
    decreases k
  {
    if k > 0 && (a != 0 || b != 0) {
      XorBound(a / 2, b / 2, k - 1);
    }
  }

  /** Exclusive or with all ones flips every bit, which is subtraction from all ones. */
  lemma {:induction false} XorAllOnes(a: nat, k: nat)
    requires a < Pow2(k)
    ensures Xor(a, Pow2(k) - 1) == Pow2(k) - 1 - a
    decreases k
  {
    if k > 0 {
      XorAllOnes(a / 2, k - 1);
    }
  }

  lemma Pow2Of32()
    ensures Pow2(32) == U32Limit && AllOnes == Pow2(32) - 1 && Polynomial < Pow2(32)
  {
    assert Pow2(8) == 256;
    assert Pow2(16) == 256 * Pow2(8) by { Pow2Add(8, 8); }
    assert Pow2(32) == Pow2(16) * Pow2(16) by { Pow2Add(16, 16); }
  }

  lemma {:induction false} Pow2Add(j: nat, k: nat)
    ensures Pow2(j + k) == Pow2(j) * Pow2(k)
    decreases j
  {
    if j > 0 {
      Pow2Add(j - 1, k);
    }
  }

  /** One shift of the reflected CRC register. */
  function ShiftBit(c: nat): (r: nat)
    requires c < U32Limit
    ensures r < U32Limit
  {
    Pow2Of32();
    if c % 2 == 1 then (XorBound(c / 2, Polynomial, 32); Xor(c / 2, Polynomial)) else c / 2
  }

  function ShiftBits(c: nat, k: nat): (r: nat)
    requires c < U32Limit
    ensures r < U32Limit
    decreases k
  {
    if k == 0 then c else ShiftBits(ShiftBit(c), k - 1)
  }

  /** The register after one more byte: XOR the byte in at the low end, then shift eight times. */
  function UpdateByte(c: nat, b: byte): (r: nat)
    requires c < U32Limit
    ensures r < U32Limit
  {
    Pow2Of32();
    XorBound(c, b, 32);
    ShiftBits(Xor(c, b), 8)
  }

  /** The register after all of the data, starting from all ones. */
  function Register(data: seq<byte>): (r: nat)
    ensures r < U32Limit
  {
    if data == [] then AllOnes else UpdateByte(Register(data[..|data| - 1]), data[|data| - 1])
  }

  /** zlib.crc32 of the data: the final register, inverted. */
  function Crc32(data: seq<byte>): (r: nat)
    ensures r < U32Limit
  {
    Pow2Of32();
    XorBound(Register(data), AllOnes, 32);
    Xor(Register(data), AllOnes)
  }

  /** `0xFFFFFFFF & -crc32(data) - 1`; Python's `&` on a negative integer acts on its
      two's complement, which is the floored remainder modulo 2^32. */
  function ComputeCrc(data: seq<byte>): (r: nat)
    ensures r < U32Limit
  {
    var c: int := Crc32(data);
    var m: int := (-c - 1) % 0x1_0000_0000;
    m
  }

  /** The file checksum is the bitwise complement of CRC-32, that is, the CRC register
      before zlib's final inversion. */
  lemma ComputeCrcIsComplement(data: seq<byte>)
    ensures ComputeCrc(data) == AllOnes - Crc32(data)
    ensures ComputeCrc(data) == Register(data)
  {
    Pow2Of32();
    XorAllOnes(Register(data), 32);
  }
}
