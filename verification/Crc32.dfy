/**
 * CRC-32 over the reflected polynomial 0xEDB88320 (section 3.2.9 of IEEE 802.3):
 * the register step, the byte step and the unrolled loop of the code, and the
 * bit-serial form all later results are stated on.
 */
module Crc32 {
  type Octet = bv8
  type Octets = seq<Octet>

  const POLY: bv32 := 0xEDB88320
  const ONES: bv32 := 0xFFFF_FFFF
  const TOP: bv32 := 0x8000_0000

  // Registers are vectors over GF(2). These three operations are all the theory needs.

  /** Addition of registers: bitwise exclusive or. */
  function Plus(a: bv32, b: bv32): bv32 { a ^ b }

  function Half(r: bv32): bv32 { r >> 1 }

  function Odd(r: bv32): bool { r & 1 == 1 }

  /** The register moves right one bit; the polynomial is added when a 1 falls out. */
  function Shift(r: bv32): bv32 {
    Plus(Half(r), if Odd(r) then POLY else 0)
  }

  function Shift4(r: bv32): bv32 { Shift(Shift(Shift(Shift(r)))) }

  function Widen(b: Octet): bv32 { b as bv32 }

  /** The register after taking in one whole byte. */
  function Absorb(r: bv32, b: Octet): bv32 { Shift4(Shift4(Plus(r, Widen(b)))) }

  /** The register after taking in a byte string, one byte at a time. */
  function Fold(r: bv32, data: Octets): bv32
    decreases |data|
  {
    if data == [] then r else Fold(Absorb(r, data[0]), data[1..])
  }

  function Crc(data: Octets): bv32 { Plus(Fold(ONES, data), ONES) }

  // ---- The code -------------------------------------------------------------

  lemma MaskSelectsPoly(r: bv32)
    ensures (r >> 1) ^ (POLY & (0 - (r & 1))) == Shift(r)
  {
    if r & 1 == 1 {
      assert 0 - (r & 1) == ONES;
    } else {
      assert r & 1 == 0;
    }
  }

  method Crc32Byte(crc0: bv32, byte: Octet) returns (crc: bv32)
    ensures crc == Absorb(crc0, byte)
  {
    crc := crc0 ^ (byte as bv32);
    MaskSelectsPoly(crc);
    crc := (crc >> 1) ^ (POLY & (0 - (crc & 1)));
    MaskSelectsPoly(crc);
    crc := (crc >> 1) ^ (POLY & (0 - (crc & 1)));
    MaskSelectsPoly(crc);
    crc := (crc >> 1) ^ (POLY & (0 - (crc & 1)));
    MaskSelectsPoly(crc);
    crc := (crc >> 1) ^ (POLY & (0 - (crc & 1)));
    MaskSelectsPoly(crc);
    crc := (crc >> 1) ^ (POLY & (0 - (crc & 1)));
    MaskSelectsPoly(crc);
    crc := (crc >> 1) ^ (POLY & (0 - (crc & 1)));
    MaskSelectsPoly(crc);
    crc := (crc >> 1) ^ (POLY & (0 - (crc & 1)));
    MaskSelectsPoly(crc);
    crc := (crc >> 1) ^ (POLY & (0 - (crc & 1)));
  }

  method Crc32Compute(data: array<Octet>, len: nat) returns (crc: bv32)
    requires len <= data.Length
    ensures crc == Crc(data[..len])
  {
    hide *;
    crc := ONES;
    var i := 0;
    FoldEmpty(data[..0]);
    var unrolled := len - len % 4;
    while i < unrolled
      invariant 0 <= i <= unrolled && i % 4 == 0
      invariant crc == Fold(ONES, data[..i])
    {
      crc := Crc32Byte(crc, data[i]);
      FoldSnoc(ONES, data[..], i);
      crc := Crc32Byte(crc, data[i + 1]);
      FoldSnoc(ONES, data[..], i + 1);
      crc := Crc32Byte(crc, data[i + 2]);
      FoldSnoc(ONES, data[..], i + 2);
      crc := Crc32Byte(crc, data[i + 3]);
      FoldSnoc(ONES, data[..], i + 3);
      i := i + 4;
    }
    while i < len
      invariant unrolled <= i <= len
      invariant crc == Fold(ONES, data[..i])
    {
      crc := Crc32Byte(crc, data[i]);
      FoldSnoc(ONES, data[..], i);
      i := i + 1;
    }
    crc := Plus(crc, ONES);
    CrcIsFold(data[..len]);
  }

  lemma FoldEmpty(data: Octets)
    ensures data == [] ==> Fold(ONES, data) == ONES
  {}

  lemma CrcIsFold(data: Octets)
    ensures Crc(data) == Plus(Fold(ONES, data), ONES)
  {}

  lemma {:induction false} FoldConcat(r: bv32, a: Octets, b: Octets)
    ensures Fold(r, a + b) == Fold(Fold(r, a), b)
    decreases |a|
  {
    if a == [] {
      assert a + b == b;
    } else {
      assert (a + b)[0] == a[0] && (a + b)[1..] == a[1..] + b;
      FoldConcat(Absorb(r, a[0]), a[1..], b);
    }
  }

  lemma FoldSnoc(r: bv32, data: Octets, i: nat)
    requires i < |data|
    ensures Fold(r, data[..i + 1]) == Absorb(Fold(r, data[..i]), data[i])
    ensures data[..i + 1] == data[..i] + [data[i]]
  {
    assert data[..i + 1] == data[..i] + [data[i]];
    FoldConcat(r, data[..i], [data[i]]);
    assert [data[i]][1..] == [];
  }
}
