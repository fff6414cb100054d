/**
 * The checksum as polynomial division over GF(2), the definition of section 3.2.9 of
 * IEEE 802.3: the message, its first 32 bits complemented, times x^32, divided by the
 * generator; the remainder is complemented. Division here is schoolbook long division
 * on coefficient strings and shares nothing with the register algorithm.
 */
module Crc32Division {
  import opened Crc32
  import opened Crc32Bits

  /** The powers of x with coefficient 1 in the generator. */
  const EXPONENTS := {32, 26, 23, 22, 16, 12, 11, 10, 8, 7, 5, 4, 2, 1, 0}

  /** The generator's coefficients, highest power first. */
  function Generator(): (g: Bits)
    ensures |g| == 33
  {
    seq(33, i requires 0 <= i < 33 => 32 - i in EXPONENTS)
  }

  /** Long division of a coefficient string, highest power first; the remainder has 32 coefficients. */
  function Remainder(w: Bits): (r: Bits)
    requires |w| >= 32
    ensures |r| == 32
    decreases |w|
  {
    if |w| == 32 then w
    else if w[0] then Remainder((Xor(w[..33], Generator()) + w[33..])[1..])
    else Remainder(w[1..])
  }

  function Complement(w: Bits): (c: Bits)
    ensures |c| == |w|
  {
    seq(|w|, i requires 0 <= i < |w| => !w[i])
  }

  /** The message times x^32 with its first 32 coefficients complemented. */
  function Dividend(message: Bits): (w: Bits)
    ensures |w| == |message| + 32
  {
    var shifted := message + Zeros(32);
    Complement(shifted[..32]) + shifted[32..]
  }

  /** What is left to divide when the register holds r and the message bits m are still to come. */
  function Pending(r: bv32, m: Bits): (w: Bits)
    ensures |w| == |m| + 32
  {
    Xor(WordBits(r, 32) + Zeros(|m|), m + Zeros(32))
  }

  lemma Nibble(r: bv32, n: nat)
    ensures WordBits(r, n + 4) ==
      [Odd(r), Odd(Half(r)), Odd(Half(Half(r))), Odd(Half(Half(Half(r))))] + WordBits(Half(Half(Half(Half(r)))), n)
  {
    hide WordBits, Half, Odd;
    var a, b, c := Half(r), Half(Half(r)), Half(Half(Half(r)));
    FirstBit(r, n + 3);
    FirstBit(a, n + 2);
    FirstBit(b, n + 1);
    FirstBit(c, n);
  }

  lemma FirstBit(r: bv32, n: nat)
    ensures WordBits(r, n + 1) == [Odd(r)] + WordBits(Half(r), n)
  {}

  lemma GeneratorIsPoly()
    ensures Generator()[0]
    ensures Generator()[1..] == WordBits(POLY, 32)
  {
    hide WordBits;
    Nibble(0xEDB88320, 28);
    Nibble(0xEDB8832, 24);
    Nibble(0xEDB883, 20);
    Nibble(0xEDB88, 16);
    Nibble(0xEDB8, 12);
    Nibble(0xEDB, 8);
    Nibble(0xED, 4);
    Nibble(0xE, 0);
  }

  // ---- Division and the register agree ----------------------------------------

  lemma {:induction false} BitAt(x: bv32, n: nat, i: nat)
    requires i < n
    ensures WordBits(x, n)[i] == Odd(Drop(x, i))
    decreases n
  {
    hide Half, Odd;
    if i > 0 {
      BitAt(Half(x), n - 1, i - 1);
    }
  }

  function ByteOff(x: bv32): bv32 { x >> 8 }

  lemma DropByte(x: bv32, n: nat)
    ensures Drop(x, n + 8) == Drop(ByteOff(x), n)
  {
    hide Drop, Half, ByteOff;
    var a := Half(Half(Half(Half(x))));
    DropFour(x, n + 4);
    DropFour(a, n);
    EightHalves(x);
  }

  lemma EightHalves(x: bv32)
    ensures Half(Half(Half(Half(Half(Half(Half(Half(x)))))))) == ByteOff(x)
  {}

  lemma DropFour(x: bv32, n: nat)
    ensures Drop(x, n + 4) == Drop(Half(Half(Half(Half(x)))), n)
  {
    hide Half;
    assert Drop(x, n + 4) == Drop(Half(Half(x)), n + 2);
  }

  lemma WordIs32Bits(x: bv32)
    ensures Drop(x, 32) == 0
  {
    hide Drop, ByteOff;
    DropByte(x, 24);
    DropByte(ByteOff(x), 16);
    DropByte(ByteOff(ByteOff(x)), 8);
    DropByte(ByteOff(ByteOff(ByteOff(x))), 0);
    FourBytesOff(x);
    DropNone(0);
  }

  lemma FourBytesOff(x: bv32)
    ensures ByteOff(ByteOff(ByteOff(ByteOff(x)))) == 0
  {}

  lemma DropNone(x: bv32)
    ensures Drop(x, 0) == x
  {}

  lemma {:induction false} WordBitsLinear(a: bv32, b: bv32, n: nat)
    ensures WordBits(Plus(a, b), n) == Xor(WordBits(a, n), WordBits(b, n))
    decreases n
  {
    hide Plus, Half, Odd;
    if n > 0 {
      OddLinear(a, b);
      HalfLinear(a, b);
      WordBitsLinear(Half(a), Half(b), n - 1);
    }
  }

  lemma HalfBits(r: bv32)
    ensures WordBits(Half(r), 32) == WordBits(r, 32)[1..] + [false]
  {
    hide WordBits, Half, Odd;
    FirstBit(r, 32);
    WordIs32Bits(r);
    var w := WordBits(r, 33);
    forall i: nat | i < 32
      ensures WordBits(r, 32)[i] == w[i]
    {
      BitAt(r, 32, i);
      BitAt(r, 33, i);
    }
    BitAt(r, 33, 32);
    assert !Odd(0) by { ZeroIsEven(); }
    assert WordBits(Half(r), 32) == w[1..];
  }

  lemma ZeroIsEven()
    ensures !Odd(0)
  {}

  lemma BitWordParts(r: bv32, b: bool)
    ensures Half(Plus(r, BitWord(b))) == Half(r)
    ensures Odd(Plus(r, BitWord(b))) == (Odd(r) != b)
  {}

  lemma PendingTail(r: bv32, m: Bits)
    requires m != []
    ensures
      var w := Pending(r, m);
      w[0] == (Odd(r) != m[0]) && w[1..] == Pending(Half(r), m[1..])
  {
    hide Half, Odd, WordBits;
    FirstBit(r, 31);
    HalfBits(r);
  }

  /** Adding to the register changes the first 32 of the bits that are left. */
  lemma PendingPlus(a: bv32, b: bv32, m: Bits)
    ensures Pending(Plus(a, b), m) == Xor(Pending(a, m)[..32], WordBits(b, 32)) + Pending(a, m)[32..]
  {
    hide Plus, WordBits;
    WordBitsLinear(a, b, 32);
  }

  lemma XorTail(a: Bits, b: Bits)
    requires |a| == |b| > 0
    ensures Xor(a, b)[1..] == Xor(a[1..], b[1..])
  {}

  /** One round of long division is one step of the register. */
  lemma PendingStep(r: bv32, m: Bits)
    requires m != []
    ensures
      var w := Pending(r, m);
      var next := Pending(Shift(Plus(r, BitWord(m[0]))), m[1..]);
      if w[0] then (Xor(w[..33], Generator()) + w[33..])[1..] == next else w[1..] == next
  {
    hide Plus, Half, Odd, BitWord, Generator, WordBits, Drop, Pending, Xor;
    var w := Pending(r, m);
    BitWordParts(r, m[0]);
    PendingTail(r, m);
    PlusZero(Half(r));
    if w[0] {
      PendingPlus(Half(r), POLY, m[1..]);
      GeneratorIsPoly();
      XorTail(w[..33], Generator());
      assert w[..33][1..] == w[1..][..32] && w[33..] == w[1..][32..];
      assert (Xor(w[..33], Generator()) + w[33..])[1..] == Xor(w[..33], Generator())[1..] + w[33..];
    }
  }

  lemma {:induction false} RemainderIsRegister(r: bv32, m: Bits)
    ensures Remainder(Pending(r, m)) == WordBits(Feed(r, m), 32)
    decreases |m|
  {
    hide Shift, Plus, BitWord, Generator, WordBits;
    if m == [] {
      assert Pending(r, m) == WordBits(r, 32);
    } else {
      PendingStep(r, m);
      RemainderIsRegister(Shift(Plus(r, BitWord(m[0]))), m[1..]);
    }
  }

  lemma OnesBits()
    ensures forall i :: 0 <= i < 32 ==> WordBits(ONES, 32)[i]
  {
    hide WordBits;
    Nibble(0xFFFF_FFFF, 28);
    Nibble(0xFFF_FFFF, 24);
    Nibble(0xFF_FFFF, 20);
    Nibble(0xF_FFFF, 16);
    Nibble(0xFFFF, 12);
    Nibble(0xFFF, 8);
    Nibble(0xFF, 4);
    Nibble(0xF, 0);
  }

  /**
   * The checksum of any byte string is the complemented remainder of its polynomial:
   * register bit i holds the coefficient of x^(31 - i).
   */
  lemma CrcIsPolynomialRemainder(data: Octets)
    ensures WordBits(Crc(data), 32) == Complement(Remainder(Dividend(MessageBits(data))))
  {
    hide Crc, Fold, Feed, Plus, WordBits, Remainder, MessageBits;
    var m := MessageBits(data);
    OnesBits();
    assert Pending(ONES, m) == Dividend(m);
    RemainderIsRegister(ONES, m);
    CrcIsFeed(data);
    WordBitsLinear(Feed(ONES, m), ONES, 32);
  }
}
