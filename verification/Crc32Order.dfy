/**
 * The order of x modulo the generator, and the errors of two bits. In the register, bit i holds
 * the coefficient of x^(31 - i), and one shift multiplies by x. The powers of x repeat after
 * 2^32 - 1 steps and not before, so two wrong bits cancel only at multiples of that distance.
 */
module Crc32Order {
  import opened Crc32
  import opened Crc32Bits
  import opened Crc32Division
  import opened Crc32Detection

  const ORDER := 0xFFFF_FFFF

  /** The register that holds x^n modulo the generator. */
  function Power(n: nat): bv32 { Feed(TOP, Zeros(n)) }

  // ---- Products of registers ---------------------------------------------------------

  /** Horner's rule: each bit, highest power first, adds b to what was gathered, times x. */
  function Horner(acc: bv32, bits: Bits, b: bv32): bv32
    decreases |bits|
  {
    if bits == [] then acc else Horner(Plus(Shift(acc), if bits[0] then b else 0), bits[1..], b)
  }

  /** The product of two registers modulo the generator. */
  function Product(a: bv32, b: bv32): bv32 { Horner(0, WordBits(a, 32), b) }

  lemma {:induction false} HornerShift(acc: bv32, bits: Bits, b: bv32)
    ensures Horner(Shift(acc), bits, Shift(b)) == Shift(Horner(acc, bits, b))
    decreases |bits|
  {
    hide Shift, Plus;
    if bits != [] {
      var add := if bits[0] then b else 0;
      ShiftLinear(Shift(acc), add);
      ShiftZero();
      HornerShift(Plus(Shift(acc), add), bits[1..], b);
    }
  }

  lemma ShiftZero()
    ensures Shift(0) == 0 && Shift(1) == POLY
  {}

  /** Feeding bits is Horner's rule on x^32. */
  lemma {:induction false} FeedIsHorner(acc: bv32, bits: Bits)
    ensures Feed(acc, bits) == Horner(acc, bits, POLY)
    decreases |bits|
  {
    hide Shift, Plus;
    if bits != [] {
      ShiftLinear(acc, BitWord(bits[0]));
      ShiftZero();
      FeedIsHorner(Shift(Plus(acc, BitWord(bits[0]))), bits[1..]);
    }
  }

  lemma {:induction false} ProductShifts(a: bv32, b: bv32, n: nat)
    ensures Product(a, Feed(b, Zeros(n))) == Feed(Product(a, b), Zeros(n))
    decreases n
  {
    hide Shift, Horner, WordBits, Feed;
    if n == 0 {
      FeedNothing(b);
      FeedNothing(Product(a, b));
    } else {
      OneZero(b, n - 1);
      OneZero(Product(a, b), n - 1);
      ShiftZero();
      HornerShift(0, WordBits(a, 32), b);
      ProductShifts(a, Shift(b), n - 1);
    }
  }

  lemma PowerOf32()
    ensures Power(32) == POLY
  {
    hide Feed;
    FourZeros(0x8000_0000, 28);
    FourZeros(0x0800_0000, 24);
    FourZeros(0x0080_0000, 20);
    FourZeros(0x0008_0000, 16);
    FourZeros(0x0000_8000, 12);
    FourZeros(0x0000_0800, 8);
    FourZeros(0x0000_0080, 4);
    FourZeros(0x0000_0008, 0);
    FeedNothing(POLY);
  }

  /** x^0 is the unit of the product. */
  lemma ProductUnit(a: bv32)
    ensures Product(a, TOP) == a
  {
    hide Feed, Horner, WordBits, Plus, Drop;
    FeedWord(0, a, 32);
    WordIs32Bits(a);
    PlusZero(a);
    PlusZero(Feed(0, WordBits(a, 32)));
    FeedIsHorner(0, WordBits(a, 32));
    PowerOf32();
    ProductShifts(a, TOP, 32);
    FeedInjective(Product(a, TOP), a, Zeros(32));
  }

  lemma PowerFeeds(j: nat, k: nat)
    ensures Power(j + k) == Feed(Power(j), Zeros(k))
  {
    hide Feed;
    assert Zeros(j + k) == Zeros(j) + Zeros(k);
    FeedConcat(TOP, Zeros(j), Zeros(k));
  }

  /** Powers multiply by adding exponents. */
  lemma PowerAdds(j: nat, k: nat)
    ensures Power(j + k) == Product(Power(j), Power(k))
  {
    hide Feed, Product;
    PowerFeeds(j, k);
    ProductUnit(Power(j));
    ProductShifts(Power(j), TOP, k);
  }

  // ---- The product, bit by bit on machine words --------------------------------------------

  function Step(acc: bv32, a: bv32, b: bv32): bv32 {
    Plus(Plus(acc >> 1, if acc & 1 == 1 then POLY else 0), if a & 1 == 1 then b else 0)
  }

  function Four(acc: bv32, a: bv32, b: bv32): bv32 {
    Step(Step(Step(Step(acc, a, b), a >> 1, b), a >> 2, b), a >> 3, b)
  }

  function Mul(a: bv32, b: bv32): bv32 {
    var half := Four(Four(Four(Four(0, a, b), a >> 4, b), a >> 8, b), a >> 12, b);
    Four(Four(Four(Four(half, a >> 16, b), a >> 20, b), a >> 24, b), a >> 28, b)
  }

  function Sixteen(acc: bv32, a: bv32, b: bv32): bv32 {
    Four(Four(Four(Four(acc, a, b), a >> 4, b), a >> 8, b), a >> 12, b)
  }

  function NibbleOff(a: bv32): bv32 { a >> 4 }

  lemma Nibbles(a: bv32)
    ensures NibbleOff(a) == a >> 4 && NibbleOff(a >> 4) == a >> 8
    ensures NibbleOff(a >> 8) == a >> 12 && NibbleOff(a >> 12) == a >> 16
  {}

  lemma StepIs(acc: bv32, a: bv32, b: bv32)
    ensures Step(acc, a, b) == Plus(Shift(acc), if Odd(a) then b else 0)
  {
    hide Plus;
  }

  lemma Halves(a: bv32)
    ensures Half(a) == a >> 1 && Half(Half(a)) == a >> 2
    ensures Half(Half(Half(a))) == a >> 3 && Half(Half(Half(Half(a)))) == NibbleOff(a)
  {}

  lemma HornerFour(acc: bv32, a: bv32, b: bv32, n: nat)
    ensures Horner(acc, WordBits(a, n + 4), b) == Horner(Four(acc, a, b), WordBits(NibbleOff(a), n), b)
  {
    hide Step, Plus, Shift, Half, Odd, WordBits, Horner, NibbleOff;
    Halves(a);
    var c1 := Step(acc, a, b);
    var c2 := Step(c1, a >> 1, b);
    var c3 := Step(c2, a >> 2, b);
    StepIs(acc, a, b);
    StepIs(c1, a >> 1, b);
    StepIs(c2, a >> 2, b);
    StepIs(c3, a >> 3, b);
    HornerOne(acc, a, b, n + 3);
    HornerOne(c1, a >> 1, b, n + 2);
    HornerOne(c2, a >> 2, b, n + 1);
    HornerOne(c3, a >> 3, b, n);
  }

  lemma HornerOne(acc: bv32, a: bv32, b: bv32, n: nat)
    ensures
      (Horner(acc, WordBits(a, n + 1), b) ==
       Horner(Plus(Shift(acc), if Odd(a) then b else 0), WordBits(Half(a), n), b))
  {
    hide Plus, Shift, Half, Odd;
    assert WordBits(a, n + 1)[1..] == WordBits(Half(a), n);
  }

  lemma HornerSixteen(acc: bv32, a: bv32, b: bv32, n: nat)
    ensures Horner(acc, WordBits(a, n + 16), b) == Horner(Sixteen(acc, a, b), WordBits(a >> 16, n), b)
  {
    hide Four, Horner, WordBits, NibbleOff;
    Nibbles(a);
    var c1 := Four(acc, a, b);
    var c2 := Four(c1, a >> 4, b);
    var c3 := Four(c2, a >> 8, b);
    HornerFour(acc, a, b, n + 12);
    HornerFour(c1, a >> 4, b, n + 8);
    HornerFour(c2, a >> 8, b, n + 4);
    HornerFour(c3, a >> 12, b, n);
  }

  lemma MulIsProduct(a: bv32, b: bv32)
    ensures Mul(a, b) == Product(a, b)
  {
    hide Mul, Sixteen, Horner, WordBits;
    HornerSixteen(0, a, b, 16);
    HornerSixteen(Sixteen(0, a, b), a >> 16, b, 0);
    HornerNone(Mul(a, b), (a >> 16) >> 16, b);
    MulInHalves(a, b);
  }

  lemma MulInHalves(a: bv32, b: bv32)
    ensures Mul(a, b) == Sixteen(Sixteen(0, a, b), a >> 16, b)
  {
    hide Four;
    assert (a >> 16) >> 4 == a >> 20 && (a >> 16) >> 8 == a >> 24 && (a >> 16) >> 12 == a >> 28;
  }

  lemma HornerNone(acc: bv32, a: bv32, b: bv32)
    ensures Horner(acc, WordBits(a, 0), b) == acc
  {}

  lemma PowerSum(j: nat, k: nat, product: bv32)
    requires Mul(Power(j), Power(k)) == product
    ensures Power(j + k) == product
  {
    hide Power, Mul, Product;
    MulIsProduct(Power(j), Power(k));
    PowerAdds(j, k);
  }

  // ---- Particular powers --------------------------------------------------------------------

  lemma Squared(k: nat, s: bv32, t: bv32)
    requires Power(k) == s && Mul(s, s) == t
    ensures Power(2 * k) == t
  {
    hide Power, Mul;
    PowerSum(k, k, t);
    assert k + k == 2 * k;
  }

  // The squarings that lead from x to x^(2^32), four to a lemma; SquaresTo8 ends at x^(2^8), and so on.

  lemma SquaresTo4()
    ensures Mul(0x4000_0000, 0x4000_0000) == 0x2000_0000
    ensures Mul(0x2000_0000, 0x2000_0000) == 0x0800_0000
    ensures Mul(0x0800_0000, 0x0800_0000) == 0x0080_0000
    ensures Mul(0x0080_0000, 0x0080_0000) == 0x0000_8000
  {}

  lemma SquaresTo8()
    ensures Mul(0x0000_8000, 0x0000_8000) == 0xEDB8_8320
    ensures Mul(0xEDB8_8320, 0xEDB8_8320) == 0xB1E6_B092
    ensures Mul(0xB1E6_B092, 0xB1E6_B092) == 0xA06A_2517
    ensures Mul(0xA06A_2517, 0xA06A_2517) == 0xED62_7DAE
  {}

  lemma SquaresTo12()
    ensures Mul(0xED62_7DAE, 0xED62_7DAE) == 0x88D1_4467
    ensures Mul(0x88D1_4467, 0x88D1_4467) == 0xD7BB_FE6A
    ensures Mul(0xD7BB_FE6A, 0xD7BB_FE6A) == 0xEC44_7F11
    ensures Mul(0xEC44_7F11, 0xEC44_7F11) == 0x8E7E_A170
  {}

  lemma SquaresTo16()
    ensures Mul(0x8E7E_A170, 0x8E7E_A170) == 0x6427_800E
    ensures Mul(0x6427_800E, 0x6427_800E) == 0x4D47_BAE0
    ensures Mul(0x4D47_BAE0, 0x4D47_BAE0) == 0x09FE_548F
    ensures Mul(0x09FE_548F, 0x09FE_548F) == 0x8385_2D0F
  {}

  lemma SquaresTo20()
    ensures Mul(0x8385_2D0F, 0x8385_2D0F) == 0x3036_2F1A
    ensures Mul(0x3036_2F1A, 0x3036_2F1A) == 0x7B5A_9CC3
    ensures Mul(0x7B5A_9CC3, 0x7B5A_9CC3) == 0x31FE_C169
    ensures Mul(0x31FE_C169, 0x31FE_C169) == 0x9FEC_022A
  {}

  lemma SquaresTo24()
    ensures Mul(0x9FEC_022A, 0x9FEC_022A) == 0x6C8D_EDC4
    ensures Mul(0x6C8D_EDC4, 0x6C8D_EDC4) == 0x15D6_874D
    ensures Mul(0x15D6_874D, 0x15D6_874D) == 0x5FDE_7A4E
    ensures Mul(0x5FDE_7A4E, 0x5FDE_7A4E) == 0xBAD9_0E37
  {}

  lemma SquaresTo28()
    ensures Mul(0xBAD9_0E37, 0xBAD9_0E37) == 0x2E4E_5EEF
    ensures Mul(0x2E4E_5EEF, 0x2E4E_5EEF) == 0x4EAB_A214
    ensures Mul(0x4EAB_A214, 0x4EAB_A214) == 0xA8A4_72C0
    ensures Mul(0xA8A4_72C0, 0xA8A4_72C0) == 0x429A_969E
  {}

  lemma SquaresTo32()
    ensures Mul(0x429A_969E, 0x429A_969E) == 0x148D_302A
    ensures Mul(0x148D_302A, 0x148D_302A) == 0xC40B_A6D0
    ensures Mul(0xC40B_A6D0, 0xC40B_A6D0) == 0xC4E2_2C3C
    ensures Mul(0xC4E2_2C3C, 0xC4E2_2C3C) == 0x4000_0000
  {}

  /** x to the powers of two that the proof needs, up to x^(2^32) = x. */
  lemma Powers()
    ensures Power(1) == 0x4000_0000 && Power(0x100) == 0xED62_7DAE && Power(0x1_0000) == 0x8385_2D0F
    ensures Power(0x100_0000) == 0xBAD9_0E37 && Power(0x1_0000_0000) == 0x4000_0000
  {
    hide Power, Mul;
    PowerOfOne();
    PowersFirst();
    PowersSecond();
    PowersThird();
    PowersFourth();
  }

  lemma PowerOfOne()
    ensures Power(1) == 0x4000_0000
  {
    hide Feed;
    OneZero(TOP, 0);
    FeedNothing(Shift(TOP));
  }

  lemma PowersFirst()
    requires Power(0x1) == 0x4000_0000
    ensures Power(0x100) == 0xED62_7DAE
  {
    hide Power, Mul;
    SquaresTo4();
    SquaresTo8();
    Squared(0x1, 0x4000_0000, 0x2000_0000);
    Squared(0x2, 0x2000_0000, 0x0800_0000);
    Squared(0x4, 0x0800_0000, 0x0080_0000);
    Squared(0x8, 0x0080_0000, 0x0000_8000);
    Squared(0x10, 0x0000_8000, 0xEDB8_8320);
    Squared(0x20, 0xEDB8_8320, 0xB1E6_B092);
    Squared(0x40, 0xB1E6_B092, 0xA06A_2517);
    Squared(0x80, 0xA06A_2517, 0xED62_7DAE);
  }

  lemma PowersSecond()
    requires Power(0x100) == 0xED62_7DAE
    ensures Power(0x1_0000) == 0x8385_2D0F
  {
    hide Power, Mul;
    SquaresTo12();
    SquaresTo16();
    Squared(0x100, 0xED62_7DAE, 0x88D1_4467);
    Squared(0x200, 0x88D1_4467, 0xD7BB_FE6A);
    Squared(0x400, 0xD7BB_FE6A, 0xEC44_7F11);
    Squared(0x800, 0xEC44_7F11, 0x8E7E_A170);
    Squared(0x1000, 0x8E7E_A170, 0x6427_800E);
    Squared(0x2000, 0x6427_800E, 0x4D47_BAE0);
    Squared(0x4000, 0x4D47_BAE0, 0x09FE_548F);
    Squared(0x8000, 0x09FE_548F, 0x8385_2D0F);
  }

  lemma PowersThird()
    requires Power(0x1_0000) == 0x8385_2D0F
    ensures Power(0x100_0000) == 0xBAD9_0E37
  {
    hide Power, Mul;
    SquaresTo20();
    SquaresTo24();
    Squared(0x1_0000, 0x8385_2D0F, 0x3036_2F1A);
    Squared(0x2_0000, 0x3036_2F1A, 0x7B5A_9CC3);
    Squared(0x4_0000, 0x7B5A_9CC3, 0x31FE_C169);
    Squared(0x8_0000, 0x31FE_C169, 0x9FEC_022A);
    Squared(0x10_0000, 0x9FEC_022A, 0x6C8D_EDC4);
    Squared(0x20_0000, 0x6C8D_EDC4, 0x15D6_874D);
    Squared(0x40_0000, 0x15D6_874D, 0x5FDE_7A4E);
    Squared(0x80_0000, 0x5FDE_7A4E, 0xBAD9_0E37);
  }

  lemma PowersFourth()
    requires Power(0x100_0000) == 0xBAD9_0E37
    ensures Power(0x1_0000_0000) == 0x4000_0000
  {
    hide Power, Mul;
    SquaresTo28();
    SquaresTo32();
    Squared(0x100_0000, 0xBAD9_0E37, 0x2E4E_5EEF);
    Squared(0x200_0000, 0x2E4E_5EEF, 0x4EAB_A214);
    Squared(0x400_0000, 0x4EAB_A214, 0xA8A4_72C0);
    Squared(0x800_0000, 0xA8A4_72C0, 0x429A_969E);
    Squared(0x1000_0000, 0x429A_969E, 0x148D_302A);
    Squared(0x2000_0000, 0x148D_302A, 0xC40B_A6D0);
    Squared(0x4000_0000, 0xC40B_A6D0, 0xC4E2_2C3C);
    Squared(0x8000_0000, 0xC4E2_2C3C, 0x4000_0000);
  }

  lemma OtherProducts()
    ensures Mul(0xBAD9_0E37, 0xED62_7DAE) == 0x4630_D51A && Mul(0x8385_2D0F, 0x4000_0000) == 0xAC7A_15A7
    ensures Mul(0x4630_D51A, 0xAC7A_15A7) == 0x316B_5BA1
    ensures Mul(0x316B_5BA1, 0x316B_5BA1) == 0x5B21_9B1C && Mul(0x5B21_9B1C, 0x5B21_9B1C) == 0xAEBF_57A4
    ensures Mul(0xAEBF_57A4, 0xAEBF_57A4) == 0x7DB7_E260 && Mul(0x7DB7_E260, 0x7DB7_E260) == 0x0C28_3CA0
  {}

  lemma MoreProducts()
    ensures Mul(0x0C28_3CA0, 0x316B_5BA1) == 0x3D43_6701
    ensures Mul(0x3D43_6701, 0x3D43_6701) == 0xFA75_8C53 && Mul(0xFA75_8C53, 0xFA75_8C53) == 0xBD43_6701
    ensures Mul(0xBD43_6701, 0x3D43_6701) == 0xC736_EB52
  {}

  lemma CombinedPowers()
    ensures Power(0x100_0100) == 0x4630_D51A && Power(0x1_0001) == 0xAC7A_15A7
    ensures Power(0x101_0101) == 0x316B_5BA1 && Power(0x1010_1010) == 0x0C28_3CA0
    ensures Power(0x1111_1111) == 0x3D43_6701 && Power(0x4444_4444) == 0xBD43_6701 && Power(0x5555_5555) == 0xC736_EB52
  {
    hide Power, Mul;
    Powers();
    OtherProducts();
    MoreProducts();
    PowerSum(0x100_0000, 0x100, 0x4630_D51A);
    PowerSum(0x1_0000, 1, 0xAC7A_15A7);
    PowerSum(0x100_0100, 0x1_0001, 0x316B_5BA1);
    Squared(0x101_0101, 0x316B_5BA1, 0x5B21_9B1C);
    Squared(0x202_0202, 0x5B21_9B1C, 0xAEBF_57A4);
    Squared(0x404_0404, 0xAEBF_57A4, 0x7DB7_E260);
    Squared(0x808_0808, 0x7DB7_E260, 0x0C28_3CA0);
    PowerSum(0x1010_1010, 0x101_0101, 0x3D43_6701);
    Squared(0x1111_1111, 0x3D43_6701, 0xFA75_8C53);
    Squared(0x2222_2222, 0xFA75_8C53, 0xBD43_6701);
    PowerSum(0x4444_4444, 0x1111_1111, 0xC736_EB52);
  }

  // ---- The order of x ---------------------------------------------------------------------------

  /** The powers return to 1 after n steps. */
  predicate Returns(n: nat) { Power(n) == TOP }

  lemma ReturnsAfter(n: nat, k: nat)
    ensures Power(n + k) == Power(k) <==> Returns(n)
  {
    hide Feed;
    PowerFeeds(n, k);
    if Power(n + k) == Power(k) {
      FeedInjective(Power(n), TOP, Zeros(k));
    }
  }

  lemma ReturnsNever()
    ensures !Returns(0xFFFF) && !Returns(0xFF_00FF) && !Returns(0xF0F_0F0F)
    ensures !Returns(0x3333_3333) && !Returns(0x5555_5555)
  {
    hide Power;
    Powers();
    CombinedPowers();
    ReturnsAfter(0xFFFF, 1);
    ReturnsAfter(0xFF_00FF, 0x1_0001);
    ReturnsAfter(0xF0F_0F0F, 0x101_0101);
    ReturnsAfter(0x3333_3333, 0x1111_1111);
  }

  lemma ReturnsAtOrder()
    ensures Returns(ORDER)
  {
    hide Power;
    Powers();
    ReturnsAfter(ORDER, 1);
  }

  lemma ReturnsNow()
    ensures Returns(0)
  {
    FeedNothing(TOP);
  }

  lemma ReturnsDifference(m: nat, n: nat)
    requires Returns(n) && n <= m
    ensures Returns(m - n) <==> Returns(m)
  {
    hide Power;
    ReturnsAfter(m - n, n);
  }

  lemma {:induction false} ReturnsMultiple(n: nat, k: nat)
    requires Returns(n)
    ensures Returns(n * k)
    decreases k
  {
    hide Returns;
    if k == 0 {
      ReturnsNow();
    } else {
      ReturnsMultiple(n, k - 1);
      assert n * k - n == n * (k - 1);
      ReturnsDifference(n * k, n);
    }
  }

  /** A common divisor of two numbers whose multiples of k both return returns in the same way. */
  lemma {:induction false} ReturnsDivisor(k: nat, a: nat, b: nat) returns (g: nat)
    requires 0 < a && Returns(k * a) && Returns(k * b)
    ensures g > 0 && a % g == 0 && b % g == 0 && Returns(k * g)
    decreases a + b
  {
    hide Returns;
    if b == 0 {
      g := a;
    } else if a <= b {
      assert k * (b - a) == k * b - k * a;
      LessOrEqual(k, a, b);
      ReturnsDifference(k * b, k * a);
      g := ReturnsDivisor(k, a, b - a);
      SumDivides(a, b - a, g);
    } else {
      assert k * (a - b) == k * a - k * b;
      LessOrEqual(k, b, a);
      ReturnsDifference(k * a, k * b);
      g := ReturnsDivisor(k, a - b, b);
      SumDivides(b, a - b, g);
    }
  }

  lemma LessOrEqual(k: nat, a: nat, b: nat)
    requires a <= b
    ensures k * a <= k * b
  {}

  lemma SumDivides(a: nat, b: nat, g: nat)
    requires g > 0 && a % g == 0 && b % g == 0
    ensures (a + b) % g == 0
  {
    var q, r := a / g, b / g;
    assert a + b == g * (q + r);
    MultipleDivides(g, q + r);
  }

  lemma MultipleDivides(g: nat, q: nat)
    requires g > 0
    ensures g * q % g == 0
  {
    var d, m := g * q / g, g * q % g;
    assert g * (q - d) == m;
    if q > d {
      AtLeast(g, q - d);
    } else if q < d {
      AtLeast(g, d - q);
    }
  }

  lemma AtLeast(g: nat, k: nat)
    requires k > 0
    ensures g * k >= g
  {}

  predicate Prime(p: nat) {
    p > 1 && forall d :: 1 < d < p ==> p % d != 0
  }

  lemma SmallPrimes()
    ensures Prime(3) && Prime(5) && Prime(17)
  {}

  lemma PrimeOf257()
    ensures Prime(257)
  {}

  lemma NoSmallFactor(d: nat)
    requires 1 < d < 258
    ensures 65537 % d != 0
  {}

  lemma PrimeOf65537()
    ensures Prime(65537)
  {
    forall d | 1 < d < 65537
      ensures 65537 % d != 0
    {
      if d < 258 {
        NoSmallFactor(d);
      } else if 65537 % d == 0 {
        var e := 65537 / d;
        assert 65537 == d * e == e * d;
        assert 1 < e < 258 by { Cofactor(d, e); }
        MultipleDivides(e, d);
        NoSmallFactor(e);
        assert false;
      }
    }
  }

  lemma Cofactor(d: nat, e: nat)
    requires d * e == 65537 && 258 <= d < 65537
    ensures 1 < e < 258
  {
    if e >= 258 {
      AtLeastBoth(d, e);
    }
  }

  lemma AtLeastBoth(d: nat, e: nat)
    requires d >= 258 && e >= 258
    ensures d * e >= 258 * 258
  {
    assert d * e - 258 * e == (d - 258) * e;
  }

  /** If a prime divides the order, and the powers do not return at the quotient, they return only at its multiples. */
  lemma DividesReturns(p: nat, k: nat, n: nat)
    requires Prime(p) && p * k == ORDER && !Returns(k) && Returns(n)
    ensures n % p == 0
  {
    hide Returns, Prime;
    ReturnsAtOrder();
    ReturnsMultiple(n, k);
    assert k * p == p * k && k * n == n * k;
    assert p > 1 by { PrimeIsBig(p); }
    var g := ReturnsDivisor(k, p, n);
    PrimeDivisor(p, g);
  }

  lemma PrimeIsBig(p: nat)
    requires Prime(p)
    ensures p > 1
  {}

  lemma PrimeDivisor(p: nat, g: nat)
    requires Prime(p) && g > 0 && p % g == 0
    ensures g == 1 || g == p
  {}

  /** The powers return to 1 at the multiples of 2^32 - 1 and nowhere else. */
  lemma ReturnsIff(n: nat)
    ensures Returns(n) <==> n % ORDER == 0
  {
    hide Returns, Prime;
    if Returns(n) {
      ReturnsNever();
      SmallPrimes();
      PrimeOf257();
      PrimeOf65537();
      DividesReturns(3, 0x5555_5555, n);
      DividesReturns(5, 0x3333_3333, n);
      DividesReturns(17, 0xF0F_0F0F, n);
      DividesReturns(257, 0xFF_00FF, n);
      DividesReturns(65537, 0xFFFF, n);
      AllDivide(n);
    } else if n % ORDER == 0 {
      ReturnsAtOrder();
      ReturnsMultiple(ORDER, n / ORDER);
      assert false;
    }
  }

  /** What two coprime numbers divide, their product divides; u and v witness that they are coprime. */
  lemma BothDivide(n: nat, m: nat, p: nat, u: nat, v: nat)
    requires m > 0 && p > 0 && n % m == 0 && n % p == 0 && u * m == v * p + 1
    ensures m * p > 0 && n % (m * p) == 0
  {
    var a, b := n / m, n / p;
    var c := u * b - v * a;
    calc {
      a;
      a * (u * m - v * p);
      u * (m * a) - p * (v * a);
      u * (p * b) - p * (v * a);
      p * c;
    }
    calc {
      n;
      m * a;
      m * (p * c);
      (m * p) * c;
    }
    if c < 0 {
      assert false;
    }
    AtLeast(m, p);
    MultipleDivides(m * p, c);
  }

  lemma AllDivide(n: nat)
    requires n % 3 == 0 && n % 5 == 0 && n % 17 == 0 && n % 257 == 0 && n % 65537 == 0
    ensures n % ORDER == 0
  {
    BothDivide(n, 3, 5, 2, 1);
    BothDivide(n, 15, 17, 8, 7);
    BothDivide(n, 255, 257, 128, 127);
    BothDivide(n, 65535, 65537, 32768, 32767);
  }

  // ---- Errors of two bits --------------------------------------------------------------------------

  /** The messages differ in bits p and q and in no other. */
  ghost predicate DifferAt(a: Octets, b: Octets, p: nat, q: nat)
    requires |a| == |b|
  {
    forall i: nat | i < 8 * |a| :: MessageBit(a, i) != MessageBit(b, i) <==> i == p || i == q
  }

  lemma PowerOf31()
    ensures Power(31) == 1
  {
    hide Feed;
    FourZeros(0x8000_0000, 27);
    FourZeros(0x0800_0000, 23);
    FourZeros(0x0080_0000, 19);
    FourZeros(0x0008_0000, 15);
    FourZeros(0x0000_8000, 11);
    FourZeros(0x0000_0800, 7);
    FourZeros(0x0000_0080, 3);
    OneZero(8, 2);
    OneZero(4, 1);
    OneZero(2, 0);
    FeedNothing(1);
  }

  /** Two ones, n places apart, bring the register back to zero exactly where the powers of x return. */
  lemma TwoOnes(n: nat)
    requires n > 0
    ensures Feed(0, [true] + Zeros(n - 1) + [true]) == 0 <==> Returns(n)
  {
    hide Feed, Shift, Plus, Returns;
    var w := [true] + Zeros(n - 1);
    var r := Feed(1, Zeros(n));
    FeedConcat(0, [true], Zeros(n - 1));
    FeedConcat(0, w, [true]);
    OneZero(1, n - 1);
    ShiftZero();
    FeedOne(0);
    PlusZero(1);
    assert Feed(0, w) == r;
    FeedOne(r);
    PlusCancels(r, 1);
    if Shift(Plus(r, 1)) == 0 {
      ShiftInjective(Plus(r, 1), 0);
    }
    PowerOf31();
    PowerFeeds(31, n);
    assert Power(31 + n) == r && n + 31 == 31 + n;
    ReturnsAfter(n, 31);
  }

  lemma FeedOne(r: bv32)
    ensures Feed(r, [true]) == Shift(Plus(r, 1))
  {
    hide Shift, Plus;
    assert [true][1..] == [];
  }

  /** Two wrong bits go unnoticed exactly when their distance is a multiple of 2^32 - 1. */
  lemma TwoBitErrors(a: Octets, b: Octets, p: nat, q: nat)
    requires |a| == |b| && p < q < 8 * |a| && DifferAt(a, b, p, q)
    ensures Crc(a) == Crc(b) <==> (q - p) % ORDER == 0
  {
    hide Crc, Feed, MessageBit, Returns;
    var w := CrcOfWindow(a, b, p, q - p + 1);
    assert w == [true] + Zeros(q - p - 1) + [true];
    TwoOnes(q - p);
    ReturnsIff(q - p);
  }
}
