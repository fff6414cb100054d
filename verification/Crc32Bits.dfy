/**
 * The bit-serial form of the checksum: the register takes in one bit at a time.
 * Registers form a vector space over GF(2) and feeding is a linear, invertible map on it.
 */
module Crc32Bits {
  import opened Crc32

  type Bits = seq<bool>

  function BitWord(b: bool): bv32 { if b then 1 else 0 }

  /** The register after taking in bits, each added to the bit about to fall out. */
  function Feed(r: bv32, bits: Bits): bv32
    decreases |bits|
  {
    if bits == [] then r else Feed(Shift(Plus(r, BitWord(bits[0]))), bits[1..])
  }

  /** The low n bits of a word, least significant first. */
  function WordBits(r: bv32, n: nat): (bits: Bits)
    ensures |bits| == n
    decreases n
  {
    if n == 0 then [] else [Odd(r)] + WordBits(Half(r), n - 1)
  }

  /** A message's bits in transmission order: bytes in order, each least significant bit first. */
  function MessageBits(data: Octets): (bits: Bits)
    ensures |bits| == 8 * |data|
    decreases |data|
  {
    if data == [] then [] else WordBits(Widen(data[0]), 8) + MessageBits(data[1..])
  }

  function Zeros(n: nat): (bits: Bits)
    ensures |bits| == n
    ensures forall i :: 0 <= i < n ==> !bits[i]
  {
    seq(n, _ => false)
  }

  function Xor(a: Bits, b: Bits): (c: Bits)
    requires |a| == |b|
    ensures |c| == |a|
    ensures forall i :: 0 <= i < |a| ==> c[i] == (a[i] != b[i])
  {
    seq(|a|, i requires 0 <= i < |a| => a[i] != b[i])
  }

  /** A word moved right by n places. */
  function Drop(x: bv32, n: nat): bv32
    decreases n
  {
    if n == 0 then x else Drop(Half(x), n - 1)
  }

  // ---- GF(2) facts about words ----------------------------------------------

  lemma PlusZero(a: bv32)
    ensures Plus(a, 0) == a && Plus(0, a) == a && Plus(a, a) == 0
  {}

  lemma PlusCommutes(a: bv32, b: bv32)
    ensures Plus(a, b) == Plus(b, a)
  {}

  lemma PlusAssociates(a: bv32, b: bv32, c: bv32)
    ensures Plus(Plus(a, b), c) == Plus(a, Plus(b, c))
  {
    assert a ^ (b ^ c) == (a ^ b) ^ c;
  }

  lemma PlusSwap(a: bv32, b: bv32, c: bv32, d: bv32)
    ensures Plus(Plus(a, b), Plus(c, d)) == Plus(Plus(a, c), Plus(b, d))
  {
    hide Plus;
    PlusAssociates(a, b, Plus(c, d));
    PlusAssociates(b, c, d);
    PlusCommutes(b, c);
    PlusAssociates(c, b, d);
    PlusAssociates(a, c, Plus(b, d));
  }

  lemma PlusCancels(a: bv32, b: bv32)
    ensures Plus(a, b) == 0 <==> a == b
    ensures Plus(Plus(a, b), b) == a
  {
    hide Plus;
    PlusZero(a);
    PlusZero(b);
    PlusAssociates(a, b, b);
    if Plus(a, b) == 0 {
      PlusZero(a);
    }
  }

  lemma HalfLinear(a: bv32, b: bv32)
    ensures Half(Plus(a, b)) == Plus(Half(a), Half(b))
  {}

  lemma OddLinear(a: bv32, b: bv32)
    ensures Odd(Plus(a, b)) == (Odd(a) != Odd(b))
  {}

  /** The low bit alone, and what is left of a word without it. */
  lemma LowBit(x: bv32)
    ensures !Odd(Plus(x, BitWord(Odd(x))))
    ensures Half(Plus(x, BitWord(Odd(x)))) == Half(x)
  {}

  // ---- Facts about one step --------------------------------------------------

  lemma {:induction false} ShiftLinear(a: bv32, b: bv32)
    ensures Shift(Plus(a, b)) == Plus(Shift(a), Shift(b))
  {
    hide Plus, Half, Odd;
    var pa, pb := if Odd(a) then POLY else 0, if Odd(b) then POLY else 0;
    HalfLinear(a, b);
    OddLinear(a, b);
    PlusZero(POLY);
    PlusZero(0);
    PlusSwap(Half(a), pa, Half(b), pb);
  }

  /** No information is lost in a step: the register before it can be recovered. */
  lemma ShiftInjective(a: bv32, b: bv32)
    requires Shift(a) == Shift(b)
    ensures a == b
  {}

  lemma ShiftBack(r: bv32)
    requires Shift(r) & TOP == 0
    ensures r == Shift(r) << 1
  {}

  /** A word added to the register ahead of time arrives one bit later, one place to the right. */
  lemma AddAhead(r: bv32, x: bv32)
    ensures Shift(Plus(r, x)) == Plus(Shift(Plus(r, BitWord(Odd(x)))), Half(x))
  {
    hide Plus, Half, Odd, BitWord;
    var low := BitWord(Odd(x));
    var rest := Plus(x, low);
    calc {
      Plus(r, x);
      { PlusCancels(x, low); PlusCommutes(rest, low); }
      Plus(r, Plus(low, rest));
      { PlusAssociates(r, low, rest); }
      Plus(Plus(r, low), rest);
    }
    ShiftLinear(Plus(r, low), rest);
    LowBit(x);
    PlusZero(Half(x));
  }

  // ---- Feeding many bits ------------------------------------------------------

  lemma {:induction false} FeedConcat(r: bv32, a: Bits, b: Bits)
    ensures Feed(r, a + b) == Feed(Feed(r, a), b)
    decreases |a|
  {
    hide Shift, Plus, BitWord;
    if a == [] {
      assert a + b == b;
    } else {
      assert (a + b)[0] == a[0] && (a + b)[1..] == a[1..] + b;
      FeedConcat(Shift(Plus(r, BitWord(a[0]))), a[1..], b);
    }
  }

  /** Feeding is linear: the sum of two runs is the run of the sums. */
  lemma {:induction false} FeedLinear(r: bv32, s: bv32, a: Bits, b: Bits)
    requires |a| == |b|
    ensures Feed(Plus(r, s), Xor(a, b)) == Plus(Feed(r, a), Feed(s, b))
    decreases |a|
  {
    hide Shift, Plus, BitWord;
    if a != [] {
      var x, y := BitWord(a[0]), BitWord(b[0]);
      PlusSwap(r, s, x, y);
      BitWordLinear(a[0], b[0]);
      ShiftLinear(Plus(r, x), Plus(s, y));
      assert Xor(a, b)[1..] == Xor(a[1..], b[1..]);
      FeedLinear(Shift(Plus(r, x)), Shift(Plus(s, y)), a[1..], b[1..]);
    }
  }

  lemma BitWordLinear(a: bool, b: bool)
    ensures BitWord(a != b) == Plus(BitWord(a), BitWord(b))
  {}

  /** The bits fed after two registers part never bring them together again. */
  lemma {:induction false} FeedInjective(r: bv32, s: bv32, bits: Bits)
    requires Feed(r, bits) == Feed(s, bits)
    ensures r == s
    decreases |bits|
  {
    hide Shift, Plus, BitWord;
    if bits != [] {
      var x := BitWord(bits[0]);
      FeedInjective(Shift(Plus(r, x)), Shift(Plus(s, x)), bits[1..]);
      ShiftInjective(Plus(r, x), Plus(s, x));
      PlusCancels(r, x);
      PlusCancels(s, x);
    }
  }

  /** Adding the low n bits of x up front is the same as feeding them one at a time. */
  lemma {:induction false} FeedWord(r: bv32, x: bv32, n: nat)
    ensures Feed(Plus(r, x), Zeros(n)) == Plus(Feed(r, WordBits(x, n)), Drop(x, n))
    decreases n
  {
    hide Shift, Plus, Half, Odd;
    if n > 0 {
      assert Zeros(n)[1..] == Zeros(n - 1);
      PlusZero(Plus(r, x));
      AddAhead(r, x);
      FeedWord(Shift(Plus(r, BitWord(Odd(x)))), Half(x), n - 1);
    }
  }

  // ---- The byte step is eight bit steps ----------------------------------------

  lemma {:induction false} FourZeros(r: bv32, n: nat)
    ensures Feed(r, Zeros(n + 4)) == Feed(Shift4(r), Zeros(n))
  {
    hide Shift, Plus;
    OneZero(r, n + 3);
    OneZero(Shift(r), n + 2);
    OneZero(Shift(Shift(r)), n + 1);
    OneZero(Shift(Shift(Shift(r))), n);
  }

  lemma OneZero(r: bv32, n: nat)
    ensures Feed(r, Zeros(n + 1)) == Feed(Shift(r), Zeros(n))
  {
    hide Shift, Plus;
    assert Zeros(n + 1)[1..] == Zeros(n);
    PlusZero(r);
  }

  lemma ByteDropsOut(b: Octet)
    ensures Drop(Widen(b), 8) == 0
  {
    var x := Widen(b);
    assert Drop(x, 8) == Drop(x >> 2, 6);
    assert Drop(x >> 2, 6) == Drop(x >> 4, 4);
    assert Drop(x >> 4, 4) == Drop(x >> 6, 2);
    assert Drop(x >> 6, 2) == x >> 8;
  }

  lemma AbsorbIsFeed(r: bv32, b: Octet)
    ensures Absorb(r, b) == Feed(r, WordBits(Widen(b), 8))
  {
    hide Shift4, Plus, Feed, WordBits, Widen;
    var x := Widen(b);
    FourZeros(Plus(r, x), 4);
    FourZeros(Shift4(Plus(r, x)), 0);
    FeedNothing(Absorb(r, b));
    FeedWord(r, x, 8);
    ByteDropsOut(b);
    PlusZero(Feed(r, WordBits(x, 8)));
  }

  lemma FeedNothing(r: bv32)
    ensures Feed(r, Zeros(0)) == r
  {}

  /** The byte-wise fold of the code is bit-serial feeding of the whole message. */
  lemma {:induction false} FoldIsFeed(r: bv32, data: Octets)
    ensures Fold(r, data) == Feed(r, MessageBits(data))
    decreases |data|
  {
    hide Absorb, Feed, Widen;
    if data == [] {
      FeedNothing(r);
      assert MessageBits(data) == Zeros(0);
    } else {
      AbsorbIsFeed(r, data[0]);
      FoldIsFeed(Absorb(r, data[0]), data[1..]);
      FeedConcat(r, WordBits(Widen(data[0]), 8), MessageBits(data[1..]));
    }
  }

  lemma CrcIsFeed(data: Octets)
    ensures Crc(data) == Plus(Feed(ONES, MessageBits(data)), ONES)
  {
    FoldIsFeed(ONES, data);
  }
}
