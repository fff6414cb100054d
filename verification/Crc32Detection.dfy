/**
 * What the checksum detects. The checksum difference of two messages is a function of
 * their difference alone; any difference confined to 32 consecutive bits shows; and a
 * checksum appended to its message leaves a fixed residue.
 */
module Crc32Detection {
  import opened Crc32
  import opened Crc32Bits
  import opened Crc32Division

  const RESIDUE: bv32 := 0x2144DF1C

  function XorBytes(a: Octets, b: Octets): (c: Octets)
    requires |a| == |b|
    ensures |c| == |a|
  {
    seq(|a|, i requires 0 <= i < |a| => PlusByte(a[i], b[i]))
  }

  function PlusByte(a: Octet, b: Octet): Octet { a ^ b }

  // ---- Algebra -----------------------------------------------------------------

  lemma FeedXor(a: Bits, b: Bits)
    requires |a| == |b|
    ensures Plus(Feed(ONES, a), Feed(ONES, b)) == Feed(0, Xor(a, b))
  {
    hide Feed, Plus;
    PlusZero(ONES);
    FeedLinear(ONES, ONES, a, b);
  }

  /** The checksum difference, in terms of the difference of the messages' bits. */
  lemma CrcDifference(a: Octets, b: Octets)
    requires |a| == |b|
    ensures Plus(Crc(a), Crc(b)) == Feed(0, Xor(MessageBits(a), MessageBits(b)))
  {
    hide Crc, Feed, Plus, MessageBits;
    var fa, fb := Feed(ONES, MessageBits(a)), Feed(ONES, MessageBits(b));
    CrcIsFeed(a);
    CrcIsFeed(b);
    PlusSwap(fa, ONES, fb, ONES);
    PlusZero(ONES);
    PlusZero(Plus(fa, fb));
    FeedXor(MessageBits(a), MessageBits(b));
  }

  lemma {:induction false} MessageBitsXor(a: Octets, b: Octets)
    requires |a| == |b|
    ensures MessageBits(XorBytes(a, b)) == Xor(MessageBits(a), MessageBits(b))
    decreases |a|
  {
    hide WordBits, Plus, PlusByte, Widen;
    if a != [] {
      var c := XorBytes(a, b);
      MessageBitsXor(a[1..], b[1..]);
      assert c[1..] == XorBytes(a[1..], b[1..]);
      ByteXor(a[0], b[0]);
      WordBitsLinear(Widen(a[0]), Widen(b[0]), 8);
    }
  }

  lemma ByteXor(a: Octet, b: Octet)
    ensures Widen(PlusByte(a, b)) == Plus(Widen(a), Widen(b))
  {}

  /** For equal lengths, the XOR of two checksums depends only on the XOR of the messages. */
  lemma CrcXor(a: Octets, b: Octets)
    requires |a| == |b|
    ensures Crc(a) ^ Crc(b) == Fold(0, XorBytes(a, b))
  {
    hide Crc, Fold, Feed, MessageBits;
    CrcDifference(a, b);
    MessageBitsXor(a, b);
    FoldIsFeed(0, XorBytes(a, b));
  }

  // ---- When the register reaches zero ---------------------------------------------

  lemma {:induction false} DropMore(x: bv32, n: nat, m: nat)
    requires Drop(x, n) == 0 && n <= m
    ensures Drop(x, m) == 0
    decreases m
  {
    hide Half;
    if n > 0 {
      DropMore(Half(x), n - 1, m - 1);
    } else if m > 0 {
      HalfZero();
      DropMore(Half(x), 0, m - 1);
    }
  }

  lemma HalfZero()
    ensures Half(0) == 0 && !Odd(0)
  {}

  lemma TopIsClear(x: bv32)
    requires Drop(x, 31) == 0
    ensures x & TOP == 0
  {
    hide Drop, ByteOff;
    DropByte(x, 23);
    DropByte(ByteOff(x), 15);
    DropByte(ByteOff(ByteOff(x)), 7);
    DropSeven(ByteOff(ByteOff(ByteOff(x))));
    LastSeven(x);
  }

  lemma DropSeven(x: bv32)
    ensures Drop(x, 7) == SevenOff(x)
  {
    hide Half, SevenOff;
    assert Drop(x, 7) == Drop(Half(Half(x)), 5);
    assert Drop(Half(Half(x)), 5) == Drop(Half(Half(Half(Half(x)))), 3);
    SevenHalves(x);
  }

  function SevenOff(x: bv32): bv32 { x >> 7 }

  lemma SevenHalves(x: bv32)
    ensures Half(Half(Half(Half(Half(Half(Half(x))))))) == SevenOff(x)
  {}

  lemma LastSeven(x: bv32)
    ensures SevenOff(ByteOff(ByteOff(ByteOff(x)))) == 0 ==> x & TOP == 0
  {}

  lemma DoubleHalf(x: bv32, y: bv32)
    requires y == x << 1 && x & TOP == 0
    ensures Half(y) == x && !Odd(y)
  {}

  /** A step that ends with at most 31 bits in the register took nothing in: it only moved. */
  lemma StepBack(r: bv32)
    requires Drop(Shift(r), 31) == 0
    ensures Half(r) == Shift(r) && !Odd(r)
  {
    hide Shift, Drop, Half, Odd;
    TopIsClear(Shift(r));
    ShiftBack(r);
    DoubleHalf(Shift(r), r);
  }

  /** At most 32 bits bring a register to zero exactly when they are the register's own bits and it has no more. */
  lemma {:induction false} ZeroIffOwnBits(r: bv32, bits: Bits)
    requires |bits| <= 32
    ensures Feed(r, bits) == 0 <==> bits == WordBits(r, |bits|) && Drop(r, |bits|) == 0
  {
    hide Feed, WordBits, Drop;
    if Feed(r, bits) == 0 {
      ZeroNeedsOwnBits(r, bits);
    }
    if bits == WordBits(r, |bits|) {
      OwnBitsDrop(r, |bits|);
    }
  }

  lemma {:induction false} ZeroNeedsOwnBits(r: bv32, bits: Bits)
    requires |bits| <= 32
    requires Feed(r, bits) == 0
    ensures bits == WordBits(r, |bits|) && Drop(r, |bits|) == 0
    decreases |bits|
  {
    hide Shift, Plus, BitWord, Half, Odd;
    if bits != [] {
      var moved := Plus(r, BitWord(bits[0]));
      var next := Shift(moved);
      ZeroNeedsOwnBits(next, bits[1..]);
      DropMore(next, |bits| - 1, 31);
      StepBack(moved);
      BitWordParts(r, bits[0]);
    }
  }

  lemma OwnBitsDrop(r: bv32, n: nat)
    ensures Feed(r, WordBits(r, n)) == Drop(r, n)
  {
    hide Feed, WordBits, Drop, Plus;
    FeedWord(r, r, n);
    PlusZero(r);
    ZeroStaysZero(n);
    PlusCancels(Feed(r, WordBits(r, n)), Drop(r, n));
  }

  lemma {:induction false} ZeroStaysZero(n: nat)
    ensures Feed(0, Zeros(n)) == 0
    ensures WordBits(0, n) == Zeros(n)
    decreases n
  {
    hide Plus;
    if n > 0 {
      PlusZero(0);
      HalfZero();
      assert Zeros(n)[1..] == Zeros(n - 1);
      ZeroStaysZero(n - 1);
    }
  }

  // ---- Bursts --------------------------------------------------------------------

  /** Bit i of a message in transmission order. */
  function MessageBit(data: Octets, i: nat): bool
    requires i < 8 * |data|
  {
    WordBits(Widen(data[i / 8]), 8)[i % 8]
  }

  lemma {:induction false} MessageBitAt(data: Octets, i: nat)
    requires i < 8 * |data|
    ensures MessageBits(data)[i] == MessageBit(data, i)
    decreases |data|
  {
    hide WordBits, Widen;
    if i >= 8 {
      MessageBitAt(data[1..], i - 8);
    }
  }

  /** The messages agree everywhere but in the n bits from position s on. */
  ghost predicate DifferWithin(a: Octets, b: Octets, s: nat, n: nat)
    requires |a| == |b|
  {
    forall i: nat | i < 8 * |a| && !(s <= i < s + n) :: MessageBit(a, i) == MessageBit(b, i)
  }

  /** The bit difference of the messages in the window is exactly the generator. */
  ghost predicate DifferByGenerator(a: Octets, b: Octets, s: nat)
    requires |a| == |b| && s + 33 <= 8 * |a|
  {
    forall i: nat | i < 33 :: (MessageBit(a, s + i) != MessageBit(b, s + i)) == Generator()[i]
  }

  lemma {:induction false} FeedZeroPrefix(r: bv32, d: Bits, s: nat, e: nat)
    requires s <= e <= |d|
    requires forall i :: 0 <= i < |d| && !(s <= i < e) ==> !d[i]
    ensures Feed(0, d) == 0 <==> Feed(0, d[s..e]) == 0
  {
    hide Feed;
    assert d[..s] == Zeros(s) && d[e..] == Zeros(|d| - e);
    assert d == d[..s] + (d[s..e] + d[e..]);
    FeedConcat(0, d[..s], d[s..e] + d[e..]);
    FeedConcat(0, d[s..e], d[e..]);
    ZeroStaysZero(s);
    ZeroStaysZero(|d| - e);
    if Feed(0, d) == 0 {
      FeedInjective(Feed(0, d[s..e]), 0, d[e..]);
    }
  }

  lemma ByteOfZeros(x: Octet, y: Octet)
    requires WordBits(Widen(x), 8) == WordBits(Widen(y), 8)
    ensures x == y
  {
    hide WordBits, Feed, Drop, Plus, PlusByte, Widen;
    var z := Widen(PlusByte(x, y));
    ByteXor(x, y);
    WordBitsLinear(Widen(x), Widen(y), 8);
    assert WordBits(z, 8) == Zeros(8);
    OwnBitsDrop(z, 8);
    ByteDropsOut(PlusByte(x, y));
    ZeroStaysZero(8);
    FeedInjective(z, 0, Zeros(8));
    PlusCancels(Widen(x), Widen(y));
    SameByte(x, y);
  }

  lemma SameByte(x: Octet, y: Octet)
    ensures Widen(x) == Widen(y) ==> x == y
  {}

  lemma {:induction false} MessageBitsInjective(a: Octets, b: Octets)
    requires |a| == |b| && MessageBits(a) == MessageBits(b)
    ensures a == b
    decreases |a|
  {
    hide WordBits, Widen;
    if a != [] {
      var ma, mb := MessageBits(a), MessageBits(b);
      assert ma[..8] == WordBits(Widen(a[0]), 8) && ma[8..] == MessageBits(a[1..]);
      assert mb[..8] == WordBits(Widen(b[0]), 8) && mb[8..] == MessageBits(b[1..]);
      ByteOfZeros(a[0], b[0]);
      MessageBitsInjective(a[1..], b[1..]);
    }
  }

  /** Equal checksums, for messages that differ only within a window, come down to the window alone. */
  lemma CrcOfWindow(a: Octets, b: Octets, s: nat, n: nat) returns (w: Bits)
    requires |a| == |b| && DifferWithin(a, b, s, n)
    ensures |w| <= n && (s + n <= 8 * |a| ==> |w| == n)
    ensures forall i: nat | i < |w| :: s + i < 8 * |a| && w[i] == (MessageBit(a, s + i) != MessageBit(b, s + i))
    ensures Crc(a) == Crc(b) <==> Feed(0, w) == 0
    ensures a == b <==> w == Zeros(|w|)
  {
    hide Crc, Feed, Plus, MessageBits, MessageBit;
    var total := 8 * |a|;
    var d := Xor(MessageBits(a), MessageBits(b));
    forall i: nat | i < total
      ensures d[i] == (MessageBit(a, i) != MessageBit(b, i))
    {
      MessageBitAt(a, i);
      MessageBitAt(b, i);
    }
    var lo := if s <= total then s else total;
    var hi := if s + n <= total then s + n else total;
    w := d[lo..hi];
    FeedZeroPrefix(0, d, lo, hi);
    CrcDifference(a, b);
    PlusCancels(Crc(a), Crc(b));
    if w == Zeros(|w|) {
      assert forall i: nat | i < total :: lo <= i < hi ==> d[i] == w[i - lo];
      assert MessageBits(a) == MessageBits(b);
      MessageBitsInjective(a, b);
    }
  }

  /** Every error confined to 32 consecutive bits is detected. */
  lemma BurstDetected(a: Octets, b: Octets, s: nat)
    requires |a| == |b| && DifferWithin(a, b, s, 32)
    ensures Crc(a) == Crc(b) <==> a == b
  {
    hide Crc, Feed, WordBits, MessageBit, Drop;
    var w := CrcOfWindow(a, b, s, 32);
    ZeroIffOwnBits(0, w);
    ZeroStaysZero(|w|);
    DropZero(|w|);
  }

  lemma {:induction false} DropZero(n: nat)
    ensures Drop(0, n) == 0
    decreases n
  {
    if n > 0 {
      DropZero(n - 1);
    }
  }

  lemma WindowOf33(w: Bits)
    requires |w| == 33
    ensures Feed(0, w) == 0 <==> w == Zeros(33) || w == Generator()
  {
    hide WordBits, Drop, Shift, Plus, Generator, BitWord;
    var next := if w[0] then POLY else 0;
    GeneratorIsPoly();
    FirstOfWindow(w[0]);
    WordIs32Bits(next);
    ZeroStaysZero(32);
    ZeroIffOwnBits(next, w[1..]);
    assert w == [w[0]] + w[1..];
    assert Zeros(33) == [false] + Zeros(32);
    assert Generator() == [true] + Generator()[1..];
  }

  /** One bit more, and exactly one pattern escapes: the generator itself. */
  lemma LongerBurst(a: Octets, b: Octets, s: nat)
    requires |a| == |b| && s + 33 <= 8 * |a| && DifferWithin(a, b, s, 33)
    ensures Crc(a) == Crc(b) <==> a == b || DifferByGenerator(a, b, s)
  {
    hide Crc, Feed, MessageBit, Generator;
    var w := CrcOfWindow(a, b, s, 33);
    WindowOf33(w);
    assert w == Generator() <==> forall i: nat | i < 33 :: w[i] == Generator()[i];
  }

  lemma FirstOfWindow(b: bool)
    ensures Shift(Plus(0, BitWord(b))) == if b then POLY else 0
  {
    hide Plus, Half, Odd;
    PlusZero(BitWord(b));
    PlusZero(0);
    PlusZero(POLY);
    HalfZero();
    HalfOne();
  }

  lemma HalfOne()
    ensures Half(1) == 0 && Odd(1)
  {}

  // ---- Residue ---------------------------------------------------------------------

  /** The four bytes of a word, least significant first. */
  function LittleEndian(x: bv32): (b: Octets)
    ensures |b| == 4
  {
    [LowByte(x), LowByte(ByteOff(x)), LowByte(ByteOff(ByteOff(x))), LowByte(ByteOff(ByteOff(ByteOff(x))))]
  }

  function LowByte(x: bv32): Octet { (x & 0xFF) as Octet }

  function Both(a: bv32, b: bv32): bv32 { a & b }

  lemma BothParts(a: bv32, b: bv32)
    ensures Half(Both(a, b)) == Both(Half(a), Half(b))
    ensures Odd(Both(a, b)) == (Odd(a) && Odd(b))
  {}

  lemma {:induction false} WordBitsBoth(a: bv32, b: bv32, n: nat)
    ensures forall i :: 0 <= i < n ==> WordBits(Both(a, b), n)[i] == (WordBits(a, n)[i] && WordBits(b, n)[i])
    decreases n
  {
    hide Both, Half, Odd;
    if n > 0 {
      BothParts(a, b);
      WordBitsBoth(Half(a), Half(b), n - 1);
    }
  }

  lemma LowByteBits(x: bv32, n: nat)
    ensures WordBits(x, n + 8) == WordBits(Widen(LowByte(x)), 8) + WordBits(ByteOff(x), n)
  {
    hide WordBits, Half, Odd, ByteOff, Both, LowByte, Widen;
    var half := Half(Half(Half(Half(x))));
    Nibble(x, n + 4);
    Nibble(half, n);
    EightHalves(x);
    Nibble(x, 4);
    Nibble(half, 0);
    FirstByte(x);
    LowByteMasks(x);
  }

  lemma FirstByte(x: bv32)
    ensures WordBits(Both(x, 0xFF), 8) == WordBits(x, 8)
  {
    hide WordBits, Both, Half, Odd;
    WordBitsBoth(x, 0xFF, 8);
    AllOnes();
  }

  lemma AllOnes()
    ensures forall i :: 0 <= i < 8 ==> WordBits(0xFF, 8)[i]
  {
    hide WordBits;
    Nibble(0xFF, 4);
    Nibble(0xF, 0);
  }

  lemma LowByteMasks(x: bv32)
    ensures Widen(LowByte(x)) == Both(x, 0xFF)
  {}

  lemma LittleEndianBits(x: bv32)
    ensures MessageBits(LittleEndian(x)) == WordBits(x, 32)
  {
    hide WordBits, ByteOff, LowByte, Widen, MessageBits;
    var x1 := ByteOff(x);
    var x2 := ByteOff(x1);
    var x3 := ByteOff(x2);
    LowByteBits(x, 24);
    LowByteBits(x1, 16);
    LowByteBits(x2, 8);
    LowByteBits(x3, 0);
    MessageBitsOf4(LowByte(x), LowByte(x1), LowByte(x2), LowByte(x3));
    assert |WordBits(ByteOff(x3), 0)| == 0;
  }

  lemma MessageBitsOf4(a: Octet, b: Octet, c: Octet, d: Octet)
    ensures MessageBits([a, b, c, d]) ==
      WordBits(Widen(a), 8) + (WordBits(Widen(b), 8) + (WordBits(Widen(c), 8) + WordBits(Widen(d), 8)))
  {
    hide WordBits, Widen, MessageBits;
    assert [a, b, c, d] == [a] + ([b] + ([c] + ([d] + [])));
    NextByteBits(a, [b] + ([c] + ([d] + [])));
    NextByteBits(b, [c] + ([d] + []));
    NextByteBits(c, [d] + []);
    NextByteBits(d, []);
  }

  lemma NextByteBits(b: Octet, rest: Octets)
    ensures MessageBits([b] + rest) == WordBits(Widen(b), 8) + MessageBits(rest)
  {
    hide WordBits, Widen;
    assert ([b] + rest)[1..] == rest;
  }

  lemma OnesThenZeros()
    ensures Feed(ONES, Zeros(32)) == 0xDEBB20E3
  {
    hide Feed;
    FourZeros(0xFFFFFFFF, 28);
    FourZeros(0xB2420DE3, 24);
    FourZeros(0x2DFD1072, 20);
    FourZeros(0x39B1F1CF, 16);
    FourZeros(0xBE26ED00, 12);
    FourZeros(0x0BE26ED0, 8);
    FourZeros(0x00BE26ED, 4);
    FourZeros(0x86D830BA, 0);
    FeedNothing(0xDEBB20E3);
  }

  lemma {:induction false} MessageBitsConcat(a: Octets, b: Octets)
    ensures MessageBits(a + b) == MessageBits(a) + MessageBits(b)
    decreases |a|
  {
    hide WordBits, Widen;
    if a == [] {
      assert a + b == b;
    } else {
      assert (a + b)[0] == a[0] && (a + b)[1..] == a[1..] + b;
      MessageBitsConcat(a[1..], b);
    }
  }

  lemma AppendedCrc(data: Octets)
    ensures Crc(data + LittleEndian(Crc(data))) == RESIDUE
  {
    hide Crc, Feed, Plus, MessageBits, LittleEndian, WordBits, Drop;
    var c := Crc(data);
    var q := Feed(ONES, MessageBits(data));
    CrcIsFeed(data);
    CrcIsFeed(data + LittleEndian(c));
    MessageBitsConcat(data, LittleEndian(c));
    LittleEndianBits(c);
    FeedConcat(ONES, MessageBits(data), WordBits(c, 32));
    FeedWord(q, c, 32);
    WordIs32Bits(c);
    PlusZero(Feed(q, WordBits(c, 32)));
    PlusAssociates(q, q, ONES);
    PlusZero(q);
    PlusZero(ONES);
    OnesThenZeros();
    FinalConstant();
  }

  lemma FinalConstant()
    ensures Plus(0xDEBB20E3, ONES) == RESIDUE
  {}

  /** A message followed by four bytes has the residue exactly when those bytes are its checksum. */
  lemma ResidueIffCrc(data: Octets, tail: Octets)
    requires |tail| == 4
    ensures Crc(data + tail) == RESIDUE <==> tail == LittleEndian(Crc(data))
  {
    hide Crc, LittleEndian, MessageBit;
    var right := LittleEndian(Crc(data));
    AppendedCrc(data);
    forall i: nat | i < 8 * |data|
      ensures MessageBit(data + tail, i) == MessageBit(data + right, i)
    {
      SamePrefixBit(data, tail, i);
      SamePrefixBit(data, right, i);
    }
    BurstDetected(data + tail, data + right, 8 * |data|);
    assert (data + tail)[|data|..] == tail && (data + right)[|data|..] == right;
  }

  lemma SamePrefixBit(data: Octets, tail: Octets, i: nat)
    requires i < 8 * |data|
    ensures MessageBit(data + tail, i) == MessageBit(data, i)
  {
    hide WordBits, Widen;
  }
}
