/**
 * What the flash holds after a staging write, byte by byte, for every offset, image and
 * earlier contents, on a device found ready or busy; when that is the image; and what an
 * interrupted write still guarantees. Addresses wrap at the device's 24 bits.
 */
module FlashStaging {
  import opened Common
  import opened NorFlash
  import opened NicFlashMgr

  const PAGES := 0x1_0000

  // ---- The rounds that reach a byte ---------------------------------------------------

  /** The one round, within a lap around the device, that programs into the page of x. */
  function ProgramRound(offset: nat, x: nat): nat { (x / PAGE - offset / PAGE) % PAGES }

  /** The one round, within a lap, that starts at the first page of x's sector; only a page-aligned one erases it. */
  function EraseRound(offset: nat, x: nat): nat { (x / SECTOR * 16 - offset / PAGE) % PAGES }

  /** The image byte that meets x: chunks fill pages in turn, each rotated by the offset within its page. */
  function ImageIndex(offset: nat, x: nat): nat { PAGE * ProgramRound(offset, x) + (x - offset) % PAGE }

  /** Addresses erased in the first n rounds. A device found busy ignores the first round's erase. */
  predicate ErasedBy(busy: bool, offset: nat, n: nat, x: nat) {
    offset % PAGE == 0 && EraseRound(offset, x) < n && !(busy && EraseRound(offset, x) == 0)
  }

  /** Addresses programmed in the first n rounds. Without an erase before it, a busy device ignores the first. */
  predicate ProgrammedBy(busy: bool, offset: nat, size: nat, n: nat, x: nat) {
    && ProgramRound(offset, x) < n
    && ImageIndex(offset, x) < size
    && !(busy && ProgramRound(offset, x) == 0 && offset % SECTOR != 0)
  }

  /** What n rounds leave at x. Past the end of the device a write comes round to sectors it began inside. */
  function ByteAfter(c: Bytes, busy: bool, offset: nat, d: Bytes, n: nat, x: nat): Byte
    requires x < |c|
  {
    var erased, hit := ErasedBy(busy, offset, n, x), ProgrammedBy(busy, offset, |d|, n, x);
    if erased && EraseRound(offset, x) > ProgramRound(offset, x) then 0xFF
    else
      var under: Byte := if erased then 0xFF else c[x];
      if hit then Burn(under, d[ImageIndex(offset, x)]) else under
  }

  lemma AddressPage(a: nat)
    ensures a % ADDRESS_MODULUS % SIZE == a % SIZE
    ensures a % SIZE / PAGE == a / PAGE % PAGES
    ensures a % SIZE % PAGE == a % PAGE
  {
    AddressWraps(a);
    var q, r := a / SIZE, a % SIZE;
    PagesWithin(q, r);
  }

  lemma AddressWraps(a: nat)
    ensures a % ADDRESS_MODULUS % SIZE == a % SIZE
  {
    var q, r := a / ADDRESS_MODULUS, a % ADDRESS_MODULUS;
    assert a == SIZE * (256 * q + r / SIZE) + r % SIZE;
    WithinLap(256 * q + r / SIZE, r % SIZE);
  }

  lemma WithinLap(u: int, r: nat)
    requires r < SIZE
    ensures (SIZE * u + r) % SIZE == r
  {}

  lemma PagesWithin(q: nat, r: nat)
    requires r < SIZE
    ensures (SIZE * q + r) / PAGE == PAGES * q + r / PAGE
    ensures r / PAGE < PAGES
    ensures (PAGES * q + r / PAGE) % PAGES == r / PAGE
    ensures (SIZE * q + r) % PAGE == r % PAGE
  {
    assert SIZE * q + r == PAGE * (PAGES * q + r / PAGE) + r % PAGE;
  }

  /** Where chunk k goes: k pages after the first, at the offset's place within its page. */
  lemma ChunkPage(offset: nat, k: nat)
    ensures
      var a := ChunkAddr(offset, k) % SIZE;
      a / PAGE == (offset / PAGE + k) % PAGES && a % PAGE == offset % PAGE
  {
    AddressPage(offset + PAGE * k);
    assert (offset + PAGE * k) / PAGE == offset / PAGE + k;
    assert (offset + PAGE * k) % PAGE == offset % PAGE;
  }

  lemma RoundUnique(p: nat, k: nat, q: nat)
    requires k < PAGES && q < PAGES
    ensures (p + k) % PAGES == q <==> k == (q - p) % PAGES
  {
    var a, r := p / PAGES, p % PAGES;
    assert p == PAGES * a + r;
    if r + k < PAGES {
      Reduced(a, r + k);
    } else {
      Reduced(a + 1, r + k - PAGES);
    }
    if q >= r {
      Reduced(-a, q - r);
    } else {
      Reduced(-a - 1, q - r + PAGES);
    }
  }

  /** Sectors are runs of 16 pages. */
  lemma SectorOf(x: nat)
    ensures x / SECTOR == x / PAGE / 16 && (x % SECTOR == 0 <==> x % PAGE == 0 && x / PAGE % 16 == 0)
  {
    var q, r := x / PAGE, x % PAGE;
    assert x == PAGE * q + r;
    assert x == SECTOR * (q / 16) + (PAGE * (q % 16) + r);
  }

  lemma AddressSector(a: nat)
    ensures a % SIZE % SECTOR == a % SECTOR
  {
    assert a == SECTOR * (4096 * (a / SIZE)) + a % SIZE;
  }

  lemma ChunkSector(offset: nat, k: nat)
    ensures ChunkAddr(offset, k) % SECTOR == ChunkAddr(offset, k) % SIZE % SECTOR
  {
    AddressSector(ChunkAddr(offset, k));
  }

  /** Round k programs into x's page, and erases x's sector, exactly when k is the one round that does. */
  lemma RoundOf(offset: nat, k: nat, x: nat)
    requires k < PAGES && x < SIZE
    ensures
      var a := ChunkAddr(offset, k);
      && (x / PAGE == a % SIZE / PAGE <==> k == ProgramRound(offset, x))
      && (a % SECTOR == 0 && x / SECTOR == a % SIZE / SECTOR <==> offset % PAGE == 0 && k == EraseRound(offset, x))
      && (x - a % SIZE) % PAGE == (x - offset) % PAGE
  {
    hide ChunkAddr;
    var a, p := ChunkAddr(offset, k) % SIZE, offset / PAGE;
    ChunkPage(offset, k);
    ChunkSector(offset, k);
    SectorOf(a);
    SectorOf(x);
    SameRest(x, a, offset);
    RoundUnique(p, k, x / PAGE);
    RoundUnique(p, k, x / SECTOR * 16);
    FirstPage(a / PAGE, x / SECTOR);
  }

  lemma FirstPage(m: nat, s: nat)
    ensures m % 16 == 0 && s == m / 16 <==> m == s * 16
  {}

  lemma SameRest(x: int, a: nat, b: nat)
    requires a % PAGE == b % PAGE
    ensures (x - a) % PAGE == (x - b) % PAGE
  {
    assert x - a == (x - b) + PAGE * (b / PAGE - a / PAGE);
  }

  /** A sector-aligned write erases each sector before it programs into it. */
  lemma ErasedFirst(offset: nat, x: nat)
    requires offset % SECTOR == 0 && x < SIZE
    ensures offset % PAGE == 0 && EraseRound(offset, x) == ProgramRound(offset, x) / 16 * 16
  {
    SectorOf(offset);
    SectorOf(x);
    var p, q := offset / PAGE, x / PAGE;
    Multiples(p, q);
  }

  lemma Multiples(p: nat, q: nat)
    requires p % 16 == 0 && q < PAGES
    ensures (q / 16 * 16 - p) % PAGES == (q - p) % PAGES / 16 * 16
  {
    var s, t := p / 16, q / 16;
    assert 16 * t - p == 16 * (t - s) && q - p == 16 * (t - s) + q % 16;
    var u, v := (t - s) / 4096, (t - s) % 4096;
    assert 16 * (t - s) == PAGES * u + 16 * v;
    Reduced(u, 16 * v);
    Reduced(u, 16 * v + q % 16);
  }

  lemma Reduced(u: int, r: nat)
    requires r < PAGES
    ensures (PAGES * u + r) % PAGES == r
  {}

  // ---- Every byte after any number of rounds --------------------------------------------

  lemma StageChunkAt(c: Bytes, busy: bool, addr: nat, chunk: Bytes, x: nat)
    requires |c| == SIZE && x < SIZE
    ensures
      var a, aligned := addr % SIZE, addr % SECTOR == 0;
      var under: Byte := if aligned && x / SECTOR == a / SECTOR && !busy then 0xFF else c[x];
      StageChunk(c, busy, addr, chunk)[x] ==
      if x / PAGE == a / PAGE && (x - a) % PAGE < |chunk| && (aligned || !busy)
      then Burn(under, chunk[(x - a) % PAGE]) else under
  {
    hide Burn;
  }

  lemma ChunkByte(d: Bytes, k: nat, j: nat)
    requires k < Chunks(|d|) && j < PAGE
    ensures j < |Chunk(d, k)| <==> PAGE * k + j < |d|
    ensures j < |Chunk(d, k)| ==> Chunk(d, k)[j] == d[PAGE * k + j]
  {
    hide Chunks;
    RoundsOf(0, |d|, k);
  }

  lemma ChunkStep(c: Bytes, busy: bool, offset: nat, d: Bytes, k: nat, x: nat)
    requires |c| == SIZE && k < Chunks(|d|) && k < PAGES && x < SIZE
    ensures
      var clears := offset % PAGE == 0 && k == EraseRound(offset, x) && !(busy && k == 0);
      var under: Byte := if clears then 0xFF else c[x];
      StageChunk(c, busy && k == 0, ChunkAddr(offset, k), Chunk(d, k))[x] ==
      if k == ProgramRound(offset, x) && ImageIndex(offset, x) < |d| && !(busy && k == 0 && offset % SECTOR != 0)
      then Burn(under, d[ImageIndex(offset, x)]) else under
  {
    hide Burn, ChunkAddr, ProgramRound, EraseRound, Chunks, StageChunk, Chunk;
    RoundOf(offset, k, x);
    FirstAddress(offset);
    ChunkByte(d, k, (x - offset) % PAGE);
    StageChunkAt(c, busy && k == 0, ChunkAddr(offset, k), Chunk(d, k), x);
  }

  lemma FirstAddress(offset: nat)
    ensures ChunkAddr(offset, 0) % SECTOR == offset % SECTOR
  {
    assert offset == SECTOR * (0x10_0000 * (offset / ADDRESS_MODULUS)) + offset % ADDRESS_MODULUS;
  }

  /** The contents after n rounds of one lap around the device. */
  lemma {:induction false} StagedByte(c: Bytes, busy: bool, offset: nat, d: Bytes, n: nat, x: nat)
    requires |c| == SIZE && n <= Chunks(|d|) && n <= PAGES && x < SIZE
    ensures Staged(c, busy, offset, d, n)[x] == ByteAfter(c, busy, offset, d, n, x)
    decreases n
  {
    hide Burn, ChunkAddr, ImageIndex, ProgramRound, EraseRound, StageChunk, Chunks, Chunk;
    if n > 0 {
      StagedByte(c, busy, offset, d, n - 1, x);
      ChunkStep(Staged(c, busy, offset, d, n - 1), busy, offset, d, n - 1, x);
    }
  }

  // ---- Writes longer than the device ------------------------------------------------------

  /** A write is its first n full pages followed by the write of the rest. */
  lemma {:induction false} StagedSplit(c: Bytes, busy: bool, offset: nat, d: Bytes, n: nat, m: nat)
    requires |c| == SIZE && PAGE * n <= |d| && m <= Chunks(|d| - PAGE * n)
    ensures Chunks(PAGE * n) == n && n + m <= Chunks(|d|)
    ensures
      (Staged(c, busy, offset, d, n + m) ==
       Staged(Staged(c, busy, offset, d[..PAGE * n], n), busy && n == 0, offset + PAGE * n, d[PAGE * n..], m))
    decreases m
  {
    hide StageChunk, Chunk, ChunkAddr;
    if m == 0 {
      StagedPrefix(c, busy, offset, d, n, n);
    } else {
      StagedSplit(c, busy, offset, d, n, m - 1);
      LaterChunk(offset, d, n, m - 1);
    }
  }

  lemma LaterChunk(offset: nat, d: Bytes, n: nat, k: nat)
    requires PAGE * n <= |d| && k < Chunks(|d| - PAGE * n)
    ensures n + k < Chunks(|d|) && Chunk(d, n + k) == Chunk(d[PAGE * n..], k)
    ensures ChunkAddr(offset, n + k) == ChunkAddr(offset + PAGE * n, k)
  {}

  lemma {:induction false} StagedPrefix(c: Bytes, busy: bool, offset: nat, d: Bytes, n: nat, k: nat)
    requires |c| == SIZE && k <= n && PAGE * n <= |d|
    ensures Chunks(PAGE * n) == n <= Chunks(|d|)
    ensures Staged(c, busy, offset, d, k) == Staged(c, busy, offset, d[..PAGE * n], k)
    decreases k
  {
    hide StageChunk, ChunkAddr;
    if k > 0 {
      StagedPrefix(c, busy, offset, d, n, k - 1);
      assert Chunk(d, k - 1) == Chunk(d[..PAGE * n], k - 1);
    }
  }

  function Final(c: Bytes, busy: bool, offset: nat, d: Bytes): (r: Bytes)
    requires |c| == SIZE
    ensures |r| == SIZE
  {
    Staged(c, busy, offset, d, Chunks(|d|))
  }

  /**
   * A write is the write of its first full pages followed by the write of the rest. So what is said below of writes
   * of up to one lap around the device says what the last lap of any longer one leaves.
   */
  lemma WritesCompose(c: Bytes, busy: bool, offset: nat, d: Bytes, m: nat)
    requires |c| == SIZE && m <= |d| && m % PAGE == 0
    ensures Final(c, busy, offset, d) == Final(Final(c, busy, offset, d[..m]), busy && m == 0, offset + m, d[m..])
  {
    hide Staged;
    var n := m / PAGE;
    assert m == PAGE * n;
    StagedSplit(c, busy, offset, d, n, Chunks(|d| - m));
    ChunksAdd(n, |d| - m);
  }

  lemma ChunksAdd(n: nat, rest: nat)
    ensures Chunks(PAGE * n + rest) == n + Chunks(rest)
  {}

  // ---- A successful write -----------------------------------------------------------------

  lemma AndOnes(b: Byte)
    ensures Burn(0xFF, b) == b && Burn(0, b) == 0
  {
    AndLowOnes(b, 8);
  }

  function Pow2(n: nat): nat { if n == 0 then 1 else 2 * Pow2(n - 1) }

  lemma {:induction false} AndLowOnes(b: nat, n: nat)
    requires b < Pow2(n)
    ensures And(Pow2(n) - 1, b) == b
    decreases n
  {
    if n > 0 {
      assert (Pow2(n) - 1) / 2 == Pow2(n - 1) - 1 && (Pow2(n) - 1) % 2 == 1;
      AndLowOnes(b / 2, n - 1);
    }
  }

  /** From a page-aligned offset the rounds that reach x follow from its distance past the offset. */
  lemma AlignedRounds(offset: nat, x: nat)
    requires offset % PAGE == 0 && x < SIZE
    ensures
      var i, s := (x - offset) % SIZE, x % SECTOR;
      && ImageIndex(offset, x) == i && ProgramRound(offset, x) == i / PAGE
      && PAGE * EraseRound(offset, x) == if s <= i then i - s else i - s + SIZE
  {
    var p, q, r := offset / PAGE, x / PAGE, x % PAGE;
    assert offset == PAGE * p && x == PAGE * q + r;
    DistanceInPages(p, q, r);
    Spread((q - p) % PAGES, r);
    SectorOf(x);
    SectorStart(p, q);
    PlaceInSector(q, r);
    SameRest(x, 0, offset);
  }

  lemma DistanceInPages(p: nat, q: nat, r: nat)
    requires r < PAGE
    ensures (PAGE * q + r - PAGE * p) % SIZE == PAGE * ((q - p) % PAGES) + r
  {
    var u, v := (q - p) / PAGES, (q - p) % PAGES;
    assert PAGE * q + r - PAGE * p == SIZE * u + (PAGE * v + r);
    WithinLap(u, PAGE * v + r);
  }

  lemma SectorStart(p: nat, q: nat)
    ensures
      var v, w := (q - p) % PAGES, q % 16;
      (q / 16 * 16 - p) % PAGES == if w <= v then v - w else v - w + PAGES
  {
    var u, v, w := (q - p) / PAGES, (q - p) % PAGES, q % 16;
    assert q / 16 * 16 - p == PAGES * u + (v - w);
    if w <= v {
      Reduced(u, v - w);
    } else {
      Reduced(u - 1, v - w + PAGES);
    }
  }

  lemma PlaceInSector(q: nat, r: nat)
    requires r < PAGE
    ensures (PAGE * q + r) % SECTOR == PAGE * (q % 16) + r
  {
    assert PAGE * q + r == SECTOR * (q / 16) + (PAGE * (q % 16) + r);
    WithinSector(q / 16, PAGE * (q % 16) + r);
  }

  lemma WithinSector(u: int, r: nat)
    requires r < SECTOR
    ensures (SECTOR * u + r) % SECTOR == r
  {}

  lemma Spread(v: nat, r: nat)
    requires r < PAGE
    ensures (PAGE * v + r) / PAGE == v && (PAGE * v + r) % PAGE == r
  {}

  lemma RoundBefore(size: nat, i: nat)
    ensures i / PAGE < Chunks(size) <==> PAGE * (i / PAGE) < size
    ensures i < size ==> i / PAGE < Chunks(size)
    ensures size <= SIZE ==> Chunks(size) <= PAGES
  {}

  /**
   * A page-aligned write of a ready device, up to a whole lap. A byte whose sector the loop entered at its
   * boundary holds the image, or 0xFF past its end; a sector the write began inside and came round to is
   * blank up to there; anywhere else the image only clears bits of what was there.
   */
  lemma PageAlignedWrite(c: Bytes, offset: nat, d: Bytes, x: nat)
    requires |c| == SIZE && |d| <= SIZE && x < SIZE && offset % PAGE == 0
    ensures
      var i, s := (x - offset) % SIZE, x % SECTOR;
      Final(c, false, offset, d)[x] ==
      if s <= i && i - s < |d| then (if i < |d| then d[i] else 0xFF)
      else if i < s && i - s + SIZE < |d| then 0xFF
      else if i < |d| then Burn(c[x], d[i])
      else c[x]
  {
    hide Burn, Staged, Chunks, ImageIndex, ProgramRound, EraseRound;
    var i, e := (x - offset) % SIZE, EraseRound(offset, x);
    RoundBefore(|d|, i);
    RoundBefore(|d|, PAGE * e);
    StagedByte(c, false, offset, d, Chunks(|d|), x);
    AlignedRounds(offset, x);
    RoundOrder(e, i);
    if i < |d| {
      AndOnes(d[i]);
    }
  }

  lemma RoundOrder(e: nat, i: nat)
    ensures PAGE * e / PAGE == e && (e > i / PAGE <==> PAGE * e > i)
  {}

  /** The image lies in place, from the offset on and round the end of the device. */
  predicate Stores(c: Bytes, offset: nat, d: Bytes)
    requires |c| == SIZE
  {
    forall i: nat | i < |d| :: c[(offset + i) % SIZE] == d[i]
  }

  lemma Distance(offset: nat, i: nat)
    requires i < SIZE
    ensures ((offset + i) % SIZE - offset) % SIZE == i
  {
    var q := (offset + i) / SIZE;
    assert (offset + i) % SIZE - offset == SIZE * (-q) + i;
    WithinLap(-q, i);
  }

  /** A sector-aligned write stores exactly the image, whatever the device held before. */
  lemma SectorAlignedWrite(c: Bytes, offset: nat, d: Bytes)
    requires |c| == SIZE && |d| <= SIZE && offset % SECTOR == 0
    ensures Stores(Final(c, false, offset, d), offset, d)
  {
    hide Final, Burn;
    SectorOf(offset);
    forall i: nat | i < |d|
      ensures Final(c, false, offset, d)[(offset + i) % SIZE] == d[i]
    {
      var x := (offset + i) % SIZE;
      Distance(offset, i);
      SectorRest(offset, i);
      PageAlignedWrite(c, offset, d, x);
    }
  }

  /** Of a sector-aligned image longer than the device, the last lap is stored, wherever it is made to begin. */
  lemma LastLapStored(c: Bytes, busy: bool, offset: nat, d: Bytes, m: nat)
    requires |c| == SIZE && offset % SECTOR == 0 && m % SECTOR == 0 && m <= |d| <= m + SIZE && (busy ==> m > 0)
    ensures Stores(Final(c, busy, offset, d), offset + m, d[m..])
  {
    hide Final, Stores;
    SectorOf(m);
    WritesCompose(c, busy, offset, d, m);
    SectorAlignedWrite(Final(c, busy, offset, d[..m]), offset + m, d[m..]);
  }

  lemma SectorRest(offset: nat, i: nat)
    requires offset % SECTOR == 0
    ensures (offset + i) % SIZE % SECTOR == i % SECTOR <= i
  {
    var a, q := offset / SECTOR, (offset + i) / SIZE;
    assert (offset + i) % SIZE == SECTOR * (a - 4096 * q + i / SECTOR) + i % SECTOR;
  }

  /**
   * Started on a device still busy, a sector-aligned write reports success with its first sector never erased;
   * the rest is as it should be.
   */
  lemma BusyWrite(c: Bytes, offset: nat, d: Bytes, x: nat)
    requires |c| == SIZE && |d| <= SIZE && x < SIZE && offset % SECTOR == 0
    ensures
      var i := (x - offset) % SIZE;
      Final(c, true, offset, d)[x] ==
      if i >= SECTOR then Final(c, false, offset, d)[x]
      else if i < |d| then Burn(c[x], d[i])
      else c[x]
  {
    hide Burn, Staged, Chunks, ImageIndex, ProgramRound, EraseRound;
    var i := (x - offset) % SIZE;
    SectorOf(offset);
    RoundBefore(|d|, i);
    StagedByte(c, true, offset, d, Chunks(|d|), x);
    StagedByte(c, false, offset, d, Chunks(|d|), x);
    AlignedRounds(offset, x);
    ErasedFirst(offset, x);
  }

  /**
   * Off a page boundary nothing is ever erased: every byte loses bits at most, and image bytes land rotated
   * within their page. A busy device ignores the first page altogether.
   */
  lemma UnalignedWrite(c: Bytes, busy: bool, offset: nat, d: Bytes, x: nat)
    requires |c| == SIZE && |d| <= SIZE && x < SIZE && offset % PAGE != 0
    ensures Final(c, busy, offset, d)[x] <= c[x]
    ensures
      Final(c, busy, offset, d)[x] ==
      if ImageIndex(offset, x) < |d| && !(busy && ProgramRound(offset, x) == 0)
      then Burn(c[x], d[ImageIndex(offset, x)]) else c[x]
  {
    hide Staged, Chunks, Burn, ProgramRound;
    var k := ProgramRound(offset, x);
    Spread(k, (x - offset) % PAGE);
    RoundBefore(|d|, ImageIndex(offset, x));
    SectorOf(offset);
    StagedByte(c, busy, offset, d, Chunks(|d|), x);
    BurnClears();
  }

  lemma BurnClears()
    ensures forall a: Byte, b: Byte :: Burn(a, b) <= a
  {}

  /** Whether every image of a given size, over any earlier contents, is stored as given. */
  ghost predicate AlwaysStores(offset: nat, size: nat, busy: bool) {
    forall c: Bytes, d: Bytes | |c| == SIZE && |d| == size :: Stores(Final(c, busy, offset, d), offset, d)
  }

  /**
   * A write that reports success is sure to have stored its image exactly when it was sector-aligned, no longer
   * than the device, and found the device ready; or was empty. For every offset and size.
   */
  lemma StoresIff(offset: nat, size: nat, busy: bool)
    ensures AlwaysStores(offset, size, busy) <==> size == 0 || (offset % SECTOR == 0 && size <= SIZE && !busy)
  {
    hide Final, Stores;
    if size == 0 || (offset % SECTOR == 0 && size <= SIZE && !busy) {
      forall c: Bytes, d: Bytes | |c| == SIZE && |d| == size
        ensures Stores(Final(c, busy, offset, d), offset, d)
      {
        if size > 0 {
          SectorAlignedWrite(c, offset, d);
        } else {
          StoresNothing(Final(c, busy, offset, d), offset, d);
        }
      }
    } else {
      var c, d := NotStored(offset, size, busy);
      assert |c| == SIZE && |d| == size && !Stores(Final(c, busy, offset, d), offset, d);
    }
  }

  lemma StoresNothing(c: Bytes, offset: nat, d: Bytes)
    requires |c| == SIZE && d == []
    ensures Stores(c, offset, d)
  {}

  lemma NotStored(offset: nat, size: nat, busy: bool) returns (c: Bytes, d: Bytes)
    requires size > 0 && (offset % SECTOR != 0 || size > SIZE || busy)
    ensures |c| == SIZE && |d| == size && !Stores(Final(c, busy, offset, d), offset, d)
  {
    hide Final;
    c := seq(SIZE, _ => 0);
    if size > SIZE {
      d := seq(size, i => if i == 0 then 1 else 0);
      LapMeets(offset);
      assert d[0] != d[SIZE];
    } else {
      var x := offset % SIZE;
      assert (offset + 0) % SIZE == x;
      var n := Chunks(size);
      if ErasedBy(busy, offset, n, x) {
        d := seq(size, _ => 0);
        assert Final(c, busy, offset, d)[x] == 0xFF by { FirstByteErased(c, busy, offset, d); }
        assert d[0] == 0;
      } else {
        d := seq(size, _ => 0xFF);
        assert Final(c, busy, offset, d)[x] == 0 by { FirstByteKept(c, busy, offset, d); }
        assert d[0] == 0xFF;
      }
    }
  }

  lemma LapMeets(offset: nat)
    ensures (offset + 0) % SIZE == (offset + SIZE) % SIZE
  {}

  lemma FirstRounds(offset: nat)
    ensures ProgramRound(offset, offset % SIZE) == 0 && ImageIndex(offset, offset % SIZE) == 0
    ensures offset % PAGE == 0 ==> (EraseRound(offset, offset % SIZE) == 0 <==> offset % SECTOR == 0)
  {
    hide ProgramRound, EraseRound;
    var x := offset % SIZE;
    AddressPage(offset);
    AddressSector(offset);
    assert ProgramRound(offset, x) == 0 by { FirstProgram(offset, x); }
    SameRest(x, x, offset);
    if offset % PAGE == 0 {
      Distance(offset, 0);
      AlignedRounds(offset, x);
    }
  }

  lemma FirstProgram(offset: nat, x: nat)
    requires x / PAGE == offset / PAGE % PAGES
    ensures ProgramRound(offset, x) == 0
  {
    var p := offset / PAGE;
    Reduced(-(p / PAGES), 0);
    assert x / PAGE - p == PAGES * -(p / PAGES);
  }

  lemma FirstByteErased(c: Bytes, busy: bool, offset: nat, d: Bytes)
    requires |c| == SIZE && 0 < |d| <= SIZE && (offset % SECTOR != 0 || busy)
    requires ErasedBy(busy, offset, Chunks(|d|), offset % SIZE)
    ensures Final(c, busy, offset, d)[offset % SIZE] == 0xFF
  {
    hide Burn, Staged, ProgramRound, EraseRound, ImageIndex;
    FirstRounds(offset);
    StagedByte(c, busy, offset, d, Chunks(|d|), offset % SIZE);
  }

  lemma FirstByteKept(c: Bytes, busy: bool, offset: nat, d: Bytes)
    requires |c| == SIZE && 0 < |d| <= SIZE && c[offset % SIZE] == 0
    requires !ErasedBy(busy, offset, Chunks(|d|), offset % SIZE)
    ensures Final(c, busy, offset, d)[offset % SIZE] == 0
  {
    hide Burn, Staged, ProgramRound, EraseRound, ImageIndex, ErasedBy;
    FirstRounds(offset);
    StagedByte(c, busy, offset, d, Chunks(|d|), offset % SIZE);
    AndOnes(d[0]);
  }

  // ---- An interrupted write -----------------------------------------------------------------

  /** However a write stops, a byte that no round so far could touch is unchanged. */
  lemma InterruptedElsewhere(c: Bytes, busy: bool, offset: nat, d: Bytes, k: nat, c1: Bytes, x: nat)
    requires |c| == |c1| == SIZE && k < Chunks(|d|) && Interrupted(c, busy, offset, d, k, c1) && x < SIZE
    requires forall j: nat | j <= k :: !Touches(ChunkAddr(offset, j), x)
    ensures c1[x] == c[x]
  {
    hide Touches, ChunkAddr, Chunks;
    Untouched(c, busy, offset, d, k, x);
    assert !Touches(ChunkAddr(offset, k), x);
  }

  lemma {:induction false} Untouched(c: Bytes, busy: bool, offset: nat, d: Bytes, n: nat, x: nat)
    requires |c| == SIZE && n <= Chunks(|d|) && x < SIZE
    requires forall j: nat | j < n :: !Touches(ChunkAddr(offset, j), x)
    ensures Staged(c, busy, offset, d, n)[x] == c[x]
    decreases n
  {
    hide Touches, ChunkAddr, Chunks, StageChunk, Chunk;
    if n > 0 {
      var addr := ChunkAddr(offset, n - 1);
      assert !Touches(addr, x);
      Untouched(c, busy, offset, d, n - 1, x);
      StageChunkElsewhere(Staged(c, busy, offset, d, n - 1), busy && n == 1, addr, Chunk(d, n - 1), x);
    }
  }

  lemma StageChunkElsewhere(c: Bytes, busy: bool, addr: nat, chunk: Bytes, x: nat)
    requires |c| == SIZE && x < SIZE && !Touches(addr, x)
    ensures StageChunk(c, busy, addr, chunk)[x] == c[x]
  {
    hide Burn, StageChunk;
    StageChunkAt(c, busy, addr, chunk, x);
    SectorOf(x);
    SectorOf(addr % SIZE);
  }

  /**
   * From a sector-aligned offset, the rounds that were completed stay in place; after a start on a busy device,
   * from the second sector on.
   */
  lemma InterruptedPrefix(c: Bytes, busy: bool, offset: nat, d: Bytes, k: nat, c1: Bytes, i: nat)
    requires |c| == |c1| == SIZE && |d| <= SIZE && k < Chunks(|d|) && Interrupted(c, busy, offset, d, k, c1)
    requires offset % SECTOR == 0 && i < PAGE * k && (busy ==> i >= SECTOR)
    ensures i < |d| && c1[(offset + i) % SIZE] == d[i]
  {
    hide Burn, Staged, ChunkAddr, Chunks, ImageIndex, ProgramRound, EraseRound;
    var x := (offset + i) % SIZE;
    RoundsOf(offset, |d|, k);
    RoundBefore(|d|, i);
    SectorOf(offset);
    Distance(offset, i);
    AlignedRounds(offset, x);
    ErasedFirst(offset, x);
    RoundOf(offset, k, x);
    StagedByte(c, busy, offset, d, k, x);
    AndOnes(d[i]);
  }

  /**
   * Running a sector-aligned update again after an interruption gives what one clean run would have given,
   * provided the device is ready when it starts again. For images of any length.
   */
  lemma RetryRecovers(c: Bytes, busy: bool, offset: nat, d: Bytes, k: nat, c1: Bytes)
    requires |c| == |c1| == SIZE && k < Chunks(|d|) && Interrupted(c, busy, offset, d, k, c1)
    requires offset % SECTOR == 0
    ensures Final(c1, false, offset, d) == Final(c, false, offset, d)
  {
    hide Staged, Interrupted, Chunks, Touches, ChunkAddr;
    forall x: nat | x < SIZE
      ensures Final(c1, false, offset, d)[x] == Final(c, false, offset, d)[x]
    {
      if c1[x] != c[x] {
        if forall j: nat | j <= k :: !Touches(ChunkAddr(offset, j), x) {
          InterruptedElsewhere(c, busy, offset, d, k, c1, x);
          assert false;
        }
        var j: nat :| j <= k && Touches(ChunkAddr(offset, j), x);
        SectorErasedBefore(offset, j, x);
      }
      SameAfter(c, c1, offset, d, Chunks(|d|), x);
    }
  }

  /** Whether round j erases the sector of x. */
  predicate Erases(offset: nat, j: nat, x: nat) {
    ChunkAddr(offset, j) % SECTOR == 0 && x / SECTOR == ChunkAddr(offset, j) % SIZE / SECTOR
  }

  /** From a sector-aligned offset, whatever a round may touch was erased by a round no later. */
  lemma SectorErasedBefore(offset: nat, j: nat, x: nat)
    requires offset % SECTOR == 0 && x < SIZE && Touches(ChunkAddr(offset, j), x)
    ensures Erases(offset, j / 16 * 16, x)
  {
    hide ChunkAddr;
    var b := j / 16 * 16;
    ChunkPage(offset, j);
    ChunkPage(offset, b);
    ChunkSector(offset, j);
    ChunkSector(offset, b);
    SectorOf(offset);
    SectorOf(x);
    SectorOf(ChunkAddr(offset, j) % SIZE);
    SectorOf(ChunkAddr(offset, b) % SIZE);
    SameSixteen(offset / PAGE, j);
  }

  lemma SameSixteen(p: nat, j: nat)
    requires p % 16 == 0
    ensures (p + j) % PAGES / 16 == (p + j / 16 * 16) % PAGES / 16 && (p + j / 16 * 16) % PAGES % 16 == 0
  {
    var a := p / 16 + j / 16;
    var u, v := a / 4096, a % 4096;
    assert p + j == PAGES * u + (16 * v + j % 16) && p + j / 16 * 16 == PAGES * u + 16 * v;
    Reduced(u, 16 * v + j % 16);
    Reduced(u, 16 * v);
  }

  /** Two runs of the same write agree at x if they began so, and after any round that erases its sector. */
  lemma {:induction false} SameAfter(c: Bytes, c1: Bytes, offset: nat, d: Bytes, n: nat, x: nat)
    requires |c| == |c1| == SIZE && n <= Chunks(|d|) && x < SIZE
    requires c1[x] == c[x] || exists j: nat :: j < n && Erases(offset, j, x)
    ensures Staged(c1, false, offset, d, n)[x] == Staged(c, false, offset, d, n)[x]
    decreases n
  {
    hide ChunkAddr, Chunks, StageChunk, Chunk, Burn;
    if n > 0 {
      var addr := ChunkAddr(offset, n - 1);
      StageChunkAt(Staged(c, false, offset, d, n - 1), false, addr, Chunk(d, n - 1), x);
      StageChunkAt(Staged(c1, false, offset, d, n - 1), false, addr, Chunk(d, n - 1), x);
      if !Erases(offset, n - 1, x) {
        SameAfter(c, c1, offset, d, n - 1, x);
      }
    }
  }
}
