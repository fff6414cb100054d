/**
 * A serial NOR flash as the SPI command frames see it: programming can only clear bits
 * and wraps inside a 256-byte page, erasing sets a 4096-byte sector to ones, both need the
 * write-enable latch and use it up, and a busy device ignores everything but a status read.
 * A busy device may finish at any time, that is, before any transfer.
 */
module NorFlash {
  import opened Common

  const PAGE := 256
  const SECTOR := 4096
  const SIZE := 0x100_0000

  /** What programming b over a leaves: bits can only be cleared. */
  function Burn(a: Byte, b: Byte): Byte { And(a, b) }

  /** Bitwise and of two numbers. */
  function And(a: nat, b: nat): (r: nat)
    ensures r <= a && r <= b
    decreases a
  {
    if a == 0 then 0 else 2 * And(a / 2, b / 2) + (a % 2) * (b % 2)
  }

  /** Binary digit k of a number, the lowest being digit 0. */
  function Digit(n: nat, k: nat): (d: nat)
    ensures d < 2
    decreases k
  {
    if k == 0 then n % 2 else Digit(n / 2, k - 1)
  }

  lemma {:induction false} DigitOfZero(k: nat)
    ensures Digit(0, k) == 0
    decreases k
  {
    if k > 0 {
      DigitOfZero(k - 1);
    }
  }

  /** Programming leaves a digit 1 exactly where it was 1 and is programmed 1. */
  lemma {:induction false} BurnDigits(a: Byte, b: Byte, k: nat)
    ensures Digit(Burn(a, b), k) == 1 <==> Digit(a, k) == 1 && Digit(b, k) == 1
  {
    AndDigits(a, b, k);
  }

  lemma {:induction false} AndDigits(a: nat, b: nat, k: nat)
    ensures Digit(And(a, b), k) == 1 <==> Digit(a, k) == 1 && Digit(b, k) == 1
    decreases k
  {
    if a == 0 {
      DigitOfZero(k);
    } else {
      var rest, low := And(a / 2, b / 2), (a % 2) * (b % 2);
      assert low == if a % 2 == 1 && b % 2 == 1 then 1 else 0;
      assert And(a, b) / 2 == rest && And(a, b) % 2 == low;
      if k > 0 {
        AndDigits(a / 2, b / 2, k - 1);
      }
    }
  }

  function Programmed(c: Bytes, addr: nat, data: Bytes): (r: Bytes)
    requires |c| == SIZE && addr < SIZE
    ensures |r| == SIZE
  {
    seq(SIZE, x requires 0 <= x < SIZE =>
      if x / PAGE == addr / PAGE && (x - addr) % PAGE < |data| then Burn(c[x], data[(x - addr) % PAGE]) else c[x])
  }

  function Erased(c: Bytes, addr: nat): (r: Bytes)
    requires |c| == SIZE && addr < SIZE
    ensures |r| == SIZE
  {
    seq(SIZE, x requires 0 <= x < SIZE => if x / SECTOR == addr / SECTOR then 0xFF else c[x])
  }

  datatype Command =
    | WriteEnable
    | SectorErase(addr: nat)
    | PageProgram(addr: nat, data: Bytes)
    | ReadStatus
    | Unknown

  /** The three address bytes of a frame, most significant first. */
  function Address(tx: Bytes): (a: nat)
    requires |tx| >= 4
    ensures a < SIZE
  {
    Join(tx[1], tx[2], tx[3])
  }

  function Join(hi: nat, mid: nat, lo: nat): nat { hi * 0x1_0000 + mid * 0x100 + lo }

  /** The device's reading of a command frame. */
  function Decode(tx: Bytes): Command {
    if |tx| == 1 && tx[0] == 0x06 then WriteEnable
    else if |tx| == 4 && tx[0] == 0x20 then SectorErase(Address(tx))
    else if |tx| > 4 && tx[0] == 0x02 then PageProgram(Address(tx), tx[4..])
    else if |tx| == 2 && tx[0] == 0x05 then ReadStatus
    else Unknown
  }

  /** The frames of the JEDEC commands, byte by byte. */
  lemma Frames(hi: Byte, mid: Byte, lo: Byte, data: Bytes)
    ensures Decode([0x06]) == WriteEnable && Decode([0x05, lo]) == ReadStatus
    ensures Decode([0x20, hi, mid, lo]) == SectorErase(65536 * hi + 256 * mid + lo)
    ensures data != [] ==> Decode([0x02, hi, mid, lo] + data) == PageProgram(65536 * hi + 256 * mid + lo, data)
  {
    assert ([0x02, hi, mid, lo] + data)[4..] == data;
  }

  datatype Nor = Nor(contents: Bytes, latch: bool, busy: bool)

  predicate Changes(cmd: Command) { cmd.SectorErase? || cmd.PageProgram? }

  predicate Wf(cmd: Command) { Changes(cmd) ==> cmd.addr < SIZE }

  /** The device after receiving a command. */
  function Apply(s: Nor, cmd: Command): (t: Nor)
    requires |s.contents| == SIZE && Wf(cmd)
    ensures |t.contents| == SIZE
  {
    if s.busy then s
    else match cmd
      case WriteEnable => s.(latch := true)
      case SectorErase(a) => if s.latch then Nor(Erased(s.contents, a), false, true) else s
      case PageProgram(a, data) => if s.latch then Nor(Programmed(s.contents, a, data), false, true) else s
      case ReadStatus => s
      case Unknown => s
  }

  /** The addresses a command can touch. */
  predicate Reaches(cmd: Command, x: nat) {
    match cmd
    case SectorErase(a) => x / SECTOR == a / SECTOR
    case PageProgram(a, _) => x / PAGE == a / PAGE
    case _ => false
  }

  predicate AgreeOutside(a: Bytes, b: Bytes, cmd: Command)
    requires |a| == |b| == SIZE
  {
    forall x: nat | x < SIZE && !Reaches(cmd, x) :: a[x] == b[x]
  }

  /** A transfer, the state in which the device met it, and whether it was reported ok. */
  datatype Attempt = Attempt(cmd: Command, latch: bool, busy: bool, ok: bool)

  predicate Disciplined(a: Attempt) { Changes(a.cmd) ==> a.latch && !a.busy }

  class Device {
    var contents: Bytes
    var latch: bool
    var busy: bool
    ghost var log: seq<Attempt>

    ghost predicate Valid() reads this { |contents| == SIZE }

    ghost function State(): Nor reads this { Nor(contents, latch, busy) }

    /**
     * How one command transfer, reported ok or failed, leaves the device. met says whether it met the device busy;
     * a device that was busy before may have finished by then.
     */
    twostate predicate Sent(cmd: Command, ok: bool, met: bool)
      requires old(Valid()) && Wf(cmd)
      reads this
    {
      && Valid()
      && (met ==> old(busy))
      && log == old(log) + [Attempt(cmd, old(latch), met, ok)]
      && (ok ==> State() == Apply(old(State()).(busy := met), cmd))
      && (!ok ==> AgreeOutside(contents, old(contents), cmd))
    }

    /**
     * One SPI transfer without a reply. A transfer that is reported failed may have reached
     * the device in any form: the bytes its command addresses, the latch and the busy flag
     * are then arbitrary.
     */
    method Transfer(tx: Bytes) returns (ok: bool, ghost met: bool)
      requires Valid()
      modifies this
      ensures Sent(Decode(tx), ok, met)
    {
      var cmd := Decode(tx);
      if * {
        busy := false;
      }
      met := busy;
      ok := *;
      log := log + [Attempt(cmd, latch, met, ok)];
      if ok {
        var t := Apply(Nor(contents, latch, busy), cmd);
        contents, latch, busy := t.contents, t.latch, t.busy;
      } else {
        assert AgreeOutside(contents, contents, cmd);
        var junk: Bytes :| |junk| == SIZE && AgreeOutside(junk, contents, cmd);
        contents := junk;
        latch, busy := *, *;
      }
    }

    /**
     * The two-byte status transfer. An operation in progress may have finished by now; bits
     * other than busy are arbitrary.
     */
    method TransferStatus(tx: Bytes) returns (ok: bool, rx: Byte)
      requires Valid() && Decode(tx).ReadStatus?
      modifies this`busy, this`log
      ensures log == old(log) + [Attempt(ReadStatus, latch, busy, ok)]
      ensures busy ==> old(busy)
      ensures ok ==> (rx % 2 == 0 <==> !busy)
    {
      if * {
        busy := false;
      }
      ok := *;
      log := log + [Attempt(ReadStatus, latch, busy, ok)];
      var others: Byte :| others % 2 == 0;
      rx := if busy then others + 1 else others;
    }
  }
}
