/**
 * Runs of flash commands: when a device may be found busy, which updates of a run are sure
 * to be stored, and what the first update after a timeout leaves behind.
 */
module FlashRuns {
  import opened Common
  import opened Rtos
  import opened NorFlash
  import opened NicFlashMgr
  import opened FlashStaging

  predicate Failed(t: Turn) { t.err != Ok }

  /** An update that succeeded after writing something: its last wait found the device ready. */
  predicate Cleared(t: Turn) { t.cmd.cmdType == UpdateStart && t.err == Ok && t.image != [] }

  ghost predicate NoneCleared(run: seq<Turn>, from: nat) {
    forall i :: from <= i < |run| ==> !Cleared(run[i])
  }

  ghost predicate NoneFailed(run: seq<Turn>, from: nat) {
    forall i :: from <= i < |run| ==> !Failed(run[i])
  }

  /** A device found busy was busy at the start, or an update has failed, and no update has cleared it since. */
  lemma {:induction false} BusyHasACause(first: Memory, run: seq<Turn>, last: Memory)
    requires Chained(first, run, last) && last.busy
    ensures
      || (first.busy && NoneCleared(run, 0))
      || (exists j: nat | j < |run| :: Failed(run[j]) && NoneCleared(run, j + 1))
  {
    hide Interrupted, Staged;
    if run != [] {
      var n := |run| - 1;
      assert !Cleared(run[n]);
      if Failed(run[n]) {
        assert NoneCleared(run, n + 1);
      } else {
        BusyHasACause(first, run[..n], run[n].before);
        assert forall j: nat | j <= n && NoneCleared(run[..n], j) :: NoneCleared(run, j) by {
          Extends(run, n);
        }
      }
    }
  }

  lemma Extends(run: seq<Turn>, n: nat)
    requires n + 1 == |run| && !Cleared(run[n])
    ensures forall j: nat | j <= n && NoneCleared(run[..n], j) :: NoneCleared(run, j)
  {
    forall j: nat | j <= n && NoneCleared(run[..n], j)
      ensures NoneCleared(run, j)
    {
      assert forall i :: j <= i < n ==> run[i] == run[..n][i];
    }
  }

  lemma {:induction false} TurnOf(first: Memory, run: seq<Turn>, last: Memory, j: nat)
    requires Chained(first, run, last) && j < |run|
    ensures TurnRight(run[j]) && Chained(first, run[..j], run[j].before)
    decreases |run|
  {
    hide TurnRight;
    var n := |run| - 1;
    if j < n {
      TurnOf(first, run[..n], run[n].before, j);
      assert run[..n][..j] == run[..j];
    }
  }

  /**
   * Why an update of a run does not succeed: it fails exactly if one of its transfers was reported failed, and
   * otherwise only times out, after a wait of at least 100 ms that ends with the device still busy. With neither it
   * succeeds.
   */
  lemma FailureHasACause(first: Memory, run: seq<Turn>, last: Memory, j: nat)
    requires Chained(first, run, last) && j < |run| && run[j].cmd.cmdType == UpdateStart
    ensures
      var t := run[j];
      && (t.err == Fail <==> exists i: nat :: i < |t.transfers| && !t.transfers[i].ok)
      && (t.err != Ok && t.err != Fail ==> t.err == Timeout && t.took >= 100 && t.after.busy)
  {
    hide Chained, Interrupted, Staged;
    var t := run[j];
    TurnOf(first, run, last, j);
    if t.err == Fail {
      assert !t.transfers[|t.transfers| - 1].ok;
    }
  }

  /** No update has failed since the last one that wrote something, or since a start with a ready device. */
  ghost predicate Prepared(first: Memory, run: seq<Turn>) {
    || (!first.busy && NoneFailed(run, 0))
    || (exists i: nat | i < |run| :: Cleared(run[i]) && NoneFailed(run, i + 1))
  }

  /** In every run, a sector-aligned update that succeeds with no failure behind it has stored its image. */
  lemma PreparedUpdateStores(first: Memory, run: seq<Turn>, last: Memory, j: nat)
    requires Chained(first, run, last) && j < |run| && Prepared(first, run[..j])
    requires run[j].cmd.cmdType == UpdateStart && run[j].err == Ok
    requires run[j].cmd.imageOffset % SECTOR == 0 && |run[j].image| <= SIZE
    ensures |run[j].after.contents| == SIZE
    ensures Stores(run[j].after.contents, run[j].cmd.imageOffset, run[j].image)
  {
    hide Staged, Stores, Chained;
    var t := run[j];
    TurnOf(first, run, last, j);
    if t.before.busy {
      BusyHasACause(first, run[..j], t.before);
      assert false;
    }
    SectorAlignedWrite(t.before.contents, t.cmd.imageOffset, t.image);
  }

  /** The first sector of an image could be programmed over what is there. */
  ghost predicate NeedsNoErase(c: Bytes, offset: nat, d: Bytes)
    requires |c| == SIZE
  {
    forall i: nat | i < |d| && i < SECTOR :: Burn(c[(offset + i) % SIZE], d[i]) == d[i]
  }

  /**
   * The first update after a timeout begins with a device that was left busy. If it reports success, it has stored
   * its image exactly if the device finished by itself in time, or the bytes its first sector held could take the
   * image without an erase.
   */
  lemma UpdateAfterTimeout(first: Memory, run: seq<Turn>, last: Memory, j: nat)
    requires Chained(first, run, last) && 0 < j < |run| && run[j - 1].err == Timeout && Cleared(run[j])
    requires run[j].cmd.imageOffset % SECTOR == 0 && |run[j].image| <= SIZE
    ensures |run[j].before.contents| == |run[j].after.contents| == SIZE && run[j].before.busy
    ensures
      var t := run[j];
      Stores(t.after.contents, t.cmd.imageOffset, t.image) <==>
      !t.found || NeedsNoErase(t.before.contents, t.cmd.imageOffset, t.image)
  {
    hide Staged, Chained, Burn;
    var t := run[j];
    TurnOf(first, run, last, j);
    TurnOf(first, run, last, j - 1);
    Adjacent(first, run, last, j);
    assert t.before.busy;
    SectorAlignedWrite(t.before.contents, t.cmd.imageOffset, t.image);
    if !t.found { return; }
    forall i: nat | i < |t.image|
      ensures
        t.after.contents[(t.cmd.imageOffset + i) % SIZE] ==
        if i < SECTOR then Burn(t.before.contents[(t.cmd.imageOffset + i) % SIZE], t.image[i]) else t.image[i]
    {
      Distance(t.cmd.imageOffset, i);
      BusyWrite(t.before.contents, t.cmd.imageOffset, t.image, (t.cmd.imageOffset + i) % SIZE);
    }
  }

  lemma Adjacent(first: Memory, run: seq<Turn>, last: Memory, j: nat)
    requires Chained(first, run, last) && 0 < j < |run|
    ensures run[j - 1].after == run[j].before
  {
    hide TurnRight;
    TurnOf(first, run, last, j);
  }
}
