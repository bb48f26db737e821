/**
 A flush as the list of durable disk states it goes through, under any combination of failing
 FAT calls, and what recovery finds when power fails in any of those states.
 */
module StoreFlush {
  import opened Bytes
  import opened StoreFormat
  import opened StoreDisk
  import opened StoreRam

  /** Which calls of one flush fail. `writes` is how many `f_write` calls succeed before one fails. */
  datatype FlushFaults = FlushFaults(
    acquire: bool, alloc: bool, mount: bool, mkdir: bool,
    unlinkTmp: bool, open: bool, writes: nat, close: bool,
    unlinkBak: bool, statLive: bool, renameLive: bool, renameTmp: bool,
    statBak: bool, renameBack: bool,
    dropStoreBak: bool, dropDelta: bool, dropDeltaBak: bool,
    cleanStoreTmp: bool, cleanDeltaTmp: bool)

  /** The durable disk states a flush passes through, first to last, and how it ends. */
  datatype FlushRun = FlushRun(cuts: seq<Disk>, status: Status)

  function Final(run: FlushRun): (d: Disk)
    requires |run.cuts| > 0
  {
    run.cuts[|run.cuts| - 1]
  }

  function CutSet(run: FlushRun): (c: set<Disk>) {
    set d | d in run.cuts
  }

  /** `f_write` calls needed for `bytes` bytes in 32 KiB chunks. */
  function ChunkCount(bytes: nat): (c: nat) {
    (bytes + CHUNK - 1) / CHUNK
  }

  predicate TmpWritten(f: FlushFaults, writes: nat) {
    !f.open && writes <= f.writes && !f.close
  }

  /** The third state of a rotation: the live file has been moved away if it was seen. */
  function AfterMove(d: Disk, live: Name, bak: Name, f: FlushFaults): (c: Disk) {
    var d1 := Unlink(d, bak, f.unlinkBak);
    if live in d1 && !f.statLive then Rename(d1, live, bak, f.renameLive) else d1
  }

  /**
   The rotation shared by both branches once the temporary file is complete: drop the backup,
   move the live file to the backup name, move the temporary file to the live name, and roll
   the backup back if that last rename fails.
   */
  function Rotate(d: Disk, live: Name, bak: Name, content: seq<byte>, f: FlushFaults): (run: FlushRun)
    ensures 2 <= |run.cuts| <= 4 && run.cuts[0] == d && run.cuts[1] == Unlink(d, bak, f.unlinkBak)
    ensures |run.cuts| > 2 ==> run.cuts[2] == AfterMove(d, live, bak, f)
    ensures run.status == Ok ==> |run.cuts| == 4
  {
    var d1 := Unlink(d, bak, f.unlinkBak);
    if live in d1 && !f.statLive && !CanRename(d1, live, bak, f.renameLive) then FlushRun([d, d1], ErrIo)
    else
      var d2 := AfterMove(d, live, bak, f);
      if !f.renameTmp && live !in d2 then FlushRun([d, d1, d2, d2[live := content]], Ok)
      else if bak in d2 && !f.statBak
      then FlushRun([d, d1, d2, Rename(d2, bak, live, f.renameBack)], ErrIo)
      else FlushRun([d, d1, d2], ErrIo)
  }

  /** The delta branch: the temporary file takes one header write and the payload chunks. */
  function DeltaFlush(d: Disk, size: nat, j: Journal, f: FlushFaults): (run: FlushRun)
    requires j.first <= j.last < U32
    ensures |run.cuts| > 0 && run.cuts[0] == d
  {
    if !TmpWritten(f, 1 + ChunkCount(|j.payload|)) then FlushRun([d], ErrIo)
    else Rotate(d, Delta, DeltaBak, DeltaFile(size, j), f)
  }

  /** The full-rewrite branch: rotate the image in, then drop its backup and both old deltas. */
  function FullRewrite(d: Disk, image: Image, f: FlushFaults): (run: FlushRun)
    ensures |run.cuts| > 0 && run.cuts[0] == d
  {
    if !TmpWritten(f, ChunkCount(|image|)) then FlushRun([d], ErrIo)
    else
      var r := Rotate(d, Store, StoreBak, image, f);
      if r.status != Ok then r
      else
        var d1 := Unlink(Final(r), StoreBak, f.dropStoreBak);
        var d2 := Unlink(d1, Delta, f.dropDelta);
        var d3 := Unlink(d2, DeltaBak, f.dropDeltaBak);
        FlushRun(r.cuts + [d1, d2, d3], Ok)
  }

  function Flush(ram: Ram, d: Disk, f: FlushFaults): (run: FlushRun)
    requires ValidRam(ram)
    ensures |run.cuts| > 0 && run.cuts[0] == d
  {
    if !ram.dirty then FlushRun([d], Ok)
    else if f.acquire then FlushRun([d], ErrIo)
    else if f.alloc then FlushRun([d], ErrNoMem)
    else if f.mount || f.mkdir then FlushRun([d], ErrIo)
    else if ram.backingValid then DeltaFlush(d, |ram.data|, FlushJournal(ram), f)
    else FullRewrite(d, ram.data, f)
  }

  function Sync(ram: Ram, d: Disk, f: FlushFaults): (run: FlushRun)
    requires ValidRam(ram)
    ensures |run.cuts| > 0 && run.cuts[0] == d
  {
    if !ram.dirty || ram.suspended != 0 then FlushRun([d], Ok) else Flush(ram, d, f)
  }

  /** The fields after a sync: unchanged unless it really flushed and succeeded. */
  function RamAfterSync(ram: Ram, d: Disk, f: FlushFaults): (r: Ram)
    requires ValidRam(ram)
  {
    if !ram.dirty || ram.suspended != 0 || Sync(ram, d, f).status != Ok then ram else AfterFlush(ram)
  }

  // ---------------------------------------------------------------- what must work

  /** A rotation succeeds exactly if a live file can be moved aside and the new one renamed into its place. */
  lemma RotateOkIff(d: Disk, live: Name, bak: Name, content: seq<byte>, f: FlushFaults)
    requires live != bak
    ensures Rotate(d, live, bak, content, f).status == Ok <==>
      !f.renameTmp && (live in d ==> !f.statLive && !f.renameLive && (bak in d ==> !f.unlinkBak))
    ensures Rotate(d, live, bak, content, f).status != Ok ==> Rotate(d, live, bak, content, f).status == ErrIo
  {
  }

  /** The temporary file is written: it opens and closes, and every 32 KiB of it and `extra` more writes succeed. */
  predicate Writable(f: FlushFaults, extra: nat, bytes: nat) {
    !f.open && !f.close && extra + (bytes + 32767) / 32768 <= f.writes
  }

  /** What must work for a sync to report success, exactly, and what it reports otherwise. */
  lemma SyncStatusIff(ram: Ram, d: Disk, f: FlushFaults)
    requires ValidRam(ram)
    ensures var st := Sync(ram, d, f).status;
      if !ram.dirty || ram.suspended > 0 then st == Ok
      else if f.acquire then st == ErrIo
      else if f.alloc then st == ErrNoMem
      else
        && (st == Ok || st == ErrIo)
        && (st == Ok <==>
              && !f.mount && !f.mkdir && !f.renameTmp
              && (ram.backingValid ==>
                    && Writable(f, 1, (FlushLast(ram) - FlushFirst(ram) + 1) * 4096)
                    && (Delta in d ==> !f.statLive && !f.renameLive && (DeltaBak in d ==> !f.unlinkBak)))
              && (!ram.backingValid ==>
                    && Writable(f, 0, |ram.data|)
                    && (Store in d ==> !f.statLive && !f.renameLive && (StoreBak in d ==> !f.unlinkBak))))
  {
    if ram.dirty {
      if ram.backingValid {
        RotateOkIff(d, Delta, DeltaBak, DeltaFile(|ram.data|, FlushJournal(ram)), f);
      } else {
        RotateOkIff(d, Store, StoreBak, ram.data, f);
      }
    }
  }

  // ---------------------------------------------------------------- the rotation

  /** File `n` of `c` is file `m` of `d`, or both are absent. */
  predicate SameFile(c: Disk, n: Name, d: Disk, m: Name) {
    (n in c <==> m in d) && (n in c ==> c[n] == d[m])
  }

  predicate SameElsewhere(c: Disk, d: Disk, live: Name, bak: Name) {
    forall n: Name :: n != live && n != bak ==> SameFile(c, n, d, n)
  }

  /** `c` still holds the old generation: live in place, or moved between the two names. */
  predicate OldGeneration(c: Disk, d: Disk, live: Name, bak: Name) {
    || (SameFile(c, live, d, live) && (bak !in c || SameFile(c, bak, d, bak)))
    || (live in d && live !in c && SameFile(c, bak, d, live))
    || (live !in d && bak !in c && SameFile(c, live, d, bak))
  }

  /** `c` holds `content` as live, and the old live file (if there was one) as backup. */
  predicate NewGeneration(c: Disk, d: Disk, live: Name, bak: Name, content: seq<byte>) {
    && live in c && c[live] == content
    && if live in d then SameFile(c, bak, d, live) else bak !in c || SameFile(c, bak, d, bak)
  }

  lemma UnlinkKeepsOld(d: Disk, live: Name, bak: Name, fault: bool)
    requires live != bak
    ensures var c := Unlink(d, bak, fault);
      SameElsewhere(c, d, live, bak) && SameFile(c, live, d, live) && (bak !in c || SameFile(c, bak, d, bak))
  {
  }

  /** Moving the live file of `c` to the backup name, or back, keeps the old generation of `d`. */
  lemma MoveKeepsOld(c: Disk, d: Disk, live: Name, bak: Name)
    requires live != bak && SameElsewhere(c, d, live, bak)
    requires live in c && bak !in c && SameFile(c, live, d, live)
    ensures var c' := Rename(c, live, bak, false);
      SameElsewhere(c', d, live, bak) && live !in c' && SameFile(c', bak, d, live)
  {
    var c' := Rename(c, live, bak, false);
    forall n: Name | n != live && n != bak
      ensures SameFile(c', n, d, n)
    {
      assert SameFile(c, n, d, n);
    }
  }

  lemma RollbackKeepsOld(c: Disk, d: Disk, live: Name, bak: Name)
    requires live != bak && SameElsewhere(c, d, live, bak) && OldGeneration(c, d, live, bak)
    requires bak in c && live !in c
    ensures var c' := Rename(c, bak, live, false);
      SameElsewhere(c', d, live, bak) && OldGeneration(c', d, live, bak)
  {
    var c' := Rename(c, bak, live, false);
    forall n: Name | n != live && n != bak
      ensures SameFile(c', n, d, n)
    {
      assert SameFile(c, n, d, n);
    }
  }

  lemma InstallMakesNew(c: Disk, d: Disk, live: Name, bak: Name, content: seq<byte>)
    requires live != bak && SameElsewhere(c, d, live, bak) && live !in c
    requires if live in d then SameFile(c, bak, d, live) else bak !in c || SameFile(c, bak, d, bak)
    ensures var c' := c[live := content];
      SameElsewhere(c', d, live, bak) && NewGeneration(c', d, live, bak, content)
  {
    var c' := c[live := content];
    forall n: Name | n != live && n != bak
      ensures SameFile(c', n, d, n)
    {
      assert SameFile(c, n, d, n);
    }
  }

  lemma AfterMoveKeepsOld(d: Disk, live: Name, bak: Name, f: FlushFaults)
    requires live != bak
    ensures SameElsewhere(AfterMove(d, live, bak, f), d, live, bak)
    ensures OldGeneration(AfterMove(d, live, bak, f), d, live, bak)
  {
    var d1 := Unlink(d, bak, f.unlinkBak);
    UnlinkKeepsOld(d, live, bak, f.unlinkBak);
    if live in d1 && !f.statLive && CanRename(d1, live, bak, f.renameLive) {
      MoveKeepsOld(d1, d, live, bak);
    }
  }

  lemma RotateLastCut(d: Disk, live: Name, bak: Name, content: seq<byte>, f: FlushFaults)
    requires live != bak && |Rotate(d, live, bak, content, f).cuts| == 4
    ensures var run := Rotate(d, live, bak, content, f);
      && SameElsewhere(run.cuts[3], d, live, bak)
      && if run.status == Ok
         then NewGeneration(run.cuts[3], d, live, bak, content)
         else OldGeneration(run.cuts[3], d, live, bak)
  {
    var d2 := AfterMove(d, live, bak, f);
    AfterMoveKeepsOld(d, live, bak, f);
    if Rotate(d, live, bak, content, f).status == Ok {
      InstallMakesNew(d2, d, live, bak, content);
    } else if CanRename(d2, bak, live, f.renameBack) {
      RollbackKeepsOld(d2, d, live, bak);
    }
  }

  lemma RotateEarlyCut(d: Disk, live: Name, bak: Name, content: seq<byte>, f: FlushFaults, k: nat)
    requires live != bak && k <= 2 && k < |Rotate(d, live, bak, content, f).cuts|
    ensures SameElsewhere(Rotate(d, live, bak, content, f).cuts[k], d, live, bak)
    ensures OldGeneration(Rotate(d, live, bak, content, f).cuts[k], d, live, bak)
  {
    if k == 1 {
      UnlinkKeepsOld(d, live, bak, f.unlinkBak);
    } else if k == 2 {
      AfterMoveKeepsOld(d, live, bak, f);
    }
  }

  /** Every state of a rotation but the last of a successful one holds the old generation. */
  lemma RotateCuts(d: Disk, live: Name, bak: Name, content: seq<byte>, f: FlushFaults, k: nat)
    requires live != bak && k < |Rotate(d, live, bak, content, f).cuts|
    ensures var run := Rotate(d, live, bak, content, f);
      && SameElsewhere(run.cuts[k], d, live, bak)
      && if run.status == Ok && k == |run.cuts| - 1
         then NewGeneration(run.cuts[k], d, live, bak, content)
         else OldGeneration(run.cuts[k], d, live, bak)
  {
    if k == 3 {
      RotateLastCut(d, live, bak, content, f);
    } else {
      RotateEarlyCut(d, live, bak, content, f, k);
    }
  }

  // ---------------------------------------------------------------- the delta branch

  /** The journal recovery would use is in DELTA itself, or there is none at all. */
  predicate LiveInDelta(d: Disk, size: nat) {
    HasDelta(d, Delta, size) || !HasDelta(d, DeltaBak, size)
  }

  /** A boot of `base` under journal `j`. */
  function WithJournal(base: Image, j: Journal): (b: Boot) {
    Loaded(base, Some(j))
  }

  lemma OldDeltaBoots(c: Disk, d: Disk, base: Image)
    requires BaseOf(d) == Some(base) && LiveInDelta(d, |base|)
    requires SameElsewhere(c, d, Delta, DeltaBak) && OldGeneration(c, d, Delta, DeltaBak)
    ensures BaseOf(c) == Some(base) && BootOf(c) == BootOf(d)
  {
    assert SameFile(c, Store, d, Store) && SameFile(c, StoreBak, d, StoreBak);
  }

  lemma NewDeltaBoots(c: Disk, d: Disk, base: Image, j: Journal)
    requires BaseOf(d) == Some(base) && SameElsewhere(c, d, Delta, DeltaBak)
    requires Delta in c && ParseDelta(c[Delta], |base|) == Some(j)
    ensures BaseOf(c) == Some(base) && BootOf(c) == WithJournal(base, j)
  {
    assert SameFile(c, Store, d, Store) && SameFile(c, StoreBak, d, StoreBak);
  }

  /**
   Crash atomicity of the delta branch, for every combination of failing calls and wherever the base
   image is: after each disk step recovery finds the old state or the new one; the new one exactly
   when the flush reports success and has come to its end.
   */
  lemma DeltaFlushAtomic(d: Disk, base: Image, j: Journal, f: FlushFaults, k: nat)
    requires BaseOf(d) == Some(base) && ValidJournal(j, |base|) && LiveInDelta(d, |base|)
    requires j.last < U32 && k < |DeltaFlush(d, |base|, j, f).cuts|
    ensures var run := DeltaFlush(d, |base|, j, f);
      && BaseOf(run.cuts[k]) == Some(base) && SameElsewhere(run.cuts[k], d, Delta, DeltaBak)
      && BootOf(run.cuts[k]) ==
         if run.status == Ok && k == |run.cuts| - 1 then WithJournal(base, j) else BootOf(d)
  {
    var run := DeltaFlush(d, |base|, j, f);
    if TmpWritten(f, 1 + ChunkCount(|j.payload|)) {
      RotateCuts(d, Delta, DeltaBak, DeltaFile(|base|, j), f, k);
      if run.status == Ok && k == |run.cuts| - 1 {
        DeltaRoundTrip(|base|, j);
        NewDeltaBoots(run.cuts[k], d, base, j);
      } else {
        OldDeltaBoots(run.cuts[k], d, base);
      }
    }
  }

  /** A delta flush that reports success has committed, whatever deltas it found. */
  lemma SuccessfulFlushBoots(d: Disk, base: Image, j: Journal, f: FlushFaults)
    requires BaseOf(d) == Some(base) && ValidJournal(j, |base|) && j.last < U32
    requires DeltaFlush(d, |base|, j, f).status == Ok
    ensures var c := Final(DeltaFlush(d, |base|, j, f));
      SameElsewhere(c, d, Delta, DeltaBak) && HasDelta(c, Delta, |base|) && BootOf(c) == WithJournal(base, j)
  {
    var run := DeltaFlush(d, |base|, j, f);
    RotateCuts(d, Delta, DeltaBak, DeltaFile(|base|, j), f, |run.cuts| - 1);
    DeltaRoundTrip(|base|, j);
    NewDeltaBoots(Final(run), d, base, j);
  }

  /** No call of this flush fails. */
  function NoFaults(writes: nat): (f: FlushFaults) {
    FlushFaults(false, false, false, false, false, false, writes, false, false, false, false, false,
                false, false, false, false, false, false, false)
  }

  /** With the journal in DELTA_BAK alone, a flush goes from old to bare base to new. */
  lemma BackupOnlyCuts(d: Disk, base: Image, j: Journal)
    requires BaseOf(d) == Some(base) && ValidJournal(j, |base|) && j.last < U32 && !LiveInDelta(d, |base|)
    ensures var run := DeltaFlush(d, |base|, j, NoFaults(1 + ChunkCount(|j.payload|)));
      && |run.cuts| == 4
      && BootOf(run.cuts[0]) == BootOf(d)
      && BootOf(run.cuts[1]) == BootOf(run.cuts[2]) == Loaded(base, None)
      && BootOf(run.cuts[3]) == WithJournal(base, j)
  {
    var run := DeltaFlush(d, |base|, j, NoFaults(1 + ChunkCount(|j.payload|)));
    assert run.cuts[1] == d - {DeltaBak};
    DeltaRoundTrip(|base|, j);
  }

  /**
   When the delta branch is crash-atomic, exactly: the journal must not live in DELTA_BAK alone,
   unless losing it would not show (the bare base already is the old or the new image).
   */
  lemma DeltaFlushAtomicIff(d: Disk, base: Image, j: Journal)
    requires BaseOf(d) == Some(base) && ValidJournal(j, |base|) && j.last < U32
    ensures var run := DeltaFlush(d, |base|, j, NoFaults(1 + ChunkCount(|j.payload|)));
      (forall k :: 0 <= k < |run.cuts| ==>
         BootImage(run.cuts[k]) == BootImage(d) || BootImage(run.cuts[k]) == Overlay(base, j))
      <==>
      (LiveInDelta(d, |base|) || BootImage(d) == base || Overlay(base, j) == base)
  {
    var f := NoFaults(1 + ChunkCount(|j.payload|));
    var run := DeltaFlush(d, |base|, j, f);
    if LiveInDelta(d, |base|) {
      forall k | 0 <= k < |run.cuts|
        ensures BootImage(run.cuts[k]) == BootImage(d) || BootImage(run.cuts[k]) == Overlay(base, j)
      {
        DeltaFlushAtomic(d, base, j, f, k);
      }
    } else {
      BackupOnlyCuts(d, base, j);
    }
  }

  /**
   A disk whose only journal is DELTA_BAK, as power loss between the two renames leaves it: the
   next flush, cut right after it unlinks DELTA_BAK, loses the journal.
   */
  lemma LostJournalWitness() returns (d: Disk, base: Image, j: Journal)
    ensures BaseOf(d) == Some(base) && ValidJournal(j, |base|) && j.last < U32 && !LiveInDelta(d, |base|)
    ensures var run := DeltaFlush(d, |base|, j, NoFaults(1 + ChunkCount(|j.payload|)));
      && |run.cuts| > 1
      && BootImage(run.cuts[1]) != BootImage(d)
      && BootImage(run.cuts[1]) != Overlay(base, j)
  {
    base := seq(BLOCK, _ => 0);
    var was := Journal(0, 0, seq(BLOCK, _ => 1));
    j := Journal(0, 0, seq(BLOCK, _ => 2));
    DeltaRoundTrip(BLOCK, was);
    d := map[Store := base, DeltaBak := DeltaFile(BLOCK, was)];
    assert Overlay(base, was)[0] == 1 && Overlay(base, j)[0] == 2 && base[0] == 0;
    assert BootImage(d) == Overlay(base, was);
    BackupOnlyCuts(d, base, j);
  }

  /** The flush moves the old delta to the backup name. */
  predicate MovesAside(d: Disk, f: FlushFaults) {
    Delta in d && !f.statLive && !f.renameLive && (DeltaBak in d ==> !f.unlinkBak)
  }

  /** In disk state `k` of the flush the old delta is under the backup name and nothing is in its place. */
  predicate Aside(d: Disk, size: nat, j: Journal, f: FlushFaults, k: nat)
    requires j.first <= j.last < U32
  {
    MovesAside(d, f) && (k == 2 || (k == 3 && DeltaFlush(d, size, j, f).status != Ok && f.renameBack))
  }

  /**
   Under any failing calls, the disk states that have the journal in DELTA_BAK alone, so that the
   next flush endangers it, are exactly those in which a live DELTA is moved aside.
   */
  lemma HazardIff(d: Disk, base: Image, j: Journal, f: FlushFaults, k: nat)
    requires BaseOf(d) == Some(base) && ValidJournal(j, |base|) && j.last < U32 && LiveInDelta(d, |base|)
    requires k < |DeltaFlush(d, |base|, j, f).cuts|
    ensures !LiveInDelta(DeltaFlush(d, |base|, j, f).cuts[k], |base|) <==>
      HasDelta(d, Delta, |base|) && Aside(d, |base|, j, f, k)
  {
    DeltaRoundTrip(|base|, j);
    if k == 2 {
      assert DeltaFlush(d, |base|, j, f).cuts[k] == AfterMove(d, Delta, DeltaBak, f);
    }
  }

  /** The old file was moved away, the new one could not be installed, and neither moved back. */
  predicate RollbackFails(d: Disk, bak: Name, writes: nat, f: FlushFaults) {
    && TmpWritten(f, writes)
    && (bak in d ==> !f.unlinkBak) && !f.statLive && !f.renameLive
    && f.renameTmp && (f.statBak || f.renameBack)
  }

  predicate DeltaRollbackFails(d: Disk, j: Journal, f: FlushFaults) {
    RollbackFails(d, DeltaBak, 1 + ChunkCount(|j.payload|), f)
  }

  /**
   A failed delta flush keeps the committed state, and leaves a journal that was in DELTA there,
   ready for the next flush, unless two calls failed: the rename that installs the new delta and
   the rollback of the old one. Then, and only then, the journal is left in DELTA_BAK alone.
   */
  lemma FailedFlushKeepsLive(d: Disk, base: Image, j: Journal, f: FlushFaults)
    requires BaseOf(d) == Some(base) && ValidJournal(j, |base|) && j.last < U32 && LiveInDelta(d, |base|)
    requires DeltaFlush(d, |base|, j, f).status != Ok
    ensures BootOf(Final(DeltaFlush(d, |base|, j, f))) == BootOf(d)
    ensures LiveInDelta(Final(DeltaFlush(d, |base|, j, f)), |base|) <==>
      !(HasDelta(d, Delta, |base|) && DeltaRollbackFails(d, j, f))
  {
    var run := DeltaFlush(d, |base|, j, f);
    DeltaFlushAtomic(d, base, j, f, |run.cuts| - 1);
  }

  // ---------------------------------------------------------------- the backup generation

  /** What recovery finds when DELTA is rejected. */
  function Fallback(d: Disk): (b: Boot)
    ensures ValidBoot(b)
  {
    BootOf(d - {Delta})
  }

  /** A DELTA that is present but whose header is rejected counts as no DELTA. */
  lemma RejectedDeltaFallsBack(d: Disk, base: Image, garbage: seq<byte>)
    requires BaseOf(d) == Some(base) && ParseDelta(garbage, |base|).None?
    ensures BootOf(d[Delta := garbage]) == BootOf(d - {Delta})
  {
    var d' := d[Delta := garbage];
    assert BaseOf(d') == BaseOf(d) == BaseOf(d - {Delta});
    assert JournalOf(d', |base|) == JournalOf(d - {Delta}, |base|);
  }

  /** The fallback depends on the base and on DELTA_BAK alone. */
  lemma FallbackIs(d: Disk, base: Image)
    requires BaseOf(d) == Some(base)
    ensures Fallback(d) == Loaded(base, if HasDelta(d, DeltaBak, |base|) then ParseDelta(d[DeltaBak], |base|) else None)
  {
    assert BaseOf(d - {Delta}) == Some(base);
    assert JournalOf(d - {Delta}, |base|) ==
      if HasDelta(d, DeltaBak, |base|) then ParseDelta(d[DeltaBak], |base|) else None;
  }

  /** The flush has come to its successful end, or the old delta is moved aside. */
  predicate Rotated(d: Disk, size: nat, j: Journal, f: FlushFaults, k: nat)
    requires j.first <= j.last < U32
  {
    var run := DeltaFlush(d, size, j, f);
    (run.status == Ok && k == |run.cuts| - 1) || Aside(d, size, j, f, k)
  }

  /** What DELTA_BAK is in each disk state of a delta flush but the first. */
  lemma BackupAtCut(d: Disk, size: nat, j: Journal, f: FlushFaults, k: nat)
    requires j.first <= j.last < U32 && 0 < k < |DeltaFlush(d, size, j, f).cuts|
    ensures var c := DeltaFlush(d, size, j, f).cuts[k];
      if Rotated(d, size, j, f, k) && Delta in d then SameFile(c, DeltaBak, d, Delta)
      else if !f.unlinkBak then DeltaBak !in c
      else SameFile(c, DeltaBak, d, DeltaBak) || (Delta !in d && DeltaBak !in c)
  {
  }

  lemma FallbackOf(c: Disk, d: Disk, base: Image)
    requires BaseOf(c) == BaseOf(d) == Some(base) && LiveInDelta(d, |base|)
    ensures SameFile(c, DeltaBak, d, Delta) ==> Fallback(c) == BootOf(d)
    ensures DeltaBak !in c ==> Fallback(c) == Loaded(base, None)
    ensures SameFile(c, DeltaBak, d, DeltaBak) ==> Fallback(c) == Fallback(d)
    ensures Delta !in d ==> BootOf(d) == Fallback(d) == Loaded(base, None)
  {
    FallbackIs(d, base);
    FallbackIs(c, base);
  }

  /**
   What a rejected DELTA falls back to, in every disk state of a delta flush and under any failing
   calls: at first the same as before; the image committed so far once the old delta is the backup,
   be it at the end of a successful flush or moved aside; and otherwise, as soon as the old backup
   has been unlinked, the bare base.
   */
  lemma FallbackAtCut(d: Disk, base: Image, j: Journal, f: FlushFaults, k: nat)
    requires BaseOf(d) == Some(base) && ValidJournal(j, |base|) && j.last < U32 && LiveInDelta(d, |base|)
    requires k < |DeltaFlush(d, |base|, j, f).cuts|
    ensures var run := DeltaFlush(d, |base|, j, f);
      Fallback(run.cuts[k]) ==
      if k == 0 then Fallback(d)
      else if Rotated(d, |base|, j, f, k) then BootOf(d)
      else if !f.unlinkBak then Loaded(base, None)
      else Fallback(d)
  {
    if k > 0 {
      DeltaFlushAtomic(d, base, j, f, k);
      BackupAtCut(d, |base|, j, f, k);
      FallbackOf(DeltaFlush(d, |base|, j, f).cuts[k], d, base);
    }
  }

  /** After a successful delta flush a rejected DELTA brings back exactly what was committed before it. */
  lemma FlushKeepsPreviousGeneration(d: Disk, base: Image, j: Journal, f: FlushFaults, garbage: seq<byte>)
    requires BaseOf(d) == Some(base) && ValidJournal(j, |base|) && j.last < U32 && LiveInDelta(d, |base|)
    requires DeltaFlush(d, |base|, j, f).status == Ok && ParseDelta(garbage, |base|).None?
    ensures BootOf(Final(DeltaFlush(d, |base|, j, f))[Delta := garbage]) == BootOf(d)
  {
    var run := DeltaFlush(d, |base|, j, f);
    DeltaFlushAtomic(d, base, j, f, |run.cuts| - 1);
    FallbackAtCut(d, base, j, f, |run.cuts| - 1);
    RejectedDeltaFallsBack(Final(run), base, garbage);
  }

  /** The same for the disk a failed flush leaves behind. */
  lemma FailedFallback(d: Disk, base: Image, j: Journal, f: FlushFaults)
    requires BaseOf(d) == Some(base) && ValidJournal(j, |base|) && j.last < U32 && LiveInDelta(d, |base|)
    requires DeltaFlush(d, |base|, j, f).status != Ok
    ensures Fallback(Final(DeltaFlush(d, |base|, j, f))) ==
      if Delta in d && DeltaRollbackFails(d, j, f) then BootOf(d)
      else if TmpWritten(f, 1 + ChunkCount(|j.payload|)) && !f.unlinkBak then Loaded(base, None)
      else Fallback(d)
  {
    FallbackAtCut(d, base, j, f, |DeltaFlush(d, |base|, j, f).cuts| - 1);
  }

  /**
   When a failed flush keeps the fallback generation, exactly: it did not get as far as unlinking the
   old backup, or that backup only repeated bytes of the base; or it left the live delta as the
   backup, and that shows the same image.
   */
  lemma FallbackKeptIff(d: Disk, base: Image, j: Journal, f: FlushFaults)
    requires BaseOf(d) == Some(base) && ValidJournal(j, |base|) && j.last < U32 && LiveInDelta(d, |base|)
    requires DeltaFlush(d, |base|, j, f).status != Ok
    ensures ImageOf(Fallback(Final(DeltaFlush(d, |base|, j, f)))) == ImageOf(Fallback(d)) <==>
      if Delta in d && DeltaRollbackFails(d, j, f) then BootImage(d) == ImageOf(Fallback(d))
      else TmpWritten(f, 1 + ChunkCount(|j.payload|)) && !f.unlinkBak ==> JournalIsEcho(d - {Delta}, base)
  {
    FailedFallback(d, base, j, f);
    assert BaseOf(d - {Delta}) == Some(base);
    EchoIff(d - {Delta}, base);
  }

  /** Only the install rename fails and its rollback works: DELTA is back, but the generation before it is gone. */
  lemma DroppedBackupWitness() returns (d: Disk, base: Image, j: Journal, f: FlushFaults)
    ensures BaseOf(d) == Some(base) && ValidJournal(j, |base|) && j.last < U32 && HasDelta(d, Delta, |base|)
    ensures f == NoFaults(1 + ChunkCount(|j.payload|)).(renameTmp := true)
    ensures var run := DeltaFlush(d, |base|, j, f);
      run.status != Ok && BootOf(Final(run)) == BootOf(d) && ImageOf(Fallback(Final(run))) != ImageOf(Fallback(d))
  {
    d, base, j := TwoGenerations();
    f := NoFaults(1 + ChunkCount(|j.payload|)).(renameTmp := true);
    assert DeltaFlush(d, |base|, j, f).status != Ok;
    FailedFallback(d, base, j, f);
    FailedFlushKeepsLive(d, base, j, f);
  }

  /** A disk of zeros with a journal of twos in DELTA and one of ones in DELTA_BAK. */
  lemma TwoGenerations() returns (d: Disk, base: Image, j: Journal)
    ensures BaseOf(d) == Some(base) && ValidJournal(j, |base|) && j.last < U32
    ensures HasDelta(d, Delta, |base|) && ImageOf(Fallback(d)) != base
  {
    base := seq(BLOCK, _ => 0);
    var older := Journal(0, 0, seq(BLOCK, _ => 1));
    j := Journal(0, 0, seq(BLOCK, _ => 2));
    DeltaRoundTrip(BLOCK, older);
    DeltaRoundTrip(BLOCK, j);
    d := map[Store := base, Delta := DeltaFile(BLOCK, j), DeltaBak := DeltaFile(BLOCK, older)];
    assert HasImage(d, Store) && BaseOf(d) == Some(base);
    FallbackIs(d, base);
    assert Overlay(base, older)[0] == 1 && base[0] == 0;
  }


  // ---------------------------------------------------------------- the full-rewrite branch

  /** A full rewrite is safe to interrupt before its commit point: no backup is the only copy. */
  predicate PrimaryInPlace(d: Disk) {
    HasImage(d, Store) || !HasImage(d, StoreBak)
  }

  /** Booting from `image` with whatever journals lie around on `d`. */
  function OnTopOf(d: Disk, image: Image): (b: Boot) {
    Loaded(image, JournalOf(d, |image|))
  }

  /** What a full rewrite boots before its commit: the old state, unless its first unlink destroyed the only image. */
  function Uncommitted(d: Disk, f: FlushFaults, k: nat): (b: Boot) {
    if PrimaryInPlace(d) || k == 0 || f.unlinkBak then BootOf(d) else NeedsFormat
  }

  /** A rotation of a sole backup, before the commit: the image is still there, or none is. */
  lemma SoleBackupCut(d: Disk, image: Image, f: FlushFaults, k: nat)
    requires !PrimaryInPlace(d) && k < |Rotate(d, Store, StoreBak, image, f).cuts|
    requires Rotate(d, Store, StoreBak, image, f).status == Ok ==> k < 3
    ensures BootOf(Rotate(d, Store, StoreBak, image, f).cuts[k]) == Uncommitted(d, f, k)
  {
    var c := Rotate(d, Store, StoreBak, image, f).cuts[k];
    RotateCuts(d, Store, StoreBak, image, f, k);
    assert SameFile(c, Delta, d, Delta) && SameFile(c, DeltaBak, d, DeltaBak);
  }

  lemma OldStoreBoots(c: Disk, d: Disk)
    requires PrimaryInPlace(d) && SameElsewhere(c, d, Store, StoreBak) && OldGeneration(c, d, Store, StoreBak)
    ensures BootOf(c) == BootOf(d)
  {
    assert SameFile(c, Delta, d, Delta) && SameFile(c, DeltaBak, d, DeltaBak);
  }

  /** `c` boots the new image under the journals of `e`. */
  lemma NewStoreBoots(c: Disk, e: Disk, image: Image)
    requires Store in c && c[Store] == image && ValidImageSize(|image|)
    requires SameFile(c, Delta, e, Delta) && SameFile(c, DeltaBak, e, DeltaBak)
    ensures BootOf(c) == OnTopOf(e, image)
  {
  }

  /** The journals of `d` that are left after `k` of the last three unlinks of a full rewrite. */
  function Leftover(d: Disk, f: FlushFaults, k: nat): (e: Disk) {
    var d1 := if k >= 2 then Unlink(d, Delta, f.dropDelta) else d;
    if k >= 3 then Unlink(d1, DeltaBak, f.dropDeltaBak) else d1
  }

  /** The states from the commit point on, `c` being the one right after the rename. */
  lemma CommittedCut(d: Disk, c: Disk, image: Image, f: FlushFaults, i: nat)
    requires ValidImageSize(|image|) && i < 4
    requires SameElsewhere(c, d, Store, StoreBak) && Store in c && c[Store] == image
    ensures var d1 := Unlink(c, StoreBak, f.dropStoreBak);
      var d2 := Unlink(d1, Delta, f.dropDelta);
      var d3 := Unlink(d2, DeltaBak, f.dropDeltaBak);
      BootOf([c, d1, d2, d3][i]) == OnTopOf(Leftover(d, f, i), image)
  {
    var d1 := Unlink(c, StoreBak, f.dropStoreBak);
    var d2 := Unlink(d1, Delta, f.dropDelta);
    var d3 := Unlink(d2, DeltaBak, f.dropDeltaBak);
    assert SameFile(c, Delta, d, Delta) && SameFile(c, DeltaBak, d, DeltaBak);
    NewStoreBoots([c, d1, d2, d3][i], Leftover(d, f, i), image);
  }

  /**
   Exact crash behaviour of a full rewrite, on every disk: the old state up to the rename that
   installs the new image (but no image at all if the only one was in STORE_BAK, which goes first);
   then the new image under the old journals, as far as they have not been unlinked yet.
   */
  lemma FullRewriteCuts(d: Disk, image: Image, f: FlushFaults, k: nat)
    requires ValidImageSize(|image|) && k < |FullRewrite(d, image, f).cuts|
    ensures var run := FullRewrite(d, image, f);
      var commit := |run.cuts| - 4;
      BootOf(run.cuts[k]) ==
      if run.status == Ok && k >= commit then OnTopOf(Leftover(d, f, k - commit), image) else Uncommitted(d, f, k)
  {
    var run := FullRewrite(d, image, f);
    if TmpWritten(f, ChunkCount(|image|)) {
      var r := Rotate(d, Store, StoreBak, image, f);
      var c := |r.cuts| - 1;
      if r.status == Ok && k >= c {
        RotateCuts(d, Store, StoreBak, image, f, c);
        CommittedCut(d, r.cuts[c], image, f, k - c);
      } else {
        RotateCuts(d, Store, StoreBak, image, f, k);
        assert run.cuts[k] == r.cuts[k];
        if PrimaryInPlace(d) {
          OldStoreBoots(run.cuts[k], d);
        } else {
          SoleBackupCut(d, image, f, k);
        }
      }
    }
  }

  /**
   When a full rewrite that reports success has committed the image, exactly: the results of its
   last two unlinks are ignored, and a delta left behind must only repeat bytes of the new image.
   */
  lemma FullRewriteCommitsIff(d: Disk, image: Image, f: FlushFaults)
    requires ValidImageSize(|image|) && FullRewrite(d, image, f).status == Ok
    ensures BootOf(Final(FullRewrite(d, image, f))) == OnTopOf(Leftover(d, f, 3), image)
    ensures BootImage(Final(FullRewrite(d, image, f))) == image <==> JournalIsEcho(Leftover(d, f, 3), image)
    ensures !f.dropDelta && !f.dropDeltaBak ==> JournalIsEcho(Leftover(d, f, 3), image)
  {
    var r := Rotate(d, Store, StoreBak, image, f);
    RotateCuts(d, Store, StoreBak, image, f, |r.cuts| - 1);
    CommittedCut(d, Final(r), image, f, 3);
    EchoIff(Leftover(d, f, 3), image);
  }

  /** No delta file on the disk would be accepted for an image of this size. */
  predicate NoDeltas(d: Disk, size: nat) {
    !HasDelta(d, Delta, size) && !HasDelta(d, DeltaBak, size)
  }

  /** With no acceptable delta around, a full rewrite is crash-atomic under any failing calls. */
  lemma FullRewriteAtomic(d: Disk, image: Image, f: FlushFaults, k: nat)
    requires ValidImageSize(|image|) && PrimaryInPlace(d) && NoDeltas(d, |image|)
    requires k < |FullRewrite(d, image, f).cuts|
    ensures var run := FullRewrite(d, image, f);
      BootOf(run.cuts[k]) ==
      if run.status == Ok && k >= |run.cuts| - 4 then Loaded(image, None) else BootOf(d)
  {
    FullRewriteCuts(d, image, f, k);
  }

  /** Laying the journals of `e` over the new image gives the new image, or the old one of `d`. */
  predicate Absorbed(d: Disk, e: Disk, image: Image)
    requires ValidImageSize(|image|)
  {
    ImageOf(OnTopOf(e, image)) == image || ImageOf(OnTopOf(e, image)) == BootImage(d)
  }

  lemma FaultFreeRewriteSucceeds(d: Disk, image: Image)
    ensures FullRewrite(d, image, NoFaults(ChunkCount(|image|))).status == Ok
    ensures |FullRewrite(d, image, NoFaults(ChunkCount(|image|))).cuts| == 7
  {
  }

  /** What the seven states of a rewrite without faults boot. */
  function RewriteBoot(d: Disk, image: Image, k: nat): (b: Boot) {
    if k < 3 then Uncommitted(d, NoFaults(ChunkCount(|image|)), k)
    else if k < 5 then OnTopOf(d, image)
    else if k == 5 then OnTopOf(d - {Delta}, image)
    else Loaded(image, None)
  }

  lemma FaultFreeCut(d: Disk, image: Image, k: nat)
    requires ValidImageSize(|image|) && k < |FullRewrite(d, image, NoFaults(ChunkCount(|image|))).cuts|
    ensures BootOf(FullRewrite(d, image, NoFaults(ChunkCount(|image|))).cuts[k]) == RewriteBoot(d, image, k)
  {
    FaultFreeRewriteSucceeds(d, image);
    FullRewriteCuts(d, image, NoFaults(ChunkCount(|image|)), k);
  }

  /**
   When a full rewrite is crash-atomic, exactly: laying the leftover DELTA, or DELTA_BAK alone,
   over the new image must not show, for the rewrite replaces STORE before it drops the deltas; and
   the only image must not be in STORE_BAK, unless its loss does not show either.
   */
  lemma FullRewriteAtomicIff(d: Disk, image: Image)
    requires ValidImageSize(|image|)
    ensures var run := FullRewrite(d, image, NoFaults(ChunkCount(|image|)));
      (forall k :: 0 <= k < |run.cuts| ==>
         BootImage(run.cuts[k]) == BootImage(d) || BootImage(run.cuts[k]) == image)
      <==>
      && Absorbed(d, d, image) && Absorbed(d, d - {Delta}, image)
      && (PrimaryInPlace(d) || Erased(DEFAULT_BYTES) == BootImage(d) || Erased(DEFAULT_BYTES) == image)
  {
    var run := FullRewrite(d, image, NoFaults(ChunkCount(|image|)));
    forall k | 0 <= k < |run.cuts|
      ensures BootOf(run.cuts[k]) == RewriteBoot(d, image, k)
    {
      FaultFreeCut(d, image, k);
    }
    FaultFreeRewriteSucceeds(d, image);
    assert BootOf(run.cuts[3]) == OnTopOf(d, image) && BootOf(run.cuts[5]) == OnTopOf(d - {Delta}, image);
    assert BootOf(run.cuts[1]) == Uncommitted(d, NoFaults(ChunkCount(|image|)), 1);
  }

  /** A disk of zeros with one block of ones in DELTA, and an erased image to replace it with. */
  lemma OldDelta() returns (d: Disk, image: Image, j: Journal)
    ensures HasImage(d, Store) && |d[Store]| == |image| && ValidImageSize(|image|) && DeltaBak !in d
    ensures ValidJournal(j, |image|) && HasDelta(d, Delta, |image|) && JournalOf(d, |image|) == Some(j)
    ensures BootImage(d) == Overlay(d[Store], j)
    ensures Overlay(image, j) != image && Overlay(image, j) != Overlay(d[Store], j)
  {
    var base: Image := seq(2 * BLOCK, _ => 0);
    j := Journal(0, 0, seq(BLOCK, _ => 1));
    DeltaRoundTrip(2 * BLOCK, j);
    d := map[Store := base, Delta := DeltaFile(2 * BLOCK, j)];
    image := Erased(2 * BLOCK);
    MixedBytes(base, image, j);
  }

  /** A full rewrite over an old delta, cut right after its commit, shows neither the old nor the new image. */
  lemma MixedImageWitness() returns (d: Disk, image: Image, k: nat)
    ensures ValidImageSize(|image|) && HasImage(d, Store) && LiveInDelta(d, |d[Store]|) && |image| == |d[Store]|
    ensures var run := FullRewrite(d, image, NoFaults(ChunkCount(|image|)));
      k < |run.cuts| && BootImage(run.cuts[k]) != BootImage(d) && BootImage(run.cuts[k]) != image
  {
    var j;
    d, image, j := OldDelta();
    k := 3;
    FaultFreeRewriteSucceeds(d, image);
    FullRewriteCuts(d, image, NoFaults(ChunkCount(|image|)), k);
  }

  /** Only the unlink of the old DELTA fails: the rewrite reports success, but the next boot is a mixture. */
  lemma StaleDeltaWitness() returns (d: Disk, image: Image, f: FlushFaults)
    ensures ValidImageSize(|image|) && HasImage(d, Store) && LiveInDelta(d, |d[Store]|) && |image| == |d[Store]|
    ensures f == NoFaults(ChunkCount(|image|)).(dropDelta := true)
    ensures var run := FullRewrite(d, image, f);
      run.status == Ok && BootImage(Final(run)) != image && BootImage(Final(run)) != BootImage(d)
  {
    var j;
    d, image, j := OldDelta();
    f := NoFaults(ChunkCount(|image|)).(dropDelta := true);
    FullRewriteCommitsIff(d, image, f);
    assert JournalOf(Leftover(d, f, 3), |image|) == Some(j);
  }

  /** The journal's block over the new image is neither the new image nor the old one. */
  lemma MixedBytes(base: Image, image: Image, j: Journal)
    requires base == seq(2 * BLOCK, _ => 0) && image == Erased(2 * BLOCK) && j == Journal(0, 0, seq(BLOCK, _ => 1))
    ensures ValidJournal(j, 2 * BLOCK)
    ensures Overlay(image, j) != image && Overlay(image, j) != Overlay(base, j)
  {
    assert Overlay(image, j)[0] == 1 && image[0] == 0xFF;
    assert Overlay(image, j)[BLOCK] == 0xFF && Overlay(base, j)[BLOCK] == 0;
  }

  /** If the backup holds the only copy of the image, a full rewrite destroys it before its commit. */
  lemma SoleBackupIsDropped(d: Disk, image: Image, k: nat)
    requires ValidImageSize(|image|) && !PrimaryInPlace(d) && 1 <= k < 3
    ensures var run := FullRewrite(d, image, NoFaults(ChunkCount(|image|)));
      BootOf(d).Loaded? && |run.cuts| > k && BootOf(run.cuts[k]).NeedsFormat?
  {
    FaultFreeRewriteSucceeds(d, image);
    FaultFreeCut(d, image, k);
  }

  /**
   A failed full rewrite leaves an image that was in STORE there, unless the rename that installs the
   new one and the rollback of the old one both failed. Then, and only then, it leads to a disk whose
   only image is in STORE_BAK.
   */
  lemma FailedRewriteKeepsPrimary(d: Disk, image: Image, f: FlushFaults)
    requires ValidImageSize(|image|) && PrimaryInPlace(d) && FullRewrite(d, image, f).status != Ok
    ensures BootOf(Final(FullRewrite(d, image, f))) == BootOf(d)
    ensures PrimaryInPlace(Final(FullRewrite(d, image, f))) <==>
      !(HasImage(d, Store) && RollbackFails(d, StoreBak, ChunkCount(|image|), f))
  {
    FullRewriteCuts(d, image, f, |FullRewrite(d, image, f).cuts| - 1);
  }

  /** The files a successful full rewrite leaves: the new image alone, except where an unlink failed. */
  lemma RewriteLeaves(d: Disk, image: Image, f: FlushFaults)
    requires FullRewrite(d, image, f).status == Ok
    ensures var c := Final(FullRewrite(d, image, f));
      && Store in c && c[Store] == image
      && (!f.dropStoreBak ==> StoreBak !in c)
      && (if f.dropDelta then SameFile(c, Delta, d, Delta) else Delta !in c)
      && (if f.dropDeltaBak then SameFile(c, DeltaBak, d, DeltaBak) else DeltaBak !in c)
  {
    var r := Rotate(d, Store, StoreBak, image, f);
    RotateCuts(d, Store, StoreBak, image, f, |r.cuts| - 1);
    assert SameFile(Final(r), Delta, d, Delta) && SameFile(Final(r), DeltaBak, d, DeltaBak);
  }

  /** A full rewrite does the same with and without a DELTA around. */
  lemma RewriteWithoutDelta(d: Disk, image: Image, f: FlushFaults)
    ensures var run, run' := FullRewrite(d, image, f), FullRewrite(d - {Delta}, image, f);
      && run'.status == run.status && |run'.cuts| == |run.cuts|
      && forall k :: 0 <= k < |run.cuts| ==> run'.cuts[k] == run.cuts[k] - {Delta}
  {
    RotateWithoutDelta(d, image, f);
    var r := Rotate(d, Store, StoreBak, image, f);
    if TmpWritten(f, ChunkCount(|image|)) && r.status == Ok {
      var d1 := Unlink(Final(r), StoreBak, f.dropStoreBak);
      UnlinkWithoutDelta(Final(r), StoreBak, f.dropStoreBak);
      UnlinkWithoutDelta(d1, Delta, f.dropDelta);
      UnlinkWithoutDelta(Unlink(d1, Delta, f.dropDelta), DeltaBak, f.dropDeltaBak);
    }
  }

  lemma UnlinkWithoutDelta(d: Disk, n: Name, fails: bool)
    ensures Unlink(d - {Delta}, n, fails) == Unlink(d, n, fails) - {Delta}
  {
  }

  lemma RotateWithoutDelta(d: Disk, image: Image, f: FlushFaults)
    ensures var run, run' := Rotate(d, Store, StoreBak, image, f), Rotate(d - {Delta}, Store, StoreBak, image, f);
      && run'.status == run.status && |run'.cuts| == |run.cuts|
      && forall k :: 0 <= k < |run.cuts| ==> run'.cuts[k] == run.cuts[k] - {Delta}
  {
    UnlinkWithoutDelta(d, StoreBak, f.unlinkBak);
  }

  /** What a rejected DELTA falls back to, in every disk state of a full rewrite. */
  lemma RewriteFallback(d: Disk, image: Image, f: FlushFaults, k: nat)
    requires ValidImageSize(|image|) && k < |FullRewrite(d, image, f).cuts|
    ensures var run := FullRewrite(d, image, f);
      var commit := |run.cuts| - 4;
      Fallback(run.cuts[k]) ==
      if run.status == Ok && k >= commit then OnTopOf(Leftover(d - {Delta}, f, k - commit), image)
      else Uncommitted(d - {Delta}, f, k)
  {
    RewriteWithoutDelta(d, image, f);
    FullRewriteCuts(d - {Delta}, image, f, k);
  }
}
