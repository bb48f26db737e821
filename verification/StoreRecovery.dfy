/**
 Recovery at boot. It may itself change the disk (it puts a backup image back in place), so it
 is a list of disk states too, and power may fail after any of them.
 */
module StoreRecovery {
  import opened Bytes
  import opened StoreFormat
  import opened StoreDisk
  import opened StoreRam

  datatype RecoveryFaults = RecoveryFaults(unlinkStore: bool, renameBak: bool)

  datatype Recovery = Recovery(cuts: seq<Disk>, ram: Ram, needsFormat: bool)

  /** The backup image must be used and cannot be renamed into place. */
  predicate BackupStuck(d: Disk, f: RecoveryFaults) {
    && !HasImage(d, Store) && HasImage(d, StoreBak)
    && (f.renameBak || (Store in d && f.unlinkStore))
  }

  function Recover(d: Disk, f: RecoveryFaults): (r: Recovery)
    ensures |r.cuts| > 0
  {
    if HasImage(d, Store) then
      Recovery([d], FreshRam(Loaded(d[Store], JournalOf(d, |d[Store]|))), false)
    else if HasImage(d, StoreBak) then
      var base := d[StoreBak];
      var d1 := if Store in d then Unlink(d, Store, f.unlinkStore) else d;
      var d2 := Rename(d1, StoreBak, Store, f.renameBak);
      if CanRename(d1, StoreBak, Store, f.renameBak)
      then Recovery([d, d1, d2], FreshRam(Loaded(base, JournalOf(d2, |base|))), false)
      else Recovery([d, d1, d2], FreshRam(Loaded(base, None)), false)   // deltas are not looked at
    else
      Recovery([d], FreshRam(NeedsFormat), true)
  }

  function RecoveredDisk(d: Disk, f: RecoveryFaults): (r: Disk) {
    var cuts := Recover(d, f).cuts;
    cuts[|cuts| - 1]
  }

  /** Power loss at any point of recovery changes nothing about what the next recovery finds. */
  lemma RecoveryIsCrashSafe(d: Disk, f: RecoveryFaults, k: nat)
    requires k < |Recover(d, f).cuts|
    ensures BootOf(Recover(d, f).cuts[k]) == BootOf(d)
  {
    if !HasImage(d, Store) && HasImage(d, StoreBak) {
      var d1 := if Store in d then Unlink(d, Store, f.unlinkStore) else d;
      var d2 := Rename(d1, StoreBak, Store, f.renameBak);
      RestoredBases(d, d1, d2, f);
      SameBoot(d1, d);
      SameBoot(d2, d);
      assert Recover(d, f).cuts == [d, d1, d2];
    }
  }

  lemma RestoredBases(d: Disk, d1: Disk, d2: Disk, f: RecoveryFaults)
    requires !HasImage(d, Store) && HasImage(d, StoreBak)
    requires d1 == (if Store in d then Unlink(d, Store, f.unlinkStore) else d)
    requires d2 == Rename(d1, StoreBak, Store, f.renameBak)
    ensures BaseOf(d1) == BaseOf(d2) == BaseOf(d)
  {
  }

  lemma SameBoot(c: Disk, d: Disk)
    requires BaseOf(c) == BaseOf(d)
    requires forall n :: n == Delta || n == DeltaBak ==> (n in c <==> n in d) && (n in c ==> c[n] == d[n])
    ensures BootOf(c) == BootOf(d)
  {
  }

  /** Recovery never touches a delta. */
  lemma RecoveryKeepsDeltas(d: Disk, f: RecoveryFaults, k: nat)
    requires k < |Recover(d, f).cuts|
    ensures var c := Recover(d, f).cuts[k];
      forall n :: n == Delta || n == DeltaBak ==> (n in c <==> n in d) && (n in c ==> c[n] == d[n])
  {
    if !HasImage(d, Store) && HasImage(d, StoreBak) {
      var d1 := if Store in d then Unlink(d, Store, f.unlinkStore) else d;
      var d2 := Rename(d1, StoreBak, Store, f.renameBak);
      assert Recover(d, f).cuts == [d, d1, d2];
    }
  }

  /** A stuck backup is used in place and without its journals. */
  lemma StuckRecovery(d: Disk, f: RecoveryFaults)
    requires BackupStuck(d, f)
    ensures BaseOf(d) == Some(d[StoreBak]) && Recover(d, f).ram == FreshRam(Loaded(d[StoreBak], None))
  {
  }

  /** Recovery yields exactly the boot contents of the disk, with the image under its primary name. */
  lemma RecoveryYieldsBoot(d: Disk, f: RecoveryFaults)
    requires !BackupStuck(d, f)
    ensures Recover(d, f).ram == FreshRam(BootOf(d))
    ensures Recover(d, f).needsFormat <==> BootOf(d).NeedsFormat?
    ensures BootOf(d).Loaded? ==>
      HasImage(RecoveredDisk(d, f), Store) && RecoveredDisk(d, f)[Store] == BootOf(d).base
  {
  }

  /** A backup that cannot be renamed, under a journal: recovery shows the backup without it. */
  lemma StuckBackupWitness() returns (d: Disk, f: RecoveryFaults)
    ensures BackupStuck(d, f) && Recover(d, f).ram.data != BootImage(d)
  {
    var base: Image := seq(BLOCK, _ => 0);
    var j := Journal(0, 0, seq(BLOCK, _ => 1));
    DeltaRoundTrip(BLOCK, j);
    d := map[StoreBak := base, Delta := DeltaFile(BLOCK, j)];
    f := RecoveryFaults(false, true);
    assert JournalOf(d, BLOCK) == Some(j);
    assert BootImage(d)[0] == 1 && base[0] == 0;
  }

  /**
   The image in RAM is the committed one if and only if the backup is not stuck, or the journal
   would not change it: with the backup used in place the journals are skipped.
   */
  lemma RecoveryImageIff(d: Disk, f: RecoveryFaults)
    ensures Recover(d, f).ram.data == BootImage(d) <==>
      (BackupStuck(d, f) ==> JournalIsEcho(d, d[StoreBak]))
  {
    if !BackupStuck(d, f) {
      RecoveryYieldsBoot(d, f);
    } else {
      EchoIff(d, d[StoreBak]);
    }
  }
}
