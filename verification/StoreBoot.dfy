/**
 Booting when stat, open and read calls fail too. What arrives of a file is a prefix of whole
 chunks (and, at the end of a short file, what there is of it); an open that fails is a file of
 which no read succeeds, and a delta whose stat, open or header read fails counts as not seen.
 */
module StoreBoot {
  import opened Bytes
  import opened StoreFormat
  import opened StoreDisk
  import opened StoreRam
  import opened StoreRecovery
  import opened StoreFlush

  // ---------------------------------------------------------------- the journal step

  /** The fields of a device that holds `base` and has loaded no journal yet. */
  function BareRam(base: Image): (r: Ram) {
    Ram(base, false, true, false, 0, 0, 0, 0, 0)
  }

  /** A device after journal `j` was laid over its image. */
  function Laid(ram: Ram, j: Journal): (r: Ram)
    requires |ram.data| % BLOCK == 0 && ValidJournal(j, |ram.data|)
  {
    ram.(data := Overlay(ram.data, j), journalValid := true, journalFirst := j.first, journalLast := j.last)
  }

  /** The same if reading stopped after `got` bytes of the payload: the bytes stay, the range is not set. */
  function HalfLaid(ram: Ram, j: Journal, got: nat): (r: Ram)
    requires |ram.data| % BLOCK == 0 && ValidJournal(j, |ram.data|) && got <= |j.payload|
  {
    JournalFits(j, |ram.data|);
    ram.(data := Splice(ram.data, j.first * BLOCK, j.payload[..got]))
  }

  /** File `n` holds a delta for an image of `size` bytes, and `budget` reads bring in all of it. */
  predicate DeltaLoads(d: Disk, n: Name, size: nat, budget: nat) {
    HasDelta(d, n, size) && |ParseDelta(d[n], size).value.payload| <= budget * CHUNK
  }

  function DeltaTried(ram: Ram, d: Disk, n: Name, budget: nat): (r: Ram)
    requires |ram.data| % BLOCK == 0
    ensures |r.data| == |ram.data|
  {
    if !HasDelta(d, n, |ram.data|) then ram
    else
      var j := ParseDelta(d[n], |ram.data|).value;
      if DeltaLoads(d, n, |ram.data|, budget) then Laid(ram, j) else HalfLaid(ram, j, budget * CHUNK)
  }

  /** DELTA, and DELTA_BAK if DELTA did not load to its end. */
  function JournalLoaded(ram: Ram, d: Disk, budget: nat, budgetBak: nat): (r: Ram)
    requires |ram.data| % BLOCK == 0
    ensures |r.data| == |ram.data|
  {
    var r := DeltaTried(ram, d, Delta, budget);
    if DeltaLoads(d, Delta, |ram.data|, budget) then r else DeltaTried(r, d, DeltaBak, budgetBak)
  }

  /** With enough successful reads the journal step yields exactly the boot contents. */
  lemma JournalLoadedWhole(base: Image, d: Disk, budget: nat, budgetBak: nat)
    requires ValidImageSize(|base|)
    requires Delta in d ==> |d[Delta]| <= budget * CHUNK
    requires DeltaBak in d ==> |d[DeltaBak]| <= budgetBak * CHUNK
    ensures JournalLoaded(BareRam(base), d, budget, budgetBak) == FreshRam(Loaded(base, JournalOf(d, |base|)))
  {
  }

  // ---------------------------------------------------------------- torn deltas

  /** How many payload bytes of delta file `n` arrive. */
  function Landed(d: Disk, n: Name, size: nat, budget: nat): (got: nat)
    requires HasDelta(d, n, size)
    ensures got <= |ParseDelta(d[n], size).value.payload|
  {
    var bytes := |ParseDelta(d[n], size).value.payload|;
    if bytes <= budget * CHUNK then bytes else budget * CHUNK
  }

  /** Byte `i` of the image is among them. */
  predicate Lands(d: Disk, n: Name, size: nat, budget: nat, i: nat) {
    HasDelta(d, n, size) &&
    var at := ParseDelta(d[n], size).value.first * BLOCK; at <= i < at + Landed(d, n, size, budget)
  }

  function LandedByte(d: Disk, n: Name, size: nat, budget: nat, i: nat): (b: byte)
    requires Lands(d, n, size, budget, i)
  {
    var j := ParseDelta(d[n], size).value;
    j.payload[i - j.first * BLOCK]
  }

  /** One delta file tried: what arrived of its payload is laid over the image. */
  lemma TriedData(ram: Ram, d: Disk, n: Name, budget: nat)
    requires |ram.data| % BLOCK == 0 && HasDelta(d, n, |ram.data|)
    ensures var j := ParseDelta(d[n], |ram.data|).value;
      var at, got := j.first * BLOCK, Landed(d, n, |ram.data|, budget);
      at + got <= |ram.data| && DeltaTried(ram, d, n, budget).data == Splice(ram.data, at, j.payload[..got])
  {
    var j := ParseDelta(d[n], |ram.data|).value;
    JournalFits(j, |ram.data|);
    assert j.payload[..|j.payload|] == j.payload;
  }

  lemma TriedByte(ram: Ram, d: Disk, n: Name, budget: nat, i: nat)
    requires |ram.data| % BLOCK == 0 && i < |ram.data|
    ensures DeltaTried(ram, d, n, budget).data[i] ==
      if Lands(d, n, |ram.data|, budget, i) then LandedByte(d, n, |ram.data|, budget, i) else ram.data[i]
  {
    if HasDelta(d, n, |ram.data|) {
      TriedData(ram, d, n, budget);
      var j := ParseDelta(d[n], |ram.data|).value;
      PrefixByte(ram.data, j.first * BLOCK, j.payload, Landed(d, n, |ram.data|, budget), i);
    }
  }

  lemma PrefixByte(image: Image, at: nat, payload: Image, got: nat, i: nat)
    requires got <= |payload| && at + got <= |image| && i < |image|
    ensures Splice(image, at, payload[..got])[i] == if at <= i < at + got then payload[i - at] else image[i]
  {
  }

  /**
   What arrived but is recorded nowhere equals the base: DELTA loaded whole; or bytes of DELTA_BAK
   are recorded or equal the base, and so do those bytes of DELTA that DELTA_BAK did not overwrite.
   */
  predicate NoTrace(base: Image, d: Disk, budget: nat, budgetBak: nat) {
    var n := |base|;
    DeltaLoads(d, Delta, n, budget) ||
    forall i :: 0 <= i < n ==>
      if Lands(d, DeltaBak, n, budgetBak, i)
      then DeltaLoads(d, DeltaBak, n, budgetBak) || LandedByte(d, DeltaBak, n, budgetBak, i) == base[i]
      else Lands(d, Delta, n, budget, i) ==> LandedByte(d, Delta, n, budget, i) == base[i]
  }

  lemma LoadedByte(base: Image, d: Disk, budget: nat, budgetBak: nat, i: nat)
    requires ValidImageSize(|base|) && i < |base| && !DeltaLoads(d, Delta, |base|, budget)
    ensures var r, n := JournalLoaded(BareRam(base), d, budget, budgetBak), |base|;
      && (Tracked(r, i) <==> DeltaLoads(d, DeltaBak, n, budgetBak) && Lands(d, DeltaBak, n, budgetBak, i))
      && r.data[i] == if Lands(d, DeltaBak, n, budgetBak, i) then LandedByte(d, DeltaBak, n, budgetBak, i)
                      else if Lands(d, Delta, n, budget, i) then LandedByte(d, Delta, n, budget, i) else base[i]
  {
    var ram := DeltaTried(BareRam(base), d, Delta, budget);
    TriedByte(BareRam(base), d, Delta, budget, i);
    TriedByte(ram, d, DeltaBak, budgetBak, i);
    if HasDelta(d, DeltaBak, |base|) {
      JournalFits(ParseDelta(d[DeltaBak], |base|).value, |base|);
    }
  }

  /**
   When the journal step leaves the ranges accounting for the image, exactly, whatever deltas are on
   the disk and wherever their reads fail: a read error leaves the bytes before it in the image
   without a record, so those must equal the base.
   */
  lemma TornReadIff(base: Image, d: Disk, budget: nat, budgetBak: nat)
    requires ValidImageSize(|base|)
    ensures Covered(JournalLoaded(BareRam(base), d, budget, budgetBak), base) <==> NoTrace(base, d, budget, budgetBak)
  {
    if DeltaLoads(d, Delta, |base|, budget) {
      JournalFits(ParseDelta(d[Delta], |base|).value, |base|);
    } else {
      var r, n := JournalLoaded(BareRam(base), d, budget, budgetBak), |base|;
      forall i | 0 <= i < |base|
        ensures (!Tracked(r, i) ==> r.data[i] == base[i]) <==>
          if Lands(d, DeltaBak, n, budgetBak, i)
          then DeltaLoads(d, DeltaBak, n, budgetBak) || LandedByte(d, DeltaBak, n, budgetBak, i) == base[i]
          else Lands(d, Delta, n, budget, i) ==> LandedByte(d, Delta, n, budget, i) == base[i]
      {
        LoadedByte(base, d, budget, budgetBak, i);
      }
    }
  }

  /** Two good deltas, and one read error in the newer one: bytes of it stay behind unrecorded. */
  lemma TornReadWitness() returns (base: Image, d: Disk)
    ensures ValidImageSize(|base|) && HasDelta(d, Delta, |base|) && HasDelta(d, DeltaBak, |base|)
    ensures !Covered(JournalLoaded(BareRam(base), d, 1, 2), base)
  {
    base := seq(16 * BLOCK, _ => 0);
    var newer, older := Journal(0, 15, seq(16 * BLOCK, _ => 1)), Journal(15, 15, seq(BLOCK, _ => 1));
    DeltaRoundTrip(16 * BLOCK, newer);
    DeltaRoundTrip(16 * BLOCK, older);
    d := map[Delta := DeltaFile(16 * BLOCK, newer), DeltaBak := DeltaFile(16 * BLOCK, older)];
    TornReadIff(base, d, 1, 2);
    assert Lands(d, Delta, |base|, 1, 0) && !Lands(d, DeltaBak, |base|, 2, 0);
    assert LandedByte(d, Delta, |base|, 1, 0) == 1 && base[0] == 0;
  }

  // ---------------------------------------------------------------- the whole boot

  /** Which calls of one boot fail; the numbers are how many reads of a file succeed. */
  datatype BootFaults = BootFaults(
    statStore: bool, statBak: bool, storeReads: nat, bakReads: nat,
    unlinkStore: bool, renameBak: bool,
    skipDelta: bool, deltaReads: nat, skipDeltaBak: bool, deltaBakReads: nat)

  /** All `n` bytes of an image arrive from a file of `size` bytes. */
  predicate Arrives(n: nat, size: nat, budget: nat) {
    n <= size && n <= budget * CHUNK
  }

  function Prefix(n: nat, size: nat, budget: nat): (got: nat)
    ensures got <= n && got <= size && (got == n <==> Arrives(n, size, budget))
  {
    var most := if budget * CHUNK < size then budget * CHUNK else size;
    if n < most then n else most
  }

  function ReadOver(image: Image, file: seq<byte>, budget: nat): (r: Image)
    ensures |r| == |image|
  {
    Splice(image, 0, file[..Prefix(|image|, |file|, budget)])
  }

  predicate PrimarySeen(d: Disk, f: BootFaults) {
    HasImage(d, Store) && !f.statStore
  }

  predicate BackupSeen(d: Disk, f: BootFaults) {
    HasImage(d, StoreBak) && !f.statBak
  }

  /** The size of the image buffer: that of the primary if it was seen. */
  function BootSize(d: Disk, f: BootFaults): (n: nat)
    ensures ValidImageSize(n)
  {
    if PrimarySeen(d, f) then |d[Store]| else if BackupSeen(d, f) then |d[StoreBak]| else DEFAULT_BYTES
  }

  predicate PrimaryArrives(d: Disk, f: BootFaults) {
    PrimarySeen(d, f) && Arrives(BootSize(d, f), |d[Store]|, f.storeReads)
  }

  predicate BackupArrives(d: Disk, f: BootFaults) {
    BackupSeen(d, f) && Arrives(BootSize(d, f), |d[StoreBak]|, f.bakReads)
  }

  /** The image buffer after reading the primary, and after falling back on the backup. */
  function PrimaryRead(d: Disk, f: BootFaults): (image: Image)
    ensures |image| == BootSize(d, f)
  {
    var blank := Erased(BootSize(d, f));
    if PrimarySeen(d, f) then ReadOver(blank, d[Store], f.storeReads) else blank
  }

  function BackupRead(d: Disk, f: BootFaults): (image: Image)
    ensures |image| == BootSize(d, f)
  {
    if BackupSeen(d, f) then ReadOver(PrimaryRead(d, f), d[StoreBak], f.bakReads) else PrimaryRead(d, f)
  }

  function DeltasSeen(d: Disk, f: BootFaults): (e: Disk) {
    d - (if f.skipDelta then {Delta} else {}) - (if f.skipDeltaBak then {DeltaBak} else {})
  }

  function WithDeltas(base: Image, d: Disk, f: BootFaults): (r: Ram)
    requires |base| % BLOCK == 0
  {
    JournalLoaded(BareRam(base), DeltasSeen(d, f), f.deltaReads, f.deltaBakReads)
  }

  /** The disk once the backup was used: the primary removed if its stat had succeeded, the backup renamed. */
  function Unlinked(d: Disk, f: BootFaults): (d1: Disk) {
    if Store in d && !f.statStore then Unlink(d, Store, f.unlinkStore) else d
  }

  function Startup(d: Disk, f: BootFaults): (r: Recovery)
    ensures |r.cuts| > 0
  {
    if PrimaryArrives(d, f) then Recovery([d], WithDeltas(PrimaryRead(d, f), d, f), false)
    else if BackupArrives(d, f) then
      var d1 := Unlinked(d, f);
      var d2 := Rename(d1, StoreBak, Store, f.renameBak);
      if CanRename(d1, StoreBak, Store, f.renameBak)
      then Recovery([d, d1, d2], WithDeltas(BackupRead(d, f), d2, f), false)
      else Recovery([d, d1, d2], BareRam(BackupRead(d, f)), false)
    else
      Recovery([d], BareRam(BackupRead(d, f)).(backingValid := false), true)
  }

  function BootDisk(d: Disk, f: BootFaults): (r: Disk) {
    var cuts := Startup(d, f).cuts;
    cuts[|cuts| - 1]
  }

  /** An image was read and is under its primary name. */
  predicate InPlace(d: Disk, f: BootFaults) {
    PrimaryArrives(d, f) || (BackupArrives(d, f) && CanRename(Unlinked(d, f), StoreBak, Store, f.renameBak))
  }

  /** The device before its journal step. */
  function ImageLoaded(d: Disk, f: BootFaults): (r: Ram)
    ensures ValidRam(r)
  {
    var image := if PrimaryArrives(d, f) then PrimaryRead(d, f) else BackupRead(d, f);
    BareRam(image).(backingValid := PrimaryArrives(d, f) || BackupArrives(d, f))
  }

  /** The boot in two parts: the image, and the journal if the image is in place. */
  lemma StartupParts(d: Disk, f: BootFaults)
    ensures Startup(d, f).needsFormat == !ImageLoaded(d, f).backingValid
    ensures var loaded := ImageLoaded(d, f);
      Startup(d, f).ram ==
      if InPlace(d, f) then JournalLoaded(loaded, DeltasSeen(BootDisk(d, f), f), f.deltaReads, f.deltaBakReads)
      else loaded
    ensures if PrimaryArrives(d, f) || !BackupArrives(d, f)
      then Startup(d, f).cuts == [d]
      else Startup(d, f).cuts == [d, Unlinked(d, f), Rename(Unlinked(d, f), StoreBak, Store, f.renameBak)]
  {
  }

  /** The stat of a good primary fails, or a read of it does. */
  predicate PrimaryLost(d: Disk, f: BootFaults) {
    HasImage(d, Store) ==> f.statStore || |d[Store]| > f.storeReads * CHUNK
  }

  /**
   The stat of a good backup fails, or a read of it does before the buffer is full; and the buffer has
   the size of the primary, if that one's stat succeeded, so a smaller backup never fills it.
   */
  predicate BackupLost(d: Disk, f: BootFaults) {
    HasImage(d, StoreBak) ==>
      var n := if HasImage(d, Store) && !f.statStore then |d[Store]| else |d[StoreBak]|;
      f.statBak || n > f.bakReads * CHUNK || n > |d[StoreBak]|
  }

  /** When a boot asks for a format although a committed image is there, exactly. */
  lemma FormatLosesIff(d: Disk, f: BootFaults)
    ensures Startup(d, f).needsFormat && BootOf(d).Loaded? <==>
      (HasImage(d, Store) || HasImage(d, StoreBak)) && PrimaryLost(d, f) && BackupLost(d, f)
  {
    StartupParts(d, f);
  }

  /** One failed stat: the boot asks for a format, and the first sync after it replaces the committed image for good. */
  lemma FormatLosesWitness() returns (d: Disk, f: BootFaults)
    ensures BootOf(d).Loaded? && Startup(d, f).needsFormat
    ensures var ram := Erase(Startup(d, f).ram, 0);
      && ValidRam(ram) && var run := Flush(ram, BootDisk(d, f), NoFaults(ChunkCount(|ram.data|)));
      run.status == Ok && BootOf(Final(run)) == Loaded(ram.data, None) && ram.data != BootImage(d)
  {
    d := map[Store := seq(BLOCK, _ => 1)];
    f := BootFaults(true, false, 1, 1, false, false, false, 0, false, 0);
    var ram := Erase(Startup(d, f).ram, 0);
    BlockCountBound(DEFAULT_BYTES);
    FullRewriteCommitsIff(d, ram.data, NoFaults(ChunkCount(|ram.data|)));
    assert |BootImage(d)| == BLOCK;
  }

  /** Every stat succeeds, and enough reads of every file. */
  predicate CleanReads(d: Disk, f: BootFaults) {
    && !f.statStore && !f.statBak && !f.skipDelta && !f.skipDeltaBak
    && (Store in d ==> |d[Store]| <= f.storeReads * CHUNK) && (StoreBak in d ==> |d[StoreBak]| <= f.bakReads * CHUNK)
    && (Delta in d ==> |d[Delta]| <= f.deltaReads * CHUNK)
    && (DeltaBak in d ==> |d[DeltaBak]| <= f.deltaBakReads * CHUNK)
  }

  lemma ReadWhole(image: Image, file: seq<byte>, budget: nat)
    requires Arrives(|image|, |file|, budget)
    ensures ReadOver(image, file, budget) == file[..|image|]
  {
  }

  /** When nothing goes wrong with the reads, the boot is the recovery that the run theorems speak about. */
  lemma CleanBootIsRecovery(d: Disk, f: BootFaults)
    requires CleanReads(d, f)
    ensures Startup(d, f) == Recover(d, RecoveryFaults(f.unlinkStore, f.renameBak))
  {
    assert DeltasSeen(d, f) == d;
    if HasImage(d, Store) {
      ReadWhole(Erased(|d[Store]|), d[Store], f.storeReads);
      assert PrimaryRead(d, f) == d[Store];
      JournalLoadedWhole(d[Store], d, f.deltaReads, f.deltaBakReads);
    } else if HasImage(d, StoreBak) {
      ReadWhole(Erased(|d[StoreBak]|), d[StoreBak], f.bakReads);
      assert BackupRead(d, f) == d[StoreBak];
      var d2 := Rename(Unlinked(d, f), StoreBak, Store, f.renameBak);
      assert DeltasSeen(d2, f) == d2;
      JournalLoadedWhole(d[StoreBak], d2, f.deltaReads, f.deltaBakReads);
    }
  }

  /** An intact primary that does not arrive is removed for a backup that does. */
  predicate DropsPrimary(d: Disk, f: BootFaults) {
    PrimarySeen(d, f) && !PrimaryArrives(d, f) && BackupArrives(d, f) && !f.unlinkStore
  }

  /**
   When a boot leaves what is committed alone, exactly, at every point where power may fail in it:
   unless a read error of the primary makes it fall back on a backup that is another image.
   */
  lemma BootKeepsCommittedIff(d: Disk, f: BootFaults)
    ensures (forall k :: 0 <= k < |Startup(d, f).cuts| ==> BootOf(Startup(d, f).cuts[k]) == BootOf(d)) <==>
      (DropsPrimary(d, f) ==> d[StoreBak] == d[Store])
  {
    var r := Startup(d, f);
    if DropsPrimary(d, f) {
      var d1, d2 := r.cuts[1], r.cuts[2];
      assert d1 == d - {Store} && BaseOf(d1) == Some(d[StoreBak]);
      if d[StoreBak] == d[Store] {
        SameBoot(d1, d);
        SameBoot(d2, d);
      } else {
        assert BootOf(d1) != BootOf(d);
      }
    } else if !PrimaryArrives(d, f) && BackupArrives(d, f) {
      UnlinkedBoots(d, f);
      SameBoot(Rename(Unlinked(d, f), StoreBak, Store, f.renameBak), d);
    }
  }

  lemma UnlinkedBoots(d: Disk, f: BootFaults)
    requires BackupSeen(d, f) && (PrimarySeen(d, f) ==> f.unlinkStore)
    ensures BootOf(Unlinked(d, f)) == BootOf(d)
  {
    SameBoot(Unlinked(d, f), d);
  }

  /** One read error of the primary, with an old backup next to it: the newer image is gone for good. */
  lemma DroppedPrimaryWitness() returns (d: Disk, f: BootFaults)
    ensures HasImage(d, Store) && DropsPrimary(d, f) && BootImage(BootDisk(d, f)) != BootImage(d)
  {
    d := map[Store := seq(BLOCK, _ => 1), StoreBak := seq(BLOCK, _ => 0)];
    f := BootFaults(false, false, 0, 1, false, false, false, 0, false, 0);
    var d2 := BootDisk(d, f);
    assert BootImage(d)[0] == 1 && d2[Store] == d[StoreBak] && BootImage(d2)[0] == 0;
  }

  /**
   When the fields of a booted store account for its image file, exactly: the file has the size of
   the buffer, and nothing unrecorded was left behind by a torn delta.
   */
  lemma BootCoveredIff(d: Disk, f: BootFaults)
    requires InPlace(d, f)
    ensures Store in BootDisk(d, f)
    ensures var e := BootDisk(d, f);
      Covered(Startup(d, f).ram, e[Store]) <==>
      |e[Store]| == BootSize(d, f) && NoTrace(e[Store], DeltasSeen(e, f), f.deltaReads, f.deltaBakReads)
  {
    var e := BootDisk(d, f);
    BootedOn(d, f);
    TornReadIff(e[Store][..BootSize(d, f)], DeltasSeen(e, f), f.deltaReads, f.deltaBakReads);
    if |e[Store]| == BootSize(d, f) {
      assert e[Store][..BootSize(d, f)] == e[Store];
    }
  }

  /** The image in RAM is the front of the image file, under the deltas. */
  lemma BootedOn(d: Disk, f: BootFaults)
    requires InPlace(d, f)
    ensures var e, n := BootDisk(d, f), BootSize(d, f);
      Store in e && n <= |e[Store]| && Startup(d, f).ram == WithDeltas(e[Store][..n], e, f)
  {
    if PrimaryArrives(d, f) {
      ReadWhole(Erased(BootSize(d, f)), d[Store], f.storeReads);
    } else {
      ReadWhole(PrimaryRead(d, f), d[StoreBak], f.bakReads);
    }
  }
}
