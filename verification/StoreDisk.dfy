/**
 The six files of the store on the boot FAT volume, the FAT operations the driver uses
 (each with a switch that makes it fail), and what booting from a given disk yields.

 Assumed of FAT: unlink and rename are atomic, a rename refuses an existing target, and a
 closed temporary file is durable. Recovery never opens the two temporary files, so the crash
 analysis works on the four durable names; `Durable` forgets the other two.
 */
module StoreDisk {
  import opened Bytes
  import opened StoreFormat

  datatype Name = Store | StoreTmp | StoreBak | Delta | DeltaTmp | DeltaBak

  type Disk = map<Name, seq<byte>>

  function Durable(d: Disk): (r: Disk) {
    d - {StoreTmp, DeltaTmp}
  }

  function Unlink(d: Disk, n: Name, fault: bool): (r: Disk) {
    if fault then d else d - {n}
  }

  predicate CanRename(d: Disk, from: Name, to: Name, fault: bool) {
    !fault && from in d && to !in d
  }

  function Rename(d: Disk, from: Name, to: Name, fault: bool): (r: Disk) {
    if CanRename(d, from, to, fault) then d[to := d[from]] - {from} else d
  }

  predicate HasImage(d: Disk, n: Name) {
    n in d && ValidImageSize(|d[n]|)
  }

  predicate HasDelta(d: Disk, n: Name, size: nat) {
    n in d && ParseDelta(d[n], size).Some?
  }

  /** The base image recovery picks: the primary, else the backup copy. */
  function BaseOf(d: Disk): (b: Option<Image>)
    ensures b.Some? ==> ValidImageSize(|b.value|)
  {
    if HasImage(d, Store) then Some(d[Store])
    else if HasImage(d, StoreBak) then Some(d[StoreBak])
    else None
  }

  /** The journal recovery picks: DELTA when its header is accepted, else DELTA_BAK. */
  function JournalOf(d: Disk, size: nat): (j: Option<Journal>)
    ensures j.Some? ==> ValidJournal(j.value, size)
  {
    if HasDelta(d, Delta, size) then ParseDelta(d[Delta], size)
    else if HasDelta(d, DeltaBak, size) then ParseDelta(d[DeltaBak], size)
    else None
  }

  datatype Boot = NeedsFormat | Loaded(base: Image, journal: Option<Journal>)

  predicate ValidBoot(b: Boot) {
    b.Loaded? ==>
      ValidImageSize(|b.base|) && (b.journal.Some? ==> ValidJournal(b.journal.value, |b.base|))
  }

  function BootOf(d: Disk): (b: Boot)
    ensures ValidBoot(b)
  {
    match BaseOf(d)
    case None => NeedsFormat
    case Some(base) => Loaded(base, JournalOf(d, |base|))
  }

  /** The bytes in RAM after booting: an erased default-sized image when there is nothing to load. */
  function ImageOf(b: Boot): (image: Image)
    requires ValidBoot(b)
    ensures ValidImageSize(|image|)
  {
    match b
    case NeedsFormat => Erased(DEFAULT_BYTES)
    case Loaded(base, None) => base
    case Loaded(base, Some(j)) => Overlay(base, j)
  }

  function BootImage(d: Disk): (image: Image)
    ensures ValidImageSize(|image|)
  {
    ImageOf(BootOf(d))
  }

  /** A file of `n` bytes is an image: whole blocks of 4096 bytes, at least one, below 4 GiB. */
  predicate ImageBytes(n: nat) {
    4096 <= n < 0x1_0000_0000 && n % 4096 == 0
  }

  /**
   What booting shows, byte by byte: the primary image, else the backup, with a delta accepted from DELTA,
   else from DELTA_BAK, in place of its blocks; or 8 MiB of 0xFF if neither file is an image.
   */
  lemma BootShows(d: Disk, i: nat)
    requires i < |BootImage(d)|
    ensures var image, store, bak := BootImage(d), Store in d && ImageBytes(|d[Store]|),
              StoreBak in d && ImageBytes(|d[StoreBak]|);
      if !store && !bak then |image| == 8388608 && image[i] == 0xFF
      else
        var base := if store then d[Store] else d[StoreBak];
        var delta, deltaBak := Delta in d && ParseDelta(d[Delta], |base|).Some?,
          DeltaBak in d && ParseDelta(d[DeltaBak], |base|).Some?;
        && |image| == |base|
        && image[i] ==
           (if !delta && !deltaBak then base[i]
            else
              var j := ParseDelta(if delta then d[Delta] else d[DeltaBak], |base|).value;
              if 4096 * j.first <= i < 4096 * (j.last + 1) then j.payload[i - 4096 * j.first] else base[i])
  {
    if BaseOf(d).Some? && JournalOf(d, |BaseOf(d).value|).Some? {
      JournalFits(JournalOf(d, |BaseOf(d).value|).value, |BaseOf(d).value|);
    }
  }

  /** The journal on `d`, if any, holds just the bytes `base` has there already. */
  predicate JournalIsEcho(d: Disk, base: Image)
    requires |base| % BLOCK == 0
  {
    match JournalOf(d, |base|)
    case None => true
    case Some(j) =>
      JournalFits(j, |base|);
      j.payload == base[j.first * BLOCK..(j.last + 1) * BLOCK]
  }

  /** Booting `base` under the journals of `d` shows `base` itself exactly if they are an echo of it. */
  lemma EchoIff(d: Disk, base: Image)
    requires ValidImageSize(|base|)
    ensures ImageOf(Loaded(base, JournalOf(d, |base|))) == base <==> JournalIsEcho(d, base)
  {
    match JournalOf(d, |base|)
    case None =>
    case Some(j) =>
      JournalFits(j, |base|);
      SpliceSameIff(base, j.first * BLOCK, j.payload);
  }
}
