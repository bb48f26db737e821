/**
 The in-memory side of the store: the image, the dirty and journal block ranges, and what
 the block-device operations do to them.
 */
module StoreRam {
  import opened Bytes
  import opened StoreFormat
  import opened StoreDisk

  datatype Ram = Ram(
    data: Image,
    dirty: bool, backingValid: bool, journalValid: bool,
    dirtyFirst: nat, dirtyLast: nat,
    journalFirst: nat, journalLast: nat,
    suspended: nat)

  datatype Status = Ok | ErrInval | ErrIo | ErrNoMem

  function MarkDirty(ram: Ram, first: nat, last: nat): (r: Ram) {
    if !ram.dirty then ram.(dirty := true, dirtyFirst := first, dirtyLast := last)
    else ram.(dirtyFirst := if first < ram.dirtyFirst then first else ram.dirtyFirst,
              dirtyLast := if last > ram.dirtyLast then last else ram.dirtyLast)
  }

  /** The marks of any number of writes, first to last. */
  function MarkAll(ram: Ram, marks: seq<(nat, nat)>): (r: Ram) {
    if marks == [] then ram
    else
      var (first, last) := marks[|marks| - 1];
      MarkDirty(MarkAll(ram, marks[..|marks| - 1]), first, last)
  }

  /** `lo` and `hi` are the lowest first and the highest last block of the marks, both of them marked. */
  ghost predicate TightHull(marks: seq<(nat, nat)>, lo: nat, hi: nat) {
    && (forall i :: 0 <= i < |marks| ==> lo <= marks[i].0 && marks[i].1 <= hi)
    && (exists i :: 0 <= i < |marks| && marks[i].0 == lo)
    && (exists i :: 0 <= i < |marks| && marks[i].1 == hi)
  }

  lemma HullGrows(marks: seq<(nat, nat)>, lo: nat, hi: nat, mark: (nat, nat))
    requires TightHull(marks, lo, hi)
    ensures TightHull(marks + [mark], if mark.0 < lo then mark.0 else lo, if mark.1 > hi then mark.1 else hi)
  {
    var ms := marks + [mark];
    var i, j :| 0 <= i < |marks| && marks[i].0 == lo && 0 <= j < |marks| && marks[j].1 == hi;
    assert ms[i] == marks[i] && ms[j] == marks[j] && ms[|marks|] == mark;
  }

  /** From a clean store on, the dirty range is the tight hull of what was marked. */
  lemma {:induction false} DirtyRangeIsTight(ram: Ram, marks: seq<(nat, nat)>)
    requires !ram.dirty && marks != []
    ensures var r := MarkAll(ram, marks); r.dirty && TightHull(marks, r.dirtyFirst, r.dirtyLast)
  {
    var before, mark := marks[..|marks| - 1], marks[|marks| - 1];
    assert marks == before + [mark];
    if before == [] {
      assert marks[0] == mark;
    } else {
      DirtyRangeIsTight(ram, before);
      var b := MarkAll(ram, before);
      HullGrows(before, b.dirtyFirst, b.dirtyLast, mark);
    }
  }

  predicate InImage(ram: Ram, block: nat, off: nat, size: nat) {
    block * BLOCK + off + size <= |ram.data|
  }

  function ReadBytes(ram: Ram, block: nat, off: nat, size: nat): (r: Option<Image>) {
    if InImage(ram, block, off, size)
    then Some(ram.data[block * BLOCK + off..block * BLOCK + off + size])
    else None
  }

  function Prog(ram: Ram, block: nat, off: nat, bytes: Image): (r: Ram) {
    if InImage(ram, block, off, |bytes|)
    then MarkDirty(ram.(data := Splice(ram.data, block * BLOCK + off, bytes)), block, block)
    else ram
  }

  function Erase(ram: Ram, block: nat): (r: Ram) {
    if block < BlockCount(|ram.data|)
    then MarkDirty(ram.(data := Splice(ram.data, block * BLOCK, Erased(BLOCK))), block, block)
    else ram
  }

  function Reset(ram: Ram): (r: Ram)
    requires |ram.data| >= BLOCK
  {
    ram.(data := Erased(|ram.data|), dirty := true, backingValid := false, journalValid := false,
         dirtyFirst := 0, dirtyLast := BlockCount(|ram.data|) - 1,
         journalFirst := 0, journalLast := 0)
  }

  /** A reset marks every block and forgets the base and the journal, so that the next flush rewrites everything. */
  lemma ResetForcesRewrite(ram: Ram)
    requires ValidImageSize(|ram.data|)
    ensures var r := Reset(ram);
      && r.dirty && r.dirtyFirst == 0 && (r.dirtyLast + 1) * 4096 == |ram.data|
      && !r.backingValid && !r.journalValid && r.suspended == ram.suspended
  {
    BlockCountBound(|ram.data|);
  }

  function Suspend(ram: Ram): (r: Ram) {
    ram.(suspended := (ram.suspended + 1) % U32)
  }

  function Resume(ram: Ram): (r: Ram) {
    if ram.suspended != 0 then ram.(suspended := ram.suspended - 1) else ram
  }

  /** The image sizes and block ranges are in bounds. */
  predicate ValidRam(ram: Ram) {
    && ValidImageSize(|ram.data|)
    && (ram.dirty ==> ram.dirtyFirst <= ram.dirtyLast < BlockCount(|ram.data|))
    && (ram.journalValid ==> ram.journalFirst <= ram.journalLast < BlockCount(|ram.data|))
  }

  /** Byte `i` lies in a block that the next delta will carry. */
  predicate Tracked(ram: Ram, i: int) {
    || (ram.dirty && InBlocks(i, ram.dirtyFirst, ram.dirtyLast))
    || (ram.journalValid && InBlocks(i, ram.journalFirst, ram.journalLast))
  }

  /** Outside the dirty and the journal range the RAM image equals the base file. */
  predicate Covered(ram: Ram, base: Image) {
    && |base| == |ram.data|
    && forall i :: 0 <= i < |base| && !Tracked(ram, i) ==> ram.data[i] == base[i]
  }

  /** The write stays inside its block; an empty one must at least name an existing block. */
  predicate InsideBlock(n: nat, block: nat, off: nat, size: nat) {
    if size == 0 then block < BlockCount(n) else off + size <= BLOCK
  }

  lemma ProgKeepsCovered(ram: Ram, base: Image, block: nat, off: nat, bytes: Image)
    requires ValidRam(ram) && Covered(ram, base)
    requires InImage(ram, block, off, |bytes|) ==> InsideBlock(|ram.data|, block, off, |bytes|)
    ensures ValidRam(Prog(ram, block, off, bytes)) && Covered(Prog(ram, block, off, bytes), base)
  {
    var r := Prog(ram, block, off, bytes);
    BlockCountBound(|ram.data|);
    forall i | 0 <= i < |base| && !Tracked(r, i)
      ensures r.data[i] == base[i]
    {
      assert !Tracked(ram, i);
      assert InImage(ram, block, off, |bytes|) ==> !InBlocks(i, block, block);
    }
  }

  lemma EraseKeepsCovered(ram: Ram, base: Image, block: nat)
    requires ValidRam(ram) && Covered(ram, base)
    ensures ValidRam(Erase(ram, block)) && Covered(Erase(ram, block), base)
  {
    if block < BlockCount(|ram.data|) {
      assert Erase(ram, block) == Prog(ram, block, 0, Erased(BLOCK));
      ProgKeepsCovered(ram, base, block, 0, Erased(BLOCK));
    }
  }

  /** A clean image of `n` zero bytes over an identical base. */
  function CleanZero(n: nat): (r: Ram)
    ensures |r.data| == n
  {
    Ram(seq(n, _ => 0), false, true, false, 0, 0, 0, 0, 0)
  }

  /** Every write of `size` bytes at `off` in `block` keeps the ranges in bounds and the invariant. */
  ghost predicate KeepsBooks(n: nat, block: nat, off: nat, size: nat) {
    forall ram: Ram, base: Image, bytes: Image ::
      ValidRam(ram) && |ram.data| == n && Covered(ram, base) && |bytes| == size
      ==> BooksAfter(ram, base, block, off, bytes)
  }

  predicate BooksAfter(ram: Ram, base: Image, block: nat, off: nat, bytes: Image) {
    ValidRam(Prog(ram, block, off, bytes)) && Covered(Prog(ram, block, off, bytes), base)
  }

  /**
   Exactly which accepted writes keep the books whatever the image holds. The driver's own bounds
   check is on the whole image and only `block` is marked dirty, so a write that spills over leaves
   bytes unrecorded, and an empty write just past the end marks a block that does not exist.
   */
  lemma ProgKeepsCoveredIff(n: nat, block: nat, off: nat, size: nat)
    requires ValidImageSize(n) && block * BLOCK + off + size <= n
    ensures InsideBlock(n, block, off, size) <==> KeepsBooks(n, block, off, size)
  {
    if InsideBlock(n, block, off, size) {
      forall ram: Ram, base: Image, bytes: Image |
        ValidRam(ram) && |ram.data| == n && Covered(ram, base) && |bytes| == size
        ensures BooksAfter(ram, base, block, off, bytes)
      {
        ProgKeepsCovered(ram, base, block, off, bytes);
      }
    } else if size == 0 {
      var ram := CleanZero(n);
      assert Covered(ram, ram.data);
      assert !BooksAfter(ram, ram.data, block, off, []);
    } else {
      SpillWitness(n, block, off, size);
    }
  }

  /** A write that spills out of its block leaves its last byte unrecorded. */
  lemma SpillWitness(n: nat, block: nat, off: nat, size: nat)
    requires ValidImageSize(n) && 0 < size && block * BLOCK + off + size <= n && off + size > BLOCK
    ensures !KeepsBooks(n, block, off, size)
  {
    var ram, bytes := CleanZero(n), seq(size, _ => 1);
    assert Covered(ram, ram.data);
    var r := Prog(ram, block, off, bytes);
    var i := block * BLOCK + off + size - 1;
    assert r.data[i] == 1 && !Tracked(r, i);
    assert !BooksAfter(ram, ram.data, block, off, bytes);
  }

  /** The block range a flush writes: the hull of the dirty range and a live journal. */
  function FlushFirst(ram: Ram): (first: nat) {
    if ram.backingValid && ram.journalValid && ram.journalFirst < ram.dirtyFirst
    then ram.journalFirst else ram.dirtyFirst
  }

  function FlushLast(ram: Ram): (last: nat) {
    if ram.backingValid && ram.journalValid && ram.journalLast > ram.dirtyLast
    then ram.journalLast else ram.dirtyLast
  }

  /** The ends of what a flush writes are ends of the dirty or of the live journal range, and it covers both. */
  lemma FlushRangeIsTight(ram: Ram)
    ensures var live := ram.backingValid && ram.journalValid;
      && FlushFirst(ram) <= ram.dirtyFirst && ram.dirtyLast <= FlushLast(ram)
      && (live ==> FlushFirst(ram) <= ram.journalFirst && ram.journalLast <= FlushLast(ram))
      && (FlushFirst(ram) == ram.dirtyFirst || (live && FlushFirst(ram) == ram.journalFirst))
      && (FlushLast(ram) == ram.dirtyLast || (live && FlushLast(ram) == ram.journalLast))
  {
  }

  function FlushJournal(ram: Ram): (j: Journal)
    requires ValidRam(ram) && ram.dirty
    ensures ValidJournal(j, |ram.data|)
  {
    BlockCountBound(|ram.data|);
    Journal(FlushFirst(ram), FlushLast(ram),
            ram.data[FlushFirst(ram) * BLOCK..(FlushLast(ram) + 1) * BLOCK])
  }

  /** The delta over the hull of both ranges, laid over the base, is the RAM image. */
  lemma DeltaCarriesImage(ram: Ram, base: Image)
    requires ValidRam(ram) && ram.dirty && ram.backingValid && Covered(ram, base)
    ensures Overlay(base, FlushJournal(ram)) == ram.data
  {
    var j := FlushJournal(ram);
    JournalFits(j, |base|);
    var r := Overlay(base, j);
    forall i | 0 <= i < |base|
      ensures r[i] == ram.data[i]
    {
      if !InBlocks(i, j.first, j.last) {
        assert !Tracked(ram, i);
      }
    }
  }

  /** The fields after a flush that succeeded. */
  function AfterFlush(ram: Ram): (r: Ram) {
    if ram.backingValid
    then ram.(dirty := false, journalValid := true,
              journalFirst := FlushFirst(ram), journalLast := FlushLast(ram))
    else ram.(dirty := false, backingValid := true, journalValid := false)
  }

  /** The fields right after booting. */
  function FreshRam(b: Boot): (r: Ram)
    requires ValidBoot(b)
  {
    match b
    case NeedsFormat => Ram(ImageOf(b), false, false, false, 0, 0, 0, 0, 0)
    case Loaded(_, None) => Ram(ImageOf(b), false, true, false, 0, 0, 0, 0, 0)
    case Loaded(_, Some(j)) => Ram(ImageOf(b), false, true, true, 0, 0, j.first, j.last, 0)
  }

  lemma FreshRamCovered(b: Boot)
    requires ValidBoot(b)
    ensures ValidRam(FreshRam(b))
    ensures b.Loaded? ==> Covered(FreshRam(b), b.base)
  {
    if b.Loaded? && b.journal.Some? {
      JournalFits(b.journal.value, |b.base|);
    }
  }
}
