/**
 A write that races with a flush. The flush samples its block range once, copies the image chunk by
 chunk, taking the lock for each chunk only, and clears the dirty flag unconditionally at its end.
 */
module StoreRace {
  import opened Bytes
  import opened StoreFormat
  import opened StoreDisk
  import opened StoreRam
  import opened StoreFlush
  import opened StoreRuns

  /** The bytes a flush copies from `at` on if the image turns from `before` to `after` once `copied` are copied. */
  function Snapshot(before: Image, after: Image, at: nat, copied: nat, bytes: nat): (s: Image)
    requires |before| == |after| && copied <= bytes && at + bytes <= |before|
    ensures |s| == bytes
    ensures forall i {:trigger s[i]} :: 0 <= i < bytes ==> s[i] == if i < copied then before[at + i] else after[at + i]
  {
    before[at..at + copied] + after[at + copied..at + bytes]
  }

  /** Every byte that changes lies in `[from, to)`. */
  predicate ChangesWithin(before: Image, after: Image, from: int, to: int)
    requires |before| == |after|
  {
    forall i :: 0 <= i < |before| && after[i] != before[i] ==> from <= i < to
  }

  function FlushBytes(ram: Ram): (n: nat)
    requires ValidRam(ram) && ram.dirty
  {
    |FlushJournal(ram).payload|
  }

  /** The delta a flush then writes. */
  function RacedJournal(ram: Ram, after: Image, copied: nat): (j: Journal)
    requires ValidRam(ram) && ram.dirty && |after| == |ram.data| && copied <= FlushBytes(ram)
    ensures ValidJournal(j, |ram.data|)
  {
    var j := FlushJournal(ram);
    JournalFits(j, |ram.data|);
    j.(payload := Snapshot(ram.data, after, j.first * BLOCK, copied, |j.payload|))
  }

  /** The fields afterwards: the racing write's own mark is gone with the dirty flag. */
  function RacedRam(ram: Ram, after: Image): (r: Ram) {
    AfterFlush(ram).(data := after)
  }

  lemma RacedOverlay(ram: Ram, base: Image, after: Image, copied: nat, i: nat)
    requires ValidRam(ram) && ram.dirty && ram.backingValid && Covered(ram, base)
    requires |after| == |ram.data| && copied <= FlushBytes(ram) && i < |base|
    ensures var j := RacedJournal(ram, after, copied);
      Overlay(base, j)[i] == if j.first * BLOCK + copied <= i < (j.last + 1) * BLOCK then after[i] else ram.data[i]
  {
    var j := RacedJournal(ram, after, copied);
    JournalFits(j, |base|);
    if !InBlocks(i, j.first, j.last) {
      assert !Tracked(ram, i);
    }
  }

  /**
   What becomes of a write that lands in a delta flush after `copied` bytes were copied. It is in the
   next boot's image if and only if every byte it changed is in the flushed blocks and had not been
   copied yet. Nothing is dirty afterwards, so no sync will make up for it; and the ranges still
   account for the image if and only if every changed byte is in the flushed blocks.
   */
  lemma RacingWriteIff(s: State, f: FlushFaults, after: Image, copied: nat)
    requires s.On? && Inv(s) && s.ram.dirty && s.ram.backingValid
    requires |after| == |s.ram.data| && copied <= FlushBytes(s.ram)
    requires DeltaFlush(s.disk, |s.ram.data|, RacedJournal(s.ram, after, copied), f).status == Ok
    ensures var j := RacedJournal(s.ram, after, copied);
      && (BootImage(Final(DeltaFlush(s.disk, |s.ram.data|, j, f))) == after <==>
          ChangesWithin(s.ram.data, after, j.first * BLOCK + copied, (j.last + 1) * BLOCK))
      && !RacedRam(s.ram, after).dirty
      && (Covered(RacedRam(s.ram, after), BareOf(s.disk)) <==>
          ChangesWithin(s.ram.data, after, j.first * BLOCK, (j.last + 1) * BLOCK))
  {
    var j, base := RacedJournal(s.ram, after, copied), BareOf(s.disk);
    SuccessfulFlushBoots(s.disk, base, j, f);
    RacedImageIff(s.ram, base, after, copied);
    RacedBooksIff(s.ram, base, after, copied);
  }

  /**
   Two blocks of zeros, the first one being flushed because it got a one; meanwhile the second one gets
   a one too. The flush succeeds, nothing is dirty afterwards, and the next boot does not have it.
   */
  lemma RacingWriteWitness() returns (s: State, f: FlushFaults, after: Image)
    ensures s.On? && Inv(s) && s.ram.dirty && s.ram.backingValid && |after| == |s.ram.data|
    ensures var run := DeltaFlush(s.disk, |s.ram.data|, RacedJournal(s.ram, after, 0), f);
      run.status == Ok && BootImage(Final(run)) != after && !RacedRam(s.ram, after).dirty
  {
    var base: Image := seq(2 * BLOCK, _ => 0);
    var d: Disk := map[Store := base];
    var ram := CleanZero(2 * BLOCK);
    s := On(Prog(ram, 0, 0, [1]), d, false);
    f := NoFaults(2);
    ProgKeepsCovered(ram, base, 0, 0, [1]);
    after := s.ram.data[BLOCK := 1];
    assert s.ram.data[BLOCK] == 0;
    RacingWriteIff(s, f, after, 0);
  }

  lemma RacedImageIff(ram: Ram, base: Image, after: Image, copied: nat)
    requires ValidRam(ram) && ram.dirty && ram.backingValid && Covered(ram, base)
    requires |after| == |ram.data| && copied <= FlushBytes(ram)
    ensures var j := RacedJournal(ram, after, copied);
      Overlay(base, j) == after <==>
      ChangesWithin(ram.data, after, j.first * BLOCK + copied, (j.last + 1) * BLOCK)
  {
    var j := RacedJournal(ram, after, copied);
    var r := Overlay(base, j);
    forall i | 0 <= i < |base|
      ensures r[i] == if j.first * BLOCK + copied <= i < (j.last + 1) * BLOCK then after[i] else ram.data[i]
    {
      RacedOverlay(ram, base, after, copied, i);
    }
  }

  lemma RacedBooksIff(ram: Ram, base: Image, after: Image, copied: nat)
    requires ValidRam(ram) && ram.dirty && ram.backingValid && Covered(ram, base)
    requires |after| == |ram.data| && copied <= FlushBytes(ram)
    ensures var j := RacedJournal(ram, after, copied);
      Covered(RacedRam(ram, after), base) <==> ChangesWithin(ram.data, after, j.first * BLOCK, (j.last + 1) * BLOCK)
  {
    var j, r := RacedJournal(ram, after, copied), RacedRam(ram, after);
    forall i | 0 <= i < |base|
      ensures Tracked(r, i) <==> InBlocks(i, j.first, j.last)
      ensures !Tracked(r, i) ==> ram.data[i] == base[i]
    {
      if !InBlocks(i, j.first, j.last) {
        assert !Tracked(ram, i);
      }
    }
  }

  /** Byte `i` of the next boot is that of `after`, given the journal that a rewrite left behind. */
  predicate RewrittenByte(before: Image, after: Image, copied: nat, left: Option<Journal>, i: nat)
    requires |before| == |after| && i < |before| && (left.Some? ==> ValidJournal(left.value, |before|))
  {
    if left.Some? && InBlocks(i, left.value.first, left.value.last)
    then left.value.payload[i - left.value.first * BLOCK] == after[i]
    else after[i] != before[i] ==> copied <= i
  }

  /**
   The same for a full rewrite, which copies the whole image from its start: outside the blocks of a
   delta it left behind, every changed byte must not have been copied yet; inside them the delta
   decides.
   */
  lemma RacingRewriteIff(d: Disk, before: Image, after: Image, copied: nat, f: FlushFaults)
    requires ValidImageSize(|before|) && |after| == |before| && copied <= |before|
    requires FullRewrite(d, Snapshot(before, after, 0, copied, |before|), f).status == Ok
    ensures var left := JournalOf(Leftover(d, f, 3), |before|);
      BootImage(Final(FullRewrite(d, Snapshot(before, after, 0, copied, |before|), f))) == after <==>
      forall i :: 0 <= i < |before| ==> RewrittenByte(before, after, copied, left, i)
  {
    var mixed, left := Snapshot(before, after, 0, copied, |before|), JournalOf(Leftover(d, f, 3), |before|);
    FullRewriteCommitsIff(d, mixed, f);
    var r := ImageOf(Loaded(mixed, left));
    forall i | 0 <= i < |before|
      ensures r[i] == after[i] <==> RewrittenByte(before, after, copied, left, i)
    {
      if left.Some? {
        JournalFits(left.value, |before|);
      }
    }
  }
}
