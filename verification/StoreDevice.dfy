/**
 The driver itself, as mutable objects: the FAT volume with its six files, and the block device
 with its image buffer and bookkeeping fields. Every method is tied to the function that
 specifies it; the flush additionally shows that each durable disk state it passes through is
 one of the states of the specified run.
 */
module StoreDevice {
  import opened Bytes
  import opened StoreFormat
  import opened StoreDisk
  import opened StoreRam
  import opened StoreRecovery
  import opened StoreBoot
  import opened StoreFlush

  /** The mounted FAT volume. `visited` collects every durable state the volume has been in. */
  class Fat {
    var files: Disk
    ghost var visited: set<Disk>

    constructor (files: Disk)
      ensures this.files == files && visited == {Durable(files)}
    {
      this.files := files;
      visited := {Durable(files)};
    }

    method UnlinkFile(n: Name, fault: bool)
      modifies this
      ensures files == Unlink(old(files), n, fault)
      ensures visited == old(visited) + {Durable(files)}
    {
      if !fault {
        files := files - {n};
      }
      visited := visited + {Durable(files)};
    }

    method RenameFile(from: Name, to: Name, fault: bool) returns (ok: bool)
      modifies this
      ensures ok == CanRename(old(files), from, to, fault)
      ensures files == Rename(old(files), from, to, fault)
      ensures visited == old(visited) + {Durable(files)}
    {
      ok := CanRename(files, from, to, fault);
      if ok {
        files := files[to := files[from]] - {from};
      }
      visited := visited + {Durable(files)};
    }

    /** Open for writing, truncating or creating the file. */
    method CreateFile(n: Name, fault: bool) returns (ok: bool)
      modifies this
      ensures ok == !fault
      ensures files == if fault then old(files) else old(files)[n := []]
      ensures visited == old(visited) + {Durable(files)}
    {
      ok := !fault;
      if ok {
        files := files[n := []];
      }
      visited := visited + {Durable(files)};
    }

    method AppendFile(n: Name, bytes: seq<byte>)
      requires n in files
      modifies this
      ensures files == old(files)[n := old(files)[n] + bytes]
      ensures visited == old(visited) + {Durable(files)}
    {
      files := files[n := files[n] + bytes];
      visited := visited + {Durable(files)};
    }
  }

  /** `x` is a temporary file. */
  predicate IsTmp(x: Name) {
    x == StoreTmp || x == DeltaTmp
  }

  /** Neither temporary file is there, unless its unlink failed. */
  predicate NoLeftovers(d: Disk, f: FlushFaults) {
    (!f.cleanStoreTmp ==> StoreTmp !in d) && (!f.cleanDeltaTmp ==> DeltaTmp !in d)
  }

  lemma DurableIgnoresTmp(d: Disk, n: Name, bytes: seq<byte>)
    requires IsTmp(n)
    ensures Durable(d[n := bytes]) == Durable(d)
    ensures Durable(d - {n}) == Durable(d)
  {
  }

  lemma DurableUnlink(d: Disk, n: Name, fault: bool)
    requires !IsTmp(n)
    ensures Durable(Unlink(d, n, fault)) == Unlink(Durable(d), n, fault)
  {
  }

  lemma DurableRename(d: Disk, from: Name, to: Name, fault: bool)
    requires !IsTmp(from) && !IsTmp(to)
    ensures CanRename(d, from, to, fault) == CanRename(Durable(d), from, to, fault)
    ensures Durable(Rename(d, from, to, fault)) == Rename(Durable(d), from, to, fault)
  {
  }

  /** The temporary file survives the operations on durable names. */
  lemma TmpUntouched(d: Disk, tmp: Name, n: Name, m: Name, fault: bool)
    requires IsTmp(tmp) && !IsTmp(n) && !IsTmp(m) && tmp in d
    ensures tmp in Unlink(d, n, fault) && Unlink(d, n, fault)[tmp] == d[tmp]
    ensures tmp in Rename(d, n, m, fault) && Rename(d, n, m, fault)[tmp] == d[tmp]
  {
  }

  lemma DurableInstall(d: Disk, tmp: Name, to: Name)
    requires IsTmp(tmp) && !IsTmp(to) && tmp in d
    ensures Durable(d[to := d[tmp]] - {tmp}) == Durable(d)[to := d[tmp]]
  {
  }

  /** The states and the outcome of a rotation, in the order the code reaches them. */
  lemma RotateOutcome(d: Disk, live: Name, bak: Name, content: seq<byte>, f: FlushFaults)
    ensures var run := Rotate(d, live, bak, content, f);
      var d1, d2 := Unlink(d, bak, f.unlinkBak), AfterMove(d, live, bak, f);
      && {d1, Final(run)} <= CutSet(run)
      && if live in d1 && !f.statLive && !CanRename(d1, live, bak, f.renameLive)
         then run.status == ErrIo && Final(run) == d1
         else
           && d2 in CutSet(run)
           && (run.status == Ok <==> !f.renameTmp && live !in d2)
           && Final(run) == (if run.status == Ok then d2[live := content]
                             else if bak in d2 && !f.statBak then Rename(d2, bak, live, f.renameBack)
                             else d2)
  {
    var run := Rotate(d, live, bak, content, f);
    assert run.cuts[1] in run.cuts && Final(run) in run.cuts;
  }

  /** The states of a full rewrite: those of its rotation and those after the three unlinks. */
  lemma RewriteCutSet(d: Disk, image: Image, f: FlushFaults)
    requires TmpWritten(f, ChunkCount(|image|))
    ensures var r := Rotate(d, Store, StoreBak, image, f);
      var d1 := Unlink(Final(r), StoreBak, f.dropStoreBak);
      var d2 := Unlink(d1, Delta, f.dropDelta);
      var d3 := Unlink(d2, DeltaBak, f.dropDeltaBak);
      var run := FullRewrite(d, image, f);
      run.status == r.status &&
      if r.status == Ok then CutSet(run) == CutSet(r) + {d1, d2, d3} && Final(run) == d3
      else run == r
  {
  }

  class Device {
    const data: array<byte>
    var dirty: bool
    var backingValid: bool
    var journalValid: bool
    var dirtyFirst: nat
    var dirtyLast: nat
    var journalFirst: nat
    var journalLast: nat
    var suspended: nat

    function Value(): (r: Ram)
      reads this, data
    {
      Ram(data[..], dirty, backingValid, journalValid, dirtyFirst, dirtyLast, journalFirst, journalLast, suspended)
    }

    ghost predicate Valid()
      reads this, data
    {
      ValidRam(Value())
    }

    /** A freshly allocated device: erased image, every flag clear. */
    constructor (size: nat)
      requires ValidImageSize(size)
      ensures Valid() && fresh(data)
      ensures Value() == Ram(Erased(size), false, false, false, 0, 0, 0, 0, 0)
    {
      data := new byte[size](_ => 0xFF);
      dirty, backingValid, journalValid := false, false, false;
      dirtyFirst, dirtyLast, journalFirst, journalLast, suspended := 0, 0, 0, 0, 0;
      new;
      assert data[..] == Erased(size);
    }

    method MarkDirtyBlocks(first: nat, last: nat)
      modifies this
      ensures Value() == MarkDirty(old(Value()), first, last)
    {
      if !dirty {
        dirty, dirtyFirst, dirtyLast := true, first, last;
        return;
      }
      if first < dirtyFirst {
        dirtyFirst := first;
      }
      if last > dirtyLast {
        dirtyLast := last;
      }
    }

    method Read(block: nat, off: nat, size: nat) returns (st: Status, bytes: seq<byte>)
      ensures st == Ok ==> ReadBytes(Value(), block, off, size) == Some(bytes)
      ensures st != Ok ==> st == ErrInval && ReadBytes(Value(), block, off, size).None?
    {
      var offset := block * BLOCK + off;
      if offset + size > data.Length {
        return ErrInval, [];
      }
      return Ok, data[offset..offset + size];
    }

    /** `memcpy` into the image. */
    method CopyIn(offset: nat, bytes: seq<byte>)
      requires offset + |bytes| <= data.Length
      modifies data
      ensures data[..] == Splice(old(data[..]), offset, bytes)
    {
      for i := 0 to |bytes|
        invariant forall k :: 0 <= k < data.Length ==>
          data[k] == if offset <= k < offset + i then bytes[k - offset] else old(data[k])
      {
        data[offset + i] := bytes[i];
      }
    }

    method ProgBytes(block: nat, off: nat, bytes: seq<byte>) returns (st: Status)
      modifies this, data
      ensures Value() == Prog(old(Value()), block, off, bytes)
      ensures st == if InImage(old(Value()), block, off, |bytes|) then Ok else ErrInval
    {
      var offset := block * BLOCK + off;
      if offset + |bytes| > data.Length {
        return ErrInval;
      }
      CopyIn(offset, bytes);
      MarkDirtyBlocks(block, block);
      return Ok;
    }

    method EraseBlock(block: nat) returns (st: Status)
      requires Valid()
      modifies this, data
      ensures Value() == Erase(old(Value()), block)
      ensures st == if block < BlockCount(data.Length) then Ok else ErrInval
    {
      if block >= data.Length / BLOCK {
        return ErrInval;
      }
      BlockCountBound(data.Length);
      CopyIn(block * BLOCK, Erased(BLOCK));
      MarkDirtyBlocks(block, block);
      return Ok;
    }

    method ResetImage() returns (st: Status)
      requires Valid()
      modifies this, data
      ensures Valid() && st == Ok && Value() == Reset(old(Value()))
    {
      CopyIn(0, Erased(data.Length));
      dirty, backingValid, journalValid := true, false, false;
      dirtyFirst, dirtyLast := 0, data.Length / BLOCK - 1;
      journalFirst, journalLast := 0, 0;
      return Ok;
    }

    method SuspendSync()
      modifies this
      ensures Value() == Suspend(old(Value()))
    {
      suspended := (suspended + 1) % U32;
    }

    method ResumeSync()
      modifies this
      ensures Value() == Resume(old(Value()))
    {
      if suspended != 0 {
        suspended := suspended - 1;
      }
    }

    /**
     Append `bytes` bytes of the image, from `offset`, to an open temporary file in 32 KiB
     chunks; only the first `budget` writes succeed.
     */
    method WriteChunks(fat: Fat, tmp: Name, offset: nat, bytes: nat, budget: nat) returns (ok: bool)
      requires IsTmp(tmp) && tmp in fat.files && offset + bytes <= data.Length
      modifies fat
      ensures ok <==> ChunkCount(bytes) <= budget
      ensures ok ==> fat.files == old(fat.files)[tmp := old(fat.files)[tmp] + data[offset..offset + bytes]]
      ensures Durable(fat.files) == Durable(old(fat.files))
      ensures fat.visited <= old(fat.visited) + {Durable(old(fat.files))}
    {
      ghost var d0, start := fat.files, fat.files[tmp];
      var copied: nat, remaining: nat, left: nat := 0, bytes, budget;
      assert start + data[offset..offset] == start;
      while remaining > 0
        invariant copied + remaining == bytes
        invariant ChunkCount(bytes) <= budget <==> ChunkCount(remaining) <= left
        invariant fat.files == d0[tmp := start + data[offset..offset + copied]]
        invariant Durable(fat.files) == Durable(d0)
        invariant fat.visited <= old(fat.visited) + {Durable(d0)}
      {
        var chunk := if remaining > CHUNK then CHUNK else remaining;
        var scratch := data[offset + copied..offset + copied + chunk];
        if left == 0 {
          return false;
        }
        fat.AppendFile(tmp, scratch);
        assert start + data[offset..offset + copied] + scratch == start + data[offset..offset + copied + chunk];
        DurableIgnoresTmp(d0, tmp, fat.files[tmp]);
        copied, remaining, left := copied + chunk, remaining - chunk, left - 1;
      }
      return true;
    }

    /** First half of the rotation: drop the backup, move the live file to its name. */
    method MoveLive(fat: Fat, live: Name, bak: Name, tmp: Name, f: FlushFaults) returns (ok: bool)
      requires IsTmp(tmp) && !IsTmp(live) && !IsTmp(bak) && live != bak && tmp in fat.files
      modifies fat
      ensures tmp in fat.files && fat.files[tmp] == old(fat.files)[tmp]
      ensures var d1 := Unlink(Durable(old(fat.files)), bak, f.unlinkBak);
        && ok == !(live in d1 && !f.statLive && !CanRename(d1, live, bak, f.renameLive))
        && Durable(fat.files) == AfterMove(Durable(old(fat.files)), live, bak, f)
        && (!ok ==> Durable(fat.files) == d1)
        && fat.visited <= old(fat.visited) + {d1, Durable(fat.files)}
    {
      DurableUnlink(fat.files, bak, f.unlinkBak);
      TmpUntouched(fat.files, tmp, bak, live, f.unlinkBak);
      fat.UnlinkFile(bak, f.unlinkBak);
      ok := true;
      if live in fat.files && !f.statLive {
        DurableRename(fat.files, live, bak, f.renameLive);
        TmpUntouched(fat.files, tmp, live, bak, f.renameLive);
        ok := fat.RenameFile(live, bak, f.renameLive);
      }
    }

    /** Second half: move the temporary file to the live name, or roll the backup back. */
    method InstallTmp(fat: Fat, live: Name, bak: Name, tmp: Name, f: FlushFaults) returns (ok: bool)
      requires IsTmp(tmp) && !IsTmp(live) && !IsTmp(bak) && live != bak && tmp in fat.files
      modifies fat
      ensures var d2 := Durable(old(fat.files));
        && ok == (!f.renameTmp && live !in d2)
        && Durable(fat.files) ==
           (if ok then d2[live := old(fat.files)[tmp]]
            else if bak in d2 && !f.statBak then Rename(d2, bak, live, f.renameBack)
            else d2)
        && fat.visited <= old(fat.visited) + {d2, Durable(fat.files)}
    {
      ghost var d := fat.files;
      DurableInstall(d, tmp, live);
      ok := fat.RenameFile(tmp, live, f.renameTmp);
      if !ok && bak in fat.files && !f.statBak {
        DurableRename(d, bak, live, f.renameBack);
        var _ := fat.RenameFile(bak, live, f.renameBack);
      }
    }

    /** The rotation once the temporary file is complete. */
    method RotateIn(fat: Fat, live: Name, bak: Name, tmp: Name, f: FlushFaults) returns (ok: bool)
      requires IsTmp(tmp) && !IsTmp(live) && !IsTmp(bak) && live != bak && tmp in fat.files
      modifies fat
      ensures var run := Rotate(Durable(old(fat.files)), live, bak, old(fat.files)[tmp], f);
        && ok == (run.status == Ok)
        && Durable(fat.files) == Final(run)
        && fat.visited <= old(fat.visited) + CutSet(run)
    {
      RotateOutcome(Durable(fat.files), live, bak, fat.files[tmp], f);
      ok := MoveLive(fat, live, bak, tmp, f);
      if ok {
        ok := InstallTmp(fat, live, bak, tmp, f);
      }
    }

    /** The common exit of a failed flush. */
    method CleanUp(fat: Fat, f: FlushFaults)
      modifies fat
      ensures Durable(fat.files) == Durable(old(fat.files))
      ensures fat.visited == old(fat.visited) + {Durable(old(fat.files))}
      ensures NoLeftovers(fat.files, f)
    {
      DurableIgnoresTmp(fat.files, StoreTmp, []);
      fat.UnlinkFile(StoreTmp, f.cleanStoreTmp);
      DurableIgnoresTmp(fat.files, DeltaTmp, []);
      fat.UnlinkFile(DeltaTmp, f.cleanDeltaTmp);
    }

    /** Write one complete temporary file: an optional header and a stretch of the image. */
    method WriteTmp(fat: Fat, tmp: Name, header: seq<byte>, offset: nat, bytes: nat, f: FlushFaults)
      returns (ok: bool)
      requires IsTmp(tmp) && offset + bytes <= data.Length
      modifies fat
      ensures ok == TmpWritten(f, (if header == [] then 0 else 1) + ChunkCount(bytes))
      ensures ok ==> tmp in fat.files && fat.files[tmp] == header + data[offset..offset + bytes]
      ensures Durable(fat.files) == Durable(old(fat.files))
      ensures fat.visited <= old(fat.visited) + {Durable(old(fat.files))}
    {
      ghost var d := Durable(fat.files);
      DurableIgnoresTmp(fat.files, tmp, []);
      fat.UnlinkFile(tmp, f.unlinkTmp);
      assert Durable(fat.files) == d;
      DurableIgnoresTmp(fat.files, tmp, []);
      ok := fat.CreateFile(tmp, f.open);
      assert Durable(fat.files) == d;
      if !ok {
        return;
      }
      var budget := f.writes;
      if header != [] {
        if budget == 0 {
          return false;
        }
        DurableIgnoresTmp(fat.files, tmp, fat.files[tmp] + header);
        fat.AppendFile(tmp, header);
        budget := budget - 1;
      }
      ok := WriteChunks(fat, tmp, offset, bytes, budget);
      ok := ok && !f.close;
    }

    /** The delta branch of a flush. */
    method FlushDelta(fat: Fat, first: nat, last: nat, f: FlushFaults, ghost j: Journal) returns (st: Status)
      requires Valid() && first <= last < BlockCount(data.Length) && (last + 1) * BLOCK <= data.Length
      requires j == Journal(first, last, data[first * BLOCK..(last + 1) * BLOCK])
      modifies fat
      ensures var run := DeltaFlush(Durable(old(fat.files)), data.Length, j, f);
        && st == run.status
        && Durable(fat.files) == Final(run)
        && fat.visited <= old(fat.visited) + CutSet(run)
      ensures st != Ok ==> NoLeftovers(fat.files, f)
    {
      ghost var d := Durable(fat.files);
      ghost var run := DeltaFlush(d, data.Length, j, f);
      assert d in CutSet(run);
      var header := EncodeHeader(DeltaHeader(data.Length, first, last));
      var ok := WriteTmp(fat, DeltaTmp, header, first * BLOCK, (last - first + 1) * BLOCK, f);
      if ok {
        assert fat.files[DeltaTmp] == DeltaFile(data.Length, j);
        ok := RotateIn(fat, Delta, DeltaBak, DeltaTmp, f);
      }
      if ok {
        return Ok;
      }
      CleanUp(fat, f);
      return ErrIo;
    }

    /** The three unlinks after a new image is in place; their results are ignored. */
    method DropOld(fat: Fat, f: FlushFaults)
      modifies fat
      ensures var d1 := Unlink(Durable(old(fat.files)), StoreBak, f.dropStoreBak);
        var d2 := Unlink(d1, Delta, f.dropDelta);
        var d3 := Unlink(d2, DeltaBak, f.dropDeltaBak);
        Durable(fat.files) == d3 && fat.visited == old(fat.visited) + {d1, d2, d3}
    {
      DurableUnlink(fat.files, StoreBak, f.dropStoreBak);
      fat.UnlinkFile(StoreBak, f.dropStoreBak);
      DurableUnlink(fat.files, Delta, f.dropDelta);
      fat.UnlinkFile(Delta, f.dropDelta);
      DurableUnlink(fat.files, DeltaBak, f.dropDeltaBak);
      fat.UnlinkFile(DeltaBak, f.dropDeltaBak);
    }

    /** The full-rewrite branch of a flush. */
    method FlushAll(fat: Fat, f: FlushFaults) returns (st: Status)
      requires Valid()
      modifies fat
      ensures var run := FullRewrite(Durable(old(fat.files)), data[..], f);
        && st == run.status
        && Durable(fat.files) == Final(run)
        && fat.visited <= old(fat.visited) + CutSet(run)
      ensures st != Ok ==> NoLeftovers(fat.files, f)
    {
      ghost var d := Durable(fat.files);
      ghost var run := FullRewrite(d, data[..], f);
      assert d in CutSet(run);
      var ok := WriteTmp(fat, StoreTmp, [], 0, data.Length, f);
      if ok {
        assert fat.files[StoreTmp] == data[..];
        ok := RotateIn(fat, Store, StoreBak, StoreTmp, f);
        RewriteCutSet(d, data[..], f);
      }
      if !ok {
        CleanUp(fat, f);
        return ErrIo;
      }
      DropOld(fat, f);
      return Ok;
    }

    method SetFlushed(first: nat, last: nat, fullRewrite: bool)
      requires first == FlushFirst(Value()) && last == FlushLast(Value()) && fullRewrite == !backingValid
      modifies this
      ensures Value() == AfterFlush(old(Value()))
    {
      dirty, backingValid, journalValid := false, true, !fullRewrite;
      if journalValid {
        journalFirst, journalLast := first, last;
      }
    }

    /**
     The whole flush: ends in the specified disk and fields, and passes only through durable
     states of the specified run, so the crash theorems speak about it.
     */
    method FlushImage(fat: Fat, f: FlushFaults) returns (st: Status)
      requires Valid()
      modifies this, fat
      ensures var run := Flush(old(Value()), Durable(old(fat.files)), f);
        && st == run.status
        && Durable(fat.files) == Final(run)
        && fat.visited <= old(fat.visited) + CutSet(run)
      ensures Value() == if st == Ok && old(dirty) then AfterFlush(old(Value())) else old(Value())
      ensures st != Ok && !f.acquire && !f.alloc && !f.mount ==> NoLeftovers(fat.files, f)
    {
      if !dirty {
        return Ok;
      }
      var first, last, fullRewrite := dirtyFirst, dirtyLast, !backingValid;
      if !fullRewrite && journalValid {
        if journalFirst < first {
          first := journalFirst;
        }
        if journalLast > last {
          last := journalLast;
        }
      }
      assert first == FlushFirst(Value()) && last == FlushLast(Value());
      ghost var j := FlushJournal(Value());
      if f.acquire {
        return ErrIo;
      }
      if f.alloc {
        return ErrNoMem;
      }
      if f.mount {
        return ErrIo;
      }
      if f.mkdir {
        CleanUp(fat, f);
        return ErrIo;
      }
      if !fullRewrite {
        BlockCountBound(data.Length);
        st := FlushDelta(fat, first, last, f, j);
      } else {
        st := FlushAll(fat, f);
      }
      if st == Ok {
        SetFlushed(first, last, fullRewrite);
      }
    }

    method SyncImage(fat: Fat, f: FlushFaults) returns (st: Status)
      requires Valid()
      modifies this, fat
      ensures var run := Sync(old(Value()), Durable(old(fat.files)), f);
        && st == run.status
        && Durable(fat.files) == Final(run)
        && fat.visited <= old(fat.visited) + CutSet(run)
      ensures Value() == RamAfterSync(old(Value()), Durable(old(fat.files)), f)
      ensures st != Ok && !f.acquire && !f.alloc && !f.mount ==> NoLeftovers(fat.files, f)
    {
      if !dirty || suspended != 0 {
        return Ok;
      }
      st := FlushImage(fat, f);
    }

    /** The next `chunk` bytes, after `done` of them. */
    method CopyMore(file: seq<byte>, from: nat, at: nat, done: nat, chunk: nat, next: nat, ghost image: Image)
      requires next == done + chunk && from + next <= |file| && at + next <= data.Length == |image|
      requires data[..] == Splice(image, at, file[from..from + done])
      modifies data
      ensures data[..] == Splice(image, at, file[from..from + next])
    {
      SpliceMore(image, at, file, from, done, chunk);
      CopyIn(at + done, file[from + done..from + done + chunk]);
    }

    /**
     Read `count` bytes of a file into the image, chunk by chunk. It stops at the end of the file,
     keeping what there was, and after `budget` successful reads.
     */
    method ReadChunks(file: seq<byte>, from: nat, at: nat, count: nat, budget: nat) returns (ok: bool)
      requires from <= |file| && at + count <= data.Length
      modifies data
      ensures ok == Arrives(count, |file| - from, budget)
      ensures data[..] == Splice(old(data[..]), at, file[from..from + Prefix(count, |file| - from, budget)])
    {
      ghost var image := data[..];
      var done: nat, left: nat := 0, budget;
      assert Splice(image, at, file[from..from]) == image;
      while done < count
        invariant done <= count && left <= budget && from + done <= |file|
        invariant done <= (budget - left) * CHUNK && (done < count ==> done == (budget - left) * CHUNK)
        invariant data[..] == Splice(image, at, file[from..from + done])
      {
        if left == 0 {
          return false;
        }
        var chunk := if count - done > CHUNK then CHUNK else count - done;
        var got := if |file| - (from + done) < chunk then |file| - (from + done) else chunk;
        var next := done + got;
        CopyMore(file, from, at, done, got, next, image);
        if got != chunk {
          return false;
        }
        done, left := next, left - 1;
      }
      return true;
    }

    /** The payload of an accepted delta, read over the image; the journal range is set if all of it arrives. */
    method LayPayload(file: seq<byte>, first: nat, count: nat, budget: nat, ghost j: Journal) returns (ok: bool)
      requires Valid() && ValidJournal(j, data.Length) && HEADER_BYTES <= |file| && j.payload == file[HEADER_BYTES..]
      requires j.first == first && j.last + 1 == first + count
      modifies this, data
      ensures ok <==> |j.payload| <= budget * CHUNK
      ensures ok ==> Value() == Laid(old(Value()), j)
      ensures !ok ==> Value() == HalfLaid(old(Value()), j, budget * CHUNK)
    {
      JournalFits(j, data.Length);
      ok := ReadChunks(file, HEADER_BYTES, first * BLOCK, count * BLOCK, budget);
      ghost var got := if ok then count * BLOCK else budget * CHUNK;
      assert file[HEADER_BYTES..HEADER_BYTES + got] == j.payload[..got];
      if ok {
        journalValid, journalFirst, journalLast := true, first, first + count - 1;
      }
    }

    /**
     Load a delta file over the image. A rejected header leaves everything untouched; a read
     that fails half-way (only `budget` reads succeed) leaves a prefix of the payload behind.
     */
    method LoadDelta(file: seq<byte>, budget: nat) returns (ok: bool)
      requires Valid()
      modifies this, data
      ensures match ParseDelta(file, data.Length)
        case None => !ok && Value() == old(Value())
        case Some(j) =>
          && (ok <==> |j.payload| <= budget * CHUNK)
          && Value() == if ok then Laid(old(Value()), j) else HalfLaid(old(Value()), j, budget * CHUNK)
    {
      if |file| < HEADER_BYTES {
        return false;
      }
      var h := DecodeHeader(file[..HEADER_BYTES]);
      if !HeaderAccepted(h, |file|, data.Length) {
        return false;
      }
      ok := LayPayload(file, h.firstBlock, h.blockCount, budget, ParseDelta(file, data.Length).value);
    }
  }

  /** Rename the backup image to the primary name, removing a primary that was seen first. */
  method RestoreBackup(fat: Fat, f: BootFaults) returns (ok: bool)
    modifies fat
    ensures var d1 := Unlinked(Durable(old(fat.files)), f);
      && ok == CanRename(d1, StoreBak, Store, f.renameBak)
      && Durable(fat.files) == Rename(d1, StoreBak, Store, f.renameBak)
      && fat.visited <= old(fat.visited) + {d1, Durable(fat.files)}
  {
    if Store in fat.files && !f.statStore {
      DurableUnlink(fat.files, Store, f.unlinkStore);
      fat.UnlinkFile(Store, f.unlinkStore);
    }
    DurableRename(fat.files, StoreBak, Store, f.renameBak);
    ok := fat.RenameFile(StoreBak, Store, f.renameBak);
  }

  method TryDelta(dev: Device, fat: Fat, n: Name, skip: bool, budget: nat, ghost e: Disk) returns (ok: bool)
    requires dev.Valid() && !IsTmp(n)
    requires if skip || n !in fat.files then n !in e else n in e && e[n] == fat.files[n]
    modifies dev, dev.data
    ensures dev.Valid()
    ensures ok == DeltaLoads(e, n, dev.data.Length, budget)
    ensures dev.Value() == DeltaTried(old(dev.Value()), e, n, budget)
  {
    ok := false;
    if !skip && n in fat.files {
      ok := dev.LoadDelta(fat.files[n], budget);
    }
  }

  /** DELTA, and DELTA_BAK if DELTA did not load to its end. */
  method LoadJournal(dev: Device, fat: Fat, f: BootFaults)
    requires dev.Valid()
    modifies dev, dev.data
    ensures var e := DeltasSeen(Durable(fat.files), f);
      dev.Value() == JournalLoaded(old(dev.Value()), e, f.deltaReads, f.deltaBakReads)
  {
    ghost var e := DeltasSeen(Durable(fat.files), f);
    var ok := TryDelta(dev, fat, Delta, f.skipDelta, f.deltaReads, e);
    if !ok {
      ok := TryDelta(dev, fat, DeltaBak, f.skipDeltaBak, f.deltaBakReads, e);
    }
  }

  /** Read the primary image if it was seen. */
  method LoadPrimary(dev: Device, fat: Fat, primary: bool, f: BootFaults) returns (loaded: bool)
    requires primary == PrimarySeen(Durable(fat.files), f) && dev.data.Length == BootSize(Durable(fat.files), f)
    requires dev.Value() == BareRam(Erased(dev.data.Length)).(backingValid := false)
    modifies dev.data
    ensures loaded == PrimaryArrives(Durable(fat.files), f)
    ensures dev.Value() == BareRam(PrimaryRead(Durable(fat.files), f)).(backingValid := false)
  {
    loaded := false;
    if primary {
      loaded := dev.ReadChunks(fat.files[Store], 0, 0, dev.data.Length, f.storeReads);
      assert fat.files[Store][0..] == fat.files[Store];
    }
  }

  /** Fall back on the backup image if it was seen. */
  method LoadBackup(dev: Device, fat: Fat, backup: bool, f: BootFaults) returns (ok: bool)
    requires backup == BackupSeen(Durable(fat.files), f) && dev.data.Length == BootSize(Durable(fat.files), f)
    requires dev.Value() == BareRam(PrimaryRead(Durable(fat.files), f)).(backingValid := false)
    modifies dev.data
    ensures ok == BackupArrives(Durable(fat.files), f)
    ensures dev.Value() == BareRam(BackupRead(Durable(fat.files), f)).(backingValid := false)
  {
    ok := false;
    if backup {
      ok := dev.ReadChunks(fat.files[StoreBak], 0, 0, dev.data.Length, f.bakReads);
    }
  }

  /** Read the image or its backup, and put a backup back in place. */
  method LoadImage(dev: Device, fat: Fat, primary: bool, backup: bool, f: BootFaults) returns (loaded: bool)
    requires primary == PrimarySeen(Durable(fat.files), f) && backup == BackupSeen(Durable(fat.files), f)
    requires dev.data.Length == BootSize(Durable(fat.files), f)
    requires dev.Value() == BareRam(Erased(dev.data.Length)).(backingValid := false)
    modifies dev, dev.data, fat
    ensures var d := Durable(old(fat.files));
      && loaded == InPlace(d, f) && dev.Value() == ImageLoaded(d, f)
      && Durable(fat.files) == BootDisk(d, f)
      && fat.visited <= old(fat.visited) + (set c | c in Startup(d, f).cuts)
  {
    ghost var d := Durable(fat.files);
    StartupParts(d, f);
    loaded := LoadPrimary(dev, fat, primary, f);
    if !loaded {
      var ok := LoadBackup(dev, fat, backup, f);
      if ok {
        dev.backingValid := true;
        loaded := RestoreBackup(fat, f);
      }
    } else {
      dev.backingValid := true;
    }
  }

  /** Boot: pick the size, read an image, lay the journal over it. */
  method CreateDevice(fat: Fat, f: BootFaults) returns (dev: Device, needsFormat: bool)
    modifies fat
    ensures fresh(dev) && fresh(dev.data)
    ensures var r := Startup(Durable(old(fat.files)), f);
      && dev.Value() == r.ram
      && needsFormat == r.needsFormat
      && Durable(fat.files) == BootDisk(Durable(old(fat.files)), f)
      && fat.visited <= old(fat.visited) + (set d | d in r.cuts)
  {
    ghost var d := Durable(fat.files);
    StartupParts(d, f);
    var primary := HasImage(fat.files, Store) && !f.statStore;
    var backup := HasImage(fat.files, StoreBak) && !f.statBak;
    var size := if primary then |fat.files[Store]| else if backup then |fat.files[StoreBak]| else DEFAULT_BYTES;
    dev := new Device(size);
    var loaded := LoadImage(dev, fat, primary, backup, f);
    needsFormat := !dev.backingValid;
    if loaded {
      LoadJournal(dev, fat, f);
    }
  }
}
