/**
 Whole runs of the store: any sequence of block-device calls, syncs with failing FAT calls, power
 losses in and out of a sync, power losses during recovery, and boots. The reference is a plain
 byte array together with the array at the last completed flush.
 */
module StoreRuns {
  import opened Bytes
  import opened StoreFormat
  import opened StoreDisk
  import opened StoreRam
  import opened StoreRecovery
  import opened StoreFlush

  /** `stale` is history: the image came from a stuck backup without its journals, and nothing was written since. */
  datatype State = On(ram: Ram, disk: Disk, stale: bool) | Off(disk: Disk)

  datatype Event =
    | ReadCall(block: nat, off: nat, size: nat)
    | ProgCall(block: nat, off: nat, bytes: Image)
    | EraseCall(block: nat)
    | SyncCall(faults: FlushFaults)
    | SuspendCall
    | ResumeCall
    | ResetCall
    | PowerLoss
    | PowerLossInSync(faults: FlushFaults, cut: nat)
    | PowerLossInRecovery(rfaults: RecoveryFaults, cut: nat)
    | BootUp(rfaults: RecoveryFaults)

  datatype Output = Nothing | Returned(status: Status) | Data(bytes: Option<Image>) | Booted(stuck: bool)

  /** A sync called now would really flush. */
  predicate WillFlush(ram: Ram) {
    ram.dirty && ram.suspended == 0
  }

  /** Nothing that fails keeps the flush from reaching its branch. */
  predicate Starts(f: FlushFaults) {
    !f.acquire && !f.alloc && !f.mount && !f.mkdir
  }

  /** Disk state `k` of the full rewrite is past its commit. */
  predicate Committed(ram: Ram, d: Disk, f: FlushFaults, k: nat) {
    var run := FullRewrite(d, ram.data, f);
    run.status == Ok && k >= |run.cuts| - 4
  }

  /** How far past its commit. */
  function Past(ram: Ram, d: Disk, f: FlushFaults, k: nat): (i: nat)
    requires Committed(ram, d, f, k)
  {
    k - (|FullRewrite(d, ram.data, f).cuts| - 4)
  }

  /**
   What a flush with faults `f` that gets as far as its disk state `k` must find. A delta flush needs
   its live journal (if any) in DELTA. A full rewrite needs, before its commit, the old image not to
   have been in STORE_BAK alone (or still to be there); and after it, the old deltas still there must
   only repeat bytes of the new image. So an old delta hurts only if its unlink fails, or if power is
   lost between the commit and the unlinks.
   */
  predicate FlushGuard(ram: Ram, d: Disk, f: FlushFaults, k: nat)
    requires ValidRam(ram)
  {
    if !Starts(f) then true
    else if ram.backingValid then LiveInDelta(d, |ram.data|)
    else if Committed(ram, d, f, k) then JournalIsEcho(Leftover(d, f, Past(ram, d, f, k)), ram.data)
    else PrimaryInPlace(d) || k == 0 || f.unlinkBak
  }

  predicate SyncGuard(ram: Ram, d: Disk, f: FlushFaults)
    requires ValidRam(ram)
  {
    WillFlush(ram) ==> FlushGuard(ram, d, f, |Flush(ram, d, f).cuts| - 1)
  }

  /** A completed rewrite over old deltas, as after a reset, is guarded as soon as their unlinks work. */
  lemma CleanRewriteIsGuarded(ram: Ram, d: Disk, f: FlushFaults)
    requires ValidRam(ram) && !ram.backingValid && PrimaryInPlace(d) && !f.dropDelta && !f.dropDeltaBak
    ensures SyncGuard(ram, d, f)
  {
    if WillFlush(ram) && Starts(f) && FullRewrite(d, ram.data, f).status == Ok {
      FullRewriteCommitsIff(d, ram.data, f);
    }
  }

  /** The events a state admits, with the callers' contract on writes and the flush guard. */
  predicate Legal(s: State, e: Event)
    requires s.On? ==> ValidRam(s.ram)
  {
    match e
    case PowerLossInRecovery(rf, k) => s.Off? && k < |Recover(s.disk, rf).cuts|
    case BootUp(rf) => s.Off?
    case ProgCall(b, o, bytes) => s.On? && (InImage(s.ram, b, o, |bytes|) ==> InsideBlock(|s.ram.data|, b, o, |bytes|))
    case SyncCall(f) => s.On? && SyncGuard(s.ram, s.disk, f)
    case PowerLossInSync(f, k) =>
      && s.On? && k < |Sync(s.ram, s.disk, f).cuts|
      && (WillFlush(s.ram) ==> FlushGuard(s.ram, s.disk, f, k))
    case _ => s.On?
  }

  function Step(s: State, e: Event): (s': State)
    requires (s.On? ==> ValidRam(s.ram)) && Legal(s, e)
  {
    match e
    case ReadCall(_, _, _) => s
    case ProgCall(b, o, bytes) => Written(s, Prog(s.ram, b, o, bytes))
    case EraseCall(b) => Written(s, Erase(s.ram, b))
    case SuspendCall => s.(ram := Suspend(s.ram))
    case ResumeCall => s.(ram := Resume(s.ram))
    case ResetCall => Written(s, Reset(s.ram))
    case SyncCall(f) =>
      var run := Sync(s.ram, s.disk, f);
      On(RamAfterSync(s.ram, s.disk, f), Final(run), s.stale)
    case PowerLoss => Off(s.disk)
    case PowerLossInSync(f, k) => Off(Sync(s.ram, s.disk, f).cuts[k])
    case PowerLossInRecovery(rf, k) => Off(Recover(s.disk, rf).cuts[k])
    case BootUp(rf) => On(Recover(s.disk, rf).ram, RecoveredDisk(s.disk, rf), BackupStuck(s.disk, rf))
  }

  function Written(s: State, ram: Ram): (s': State)
    requires s.On?
  {
    s.(ram := ram, stale := s.stale && !ram.dirty)
  }

  function Result(s: State, e: Event): (out: Output)
    requires (s.On? ==> ValidRam(s.ram)) && Legal(s, e)
  {
    match e
    case ReadCall(b, o, n) => Data(ReadBytes(s.ram, b, o, n))
    case ProgCall(b, o, bytes) => Returned(if InImage(s.ram, b, o, |bytes|) then Ok else ErrInval)
    case EraseCall(b) => Returned(if b < BlockCount(|s.ram.data|) then Ok else ErrInval)
    case ResetCall => Returned(Ok)
    case SyncCall(f) => Returned(Sync(s.ram, s.disk, f).status)
    case BootUp(rf) => Booted(BackupStuck(s.disk, rf))
    case _ => Nothing
  }

  // ---------------------------------------------------------------- the invariant

  /** A recorded journal range is that of the journal on disk. */
  predicate JournalMatches(ram: Ram, d: Disk, base: Image) {
    ram.journalValid ==>
      match JournalOf(d, |base|)
      case None => false
      case Some(v) => ram.journalFirst == v.first && ram.journalLast == v.last
  }

  /** The base image, or what a disk without one shows. */
  function BareOf(d: Disk): (image: Image) {
    match BaseOf(d)
    case None => BootImage(d)
    case Some(base) => base
  }

  predicate RamInv(ram: Ram, d: Disk, stale: bool) {
    && ValidRam(ram)
    && (!ram.dirty ==> ram.data == if stale then BareOf(d) else BootImage(d))
    && (ram.dirty ==> !stale)
    && (ram.backingValid ==>
          BaseOf(d).Some? && Covered(ram, BaseOf(d).value) && JournalMatches(ram, d, BaseOf(d).value))
    && (!ram.backingValid ==> !ram.journalValid)
  }

  predicate Inv(s: State) {
    s.On? ==> RamInv(s.ram, s.disk, s.stale)
  }

  // ---------------------------------------------------------------- the reference

  /**
   A plain byte array (absent while the power is off), the array that would survive a crash, the one
   a boot from a stuck backup would show, and whether the plain array came from such a boot and has
   not been written to since.
   */
  datatype Abs = Abs(mem: Option<Image>, committed: Image, bare: Image, stale: bool, suspended: nat)

  function AbsOf(s: State): (a: Abs) {
    match s
    case On(ram, d, stale) => Abs(Some(ram.data), BootImage(d), BareOf(d), stale, ram.suspended)
    case Off(d) => Abs(None, BootImage(d), BareOf(d), false, 0)
  }

  /** `a'` has the plain array of `a` as its committed one. */
  predicate Commits(a: Abs, a': Abs) {
    a.mem.Some? && a'.committed == a.mem.value && (a'.bare == a.bare || a'.bare == a.mem.value)
  }

  /** What the reference allows an event to do. */
  predicate AbsStep(a: Abs, e: Event, out: Output, a': Abs) {
    match e
    case PowerLossInRecovery(_, _) => a.mem.None? && a' == a
    case BootUp(_) =>
      && a.mem.None? && out.Booted?
      && a' == Abs(Some(if out.stuck then a.bare else a.committed), a.committed, a.bare, out.stuck, 0)
    case ReadCall(b, o, n) =>
      && a.mem.Some? && a' == a
      && out == Data(if b * BLOCK + o + n <= |a.mem.value|
                     then Some(a.mem.value[b * BLOCK + o..b * BLOCK + o + n]) else None)
    case ProgCall(b, o, bytes) =>
      && a.mem.Some?
      && if b * BLOCK + o + |bytes| <= |a.mem.value|
         then out == Returned(Ok) &&
              a' == a.(mem := Some(Splice(a.mem.value, b * BLOCK + o, bytes)), stale := false)
         else out == Returned(ErrInval) && a' == a
    case EraseCall(b) =>
      && a.mem.Some?
      && if (b + 1) * BLOCK <= |a.mem.value|
         then out == Returned(Ok) &&
              a' == a.(mem := Some(Splice(a.mem.value, b * BLOCK, Erased(BLOCK))), stale := false)
         else out == Returned(ErrInval) && a' == a
    case ResetCall =>
      a.mem.Some? && out == Returned(Ok) && a' == a.(mem := Some(Erased(|a.mem.value|)), stale := false)
    case SuspendCall => a.mem.Some? && a' == a.(suspended := (a.suspended + 1) % U32)
    case ResumeCall => a.mem.Some? && a' == a.(suspended := if a.suspended > 0 then a.suspended - 1 else 0)
    case SyncCall(_) =>
      && a.mem.Some?
      && if a.suspended > 0 || a.stale then out == Returned(Ok) && a' == a
         else if out == Returned(Ok) then Commits(a, a') && a' == a.(committed := a'.committed, bare := a'.bare)
         else a' == a
    case PowerLoss => a.mem.Some? && a' == Abs(None, a.committed, a.bare, false, 0)
    case PowerLossInSync(_, _) =>
      && a.mem.Some? && a' == Abs(None, a'.committed, a'.bare, false, 0)
      && ((a'.committed == a.committed && a'.bare == a.bare) || (a.suspended == 0 && !a.stale && Commits(a, a')))
  }

  // ---------------------------------------------------------------- a flush, at any of its disk states

  /** What disk state `k` of a guarded flush boots. */
  datatype Outcome = Kept | New

  predicate Outcomes(ram: Ram, d: Disk, c: Disk, o: Outcome) {
    match o
    case Kept => BootOf(c) == BootOf(d)
    case New =>
      && BootImage(c) == ram.data && BaseOf(c).Some?
      && (BaseOf(c) == BaseOf(d) || BaseOf(c) == Some(ram.data))
  }

  lemma SameBase(c: Disk, d: Disk)
    requires BootOf(c) == BootOf(d)
    ensures BaseOf(c) == BaseOf(d) && BareOf(c) == BareOf(d) && BootImage(c) == BootImage(d)
  {
  }

  lemma DeltaCut(ram: Ram, d: Disk, f: FlushFaults, k: nat) returns (o: Outcome)
    requires RamInv(ram, d, false) && ram.dirty && ram.backingValid && Starts(f) && LiveInDelta(d, |ram.data|)
    requires k < |DeltaFlush(d, |ram.data|, FlushJournal(ram), f).cuts|
    ensures var run := DeltaFlush(d, |ram.data|, FlushJournal(ram), f);
      && Outcomes(ram, d, run.cuts[k], o) && o == (if run.status == Ok && k == |run.cuts| - 1 then New else Kept)
  {
    var base, j := BaseOf(d).value, FlushJournal(ram);
    var run := DeltaFlush(d, |ram.data|, j, f);
    o := if run.status == Ok && k == |run.cuts| - 1 then New else Kept;
    DeltaFlushAtomic(d, base, j, f, k);
    DeltaCarriesImage(ram, base);
  }

  lemma RewriteCut(ram: Ram, d: Disk, f: FlushFaults, k: nat) returns (o: Outcome)
    requires ValidRam(ram) && ram.dirty && !ram.backingValid && Starts(f) && FlushGuard(ram, d, f, k)
    requires k < |FullRewrite(d, ram.data, f).cuts|
    ensures var c := FullRewrite(d, ram.data, f).cuts[k];
      && Outcomes(ram, d, c, o) && o == (if Committed(ram, d, f, k) then New else Kept)
      && (Committed(ram, d, f, k) ==> BaseOf(c) == Some(ram.data))
  {
    FullRewriteCuts(d, ram.data, f, k);
    if Committed(ram, d, f, k) {
      o := New;
      EchoIff(Leftover(d, f, Past(ram, d, f, k)), ram.data);
    } else {
      o := Kept;
    }
  }

  /** Every guarded disk state of a sync: the old committed state or the RAM image. */
  lemma SyncCut(s: State, f: FlushFaults, k: nat) returns (o: Outcome)
    requires s.On? && Inv(s) && k < |Sync(s.ram, s.disk, f).cuts|
    requires WillFlush(s.ram) ==> FlushGuard(s.ram, s.disk, f, k)
    ensures var run := Sync(s.ram, s.disk, f);
      && Outcomes(s.ram, s.disk, run.cuts[k], o) && (o == New ==> WillFlush(s.ram))
      && (WillFlush(s.ram) && k == |run.cuts| - 1 ==> (o == New <==> run.status == Ok))
  {
    o := Kept;
    if WillFlush(s.ram) && Starts(f) {
      if s.ram.backingValid {
        o := DeltaCut(s.ram, s.disk, f, k);
      } else {
        o := RewriteCut(s.ram, s.disk, f, k);
      }
    }
  }

  // ---------------------------------------------------------------- one step

  /** Power loss in a sync leaves the old committed image or the RAM image, never a mix. */
  lemma SyncCuts(s: State, f: FlushFaults, k: nat)
    requires s.On? && Inv(s) && k < |Sync(s.ram, s.disk, f).cuts|
    requires WillFlush(s.ram) ==> FlushGuard(s.ram, s.disk, f, k)
    ensures var run := Sync(s.ram, s.disk, f);
      || BootImage(run.cuts[k]) == BootImage(s.disk)
      || (WillFlush(s.ram) && BootImage(run.cuts[k]) == s.ram.data)
  {
    var o := SyncCut(s, f, k);
  }

  /** A failed sync keeps the committed state and every field, so a later one can still commit. */
  lemma SyncFailure(s: State, f: FlushFaults)
    requires s.On? && Inv(s) && WillFlush(s.ram) && SyncGuard(s.ram, s.disk, f)
    requires Sync(s.ram, s.disk, f).status != Ok
    ensures Step(s, SyncCall(f)).ram == s.ram
    ensures BootOf(Step(s, SyncCall(f)).disk) == BootOf(s.disk)
    ensures Inv(Step(s, SyncCall(f)))
  {
    var o := SyncCut(s, f, |Sync(s.ram, s.disk, f).cuts| - 1);
    KeptRam(s.ram, s.disk, Step(s, SyncCall(f)).disk, s.stale);
  }

  lemma KeptRam(ram: Ram, d: Disk, c: Disk, stale: bool)
    requires RamInv(ram, d, stale) && BootOf(c) == BootOf(d)
    ensures RamInv(ram, c, stale)
  {
    SameBase(c, d);
  }

  /** A sync that flushed and succeeded: the disk boots the RAM image, and the fields describe it. */
  lemma SyncSuccess(s: State, f: FlushFaults)
    requires s.On? && Inv(s) && WillFlush(s.ram) && SyncGuard(s.ram, s.disk, f)
    requires Sync(s.ram, s.disk, f).status == Ok
    ensures Inv(Step(s, SyncCall(f)))
    ensures BootImage(Step(s, SyncCall(f)).disk) == s.ram.data
    ensures Commits(AbsOf(s), AbsOf(Step(s, SyncCall(f))))
  {
    var run := Sync(s.ram, s.disk, f);
    var o := SyncCut(s, f, |run.cuts| - 1);
    if s.ram.backingValid {
      var base, j := BaseOf(s.disk).value, FlushJournal(s.ram);
      DeltaFlushAtomic(s.disk, base, j, f, |run.cuts| - 1);
      FlushedCovered(s.ram, base);
    } else {
      o := RewriteCut(s.ram, s.disk, f, |run.cuts| - 1);
    }
  }

  lemma FlushedCovered(ram: Ram, base: Image)
    requires ValidRam(ram) && ram.dirty && ram.backingValid && Covered(ram, base)
    ensures ValidRam(AfterFlush(ram)) && Covered(AfterFlush(ram), base)
  {
    var r := AfterFlush(ram);
    forall i | 0 <= i < |base| && !Tracked(r, i)
      ensures r.data[i] == base[i]
    {
      assert !Tracked(ram, i);
    }
  }

  lemma SyncStep(s: State, f: FlushFaults)
    requires s.On? && Inv(s) && SyncGuard(s.ram, s.disk, f)
    ensures Inv(Step(s, SyncCall(f)))
    ensures AbsStep(AbsOf(s), SyncCall(f), Result(s, SyncCall(f)), AbsOf(Step(s, SyncCall(f))))
  {
    if WillFlush(s.ram) {
      if Sync(s.ram, s.disk, f).status == Ok {
        SyncSuccess(s, f);
      } else {
        SyncFailure(s, f);
        SameBase(Step(s, SyncCall(f)).disk, s.disk);
      }
    }
  }

  /**
   When an unsuspended sync that reports success has committed the RAM image, exactly: not if the
   image came from a stuck backup and nothing was written since, unless its journals add nothing.
   */
  lemma SyncCommitsIff(s: State, f: FlushFaults)
    requires s.On? && Inv(s) && SyncGuard(s.ram, s.disk, f) && s.ram.suspended == 0
    requires Sync(s.ram, s.disk, f).status == Ok
    ensures BootImage(Step(s, SyncCall(f)).disk) == s.ram.data <==> (s.stale ==> BareOf(s.disk) == BootImage(s.disk))
  {
    if WillFlush(s.ram) {
      SyncSuccess(s, f);
    }
  }

  /** A sync right after a boot from a stuck backup reports success; the next boot shows something else. */
  lemma StaleSyncWitness(f: FlushFaults) returns (s: State)
    ensures s.On? && Inv(s) && s.stale && s.ram.suspended == 0 && SyncGuard(s.ram, s.disk, f)
    ensures Sync(s.ram, s.disk, f).status == Ok && BootImage(Step(s, SyncCall(f)).disk) != s.ram.data
  {
    var d, rf := StuckBackupWitness();
    s := Step(Off(d), BootUp(rf));
    BootStep(Off(d), rf);
    assert AbsOf(s).committed == BootImage(d) && !s.ram.dirty;
    assert Step(s, SyncCall(f)).disk == s.disk;
  }

  lemma PowerLossStep(s: State, f: FlushFaults, k: nat)
    requires Inv(s) && Legal(s, PowerLossInSync(f, k))
    ensures var e := PowerLossInSync(f, k); Inv(Step(s, e)) && AbsStep(AbsOf(s), e, Result(s, e), AbsOf(Step(s, e)))
  {
    var o := SyncCut(s, f, k);
    if o == Kept {
      SameBase(Sync(s.ram, s.disk, f).cuts[k], s.disk);
    }
  }

  lemma BootStep(s: State, rf: RecoveryFaults)
    requires Inv(s) && s.Off?
    ensures Inv(Step(s, BootUp(rf)))
    ensures AbsStep(AbsOf(s), BootUp(rf), Result(s, BootUp(rf)), AbsOf(Step(s, BootUp(rf))))
  {
    RecoveryIsCrashSafe(s.disk, rf, |Recover(s.disk, rf).cuts| - 1);
    SameBase(RecoveredDisk(s.disk, rf), s.disk);
    if BackupStuck(s.disk, rf) {
      StuckRecovery(s.disk, rf);
      FreshRamCovered(Loaded(s.disk[StoreBak], None));
    } else {
      RecoveryYieldsBoot(s.disk, rf);
      FreshRamCovered(BootOf(s.disk));
    }
  }

  lemma PowerStep(s: State, e: Event)
    requires Inv(s) && Legal(s, e)
    requires e.PowerLoss? || e.PowerLossInSync? || e.PowerLossInRecovery? || e.BootUp?
    ensures Inv(Step(s, e)) && AbsStep(AbsOf(s), e, Result(s, e), AbsOf(Step(s, e)))
  {
    match e
    case PowerLoss =>
    case PowerLossInSync(f, k) => PowerLossStep(s, f, k);
    case PowerLossInRecovery(rf, k) =>
      RecoveryIsCrashSafe(s.disk, rf, k);
      SameBase(Recover(s.disk, rf).cuts[k], s.disk);
    case BootUp(rf) => BootStep(s, rf);
  }

  lemma WriteStep(s: State, e: Event)
    requires Inv(s) && Legal(s, e) && (e.ProgCall? || e.EraseCall?)
    ensures Inv(Step(s, e)) && AbsStep(AbsOf(s), e, Result(s, e), AbsOf(Step(s, e)))
  {
    BlockCountBound(|s.ram.data|);
    var base := if s.ram.backingValid then BaseOf(s.disk).value else s.ram.data;
    match e
    case ProgCall(b, o, bytes) => ProgKeepsCovered(s.ram, base, b, o, bytes);
    case EraseCall(b) => EraseKeepsCovered(s.ram, base, b);
  }

  lemma ControlStep(s: State, e: Event)
    requires Inv(s) && Legal(s, e) && (e.ReadCall? || e.SuspendCall? || e.ResumeCall?)
    ensures Inv(Step(s, e)) && AbsStep(AbsOf(s), e, Result(s, e), AbsOf(Step(s, e)))
  {
  }

  lemma ResetStep(s: State)
    requires Inv(s) && Legal(s, ResetCall)
    ensures Inv(Step(s, ResetCall))
    ensures AbsStep(AbsOf(s), ResetCall, Result(s, ResetCall), AbsOf(Step(s, ResetCall)))
  {
    BlockCountBound(|s.ram.data|);
  }

  /** Every step keeps the invariant and does to the reference what the reference allows. */
  lemma StepRefines(s: State, e: Event)
    requires Inv(s) && Legal(s, e)
    ensures Inv(Step(s, e))
    ensures AbsStep(AbsOf(s), e, Result(s, e), AbsOf(Step(s, e)))
  {
    match e
    case SyncCall(f) => SyncStep(s, f);
    case PowerLoss => PowerStep(s, e);
    case PowerLossInSync(_, _) => PowerStep(s, e);
    case PowerLossInRecovery(_, _) => PowerStep(s, e);
    case BootUp(_) => PowerStep(s, e);
    case ProgCall(_, _, _) => WriteStep(s, e);
    case EraseCall(_) => WriteStep(s, e);
    case ResetCall => ResetStep(s);
    case _ => ControlStep(s, e);
  }

  /** After an erase every read in the block, and after a reset every read, returns bytes of 0xFF. */
  lemma ErasedReads(s: State, e: Event, b: nat, off: nat, n: nat)
    requires Inv(s) && s.On? && (e == ResetCall || (e == EraseCall(b) && off + n <= 4096))
    requires b * 4096 + off + n <= |s.ram.data|
    ensures var out := Result(Step(s, e), ReadCall(b, off, n));
      out.Data? && out.bytes.Some? && |out.bytes.value| == n &&
      forall i :: 0 <= i < n ==> out.bytes.value[i] == 0xFF
  {
    BlockCountBound(|s.ram.data|);
  }

  // ---------------------------------------------------------------- whole runs

  /** `tr` is a run over the events `es`, from any state that satisfies the invariant. */
  ghost predicate IsRun(tr: seq<State>, es: seq<Event>) {
    && |tr| == |es| + 1
    && Inv(tr[0])
    && forall i :: 0 <= i < |es| ==>
         (tr[i].On? ==> ValidRam(tr[i].ram)) && Legal(tr[i], es[i]) && tr[i + 1] == Step(tr[i], es[i])
  }

  /** Every disk whatsoever is a legal start: a powered-off machine satisfies the invariant. */
  lemma AnyDiskStarts(d: Disk)
    ensures IsRun([Off(d)], [])
  {
  }

  /**
   Whole-run durability: at every step of every run the invariant holds, reads return the bytes of
   the plain array, and the surviving array changes only to the array at a flush.
   */
  lemma {:induction false} RunRefines(tr: seq<State>, es: seq<Event>, i: nat)
    requires IsRun(tr, es) && i <= |es|
    ensures Inv(tr[i])
    ensures forall k :: 0 <= k < i ==> AbsStep(AbsOf(tr[k]), es[k], Result(tr[k], es[k]), AbsOf(tr[k + 1]))
  {
    if i == 0 {
    } else {
      RunRefines(tr, es, i - 1);
      StepRefines(tr[i - 1], es[i - 1]);
    }
  }

  lemma StepInRun(tr: seq<State>, es: seq<Event>, i: nat)
    requires IsRun(tr, es) && i < |es|
    ensures Inv(tr[i]) && Legal(tr[i], es[i]) && tr[i + 1] == Step(tr[i], es[i])
  {
    RunRefines(tr, es, i);
  }

  predicate IsSync(e: Event) {
    e.SyncCall? || e.PowerLossInSync?
  }

  /** Between syncs the surviving array never changes, whatever else happens. */
  lemma {:induction false} CommittedIsStable(tr: seq<State>, es: seq<Event>, i: nat, j: nat)
    requires IsRun(tr, es) && i <= j <= |es|
    requires forall k :: i <= k < j ==> !IsSync(es[k])
    ensures BootImage(tr[j].disk) == BootImage(tr[i].disk)
    decreases j
  {
    if i == j {
    } else {
      CommittedIsStable(tr, es, i, j - 1);
      RunRefines(tr, es, j);
      assert AbsStep(AbsOf(tr[j - 1]), es[j - 1], Result(tr[j - 1], es[j - 1]), AbsOf(tr[j]));
    }
  }

  /** What the boot event `e` shows of a disk whose committed image is `image`. */
  predicate Shows(s: State, e: Event, image: Image)
    requires e.BootUp?
  {
    image == if BackupStuck(s.disk, e.rfaults) then BareOf(s.disk) else BootImage(s.disk)
  }

  /**
   Durability in one sentence: once an unsuspended sync has returned Ok (on a store that did not just
   boot from a stuck backup), the next boot with no other sync in between finds exactly the array of
   that moment committed; if power was lost inside the next sync, that array or the array at the
   interrupted sync. It shows the committed array, unless the backup is stuck then.
   */
  lemma SyncedDataSurvives(tr: seq<State>, es: seq<Event>, i: nat, m: nat, j: nat)
    requires IsRun(tr, es) && i < m <= j < |es|
    requires es[i].SyncCall? && tr[i].ram.suspended == 0 && !tr[i].stale && Result(tr[i], es[i]) == Returned(Ok)
    requires es[j].BootUp?
    requires forall k :: i < k < j && k != m ==> !IsSync(es[k])
    ensures tr[j + 1].On? && Shows(tr[j], es[j], tr[j + 1].ram.data)
    ensures !IsSync(es[m]) ==> BootImage(tr[j].disk) == tr[i].ram.data
    ensures es[m].PowerLossInSync? ==>
      BootImage(tr[j].disk) == tr[i].ram.data || BootImage(tr[j].disk) == tr[m].ram.data
  {
    RunRefines(tr, es, j + 1);
    assert AbsStep(AbsOf(tr[i]), es[i], Result(tr[i], es[i]), AbsOf(tr[i + 1]));
    assert AbsStep(AbsOf(tr[j]), es[j], Result(tr[j], es[j]), AbsOf(tr[j + 1]));
    CommittedIsStable(tr, es, i + 1, m);
    if es[m].PowerLossInSync? {
      assert AbsStep(AbsOf(tr[m]), es[m], Result(tr[m], es[m]), AbsOf(tr[m + 1]));
      CommittedIsStable(tr, es, m + 1, j);
    } else if !IsSync(es[m]) {
      CommittedIsStable(tr, es, m, j);
    }
  }

  /** In every state of every run the base under the hull of both ranges is the RAM image. */
  lemma CoverageOverRuns(tr: seq<State>, es: seq<Event>, i: nat)
    requires IsRun(tr, es) && i <= |es|
    requires tr[i].On? && tr[i].ram.backingValid
    ensures ValidRam(tr[i].ram) && BaseOf(tr[i].disk).Some?
    ensures Covered(tr[i].ram, BaseOf(tr[i].disk).value)
    ensures tr[i].ram.dirty ==> Overlay(BaseOf(tr[i].disk).value, FlushJournal(tr[i].ram)) == tr[i].ram.data
  {
    RunRefines(tr, es, i);
    if tr[i].ram.dirty {
      DeltaCarriesImage(tr[i].ram, BaseOf(tr[i].disk).value);
    }
  }

  /** The event writes to block `b`. */
  predicate Touches(e: Event, b: nat) {
    (e.ProgCall? && e.block == b) || (e.EraseCall? && e.block == b) || e.ResetCall?
  }

  lemma DirtyEndStep(s: State, e: Event)
    requires Inv(s) && Legal(s, e) && Step(s, e).On? && Step(s, e).ram.dirty
    ensures var r := Step(s, e).ram;
      && s.On?
      && (Touches(e, r.dirtyFirst) || (s.ram.dirty && s.ram.dirtyFirst == r.dirtyFirst))
      && (Touches(e, r.dirtyLast) || (s.ram.dirty && s.ram.dirtyLast == r.dirtyLast))
  {
  }

  /** Since the machine was off, both ends of the dirty range have been written to. */
  lemma {:induction false} DirtyEndsWereWritten(tr: seq<State>, es: seq<Event>, j: nat)
    requires IsRun(tr, es) && tr[0].Off? && j <= |es| && tr[j].On? && tr[j].ram.dirty
    ensures exists i :: 0 <= i < j && Touches(es[i], tr[j].ram.dirtyFirst)
    ensures exists i :: 0 <= i < j && Touches(es[i], tr[j].ram.dirtyLast)
  {
    if j == 0 {
    } else {
      StepInRun(tr, es, j - 1);
      DirtyEndStep(tr[j - 1], es[j - 1]);
      if tr[j - 1].ram.dirty {
        DirtyEndsWereWritten(tr, es, j - 1);
      }
    }
  }

  /** Blocks `a` to `b` are in the journal range: the recorded one, or while the power is off the one on disk. */
  predicate Keeps(s: State, a: nat, b: nat) {
    match s
    case On(ram, _, _) => ram.journalValid && ram.journalFirst <= a && b <= ram.journalLast
    case Off(d) =>
      var boot := BootOf(d);
      boot.Loaded? && boot.journal.Some? && boot.journal.value.first <= a && b <= boot.journal.value.last
  }

  /** The events that may drop the journal range: a reset, and a boot that skips the journals. */
  predicate Forgets(s: State, e: Event) {
    e.ResetCall? || (e.BootUp? && BackupStuck(s.disk, e.rfaults))
  }

  lemma KeepsStep(s: State, e: Event, a: nat, b: nat)
    requires Inv(s) && Legal(s, e) && Keeps(s, a, b) && !Forgets(s, e)
    ensures Keeps(Step(s, e), a, b)
  {
    match e
    case PowerLossInSync(f, k) =>
      if WillFlush(s.ram) && Starts(f) {
        DeltaFlushAtomic(s.disk, BaseOf(s.disk).value, FlushJournal(s.ram), f, k);
      }
    case PowerLossInRecovery(rf, k) => RecoveryIsCrashSafe(s.disk, rf, k);
    case BootUp(rf) => RecoveryYieldsBoot(s.disk, rf);
    case _ =>
  }

  lemma KeepsInRun(tr: seq<State>, es: seq<Event>, i: nat, a: nat, b: nat)
    requires IsRun(tr, es) && i < |es| && Keeps(tr[i], a, b) && !Forgets(tr[i], es[i])
    ensures Keeps(tr[i + 1], a, b)
  {
    StepInRun(tr, es, i);
    KeepsStep(tr[i], es[i], a, b);
  }

  /** The journal range only grows, across power losses and boots too, until a reset or a boot from a stuck backup. */
  lemma {:induction false} JournalOnlyGrows(tr: seq<State>, es: seq<Event>, i: nat, j: nat, a: nat, b: nat)
    requires IsRun(tr, es) && i <= j <= |es| && Keeps(tr[i], a, b)
    requires forall k :: i <= k < j ==> !Forgets(tr[k], es[k])
    ensures Keeps(tr[j], a, b)
    decreases j - i
  {
    if i == j {
    } else {
      KeepsInRun(tr, es, i, a, b);
      JournalOnlyGrows(tr, es, i + 1, j, a, b);
    }
  }

  // ---------------------------------------------------------------- when a flush is a delta

  /** There is a base image to write deltas against: a running store knows it, otherwise it is on the disk. */
  predicate Backed(s: State) {
    match s
    case On(ram, _, _) => ram.backingValid
    case Off(d) => BaseOf(d).Some?
  }

  /** A store is backed after a boot that found an image and after a sync that flushed, and no longer after a reset. */
  lemma BackedStep(s: State, e: Event)
    requires Inv(s) && Legal(s, e)
    ensures e.BootUp? ==> (Backed(Step(s, e)) <==> Backed(s))
    ensures e.ResetCall? ==> !Backed(Step(s, e))
    ensures e.SyncCall? ==>
      (Backed(Step(s, e)) <==> Backed(s) || (WillFlush(s.ram) && Result(s, e) == Returned(Ok)))
    ensures Backed(s) && !e.ResetCall? ==> Backed(Step(s, e))
  {
    match e
    case PowerLossInSync(f, k) =>
      if Backed(s) && WillFlush(s.ram) && Starts(f) {
        DeltaFlushAtomic(s.disk, BaseOf(s.disk).value, FlushJournal(s.ram), f, k);
      }
    case PowerLossInRecovery(rf, k) => RecoveryIsCrashSafe(s.disk, rf, k);
    case BootUp(rf) =>
      if !BackupStuck(s.disk, rf) {
        RecoveryYieldsBoot(s.disk, rf);
      } else {
        StuckRecovery(s.disk, rf);
      }
    case _ =>
  }

  /** Once backed, every later flush is a delta, across power losses and boots, until a reset. */
  lemma {:induction false} BackedStays(tr: seq<State>, es: seq<Event>, i: nat, j: nat)
    requires IsRun(tr, es) && i <= j <= |es| && Backed(tr[i])
    requires forall k :: i <= k < j ==> !es[k].ResetCall?
    ensures Backed(tr[j])
    decreases j - i
  {
    if i == j {
    } else {
      StepInRun(tr, es, i);
      BackedStep(tr[i], es[i]);
      BackedStays(tr, es, i + 1, j);
    }
  }

  // ---------------------------------------------------------------- the backup generation over runs

  /** The flush, cut at its disk state `k`, has not got as far as the backup of the journal. */
  predicate Spares(ram: Ram, d: Disk, f: FlushFaults, k: nat)
    requires ValidRam(ram) && ram.dirty
  {
    || !Starts(f) || k == 0
    || if ram.backingValid then f.unlinkBak && !Rotated(d, |ram.data|, FlushJournal(ram), f, k)
       else !Committed(ram, d, f, k)
  }

  /** What a rejected DELTA falls back to in disk state `k` of a flush. */
  function FlushFallback(ram: Ram, d: Disk, f: FlushFaults, k: nat): (b: Boot)
    requires ValidRam(ram) && ram.dirty
  {
    if Spares(ram, d, f, k) then Fallback(d)
    else if !ram.backingValid then OnTopOf(Leftover(d - {Delta}, f, Past(ram, d, f, k)), ram.data)
    else if Rotated(d, |ram.data|, FlushJournal(ram), f, k) then BootOf(d)
    else Loaded(BareOf(d), None)
  }

  /** The event does not reach the backup of the journal. */
  predicate SparesBackup(s: State, e: Event)
    requires (s.On? ==> ValidRam(s.ram)) && Legal(s, e)
  {
    match e
    case SyncCall(f) => WillFlush(s.ram) ==> Spares(s.ram, s.disk, f, |Sync(s.ram, s.disk, f).cuts| - 1)
    case PowerLossInSync(f, k) => WillFlush(s.ram) ==> Spares(s.ram, s.disk, f, k)
    case _ => true
  }

  /** What a rejected DELTA falls back to after the event. */
  function FallbackAfter(s: State, e: Event): (b: Boot)
    requires (s.On? ==> ValidRam(s.ram)) && Legal(s, e)
  {
    if SparesBackup(s, e) then Fallback(s.disk)
    else FlushFallback(s.ram, s.disk, e.faults, if e.SyncCall? then |Sync(s.ram, s.disk, e.faults).cuts| - 1 else e.cut)
  }

  lemma SyncFallback(s: State, f: FlushFaults, k: nat)
    requires s.On? && Inv(s) && WillFlush(s.ram)
    requires k < |Sync(s.ram, s.disk, f).cuts| && FlushGuard(s.ram, s.disk, f, k)
    ensures Fallback(Sync(s.ram, s.disk, f).cuts[k]) == FlushFallback(s.ram, s.disk, f, k)
  {
    if Starts(f) {
      if s.ram.backingValid {
        FallbackAtCut(s.disk, BaseOf(s.disk).value, FlushJournal(s.ram), f, k);
      } else {
        RewriteFallback(s.disk, s.ram.data, f, k);
      }
    }
  }

  /** Recovery, also when it only renames the backup image, keeps what a rejected DELTA falls back to. */
  lemma RecoveryKeepsFallback(d: Disk, rf: RecoveryFaults, k: nat)
    requires k < |Recover(d, rf).cuts|
    ensures Fallback(Recover(d, rf).cuts[k]) == Fallback(d)
  {
    var c := Recover(d, rf).cuts[k];
    RecoveryIsCrashSafe(d, rf, k);
    RecoveryKeepsDeltas(d, rf, k);
    SameBase(c, d);
    assert BaseOf(c - {Delta}) == BaseOf(c) && BaseOf(d - {Delta}) == BaseOf(d);
    SameBoot(c - {Delta}, d - {Delta});
  }

  lemma FallbackStep(s: State, e: Event)
    requires Inv(s) && Legal(s, e)
    ensures Fallback(Step(s, e).disk) == FallbackAfter(s, e)
  {
    match e
    case SyncCall(f) =>
      if WillFlush(s.ram) {
        SyncFallback(s, f, |Sync(s.ram, s.disk, f).cuts| - 1);
      }
    case PowerLossInSync(f, k) =>
      if WillFlush(s.ram) {
        SyncFallback(s, f, k);
      }
    case PowerLossInRecovery(rf, k) => RecoveryKeepsFallback(s.disk, rf, k);
    case BootUp(rf) => RecoveryKeepsFallback(s.disk, rf, |Recover(s.disk, rf).cuts| - 1);
    case _ =>
  }

  lemma FallbackInRun(tr: seq<State>, es: seq<Event>, i: nat)
    requires IsRun(tr, es) && i < |es|
    ensures Fallback(tr[i + 1].disk) == FallbackAfter(tr[i], es[i])
  {
    StepInRun(tr, es, i);
    FallbackStep(tr[i], es[i]);
  }

  /** No event from `i` up to `j` reaches the backup of the journal. */
  ghost predicate Spared(tr: seq<State>, es: seq<Event>, i: nat, j: nat)
    requires IsRun(tr, es) && j <= |es|
  {
    forall k :: i <= k < j ==> SparesBackup(tr[k], es[k])
  }

  lemma {:induction false} FallbackStays(tr: seq<State>, es: seq<Event>, i: nat, j: nat)
    requires IsRun(tr, es) && i <= j <= |es| && Spared(tr, es, i, j)
    ensures Fallback(tr[j].disk) == Fallback(tr[i].disk)
    decreases j - i
  {
    if i == j {
    } else {
      FallbackInRun(tr, es, i);
      FallbackStays(tr, es, i + 1, j);
    }
  }

  /** Every stretch of every run has a last event that reaches the backup, unless none does. */
  lemma {:induction false} LastReach(tr: seq<State>, es: seq<Event>, i: nat, j: nat) returns (m: nat)
    requires IsRun(tr, es) && i <= j <= |es|
    ensures i <= m <= j && Spared(tr, es, m, j)
    ensures m > i ==> !SparesBackup(tr[m - 1], es[m - 1])
    decreases j - i
  {
    if i == j || !SparesBackup(tr[j - 1], es[j - 1]) {
      m := j;
    } else {
      m := LastReach(tr, es, i, j - 1);
    }
  }

  /**
   What recovery with a rejected DELTA finds, in every state of every run: the fallback that the last
   event to reach the backup left, whatever failed, was interrupted or was booted since.
   */
  lemma FallbackOverRuns(tr: seq<State>, es: seq<Event>, m: nat, j: nat, garbage: seq<byte>)
    requires IsRun(tr, es) && m < j <= |es| && Spared(tr, es, m + 1, j)
    requires BaseOf(tr[j].disk).Some? && ParseDelta(garbage, |BaseOf(tr[j].disk).value|).None?
    ensures BootOf(tr[j].disk[Delta := garbage]) == FallbackAfter(tr[m], es[m])
  {
    FallbackInRun(tr, es, m);
    FallbackStays(tr, es, m + 1, j);
    RejectedDeltaFallsBack(tr[j].disk, BaseOf(tr[j].disk).value, garbage);
  }

  /**
   The backup generation over whole runs: from a successful delta flush on, through any events that
   do not reach the backup (failed and interrupted syncs, power losses and boots among them), a
   rejected DELTA brings back what was committed before that flush.
   */
  lemma BackupGenerationHolds(tr: seq<State>, es: seq<Event>, i: nat, j: nat, garbage: seq<byte>)
    requires IsRun(tr, es) && i < j <= |es| && es[i].SyncCall? && Spared(tr, es, i + 1, j)
    requires WillFlush(tr[i].ram) && tr[i].ram.backingValid && Result(tr[i], es[i]) == Returned(Ok)
    requires BaseOf(tr[j].disk).Some? && ParseDelta(garbage, |BaseOf(tr[j].disk).value|).None?
    ensures BootOf(tr[j].disk[Delta := garbage]) == BootOf(tr[i].disk)
  {
    FallbackOverRuns(tr, es, i, j, garbage);
    SuccessfulDelta(tr[i].disk, |tr[i].ram.data|, FlushJournal(tr[i].ram), es[i].faults);
  }

  lemma SuccessfulDelta(d: Disk, size: nat, j: Journal, f: FlushFaults)
    requires j.first <= j.last < U32 && DeltaFlush(d, size, j, f).status == Ok
    ensures Rotated(d, size, j, f, |DeltaFlush(d, size, j, f).cuts| - 1)
  {
  }
}
