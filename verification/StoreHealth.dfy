/**
 When the flush guard needs no thought: from a disk with its image in place and its journal in
 DELTA, every run stays there, under any failing calls and power losses, except through the three
 doors named by `Calm`. So for calm runs the durability theorems hold without further conditions.
 */
module StoreHealth {
  import opened Bytes
  import opened StoreFormat
  import opened StoreDisk
  import opened StoreRam
  import opened StoreRecovery
  import opened StoreFlush
  import opened StoreRuns

  /** The image is under its own name and the journal, if any, in DELTA. */
  predicate InPlace(d: Disk) {
    HasImage(d, Store) && LiveInDelta(d, |d[Store]|)
  }

  /** The disk is in place, and a running store knows it. */
  predicate Healthy(s: State) {
    InPlace(s.disk) && (s.On? ==> s.ram.backingValid)
  }

  /** The sync ends with the new delta not installed and the old one not rolled back. */
  predicate LeavesJournalAside(s: State, f: FlushFaults)
    requires s.On? && ValidRam(s.ram) && HasImage(s.disk, Store)
  {
    && WillFlush(s.ram)
    && HasDelta(s.disk, Delta, |s.disk[Store]|) && DeltaRollbackFails(s.disk, FlushJournal(s.ram), f)
  }

  /** The cut is between the two renames: DELTA was there and is not. */
  predicate CutsBetweenRenames(s: State, f: FlushFaults, k: nat)
    requires s.On? && ValidRam(s.ram) && k < |Sync(s.ram, s.disk, f).cuts|
  {
    Delta in s.disk && Delta !in Sync(s.ram, s.disk, f).cuts[k]
  }

  /**
   The events that keep a healthy store healthy: no reset, no sync in which both the install and
   the rollback rename fail, and no power loss between the two renames of a delta flush. Apart
   from the callers' contract on writes nothing else is asked.
   */
  predicate Calm(s: State, e: Event)
    requires (s.On? ==> ValidRam(s.ram)) && HasImage(s.disk, Store)
  {
    match e
    case ResetCall => false
    case PowerLossInRecovery(rf, k) => s.Off? && k < |Recover(s.disk, rf).cuts|
    case BootUp(_) => s.Off?
    case ProgCall(b, o, bytes) => s.On? && (InImage(s.ram, b, o, |bytes|) ==> InsideBlock(|s.ram.data|, b, o, |bytes|))
    case SyncCall(f) => s.On? && !LeavesJournalAside(s, f)
    case PowerLossInSync(f, k) =>
      s.On? && k < |Sync(s.ram, s.disk, f).cuts| && !CutsBetweenRenames(s, f, k)
    case _ => s.On?
  }

  lemma CalmIsLegal(s: State, e: Event)
    requires Inv(s) && Healthy(s) && Calm(s, e)
    ensures Legal(s, e)
  {
  }

  /** A cut of a delta flush that still has its DELTA still has its journal there. */
  lemma CutStaysHealthy(d: Disk, j: Journal, f: FlushFaults, k: nat)
    requires InPlace(d) && ValidJournal(j, |d[Store]|) && j.last < U32
    requires k < |DeltaFlush(d, |d[Store]|, j, f).cuts|
    requires Delta in d ==> Delta in DeltaFlush(d, |d[Store]|, j, f).cuts[k]
    ensures InPlace(DeltaFlush(d, |d[Store]|, j, f).cuts[k])
  {
    var base, run := d[Store], DeltaFlush(d, |d[Store]|, j, f);
    DeltaFlushAtomic(d, base, j, f, k);
    assert SameFile(run.cuts[k], Store, d, Store);
    if TmpWritten(f, 1 + ChunkCount(|j.payload|)) {
      RotateCuts(d, Delta, DeltaBak, DeltaFile(|base|, j), f, k);
      DeltaRoundTrip(|base|, j);
    }
  }

  lemma FlushStaysHealthy(d: Disk, j: Journal, f: FlushFaults)
    requires InPlace(d) && ValidJournal(j, |d[Store]|) && j.last < U32
    requires !(HasDelta(d, Delta, |d[Store]|) && DeltaRollbackFails(d, j, f))
    ensures InPlace(Final(DeltaFlush(d, |d[Store]|, j, f)))
  {
    var base, run := d[Store], DeltaFlush(d, |d[Store]|, j, f);
    DeltaFlushAtomic(d, base, j, f, |run.cuts| - 1);
    assert SameFile(Final(run), Store, d, Store);
    if run.status == Ok {
      SuccessfulFlushBoots(d, base, j, f);
    } else {
      FailedFlushKeepsLive(d, base, j, f);
    }
  }

  lemma SyncStaysHealthy(s: State, f: FlushFaults)
    requires Inv(s) && s.On? && Healthy(s) && Calm(s, SyncCall(f))
    ensures Legal(s, SyncCall(f)) && Healthy(Step(s, SyncCall(f)))
  {
    CalmIsLegal(s, SyncCall(f));
    if WillFlush(s.ram) && Starts(f) {
      FlushStaysHealthy(s.disk, FlushJournal(s.ram), f);
    }
  }

  lemma PowerLossStaysHealthy(s: State, f: FlushFaults, k: nat)
    requires Inv(s) && s.On? && Healthy(s) && Calm(s, PowerLossInSync(f, k))
    ensures Legal(s, PowerLossInSync(f, k)) && Healthy(Step(s, PowerLossInSync(f, k)))
  {
    CalmIsLegal(s, PowerLossInSync(f, k));
    if WillFlush(s.ram) && Starts(f) {
      CutStaysHealthy(s.disk, FlushJournal(s.ram), f, k);
    }
  }

  lemma CalmStep(s: State, e: Event)
    requires Inv(s) && Healthy(s) && Calm(s, e)
    ensures Legal(s, e) && Healthy(Step(s, e))
  {
    match e
    case SyncCall(f) => SyncStaysHealthy(s, f);
    case PowerLossInSync(f, k) => PowerLossStaysHealthy(s, f, k);
    case _ => CalmIsLegal(s, e);
  }

  /** A run of calm events from a healthy state; nothing is said about guards. */
  ghost predicate IsCalmRun(tr: seq<State>, es: seq<Event>) {
    && |tr| == |es| + 1 && Inv(tr[0]) && Healthy(tr[0])
    && forall i :: 0 <= i < |es| ==>
         && (tr[i].On? ==> ValidRam(tr[i].ram)) && HasImage(tr[i].disk, Store)
         && Calm(tr[i], es[i])
         && (Legal(tr[i], es[i]) ==> tr[i + 1] == Step(tr[i], es[i]))
  }

  /** Calm runs are legal runs: every flush in them finds its guard satisfied, and health is kept. */
  lemma {:induction false} CalmRunsAreLegal(tr: seq<State>, es: seq<Event>, i: nat)
    requires IsCalmRun(tr, es) && i <= |es|
    ensures Inv(tr[i]) && Healthy(tr[i])
    ensures forall k :: 0 <= k < i ==>
      (tr[k].On? ==> ValidRam(tr[k].ram)) && Legal(tr[k], es[k]) && tr[k + 1] == Step(tr[k], es[k])
  {
    if i == 0 {
    } else {
      CalmRunsAreLegal(tr, es, i - 1);
      CalmStep(tr[i - 1], es[i - 1]);
      StepRefines(tr[i - 1], es[i - 1]);
    }
  }

  /** Durability without side conditions, for calm runs. */
  lemma CalmRunIsRun(tr: seq<State>, es: seq<Event>)
    requires IsCalmRun(tr, es)
    ensures IsRun(tr, es)
  {
    CalmRunsAreLegal(tr, es, |es|);
  }
}
