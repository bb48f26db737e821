/**
 GICv2 interrupt routing. First the routing of one shared interrupt (SPI) over any sequence of
 exclude and include calls; then the driver on its packed registers and bitmaps, proved to do
 that to every SPI and nothing else.
 */
module GicV2 {
  import opened MachineBits
  import opened GicBits
  import opened GicBitmap

  const WORDS := 255

  // ---------------------------------------------------------------- one SPI

  /**
   `targets`: the CPUs in the SPI's target mask; `excluded`: the CPUs an exclude took out of it;
   `forced`: those among them whose removal emptied the mask, so that CPU 0 was put in.
   */
  datatype Spi = Spi(targets: set<nat>, excluded: set<nat>, forced: set<nat>)

  function ExcludeSpi(s: Spi, cpu: nat): (r: Spi) {
    if cpu !in s.targets then s
    else if s.targets == {cpu} then Spi({0}, s.excluded + {cpu}, s.forced + {cpu})
    else Spi(s.targets - {cpu}, s.excluded + {cpu}, s.forced)
  }

  function IncludeSpi(s: Spi, cpu: nat): (r: Spi) {
    if cpu !in s.excluded then s
    else if cpu in s.forced then Spi(s.targets + {cpu} - {0}, s.excluded - {cpu}, s.forced - {cpu})
    else Spi(s.targets + {cpu}, s.excluded - {cpu}, s.forced)
  }

  datatype Op = Exclude(cpu: nat) | Include(cpu: nat)

  /** CPU 0 and CPUs that do not exist are ignored by both calls. */
  predicate Effective(cpu: nat, cpuCount: nat) {
    0 < cpu < cpuCount && cpu < MAX_CPUS
  }

  function Apply(s: Spi, op: Op, cpuCount: nat): (r: Spi) {
    if !Effective(op.cpu, cpuCount) then s
    else match op
      case Exclude(c) => ExcludeSpi(s, c)
      case Include(c) => IncludeSpi(s, c)
  }

  function Run(s: Spi, ops: seq<Op>, cpuCount: nat): (r: Spi) {
    if ops == [] then s else Apply(Run(s, ops[..|ops| - 1], cpuCount), ops[|ops| - 1], cpuCount)
  }

  /** The CPUs that are excluded and not yet included again after `ops`. */
  function Isolated(ops: seq<Op>, cpuCount: nat): (s: set<nat>) {
    if ops == [] then {}
    else
      var rest, op := Isolated(ops[..|ops| - 1], cpuCount), ops[|ops| - 1];
      if !Effective(op.cpu, cpuCount) then rest
      else if op.Exclude? then rest + {op.cpu} else rest - {op.cpu}
  }

  function Fresh(targets: set<nat>): (s: Spi) {
    Spi(targets, {}, {})
  }

  /**
   What holds of an SPI that started with `home` as its mask while the CPUs `iso` are isolated:
   the mask is `home` without the isolated CPUs, plus CPU 0 while a fallback is in force.
   */
  predicate Routed(s: Spi, home: set<nat>, iso: set<nat>) {
    && s.excluded == home * iso
    && s.forced <= s.excluded
    && (forall a, b :: a in s.forced && b in s.forced ==> a == b)
    && (s.forced == {} ==> s.targets == home - iso && (home != {} ==> s.targets != {}))
    && (s.forced != {} ==> 0 !in home && s.targets == home - iso + {0})
    && 0 !in iso
  }

  lemma ExcludeKeepsRouted(s: Spi, home: set<nat>, iso: set<nat>, cpu: nat)
    requires Routed(s, home, iso) && cpu != 0
    ensures Routed(ExcludeSpi(s, cpu), home, iso + {cpu})
  {
    var r := ExcludeSpi(s, cpu);
    if cpu in s.targets {
      assert r.excluded == home * (iso + {cpu});
      if s.targets == {cpu} {
        assert home - (iso + {cpu}) == {};
      } else {
        var t :| t in s.targets && t != cpu;
        assert s.targets - {cpu} != {};
      }
    } else {
      assert home * (iso + {cpu}) == home * iso;
      assert home - (iso + {cpu}) == home - iso;
    }
  }

  lemma IncludeKeepsRouted(s: Spi, home: set<nat>, iso: set<nat>, cpu: nat)
    requires Routed(s, home, iso)
    ensures Routed(IncludeSpi(s, cpu), home, iso - {cpu})
  {
    var r := IncludeSpi(s, cpu);
    if cpu in s.excluded {
      assert r.excluded == home * (iso - {cpu});
      assert home - iso + {cpu} == home - (iso - {cpu});
      if cpu in s.forced {
        assert r.forced == {};
        assert home - iso + {0} + {cpu} - {0} == home - (iso - {cpu});
      } else {
        assert cpu in r.targets;
      }
    } else {
      assert home * (iso - {cpu}) == home * iso;
      assert home - (iso - {cpu}) == home - iso;
    }
  }

  lemma {:induction false} RunKeepsRouted(home: set<nat>, ops: seq<Op>, cpuCount: nat)
    ensures Routed(Run(Fresh(home), ops, cpuCount), home, Isolated(ops, cpuCount))
  {
    if ops == [] {
    } else {
      var before, op := ops[..|ops| - 1], ops[|ops| - 1];
      RunKeepsRouted(home, before, cpuCount);
      if Effective(op.cpu, cpuCount) {
        var s, iso := Run(Fresh(home), before, cpuCount), Isolated(before, cpuCount);
        match op
        case Exclude(c) => ExcludeKeepsRouted(s, home, iso, c);
        case Include(c) => IncludeKeepsRouted(s, home, iso, c);
      }
    }
  }

  /**
   For every interleaving and repetition of excludes and includes: a routed SPI never loses its
   last target, no SPI targets an isolated CPU, every non-isolated CPU keeps its SPIs, the only
   CPU ever added is CPU 0, and once nobody is isolated the mask is the one it started with.
   */
  lemma RoutingOverRuns(home: set<nat>, ops: seq<Op>, cpuCount: nat)
    ensures var s, iso := Run(Fresh(home), ops, cpuCount), Isolated(ops, cpuCount);
      && (home != {} <==> s.targets != {})
      && s.targets !! iso
      && home - iso <= s.targets <= home - iso + {0}
      && (iso == {} ==> s == Fresh(home))
  {
    RunKeepsRouted(home, ops, cpuCount);
    var s, iso := Run(Fresh(home), ops, cpuCount), Isolated(ops, cpuCount);
    if iso == {} {
      assert s.excluded == {} && home - iso == home;
    }
    if home == {} {
      assert s.excluded == {};
    }
  }

  // ---------------------------------------------------------------- one SPI, assigned to at any time

  datatype Event = Call(op: Op) | Assign(targets: set<nat>)

  function Next(s: Spi, e: Event, cpuCount: nat): (r: Spi) {
    match e
    case Call(op) => Apply(s, op, cpuCount)
    case Assign(targets) => s.(targets := targets)
  }

  function History(s: Spi, es: seq<Event>, cpuCount: nat): (r: Spi) {
    if es == [] then s else Next(History(s, es[..|es| - 1], cpuCount), es[|es| - 1], cpuCount)
  }

  predicate Sound(s: Spi) {
    0 !in s.excluded && s.forced <= s.excluded
  }

  /** Over every history CPU 0 is never recorded; and if no empty mask is assigned, there is never an empty one. */
  lemma {:induction false} NeverEmpty(home: set<nat>, es: seq<Event>, cpuCount: nat)
    ensures Sound(History(Fresh(home), es, cpuCount))
    ensures home != {} && Assign({}) !in es ==> History(Fresh(home), es, cpuCount).targets != {}
  {
    if es == [] {
    } else {
      var before, e := es[..|es| - 1], es[|es| - 1];
      NeverEmpty(home, before, cpuCount);
      assert e in es && forall x :: x in before ==> x in es;
      if e.Call? {
        CallKeepsTargets(History(Fresh(home), before, cpuCount), e.op, cpuCount);
      }
    }
  }

  lemma CallKeepsTargets(s: Spi, op: Op, cpuCount: nat)
    requires Sound(s)
    ensures Sound(Apply(s, op, cpuCount))
    ensures s.targets != {} ==> Apply(s, op, cpuCount).targets != {}
  {
    if op.cpu in s.targets && s.targets != {op.cpu} {
      var t :| t in s.targets && t != op.cpu;
      assert t in s.targets - {op.cpu};
    }
    if Effective(op.cpu, cpuCount) {
      assert op.cpu in s.targets + {op.cpu} - {0};
    }
  }

  /** The CPUs that `ops` includes at least once. */
  function Included(ops: seq<Op>, cpuCount: nat): (s: set<nat>) {
    if ops == [] then {}
    else
      var rest, op := Included(ops[..|ops| - 1], cpuCount), ops[|ops| - 1];
      if Effective(op.cpu, cpuCount) && op.Include? then rest + {op.cpu} else rest
  }

  /**
   Where an SPI belongs that was left in state `given` by an assignment, once the CPUs `inc` were
   included since: the assigned CPUs and those of `inc` that were recorded, without CPU 0 if one of
   these was recorded as having forced it.
   */
  function HomeAfter(given: Spi, inc: set<nat>): (home: set<nat>) {
    given.targets - (if given.forced * inc != {} then {0} else {}) + given.excluded * inc
  }

  /** What holds then while the CPUs `iso` are isolated since the assignment. */
  predicate Assigned(s: Spi, given: Spi, inc: set<nat>, iso: set<nat>) {
    var home := HomeAfter(given, inc);
    && s.excluded == given.excluded - inc + home * iso
    && given.forced - inc <= s.forced <= given.forced - inc + home * iso
    && home - iso <= s.targets <= home - iso + {0}
    && (0 in s.targets ==> 0 in home || s.forced * home * iso != {})
    && (0 in home ==> s.forced == given.forced - inc)
    && 0 !in iso
  }

  lemma ExcludeKeepsAssigned(s: Spi, given: Spi, inc: set<nat>, iso: set<nat>, cpu: nat)
    requires Sound(given) && Assigned(s, given, inc, iso) && cpu != 0
    ensures Assigned(ExcludeSpi(s, cpu), given, inc, iso + {cpu})
  {
    var home, r := HomeAfter(given, inc), ExcludeSpi(s, cpu);
    if cpu in s.targets {
      assert home * (iso + {cpu}) == home * iso + {cpu};
      if s.targets == {cpu} {
        assert home - (iso + {cpu}) == {};
        assert cpu in r.forced * home * (iso + {cpu});
      } else {
        assert s.forced * home * iso <= r.forced * home * (iso + {cpu});
      }
    } else {
      assert home * (iso + {cpu}) == home * iso;
      assert home - (iso + {cpu}) == home - iso;
      assert s.forced * home * iso <= r.forced * home * (iso + {cpu});
    }
  }

  /** An include of a CPU that is not recorded changes nothing; otherwise that CPU belongs to the SPI from now on. */
  lemma HomeGrows(s: Spi, given: Spi, inc: set<nat>, iso: set<nat>, cpu: nat)
    requires Sound(given) && Assigned(s, given, inc, iso)
    ensures HomeAfter(given, inc + {cpu}) ==
      HomeAfter(given, inc) - (if cpu in given.forced - inc then {0} else {})
      + (if cpu in s.excluded then {cpu} else {})
  {
    var inc' := inc + {cpu};
    assert given.excluded * inc' == given.excluded * inc + (if cpu in given.excluded then {cpu} else {});
    assert given.forced * inc' == given.forced * inc + (if cpu in given.forced then {cpu} else {});
  }

  lemma IncludeKeepsAssigned(s: Spi, given: Spi, inc: set<nat>, iso: set<nat>, cpu: nat)
    requires Sound(given) && Assigned(s, given, inc, iso) && cpu != 0
    ensures Assigned(IncludeSpi(s, cpu), given, inc + {cpu}, iso - {cpu})
  {
    HomeGrows(s, given, inc, iso, cpu);
    var home, home', r := HomeAfter(given, inc), HomeAfter(given, inc + {cpu}), IncludeSpi(s, cpu);
    assert home' * (iso - {cpu}) == home * iso - {cpu};
    assert home' - (iso - {cpu}) ==
      home - iso - (if cpu in given.forced - inc then {0} else {}) + (if cpu in s.excluded then {cpu} else {});
    assert s.forced * home * iso - {cpu} <= r.forced * home' * (iso - {cpu});
  }

  /** Any calls after an assignment leave the SPI as `Assigned` says. */
  lemma {:induction false} AssignedOverRuns(given: Spi, ops: seq<Op>, cpuCount: nat)
    requires Sound(given)
    ensures Assigned(Run(given, ops, cpuCount), given, Included(ops, cpuCount), Isolated(ops, cpuCount))
  {
    if ops == [] {
      assert HomeAfter(given, {}) == given.targets;
    } else {
      var before, op := ops[..|ops| - 1], ops[|ops| - 1];
      AssignedOverRuns(given, before, cpuCount);
      if Effective(op.cpu, cpuCount) {
        var s, inc, iso := Run(given, before, cpuCount), Included(before, cpuCount), Isolated(before, cpuCount);
        match op
        case Exclude(c) => ExcludeKeepsAssigned(s, given, inc, iso, c);
        case Include(c) => IncludeKeepsAssigned(s, given, inc, iso, c);
      }
    }
  }

  /**
   Where an SPI ends up that was assigned `targets` at any point of any history: once everybody
   excluded since then is included again, on the assigned CPUs and on those that were recorded at the
   assignment and have been included since, without CPU 0 if one of these had forced it.
   */
  lemma AffinityEndsUp(home: set<nat>, past: seq<Event>, targets: set<nat>, ops: seq<Op>, cpuCount: nat)
    ensures var given := History(Fresh(home), past, cpuCount).(targets := targets);
      var s := Run(given, ops, cpuCount);
      && s.targets !! Isolated(ops, cpuCount)
      && (Isolated(ops, cpuCount) == {} ==> s.targets == HomeAfter(given, Included(ops, cpuCount)))
  {
    NeverEmpty(home, past, cpuCount);
    var given := History(Fresh(home), past, cpuCount).(targets := targets);
    AssignedOverRuns(given, ops, cpuCount);
    var h, iso := HomeAfter(given, Included(ops, cpuCount)), Isolated(ops, cpuCount);
    assert iso == {} ==> h - iso == h && h * iso == {};
  }

  /**
   When the assignment survives, exactly: it names every CPU that was recorded at that time and has
   been included since, and it does not name CPU 0 if one of these had forced it.
   */
  lemma AffinitySurvivesIff(home: set<nat>, past: seq<Event>, targets: set<nat>, ops: seq<Op>, cpuCount: nat)
    requires Isolated(ops, cpuCount) == {}
    ensures var before, inc := History(Fresh(home), past, cpuCount), Included(ops, cpuCount);
      Run(before.(targets := targets), ops, cpuCount).targets == targets <==>
      before.excluded * inc <= targets && (0 in targets ==> before.forced * inc == {})
  {
    NeverEmpty(home, past, cpuCount);
    AffinityEndsUp(home, past, targets, ops, cpuCount);
    var before, inc := History(Fresh(home), past, cpuCount), Included(ops, cpuCount);
    var h := HomeAfter(before.(targets := targets), inc);
    assert before.excluded * inc <= h;
    assert 0 in h <==> 0 in targets && before.forced * inc == {};
  }

  /** CPU 1 is excluded, its SPI is given to CPUs 0 and 2, CPU 1 is included: the SPI is on CPUs 1 and 2. */
  lemma AffinityWitness() returns (past: seq<Event>, ops: seq<Op>)
    ensures past == [Call(Exclude(1))] && ops == [Include(1)] && Isolated(ops, 3) == {}
    ensures Run(History(Fresh({1}), past, 3).(targets := {0, 2}), ops, 3).targets == {1, 2}
  {
    past, ops := [Call(Exclude(1))], [Include(1)];
    var given := Spi({0, 2}, {1}, {1});
    assert past[..0] == [] && ops[..0] == [];
    assert ExcludeSpi(Fresh({1}), 1) == Spi({0}, {1}, {1});
    assert History(Fresh({1}), past, 3).(targets := {0, 2}) == given;
    assert IncludeSpi(given, 1).targets == {1, 2};
  }

  // ---------------------------------------------------------------- packed masks

  type Words = w: seq<bv32> | |w| == WORDS witness seq(WORDS, _ => 0)

  function MaskOf(w: Words, irq: nat): (b: bv8)
    requires irq < IRQ_END
  {
    ByteAt(w[irq / 4], irq % 4)
  }

  function WithMask(w: Words, irq: nat, b: bv8): (r: Words)
    requires irq < IRQ_END
  {
    w[irq / 4 := WithByte(w[irq / 4], irq % 4, b)]
  }

  lemma MaskOfWithMask(w: Words, irq: nat, b: bv8, i: nat)
    requires irq < IRQ_END && i < IRQ_END
    ensures MaskOf(WithMask(w, irq, b), i) == if i == irq then b else MaskOf(w, i)
  {
    if i / 4 == irq / 4 {
      ByteAtWithByte(w[i / 4], irq % 4, b, i % 4);
    }
  }

  /** The registers are determined by the masks of all interrupts. */
  lemma WordsInjective(v: Words, w: Words)
    requires forall i :: 0 <= i < IRQ_END ==> MaskOf(v, i) == MaskOf(w, i)
    ensures v == w
  {
    forall k | 0 <= k < WORDS
      ensures v[k] == w[k]
    {
      forall j | 0 <= j < 4
        ensures ByteAt(v[k], j) == ByteAt(w[k], j)
      {
        assert MaskOf(v, 4 * k + j) == MaskOf(w, 4 * k + j);
      }
      WordInjective(v[k], w[k]);
    }
  }

  function Targets(w: Words, off: nat): (s: set<nat>)
    requires off < MAX_SPIS
  {
    Cpus(MaskOf(w, SPI_START + off))
  }

  lemma TargetsAfter(w: Words, off: nat, b: bv8, o: nat)
    requires off < MAX_SPIS && o < MAX_SPIS
    ensures Targets(WithMask(w, SPI_START + off, b), o) == if o == off then Cpus(b) else Targets(w, o)
  {
    MaskOfWithMask(w, SPI_START + off, b, SPI_START + o);
    SameCpus(MaskOf(WithMask(w, SPI_START + off, b), SPI_START + o), if o == off then b else MaskOf(w, SPI_START + o));
  }

  lemma SameCpus(a: bv8, b: bv8)
    requires a == b
    ensures Cpus(a) == Cpus(b)
  {
  }

  /** Equal targets for every SPI and equal private registers make equal registers. */
  lemma RegistersRestored(v: Words, w: Words)
    requires v[..SPI_START / 4] == w[..SPI_START / 4]
    requires forall o :: 0 <= o < MAX_SPIS ==> Targets(v, o) == Targets(w, o)
    ensures v == w
  {
    forall i | 0 <= i < IRQ_END
      ensures MaskOf(v, i) == MaskOf(w, i)
    {
      if i < SPI_START {
        assert v[i / 4] == v[..SPI_START / 4][i / 4] == w[..SPI_START / 4][i / 4] == w[i / 4];
      } else {
        assert Targets(v, i - SPI_START) == Targets(w, i - SPI_START);
        CpusInjective(MaskOf(v, i), MaskOf(w, i));
      }
    }
    WordsInjective(v, w);
  }

  /** The target registers, `spi_excluded_by` and `spi_forced_cpu0_by`. */
  datatype Regs = Regs(words: Words, excludedBy: Bitmap, forcedBy: Bitmap)

  /** The routing state of SPI `off`, read out of the registers and the bitmaps. */
  function View(r: Regs, off: nat): (s: Spi)
    requires off < MAX_SPIS
  {
    Spi(Targets(r.words, off), Markers(r.excludedBy, off), Markers(r.forcedBy, off))
  }

  /** Writing the mask of one SPI is an assignment to it, and leaves the others alone. */
  lemma StoreIsAssign(r: Regs, off: nat, b: bv8, o: nat, cpuCount: nat)
    requires off < MAX_SPIS && o < MAX_SPIS
    ensures View(r.(words := WithMask(r.words, SPI_START + off, b)), o) ==
      if o == off then Next(View(r, o), Assign(Cpus(b)), cpuCount) else View(r, o)
  {
    TargetsAfter(r.words, off, b, o);
  }

  /** Taking `cpu` out of the mask leaves nothing. */
  predicate Emptied(m: bv8, cpu: nat)
    requires cpu < 8
  {
    m & !Bit8(cpu) == 0
  }

  function Without(m: bv8, cpu: nat): (r: bv8)
    requires cpu < 8
  {
    if Emptied(m, cpu) then Bit8(0) else m & !Bit8(cpu)
  }

  lemma WithoutCpus(m: bv8, cpu: nat)
    requires cpu < 8
    ensures cpu in Cpus(m) <==> Has(m, cpu)
    ensures Has(m, cpu) ==> (Emptied(m, cpu) <==> Cpus(m) == {cpu})
    ensures Has(m, cpu) ==> Cpus(Without(m, cpu)) == if Emptied(m, cpu) then {0} else Cpus(m) - {cpu}
  {
    CpusClear(m, cpu);
    EmptyMask(m & !Bit8(cpu));
    if Has(m, cpu) && Cpus(m) - {cpu} == {} {
      assert Cpus(m) == {cpu};
    }
  }

  function With(m: bv8, cpu: nat, dropFallback: bool): (r: bv8)
    requires cpu < 8
  {
    if dropFallback then (m | Bit8(cpu)) & !Bit8(0) else m | Bit8(cpu)
  }

  lemma WithCpus(m: bv8, cpu: nat, dropFallback: bool)
    requires cpu < 8
    ensures Cpus(With(m, cpu, dropFallback)) == if dropFallback then Cpus(m) + {cpu} - {0} else Cpus(m) + {cpu}
  {
    CpusSet(m, cpu);
    CpusClear(m | Bit8(cpu), 0);
  }

  /** The exclude loop's work on one SPI. */
  function ExcludeAt(r: Regs, off: nat, cpu: nat): (r': Regs)
    requires off < MAX_SPIS && cpu < MAX_CPUS
  {
    var m := MaskOf(r.words, SPI_START + off);
    if !Has(m, cpu) then r
    else Regs(WithMask(r.words, SPI_START + off, Without(m, cpu)), Mark(r.excludedBy, cpu, off),
              if Emptied(m, cpu) then Mark(r.forcedBy, cpu, off) else r.forcedBy)
  }

  /** The include loop's work on one SPI. */
  function IncludeAt(r: Regs, off: nat, cpu: nat): (r': Regs)
    requires off < MAX_SPIS && cpu < MAX_CPUS
  {
    var m := MaskOf(r.words, SPI_START + off);
    if !Marked(r.excludedBy, cpu, off) then r
    else
      var fallback := Marked(r.forcedBy, cpu, off);
      Regs(WithMask(r.words, SPI_START + off, With(m, cpu, fallback)), Unmark(r.excludedBy, cpu, off),
           if fallback then Unmark(r.forcedBy, cpu, off) else r.forcedBy)
  }

  lemma ExcludeAtElsewhere(r: Regs, off: nat, cpu: nat, o: nat)
    requires off < MAX_SPIS && o < MAX_SPIS && cpu < MAX_CPUS && o != off
    ensures View(ExcludeAt(r, off, cpu), o) == View(r, o)
  {
    TargetsAfter(r.words, off, Without(MaskOf(r.words, SPI_START + off), cpu), o);
    MarkersAfter(r.excludedBy, cpu, off, o);
    MarkersAfter(r.forcedBy, cpu, off, o);
  }

  lemma IncludeAtElsewhere(r: Regs, off: nat, cpu: nat, o: nat)
    requires off < MAX_SPIS && o < MAX_SPIS && cpu < MAX_CPUS && o != off
    ensures View(IncludeAt(r, off, cpu), o) == View(r, o)
  {
    TargetsAfter(r.words, off, With(MaskOf(r.words, SPI_START + off), cpu, Marked(r.forcedBy, cpu, off)), o);
    MarkersAfter(r.excludedBy, cpu, off, o);
    MarkersAfter(r.forcedBy, cpu, off, o);
  }

  /** On its own SPI the packed step is the abstract one. */
  lemma ExcludeAtHere(r: Regs, off: nat, cpu: nat)
    requires off < MAX_SPIS && cpu < MAX_CPUS
    ensures View(ExcludeAt(r, off, cpu), off) == ExcludeSpi(View(r, off), cpu)
  {
    var m := MaskOf(r.words, SPI_START + off);
    TargetsAfter(r.words, off, Without(m, cpu), off);
    WithoutCpus(m, cpu);
    MarkersAfter(r.excludedBy, cpu, off, off);
    MarkersAfter(r.forcedBy, cpu, off, off);
  }

  lemma IncludeAtHere(r: Regs, off: nat, cpu: nat)
    requires off < MAX_SPIS && cpu < MAX_CPUS
    ensures View(IncludeAt(r, off, cpu), off) == IncludeSpi(View(r, off), cpu)
  {
    var m, fallback := MaskOf(r.words, SPI_START + off), Marked(r.forcedBy, cpu, off);
    TargetsAfter(r.words, off, With(m, cpu, fallback), off);
    WithCpus(m, cpu, fallback);
    MarkersAfter(r.excludedBy, cpu, off, off);
    MarkersAfter(r.forcedBy, cpu, off, off);
  }

  /** Both steps touch the registers of no private interrupt. */
  lemma PrivateUntouched(r: Regs, off: nat, cpu: nat)
    requires off < MAX_SPIS && cpu < MAX_CPUS
    ensures ExcludeAt(r, off, cpu).words[..SPI_START / 4] == r.words[..SPI_START / 4]
    ensures IncludeAt(r, off, cpu).words[..SPI_START / 4] == r.words[..SPI_START / 4]
  {
  }

  /** SPI `o` of `r` is that of `r0`, with `op` done to it if it is below interrupt number `irq`. */
  predicate AdvancedAt(r0: Regs, r: Regs, op: Op, cpuCount: nat, irq: nat, o: nat)
    requires o < MAX_SPIS
  {
    View(r, o) == if SPI_START + o < irq then Apply(View(r0, o), op, cpuCount) else View(r0, o)
  }

  /** `r` is `r0` with `op` done to the SPIs below interrupt number `irq`, and nothing else. */
  predicate Advanced(r0: Regs, r: Regs, op: Op, cpuCount: nat, irq: nat) {
    && r.words[..SPI_START / 4] == r0.words[..SPI_START / 4]
    && forall o :: 0 <= o < MAX_SPIS ==> AdvancedAt(r0, r, op, cpuCount, irq, o)
  }

  /** Nothing is done below the first SPI, or by a call that names no effective CPU. */
  lemma AdvancedNone(r: Regs, op: Op, cpuCount: nat, irq: nat)
    requires irq <= SPI_START || !Effective(op.cpu, cpuCount)
    ensures Advanced(r, r, op, cpuCount, irq)
  {
  }

  function StepAt(r: Regs, op: Op, off: nat): (r': Regs)
    requires off < MAX_SPIS && op.cpu < MAX_CPUS
  {
    if op.Exclude? then ExcludeAt(r, off, op.cpu) else IncludeAt(r, off, op.cpu)
  }

  lemma StepAtView(r: Regs, op: Op, cpuCount: nat, off: nat, o: nat)
    requires off < MAX_SPIS && o < MAX_SPIS && Effective(op.cpu, cpuCount)
    ensures View(StepAt(r, op, off), o) == if o == off then Apply(View(r, o), op, cpuCount) else View(r, o)
  {
    if o == off {
      ExcludeAtHere(r, off, op.cpu);
      IncludeAtHere(r, off, op.cpu);
    } else {
      ExcludeAtElsewhere(r, off, op.cpu, o);
      IncludeAtElsewhere(r, off, op.cpu, o);
    }
  }

  lemma AdvanceOneAt(r0: Regs, r: Regs, op: Op, cpuCount: nat, irq: nat, o: nat)
    requires SPI_START <= irq < IRQ_END && Effective(op.cpu, cpuCount) && o < MAX_SPIS
    requires AdvancedAt(r0, r, op, cpuCount, irq, o)
    ensures AdvancedAt(r0, StepAt(r, op, irq - SPI_START), op, cpuCount, irq + 1, o)
  {
    StepAtView(r, op, cpuCount, irq - SPI_START, o);
  }

  lemma AdvanceOne(r0: Regs, r: Regs, op: Op, cpuCount: nat, irq: nat)
    requires SPI_START <= irq < IRQ_END && Effective(op.cpu, cpuCount)
    requires Advanced(r0, r, op, cpuCount, irq)
    ensures Advanced(r0, StepAt(r, op, irq - SPI_START), op, cpuCount, irq + 1)
  {
    PrivateUntouched(r, irq - SPI_START, op.cpu);
    var r', next := StepAt(r, op, irq - SPI_START), irq + 1;
    forall o | 0 <= o < MAX_SPIS
      ensures AdvancedAt(r0, r', op, cpuCount, next, o)
    {
      AdvanceOneAt(r0, r, op, cpuCount, irq, o);
    }
  }

  lemma AllImplemented(r0: Regs, r: Regs, op: Op, cpuCount: nat, itLines: nat)
    requires Advanced(r0, r, op, cpuCount, NumIrqs(itLines))
    ensures Advanced(r0, r, op, cpuCount, 32 * (itLines + 1))
  {
    var n, n' := NumIrqs(itLines), 32 * (itLines + 1);
    forall o | 0 <= o < MAX_SPIS
      ensures AdvancedAt(r0, r, op, cpuCount, n', o)
    {
      ImplementedIff(itLines, o);
      assert AdvancedAt(r0, r, op, cpuCount, n, o);
    }
  }

  // ---------------------------------------------------------------- the register bytes as numbers

  /** The target byte of SPI `o`: byte `o % 4` of word `8 + o / 4`. */
  function TargetByte(r: Regs, o: nat): (v: nat)
    requires o < MAX_SPIS
  {
    ByteAt(r.words[8 + o / 4], o % 4) as int
  }

  /** A target byte without the bit of a CPU; if that leaves none, CPU 0. */
  function ByteWithout(v: nat, cpu: nat): (v': nat) {
    if v / Pow2(cpu) % 2 == 0 then v else if v == Pow2(cpu) then 1 else v - Pow2(cpu)
  }

  /** A target byte with the bit of a CPU, and without that of CPU 0 if that was a fallback. */
  function ByteWith(v: nat, cpu: nat, fallback: bool): (v': nat) {
    var w := if v / Pow2(cpu) % 2 == 1 then v else v + Pow2(cpu);
    if fallback then w - w % 2 else w
  }

  /** What one call does to the target byte of SPI `o`. */
  predicate ByteStep(r0: Regs, r: Regs, op: Op, cpuCount: nat, itLines: nat, o: nat)
    requires o < MAX_SPIS
  {
    TargetByte(r, o) ==
    if !(0 < op.cpu < cpuCount && op.cpu < 8) || 32 + o >= 32 * (itLines + 1) then TargetByte(r0, o)
    else if op.Exclude? then ByteWithout(TargetByte(r0, o), op.cpu)
    else if Marked(r0.excludedBy, op.cpu, o) then ByteWith(TargetByte(r0, o), op.cpu, Marked(r0.forcedBy, op.cpu, o))
    else TargetByte(r0, o)
  }

  lemma WithoutNumber(m: bv8, cpu: nat)
    requires cpu < 8 && Has(m, cpu)
    ensures Without(m, cpu) as int == ByteWithout(m as int, cpu)
  {
    BitAsNumber(m, cpu);
    ClearedNumber(m, cpu);
    ZeroNumber(m & !Bit8(cpu));
  }

  lemma ZeroNumber(b: bv8)
    ensures b == 0 <==> b as int == 0
    ensures Bit8(0) as int == 1
  {
  }

  lemma WithNumber(m: bv8, cpu: nat, fallback: bool)
    requires cpu < 8
    ensures With(m, cpu, fallback) as int == ByteWith(m as int, cpu, fallback)
  {
    var b := m | Bit8(cpu);
    SetIsByteWith(m, cpu);
    if fallback {
      WithoutLowest(b);
      FallbackByte(m as int, cpu);
    }
  }

  lemma SetIsByteWith(m: bv8, cpu: nat)
    requires cpu < 8
    ensures (m | Bit8(cpu)) as int == ByteWith(m as int, cpu, false)
  {
    BitAsNumber(m, cpu);
    SetNumber(m, cpu);
  }

  lemma FallbackByte(v: nat, cpu: nat)
    ensures ByteWith(v, cpu, true) == ByteWith(v, cpu, false) - ByteWith(v, cpu, false) % 2
  {
  }

  lemma WithoutLowest(b: bv8)
    ensures (b & !Bit8(0)) as int == b as int - (b as int) % 2
  {
    BitAsNumber(b, 0);
    ClearedNumber(b, 0);
    LowestDigit(b as int);
  }

  lemma LowestDigit(v: nat)
    ensures v / Pow2(0) % 2 == v % 2 && Pow2(0) == 1
  {
  }

  /** Equal targets are equal bytes. */
  lemma TargetsAreByte(w: Words, o: nat, m: bv8)
    requires o < MAX_SPIS && Targets(w, o) == Cpus(m)
    ensures MaskOf(w, 32 + o) == m
  {
    CpusInjective(MaskOf(w, 32 + o), m);
  }

  lemma ExcludedByte(r0: Regs, r: Regs, cpu: nat, o: nat)
    requires o < MAX_SPIS && cpu < 8 && View(r, o) == ExcludeSpi(View(r0, o), cpu)
    ensures TargetByte(r, o) == ByteWithout(TargetByte(r0, o), cpu)
  {
    var m := MaskOf(r0.words, 32 + o);
    BitAsNumber(m, cpu);
    WithoutCpus(m, cpu);
    if Has(m, cpu) {
      WithoutNumber(m, cpu);
      TargetsAreByte(r.words, o, Without(m, cpu));
    } else {
      TargetsAreByte(r.words, o, m);
    }
  }

  lemma IncludedByte(r0: Regs, r: Regs, cpu: nat, o: nat)
    requires o < MAX_SPIS && cpu < 8 && View(r, o) == IncludeSpi(View(r0, o), cpu)
    ensures TargetByte(r, o) ==
      if Marked(r0.excludedBy, cpu, o) then ByteWith(TargetByte(r0, o), cpu, Marked(r0.forcedBy, cpu, o))
      else TargetByte(r0, o)
  {
    var m, fallback := MaskOf(r0.words, 32 + o), Marked(r0.forcedBy, cpu, o);
    if Marked(r0.excludedBy, cpu, o) {
      WithCpus(m, cpu, fallback);
      WithNumber(m, cpu, fallback);
      TargetsAreByte(r.words, o, With(m, cpu, fallback));
    } else {
      TargetsAreByte(r.words, o, m);
    }
  }

  lemma ByteAfter(r0: Regs, r: Regs, op: Op, cpuCount: nat, itLines: nat, o: nat)
    requires o < MAX_SPIS && AdvancedAt(r0, r, op, cpuCount, 32 * (itLines + 1), o)
    ensures ByteStep(r0, r, op, cpuCount, itLines, o)
  {
    if !Effective(op.cpu, cpuCount) || 32 + o >= 32 * (itLines + 1) {
      TargetsAreByte(r.words, o, MaskOf(r0.words, 32 + o));
    } else if op.Exclude? {
      ExcludedByte(r0, r, op.cpu, o);
    } else {
      IncludedByte(r0, r, op.cpu, o);
    }
  }

  /** One call is done: every implemented SPI took the step, and its byte is as it should be. */
  predicate Called(r0: Regs, r: Regs, op: Op, cpuCount: nat, itLines: nat) {
    && Advanced(r0, r, op, cpuCount, 32 * (itLines + 1))
    && forall o :: 0 <= o < MAX_SPIS ==> ByteStep(r0, r, op, cpuCount, itLines, o)
  }

  lemma CallDone(r0: Regs, r: Regs, op: Op, cpuCount: nat, itLines: nat)
    requires Advanced(r0, r, op, cpuCount, NumIrqs(itLines))
    ensures Called(r0, r, op, cpuCount, itLines)
  {
    AllImplemented(r0, r, op, cpuCount, itLines);
    var n := 32 * (itLines + 1);
    forall o | 0 <= o < MAX_SPIS
      ensures ByteStep(r0, r, op, cpuCount, itLines, o)
    {
      assert AdvancedAt(r0, r, op, cpuCount, n, o);
      ByteAfter(r0, r, op, cpuCount, itLines, o);
    }
  }

  /** SPI `o` of `r` is that of `r0` after the calls `ops`, if the distributor implements it. */
  predicate RanAt(r0: Regs, r: Regs, ops: seq<Op>, cpuCount: nat, irqs: nat, o: nat)
    requires o < MAX_SPIS
  {
    View(r, o) == if SPI_START + o < irqs then Run(View(r0, o), ops, cpuCount) else View(r0, o)
  }

  lemma RanOneMore(r0: Regs, r: Regs, r': Regs, ops: seq<Op>, k: nat, cpuCount: nat, irqs: nat, o: nat)
    requires o < MAX_SPIS && k < |ops|
    requires RanAt(r0, r, ops[..k], cpuCount, irqs, o) && AdvancedAt(r, r', ops[k], cpuCount, irqs, o)
    ensures RanAt(r0, r', ops[..k + 1], cpuCount, irqs, o)
  {
    assert ops[..k + 1][..k] == ops[..k];
  }

  lemma RanRestores(r0: Regs, r: Regs, ops: seq<Op>, cpuCount: nat, irqs: nat, o: nat)
    requires o < MAX_SPIS && RanAt(r0, r, ops, cpuCount, irqs, o)
    requires View(r0, o) == Fresh(Targets(r0.words, o)) && Isolated(ops, cpuCount) == {}
    ensures Targets(r.words, o) == Targets(r0.words, o)
  {
    RoutingOverRuns(Targets(r0.words, o), ops, cpuCount);
    assert View(r, o).targets == Targets(r.words, o);
  }

  // ---------------------------------------------------------------- the driver

  class Controller {
    const words: array<bv32>
    const excludedBy: array<bv8>
    const forcedBy: array<bv8>
    const cpuCount: nat
    /** `ITLinesNumber` of the type register. */
    const itLines: nat

    ghost predicate Valid() {
      && words.Length == WORDS
      && excludedBy.Length == forcedBy.Length == MAX_CPUS * BITMAP_BYTES
      && excludedBy != forcedBy
      && itLines < 32
    }

    ghost function Value(): (r: Regs)
      requires Valid()
      reads words, excludedBy, forcedBy
    {
      Regs(words[..], excludedBy[..], forcedBy[..])
    }

    /** The registers come as they are; the bitmaps start clear. */
    constructor (initial: Words, cpuCount: nat, itLines: nat)
      requires itLines < 32
      ensures Valid() && fresh(words) && fresh(excludedBy) && fresh(forcedBy)
      ensures this.cpuCount == cpuCount && this.itLines == itLines
      ensures Value() == Regs(initial, seq(MAX_CPUS * BITMAP_BYTES, _ => 0), seq(MAX_CPUS * BITMAP_BYTES, _ => 0))
    {
      words := new bv32[WORDS](i requires 0 <= i < WORDS => initial[i]);
      excludedBy := new bv8[MAX_CPUS * BITMAP_BYTES](_ => 0);
      forcedBy := new bv8[MAX_CPUS * BITMAP_BYTES](_ => 0);
      this.cpuCount := cpuCount;
      this.itLines := itLines;
      new;
      assert words[..] == initial;
      assert excludedBy[..] == seq(MAX_CPUS * BITMAP_BYTES, _ => 0);
      assert forcedBy[..] == seq(MAX_CPUS * BITMAP_BYTES, _ => 0);
    }

    /** `gic_set_affinity`: an SPI takes the low byte of the mask; a private interrupt is refused. */
    method SetAffinity(irq: nat, cpuMask: bv32) returns (ok: bool)
      requires Valid() && irq < IRQ_END
      modifies words
      ensures ok == (irq >= 32)
      ensures words[..] == if ok then WithMask(old(words[..]), irq, (cpuMask & 0xFF) as bv8) else old(words[..])
    {
      ok := irq >= SPI_START;
      if ok {
        words[irq / 4] := WithByte(words[irq / 4], irq % 4, (cpuMask & 0xFF) as bv8);
      }
    }

    method GetAffinity(irq: nat) returns (mask: bv8)
      requires Valid() && irq < IRQ_END
      ensures mask == if irq < SPI_START then 0 else MaskOf(words[..], irq)
    {
      if irq < SPI_START {
        return 0;
      }
      return ByteAt(words[irq / 4], irq % 4);
    }

    method StoreMask(irq: nat, b: bv8)
      requires Valid() && SPI_START <= irq < IRQ_END
      modifies words
      ensures words[..] == WithMask(old(words[..]), irq, b)
    {
      words[irq / 4] := WithByte(words[irq / 4], irq % 4, b);
    }

    /** The register and bitmap updates at the end of an exclude step. */
    method RecordExclude(irq: nat, cpu: nat, targets: bv8, forced: bool)
      requires Valid() && SPI_START <= irq < IRQ_END && 0 < cpu < MAX_CPUS
      modifies words, excludedBy, forcedBy
      ensures words[..] == WithMask(old(words[..]), irq, targets)
      ensures excludedBy[..] == Mark(old(excludedBy[..]), cpu, irq - SPI_START)
      ensures forcedBy[..] == if forced then Mark(old(forcedBy[..]), cpu, irq - SPI_START) else old(forcedBy[..])
    {
      SetMark(excludedBy, cpu, irq - SPI_START);
      ghost var marked := excludedBy[..];
      if forced {
        SetMark(forcedBy, cpu, irq - SPI_START);
      }
      ghost var fallback := forcedBy[..];
      StoreMask(irq, targets);
      assert excludedBy[..] == marked && forcedBy[..] == fallback;
    }

    method RecordInclude(irq: nat, cpu: nat, targets: bv8, fallback: bool)
      requires Valid() && SPI_START <= irq < IRQ_END && 0 < cpu < MAX_CPUS
      modifies words, excludedBy, forcedBy
      ensures words[..] == WithMask(old(words[..]), irq, targets)
      ensures excludedBy[..] == Unmark(old(excludedBy[..]), cpu, irq - SPI_START)
      ensures forcedBy[..] == if fallback then Unmark(old(forcedBy[..]), cpu, irq - SPI_START) else old(forcedBy[..])
    {
      ghost var unmarked := excludedBy[..];
      if fallback {
        ClearMark(forcedBy, cpu, irq - SPI_START);
      }
      ghost var forced := forcedBy[..];
      StoreMask(irq, targets);
      ghost var stored := words[..];
      assert excludedBy[..] == unmarked;
      ClearMark(excludedBy, cpu, irq - SPI_START);
      assert forcedBy[..] == forced && words[..] == stored;
    }

    /** The body of the exclude loop. */
    method ExcludeOne(irq: nat, cpu: nat)
      requires Valid() && SPI_START <= irq < IRQ_END && 0 < cpu < MAX_CPUS
      modifies words, excludedBy, forcedBy
      ensures Value() == ExcludeAt(old(Value()), irq - SPI_START, cpu)
    {
      var m := GetAffinity(irq);
      if Has(m, cpu) {
        RecordExclude(irq, cpu, Without(m, cpu), Emptied(m, cpu));
      }
    }

    /** The body of the include loop. */
    method IncludeOne(irq: nat, cpu: nat)
      requires Valid() && SPI_START <= irq < IRQ_END && 0 < cpu < MAX_CPUS
      modifies words, excludedBy, forcedBy
      ensures Value() == IncludeAt(old(Value()), irq - SPI_START, cpu)
    {
      var off := irq - SPI_START;
      var excluded := TestMark(excludedBy, cpu, off);
      if excluded {
        var m := GetAffinity(irq);
        var fallback := TestMark(forcedBy, cpu, off);
        RecordInclude(irq, cpu, With(m, cpu, fallback), fallback);
      }
    }

    method StepOne(op: Op, irq: nat)
      requires Valid() && SPI_START <= irq < IRQ_END && 0 < op.cpu < MAX_CPUS
      modifies words, excludedBy, forcedBy
      ensures Value() == StepAt(old(Value()), op, irq - SPI_START)
    {
      match op {
        case Exclude(cpu) => ExcludeOne(irq, cpu);
        case Include(cpu) => IncludeOne(irq, cpu);
      }
    }

    /** The step of one SPI, after those of the SPIs below it. */
    method StepNext(op: Op, irq: nat, ghost r0: Regs)
      requires Valid() && SPI_START <= irq < IRQ_END && Effective(op.cpu, cpuCount)
      requires Advanced(r0, Value(), op, cpuCount, irq)
      modifies words, excludedBy, forcedBy
      ensures Advanced(r0, Value(), op, cpuCount, irq + 1)
    {
      AdvanceOne(r0, Value(), op, cpuCount, irq);
      StepOne(op, irq);
    }

    /** The loop of a call over the implemented SPIs. */
    method StepAll(op: Op, irqs: nat)
      requires Valid() && Effective(op.cpu, cpuCount) && SPI_START <= irqs <= IRQ_END
      modifies words, excludedBy, forcedBy
      ensures Advanced(old(Value()), Value(), op, cpuCount, irqs)
    {
      ghost var r0 := Value();
      AdvancedNone(r0, op, cpuCount, SPI_START);
      for irq := SPI_START to irqs
        invariant Advanced(r0, Value(), op, cpuCount, irq)
      {
        StepNext(op, irq, r0);
      }
    }

    /** One call: every implemented SPI takes the step, everything else stays. */
    method Call(op: Op)
      requires Valid()
      modifies words, excludedBy, forcedBy
      ensures Called(old(Value()), Value(), op, cpuCount, itLines)
    {
      var cpu := op.cpu;
      ghost var r0 := Value();
      if cpu == 0 || cpu >= cpuCount || cpu >= MAX_CPUS {
        AdvancedNone(r0, op, cpuCount, NumIrqs(itLines));
        CallDone(r0, r0, op, cpuCount, itLines);
        return;
      }
      StepAll(op, NumIrqs(itLines));
      CallDone(r0, Value(), op, cpuCount, itLines);
    }

    /**
     Any sequence of calls, on the packed registers: what each SPI sees is its own run, and if in
     the end nobody is isolated, all registers are bit for bit what they were.
     */
    method Calls(ops: seq<Op>)
      requires Valid()
      requires forall o :: 0 <= o < MAX_SPIS ==> View(Value(), o) == Fresh(Targets(words[..], o))
      modifies words, excludedBy, forcedBy
      ensures var irqs := 32 * (itLines + 1);
        forall o :: 0 <= o < MAX_SPIS ==> RanAt(old(Value()), Value(), ops, cpuCount, irqs, o)
      ensures Isolated(ops, cpuCount) == {} ==> words[..] == old(words[..])
    {
      var k := 0;
      ghost var irqs := 32 * (itLines + 1);
      ghost var r0 := Value();
      while k < |ops|
        invariant k <= |ops|
        invariant words[..SPI_START / 4] == r0.words[..SPI_START / 4]
        invariant forall o :: 0 <= o < MAX_SPIS ==> RanAt(r0, Value(), ops[..k], cpuCount, irqs, o)
      {
        ghost var r := Value();
        Call(ops[k]);
        ghost var r', done := Value(), ops[..k + 1];
        forall o | 0 <= o < MAX_SPIS
          ensures RanAt(r0, r', done, cpuCount, irqs, o)
        {
          RanOneMore(r0, r, r', ops, k, cpuCount, irqs, o);
        }
        k := k + 1;
      }
      assert ops[..|ops|] == ops;
      if Isolated(ops, cpuCount) == {} {
        ghost var w := words[..];
        forall o | 0 <= o < MAX_SPIS
          ensures Targets(w, o) == Targets(r0.words, o)
        {
          RanRestores(r0, Value(), ops, cpuCount, irqs, o);
        }
        RegistersRestored(r0.words, w);
      }
    }
  }
}
