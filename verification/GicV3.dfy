/**
 GICv3 interrupt routing: every shared interrupt (SPI) has a 64-bit router register that names
 one CPU by its affinity. Excluding a CPU sends its SPIs to CPU 0 and records them; including it
 sends exactly those back.
 */
module GicV3 {
  import opened Bytes
  import opened GicBitmap

  /** Keeps Aff0..Aff3 of an MPIDR-shaped value. */
  const AFF_MASK: bv64 := 0xFF00FFFFFF

  function Aff(x: bv64): (a: bv64)
    ensures a & AFF_MASK == a
  {
    x & AFF_MASK
  }

  /** The four affinity bytes and nothing else: bits 0 to 23, and 32 to 39. */
  lemma AffBytes(x: bv64)
    ensures Aff(x) == (x & 0xFF) | (x & 0xFF00) | (x & 0xFF_0000) | (x & 0xFF_0000_0000)
  {
  }

  /** `cpu_logical_map`: the MPIDR of each logical CPU; its length is the CPU count. */
  type CpuMap = seq<bv64>

  /** CPUs differ in the affinity fields. */
  ghost predicate Distinct(m: CpuMap) {
    && 0 < |m| <= MAX_CPUS
    && forall i, j :: 0 <= i < |m| && 0 <= j < |m| && Aff(m[i]) == Aff(m[j]) ==> i == j
  }

  /** `gic_irouter_val_from_cpu`: single-PE routing to a logical CPU; 0 for an unknown one. */
  function RouterOf(m: CpuMap, cpu: nat): (r: bv64) {
    if cpu >= |m| then 0 else Aff(m[cpu])
  }

  /** `gic_cpu_mask_from_irouter`, as the index of the first CPU whose affinity matches. */
  function CpuFrom(m: CpuMap, router: bv64, i: nat): (c: Option<nat>)
    requires i <= |m|
    ensures c.Some? ==> i <= c.value < |m| && Aff(m[c.value]) == Aff(router)
    ensures forall k :: i <= k < |m| && Aff(m[k]) == Aff(router) ==> c.Some? && c.value <= k
    decreases |m| - i
  {
    if i == |m| then None
    else if Aff(m[i]) == Aff(router) then Some(i)
    else CpuFrom(m, router, i + 1)
  }

  /** The CPU a router value is at home on. */
  function Home(m: CpuMap, router: bv64): (c: Option<nat>) {
    CpuFrom(m, router, 0)
  }

  // ---------------------------------------------------------------- one SPI

  datatype Spi = Spi(router: bv64, excluded: set<nat>)

  function ExcludeSpi(m: CpuMap, s: Spi, cpu: nat): (r: Spi) {
    if Aff(s.router) == Aff(RouterOf(m, cpu)) then Spi(RouterOf(m, 0), s.excluded + {cpu}) else s
  }

  function IncludeSpi(m: CpuMap, s: Spi, cpu: nat): (r: Spi) {
    if cpu in s.excluded then Spi(RouterOf(m, cpu), s.excluded - {cpu}) else s
  }

  datatype Op = Exclude(cpu: nat) | Include(cpu: nat)

  predicate Effective(m: CpuMap, op: Op) {
    op.cpu < |m| && op.cpu < MAX_CPUS
  }

  function Apply(m: CpuMap, s: Spi, op: Op): (r: Spi) {
    if !Effective(m, op) then s
    else match op
      case Exclude(c) => ExcludeSpi(m, s, c)
      case Include(c) => IncludeSpi(m, s, c)
  }

  function Run(m: CpuMap, s: Spi, ops: seq<Op>): (r: Spi) {
    if ops == [] then s else Apply(m, Run(m, s, ops[..|ops| - 1]), ops[|ops| - 1])
  }

  function Isolated(m: CpuMap, ops: seq<Op>): (s: set<nat>) {
    if ops == [] then {}
    else
      var rest, op := Isolated(m, ops[..|ops| - 1]), ops[|ops| - 1];
      if !Effective(m, op) then rest else if op.Exclude? then rest + {op.cpu} else rest - {op.cpu}
  }

  /** Some call in `ops` excluded the home of the SPI that started as `r0`. */
  predicate EverExcluded(m: CpuMap, r0: bv64, ops: seq<Op>) {
    exists op :: op in ops && op.Exclude? && Effective(m, op) && Home(m, r0) == Some(op.cpu)
  }

  /**
   An SPI at home on `h` is caught on CPU 0: CPU 0 was excluded while the SPI was parked there
   because `h` was isolated, and CPU 0 has not been included since.
   */
  predicate Caught(m: CpuMap, h: nat, ops: seq<Op>) {
    if ops == [] then false
    else
      var before, op := ops[..|ops| - 1], ops[|ops| - 1];
      if op == Exclude(0) then Caught(m, h, before) || h in Isolated(m, before)
      else op != Include(0) && Caught(m, h, before)
  }

  /** At some moment CPU 0 was included while the SPI was caught there and `h` was not isolated. */
  predicate Stranded(m: CpuMap, h: nat, ops: seq<Op>) {
    if ops == [] then false
    else
      var before, op := ops[..|ops| - 1], ops[|ops| - 1];
      Stranded(m, h, before) || (op == Include(0) && Caught(m, h, before) && h !in Isolated(m, before))
  }

  function Only(cpu: nat, b: bool): (s: set<nat>) {
    if b then {cpu} else {}
  }

  /** What decides where an SPI is: which of its home and CPU 0 are isolated now, and its past. */
  datatype Past = Past(home: bool, zero: bool, ever: bool, caught: bool, stranded: bool)

  /**
   The exact state of an SPI that started with router value `r0` at home on `h`. Off CPU 0 it is
   parked there and recorded for its home while that is isolated, and back otherwise; it is also
   recorded for CPU 0 while caught there; and once stranded it stays on CPU 0.
   */
  function Expected(m: CpuMap, r0: bv64, h: nat, p: Past): (s: Spi) {
    if h == 0 then Spi(if p.ever then RouterOf(m, 0) else r0, Only(0, p.zero))
    else if p.stranded then Spi(RouterOf(m, 0), Only(0, p.zero))
    else if p.home then Spi(RouterOf(m, 0), {h} + Only(0, p.caught))
    else Spi(if p.ever then RouterOf(m, h) else r0, Only(0, p.caught))
  }

  function PastOf(m: CpuMap, r0: bv64, h: nat, ops: seq<Op>): (p: Past) {
    Past(h in Isolated(m, ops), 0 in Isolated(m, ops), EverExcluded(m, r0, ops), Caught(m, h, ops), Stranded(m, h, ops))
  }

  /** How one call changes the past. */
  function NextPast(p: Past, h: nat, op: Op): (p': Past) {
    match op
    case Exclude(c) =>
      Past(p.home || c == h, p.zero || c == 0, p.ever || c == h, p.caught || (c == 0 && p.home), p.stranded)
    case Include(c) =>
      Past(p.home && c != h, p.zero && c != 0, p.ever, p.caught && c != 0,
           p.stranded || (c == 0 && p.caught && !p.home))
  }

  /** The router value of a CPU has that CPU's affinity and no other's. */
  lemma RouterAff(m: CpuMap, c: nat, k: nat)
    requires Distinct(m) && c < |m| && k < |m|
    ensures Aff(RouterOf(m, c)) == RouterOf(m, c)
    ensures RouterOf(m, c) == RouterOf(m, k) <==> c == k
  {
  }

  /** Excluding `c` moves exactly the SPIs routed to `c`. */
  lemma ExcludeMoves(m: CpuMap, s: Spi, at: nat, c: nat)
    requires Distinct(m) && at < |m| && c < |m| && Aff(s.router) == Aff(m[at])
    ensures ExcludeSpi(m, s, c) == if c == at then Spi(RouterOf(m, 0), s.excluded + {c}) else s
  {
    RouterAff(m, c, at);
  }

  /** Where the expected state has the SPI. */
  lemma ExpectedAt(m: CpuMap, r0: bv64, h: nat, p: Past)
    requires Distinct(m) && Home(m, r0) == Some(h)
    ensures Aff(Expected(m, r0, h, p).router) == Aff(m[ExpectedCpu(h, p)])
  {
    RouterAff(m, h, 0);
  }

  function ExpectedCpu(h: nat, p: Past): (c: nat) {
    if h != 0 && (p.stranded || p.home) then 0 else h
  }

  lemma ExcludeStep(m: CpuMap, r0: bv64, h: nat, p: Past, c: nat)
    requires Distinct(m) && c < |m| && Home(m, r0) == Some(h) && (p.home ==> p.ever) && (h == 0 ==> p.home == p.zero)
    ensures ExcludeSpi(m, Expected(m, r0, h, p), c) == Expected(m, r0, h, NextPast(p, h, Exclude(c)))
  {
    ExpectedAt(m, r0, h, p);
    ExcludeMoves(m, Expected(m, r0, h, p), ExpectedCpu(h, p), c);
    ExcludedPast(m, r0, h, p, c);
  }

  /** What the excluded SPI is expected to be. */
  lemma ExcludedPast(m: CpuMap, r0: bv64, h: nat, p: Past, c: nat)
    requires (p.home ==> p.ever) && (h == 0 ==> p.home == p.zero)
    ensures var s := Expected(m, r0, h, p);
      Expected(m, r0, h, NextPast(p, h, Exclude(c))) ==
      if c == ExpectedCpu(h, p) then Spi(RouterOf(m, 0), s.excluded + {c}) else s
  {
  }

  lemma IncludeStep(m: CpuMap, r0: bv64, h: nat, p: Past, c: nat)
    requires Distinct(m) && c < |m| && (p.home ==> p.ever) && (h == 0 ==> p.home == p.zero)
    ensures IncludeSpi(m, Expected(m, r0, h, p), c) == Expected(m, r0, h, NextPast(p, h, Include(c)))
  {
  }

  lemma PastStep(m: CpuMap, r0: bv64, h: nat, before: seq<Op>, op: Op)
    requires Home(m, r0) == Some(h) && Effective(m, op)
    ensures PastOf(m, r0, h, before + [op]) == NextPast(PastOf(m, r0, h, before), h, op)
  {
    var ops := before + [op];
    assert ops[..|ops| - 1] == before;
    assert EverExcluded(m, r0, ops) == (EverExcluded(m, r0, before) || op == Exclude(h));
  }

  lemma {:induction false} IsolatedMeansEver(m: CpuMap, r0: bv64, h: nat, ops: seq<Op>)
    requires Home(m, r0) == Some(h) && h in Isolated(m, ops)
    ensures EverExcluded(m, r0, ops)
  {
    if ops == [] {
    } else {
      var before, op := ops[..|ops| - 1], ops[|ops| - 1];
      assert ops == before + [op] && op in ops;
      if h in Isolated(m, before) {
        IsolatedMeansEver(m, r0, h, before);
      }
    }
  }

  /** For any calls whatsoever, in any order and repetition, the state is exactly the expected one. */
  lemma {:induction false} RoutingOverRuns(m: CpuMap, r0: bv64, ops: seq<Op>)
    requires Distinct(m)
    ensures match Home(m, r0)
      case None => Run(m, Spi(r0, {}), ops) == Spi(r0, {})
      case Some(h) => Run(m, Spi(r0, {}), ops) == Expected(m, r0, h, PastOf(m, r0, h, ops))
  {
    if ops == [] {
    } else {
      var before, op := ops[..|ops| - 1], ops[|ops| - 1];
      RoutingOverRuns(m, r0, before);
      match Home(m, r0)
      case None => StrayStays(m, r0, op);
      case Some(h) => HomeStep(m, r0, h, before, op);
      assert ops == before + [op];
    }
  }

  lemma StrayStays(m: CpuMap, r0: bv64, op: Op)
    requires Distinct(m) && Home(m, r0) == None
    ensures Apply(m, Spi(r0, {}), op) == Spi(r0, {})
  {
    if Effective(m, op) {
      RouterAff(m, op.cpu, op.cpu);
    }
  }

  lemma HomeStep(m: CpuMap, r0: bv64, h: nat, before: seq<Op>, op: Op)
    requires Distinct(m) && Home(m, r0) == Some(h)
    ensures Apply(m, Expected(m, r0, h, PastOf(m, r0, h, before)), op)
      == Expected(m, r0, h, PastOf(m, r0, h, before + [op]))
  {
    var p := PastOf(m, r0, h, before);
    if h in Isolated(m, before) {
      IsolatedMeansEver(m, r0, h, before);
    }
    if Effective(m, op) {
      PastStep(m, r0, h, before, op);
      match op
      case Exclude(c) => ExcludeStep(m, r0, h, p, c);
      case Include(c) => IncludeStep(m, r0, h, p, c);
    } else {
      IdleStep(m, r0, h, before, op);
    }
  }

  /** A call for an absent CPU changes nothing. */
  lemma IdleStep(m: CpuMap, r0: bv64, h: nat, before: seq<Op>, op: Op)
    requires Distinct(m) && Home(m, r0) == Some(h) && !Effective(m, op)
    ensures PastOf(m, r0, h, before + [op]) == PastOf(m, r0, h, before)
  {
    var ops := before + [op];
    assert ops[..|ops| - 1] == before && op.cpu != 0;
    assert EverExcluded(m, r0, ops) == EverExcluded(m, r0, before);
  }

  /** An excluded CPU other than 0 gets no interrupt, whatever else was called. */
  lemma ExcludedGetsNone(m: CpuMap, r0: bv64, ops: seq<Op>, cpu: nat)
    requires Distinct(m) && cpu != 0 && cpu in Isolated(m, ops)
    ensures cpu < |m| && Home(m, Run(m, Spi(r0, {}), ops).router) != Some(cpu)
  {
    RoutingOverRuns(m, r0, ops);
    IsolatedExists(m, ops, cpu);
    RouterAff(m, 0, cpu);
  }

  lemma {:induction false} IsolatedExists(m: CpuMap, ops: seq<Op>, cpu: nat)
    requires cpu in Isolated(m, ops)
    ensures cpu < |m|
  {
    if ops == [] {
    } else if cpu in Isolated(m, ops[..|ops| - 1]) {
      IsolatedExists(m, ops[..|ops| - 1], cpu);
    }
  }

  /** An SPI is recorded for two CPUs at a time exactly while it is parked and caught on CPU 0. */
  lemma RecordsDisjointIff(m: CpuMap, r0: bv64, ops: seq<Op>)
    requires Distinct(m)
    ensures var h, marks := Home(m, r0), Run(m, Spi(r0, {}), ops).excluded;
      (exists a, b :: a in marks && b in marks && a != b) <==>
      h.Some? && h.value != 0 && h.value in Isolated(m, ops) && Caught(m, h.value, ops) && !Stranded(m, h.value, ops)
  {
    RoutingOverRuns(m, r0, ops);
    var h, marks := Home(m, r0), Run(m, Spi(r0, {}), ops).excluded;
    if h.Some? && h.value != 0 && h.value in Isolated(m, ops) && Caught(m, h.value, ops) && !Stranded(m, h.value, ops) {
      assert h.value in marks && 0 in marks;
    } else {
      var c := if h.Some? && !Stranded(m, h.value, ops) && h.value in Isolated(m, ops) then h.value else 0;
      assert forall a :: a in marks ==> a == c;
    }
  }

  lemma {:induction false} CaughtMeansExcluded(m: CpuMap, h: nat, ops: seq<Op>)
    requires 0 < |m| && Caught(m, h, ops)
    ensures 0 in Isolated(m, ops)
  {
    if ops == [] {
    } else if ops[|ops| - 1] != Exclude(0) {
      CaughtMeansExcluded(m, h, ops[..|ops| - 1]);
    }
  }

  /**
   The calls give an SPI back: it held plain single-PE routing or its CPU was never excluded (the
   restored value carries no bit outside the affinity fields), and it was not stranded on CPU 0.
   */
  predicate GivesBack(m: CpuMap, r0: bv64, ops: seq<Op>) {
    && (EverExcluded(m, r0, ops) ==> r0 == Aff(r0))
    && match Home(m, r0)
       case None => true
       case Some(h) => h != 0 ==> !Stranded(m, h, ops)
  }

  /** Once everybody is included again, no record is left. */
  lemma NoRecordsLeft(m: CpuMap, r0: bv64, ops: seq<Op>)
    requires Distinct(m) && Isolated(m, ops) == {}
    ensures Run(m, Spi(r0, {}), ops).excluded == {}
  {
    RoutingOverRuns(m, r0, ops);
    if h :| Home(m, r0) == Some(h) && Caught(m, h, ops) {
      CaughtMeansExcluded(m, h, ops);
    }
  }

  /** Once everybody is included again, a router register has its old value if and only if `GivesBack`. */
  lemma RestoredIff(m: CpuMap, r0: bv64, ops: seq<Op>)
    requires Distinct(m) && Isolated(m, ops) == {}
    ensures Run(m, Spi(r0, {}), ops) == Spi(r0, {}) <==> GivesBack(m, r0, ops)
  {
    RoutingOverRuns(m, r0, ops);
    NoRecordsLeft(m, r0, ops);
    if h :| Home(m, r0) == Some(h) {
      RouterAff(m, 0, h);
    }
  }

  /** `Caught` in plain terms: an exclusion of CPU 0 while `h` was isolated, and no inclusion of CPU 0 after it. */
  predicate CaughtAt(m: CpuMap, h: nat, ops: seq<Op>, i: nat) {
    && i < |ops| && ops[i] == Exclude(0) && h in Isolated(m, ops[..i])
    && forall j :: i < j < |ops| ==> ops[j] != Include(0)
  }

  lemma {:induction false} CaughtMeans(m: CpuMap, h: nat, ops: seq<Op>)
    ensures Caught(m, h, ops) <==> exists i :: CaughtAt(m, h, ops, i)
  {
    if ops == [] {
    } else {
      var before, n := ops[..|ops| - 1], |ops| - 1;
      CaughtMeans(m, h, before);
      assert forall i :: 0 <= i <= n ==> ops[..i] == before[..i];
      assert forall i: nat :: i < n && CaughtAt(m, h, ops, i) ==> CaughtAt(m, h, before, i);
      if Caught(m, h, before) && ops[n] != Include(0) {
        var i :| CaughtAt(m, h, before, i);
        assert CaughtAt(m, h, ops, i);
      } else if ops[n] == Exclude(0) && h in Isolated(m, before) {
        assert CaughtAt(m, h, ops, n);
      }
    }
  }

  /** `Stranded` in plain terms: some call `k` includes CPU 0 while `h` is not isolated and the SPI is caught. */
  lemma {:induction false} StrandedMeans(m: CpuMap, h: nat, ops: seq<Op>)
    ensures Stranded(m, h, ops) <==>
      exists k, i :: 0 <= k < |ops| && ops[k] == Include(0)
        && h !in Isolated(m, ops[..k]) && CaughtAt(m, h, ops[..k], i)
  {
    if ops == [] {
    } else {
      var before, n := ops[..|ops| - 1], |ops| - 1;
      StrandedMeans(m, h, before);
      CaughtMeans(m, h, before);
      assert forall k :: 0 <= k <= n ==> ops[..k] == before[..k];
      if Stranded(m, h, before) {
        var k, i :| 0 <= k < n && before[k] == Include(0) && h !in Isolated(m, before[..k])
          && CaughtAt(m, h, before[..k], i);
        assert ops[k] == Include(0) && CaughtAt(m, h, ops[..k], i);
      } else if Stranded(m, h, ops) {
        var i :| CaughtAt(m, h, before, i);
        assert ops[n] == Include(0) && CaughtAt(m, h, ops[..n], i);
      }
    }
  }

  /** Callers that never exclude CPU 0 (including it is harmless) strand nothing. */
  lemma SparingCpu0(m: CpuMap, h: nat, ops: seq<Op>)
    requires Exclude(0) !in ops
    ensures !Stranded(m, h, ops)
  {
    StrandedMeans(m, h, ops);
  }

  /** Excluding CPU 0 as well can strand an SPI: here both CPUs are back, but the interrupt is not. */
  lemma Cpu0Witness() returns (m: CpuMap, ops: seq<Op>, r0: bv64)
    ensures Distinct(m) && Isolated(m, ops) == {} && r0 == RouterOf(m, 1) == Aff(r0)
    ensures Run(m, Spi(r0, {}), ops).router == RouterOf(m, 0) != r0
  {
    m, r0 := [0, 0x100], 0x100;
    ops := [Exclude(1), Exclude(0), Include(1), Include(0)];
    var s0 := Spi(r0, {});
    var p1, p2, p3 := ops[..1], ops[..2], ops[..3];
    assert p1[..0] == [] && p2[..1] == p1 && p3[..2] == p2 && ops[..3] == p3;
    assert Run(m, s0, p1) == Spi(RouterOf(m, 0), {1});
    assert Run(m, s0, p2) == Spi(RouterOf(m, 0), {1, 0});
    assert Run(m, s0, p3) == Spi(RouterOf(m, 1), {0});
    assert Isolated(m, p1) == {1};
    assert Isolated(m, p2) == {0, 1};
    assert Isolated(m, p3) == {0};
  }

  /** One isolate/unisolate pair already drops a bit outside the affinity fields. */
  lemma ExtraBitWitness() returns (m: CpuMap, ops: seq<Op>, r0: bv64)
    ensures Distinct(m) && Isolated(m, ops) == {} && Home(m, r0) == Some(1)
    ensures Run(m, Spi(r0, {}), ops).router != r0
  {
    m, r0 := [0, 0x100], 0x8000_0100;
    ops := [Exclude(1), Include(1)];
    var p1 := ops[..1];
    assert p1[..0] == [] && ops[..1] == p1;
    assert Aff(m[0]) != Aff(r0) && Aff(m[1]) == Aff(r0);
    assert Home(m, r0) == Some(1);
    assert Run(m, Spi(r0, {}), p1) == Spi(RouterOf(m, 0), {1});
    assert Isolated(m, p1) == {1};
  }

  // ---------------------------------------------------------------- one SPI, assigned to at any time

  /** The CPU of the last include that found the SPI recorded. */
  function LastReturn(m: CpuMap, s: Spi, ops: seq<Op>): (c: Option<nat>) {
    if ops == [] then None
    else
      var before, op := ops[..|ops| - 1], ops[|ops| - 1];
      if op.Include? && Effective(m, op) && op.cpu in Run(m, s, before).excluded then Some(op.cpu)
      else LastReturn(m, s, before)
  }

  /** The router value given last: the assigned one, or that of the last return. */
  function Given(m: CpuMap, s: Spi, ops: seq<Op>): (router: bv64) {
    match LastReturn(m, s, ops)
    case None => s.router
    case Some(c) => RouterOf(m, c)
  }

  /** From any state, records of earlier exclusions included, an SPI is where it was given last, or parked on CPU 0. */
  lemma {:induction false} WhereItIs(m: CpuMap, s: Spi, ops: seq<Op>)
    ensures var r := Run(m, s, ops);
      || r.router == Given(m, s, ops)
      || (r.router == RouterOf(m, 0) && r.excluded != {} && exists op :: op in ops && op.Exclude?)
  {
    if ops == [] {
    } else {
      var before, op := ops[..|ops| - 1], ops[|ops| - 1];
      WhereItIs(m, s, before);
      assert op in ops && forall x :: x in before ==> x in ops;
    }
  }

  /**
   When an assigned routing survives, exactly, whatever was recorded when it was assigned and whatever
   is called until no record is left (or as long as CPUs are only included): if no include found a
   record, or the last one that did was that of the assigned CPU.
   */
  lemma AffinitySurvivesIff(m: CpuMap, s: Spi, router: bv64, ops: seq<Op>)
    requires Run(m, s.(router := router), ops).excluded == {} || forall op :: op in ops ==> op.Include?
    ensures var last := LastReturn(m, s.(router := router), ops);
      Run(m, s.(router := router), ops).router == router <==> (last.Some? ==> router == RouterOf(m, last.value))
  {
    WhereItIs(m, s.(router := router), ops);
  }

  /** With records around at the assignment and none in the end, some include did find one. */
  lemma {:induction false} RecordsReturn(m: CpuMap, s: Spi, ops: seq<Op>)
    requires s.excluded != {} && Run(m, s, ops).excluded == {}
    ensures LastReturn(m, s, ops).Some?
  {
    if ops == [] {
    } else if Run(m, s, ops[..|ops| - 1]).excluded == {} {
      RecordsReturn(m, s, ops[..|ops| - 1]);
    }
  }

  /** An SPI that is routed to an existing CPU always is. */
  lemma {:induction false} AlwaysRouted(m: CpuMap, s: Spi, ops: seq<Op>)
    requires Distinct(m) && Home(m, s.router).Some?
    ensures Home(m, Run(m, s, ops).router).Some?
  {
    if ops == [] {
    } else {
      var before, op := ops[..|ops| - 1], ops[|ops| - 1];
      AlwaysRouted(m, s, before);
      if Effective(m, op) {
        SetThenGet(m, 0);
        SetThenGet(m, op.cpu);
      }
    }
  }

  /** CPU 1 is excluded, its SPI is given to CPU 2, CPU 1 is included: the SPI is on CPU 1. */
  lemma AffinityWitness() returns (m: CpuMap, s: Spi)
    ensures Distinct(m) && |m| == 3 && s == ExcludeSpi(m, Spi(RouterOf(m, 1), {}), 1)
    ensures RouterOf(m, 1) != RouterOf(m, 2)
    ensures Run(m, s.(router := RouterOf(m, 2)), [Include(1)]) == Spi(RouterOf(m, 1), {})
  {
    m := [0, 0x100, 0x200];
    s := ExcludeSpi(m, Spi(RouterOf(m, 1), {}), 1);
    var ops := [Include(1)];
    assert ops[..0] == [];
    assert s.excluded - {1} == {};
  }

  /** Routing an SPI to a CPU and asking back gives that CPU. */
  lemma SetThenGet(m: CpuMap, cpu: nat)
    requires Distinct(m) && cpu < |m|
    ensures Home(m, RouterOf(m, cpu)) == Some(cpu)
  {
  }

  // ---------------------------------------------------------------- the driver

  /** Bit `k` of a CPU mask argument. */
  predicate InMask(mask: bv32, k: nat)
    requires k < 32
  {
    (mask >> k) & 1 == 1
  }

  /** CPU `k` is bit `k`, counted from the lowest; no other bit of a mask can name an existing CPU. */
  lemma InMaskIff(mask: bv32)
    ensures (InMask(mask, 0) <==> mask & 0x01 != 0) && (InMask(mask, 1) <==> mask & 0x02 != 0)
    ensures (InMask(mask, 2) <==> mask & 0x04 != 0) && (InMask(mask, 3) <==> mask & 0x08 != 0)
    ensures (InMask(mask, 4) <==> mask & 0x10 != 0) && (InMask(mask, 5) <==> mask & 0x20 != 0)
    ensures (InMask(mask, 6) <==> mask & 0x40 != 0) && (InMask(mask, 7) <==> mask & 0x80 != 0)
  {
  }

  /** The lowest CPU in a mask, or 32 when the mask is empty. */
  predicate IsLowest(mask: bv32, cpu: nat) {
    && cpu <= 32
    && (cpu < 32 ==> InMask(mask, cpu))
    && forall k :: 0 <= k < cpu && k < 32 ==> !InMask(mask, k)
  }

  datatype Regs = Regs(routers: seq<bv64>, excludedBy: Bitmap)

  function View(r: Regs, off: nat): (s: Spi)
    requires |r.routers| == MAX_SPIS && off < MAX_SPIS
  {
    Spi(r.routers[off], Markers(r.excludedBy, off))
  }

  function StepAt(m: CpuMap, r: Regs, op: Op, off: nat): (r': Regs)
    requires |r.routers| == MAX_SPIS && off < MAX_SPIS && op.cpu < MAX_CPUS
    ensures |r'.routers| == MAX_SPIS
  {
    match op
    case Exclude(c) =>
      if Aff(r.routers[off]) == Aff(RouterOf(m, c))
      then Regs(r.routers[off := RouterOf(m, 0)], Mark(r.excludedBy, c, off)) else r
    case Include(c) =>
      if Marked(r.excludedBy, c, off)
      then Regs(r.routers[off := RouterOf(m, c)], Unmark(r.excludedBy, c, off)) else r
  }

  lemma StepAtView(m: CpuMap, r: Regs, op: Op, off: nat, o: nat)
    requires |r.routers| == MAX_SPIS && off < MAX_SPIS && o < MAX_SPIS && Effective(m, op)
    ensures View(StepAt(m, r, op, off), o) == if o == off then Apply(m, View(r, o), op) else View(r, o)
  {
    MarkersAfter(r.excludedBy, op.cpu, off, o);
  }

  predicate AdvancedAt(m: CpuMap, r0: Regs, r: Regs, op: Op, irq: nat, o: nat)
    requires |r0.routers| == |r.routers| == MAX_SPIS && o < MAX_SPIS
  {
    View(r, o) == if SPI_START + o < irq then Apply(m, View(r0, o), op) else View(r0, o)
  }

  lemma AdvanceOneAt(m: CpuMap, r0: Regs, r: Regs, op: Op, irq: nat, o: nat)
    requires |r0.routers| == |r.routers| == MAX_SPIS && o < MAX_SPIS
    requires SPI_START <= irq < IRQ_END && Effective(m, op) && AdvancedAt(m, r0, r, op, irq, o)
    ensures AdvancedAt(m, r0, StepAt(m, r, op, irq - SPI_START), op, irq + 1, o)
  {
    StepAtView(m, r, op, irq - SPI_START, o);
  }

  /** What one call does to the router register of SPI `o` and to its record for the named CPU. */
  predicate RouterStep(m: CpuMap, r0: Regs, r: Regs, op: Op, itLines: nat, o: nat)
    requires |r0.routers| == |r.routers| == MAX_SPIS && o < MAX_SPIS
  {
    var c := op.cpu;
    if c >= |m| || c >= 8 || 32 + o >= 32 * (itLines + 1) then r.routers[o] == r0.routers[o]
    else if op.Exclude? then
      if Aff(r0.routers[o]) == Aff(m[c])
      then r.routers[o] == Aff(m[0]) && Marked(r.excludedBy, c, o)
      else r.routers[o] == r0.routers[o] && Marked(r.excludedBy, c, o) == Marked(r0.excludedBy, c, o)
    else
      && !Marked(r.excludedBy, c, o)
      && r.routers[o] == if Marked(r0.excludedBy, c, o) then Aff(m[c]) else r0.routers[o]
  }

  lemma RouterAfter(m: CpuMap, r0: Regs, r: Regs, op: Op, itLines: nat, o: nat)
    requires |r0.routers| == |r.routers| == MAX_SPIS && o < MAX_SPIS
    requires AdvancedAt(m, r0, r, op, 32 * (itLines + 1), o)
    ensures RouterStep(m, r0, r, op, itLines, o)
  {
    if op.cpu < MAX_CPUS {
      assert op.cpu in View(r, o).excluded <==> Marked(r.excludedBy, op.cpu, o);
      assert op.cpu in View(r0, o).excluded <==> Marked(r0.excludedBy, op.cpu, o);
    }
    if op.cpu < |m| {
      StepIs(m, View(r0, o), op.cpu);
    }
  }

  /** A step in terms of the CPU map. */
  lemma StepIs(m: CpuMap, s: Spi, c: nat)
    requires c < |m|
    ensures ExcludeSpi(m, s, c) == if Aff(s.router) == Aff(m[c]) then Spi(Aff(m[0]), s.excluded + {c}) else s
    ensures IncludeSpi(m, s, c) == if c in s.excluded then Spi(Aff(m[c]), s.excluded - {c}) else s
  {
  }

  /** One call is done: every implemented SPI took the step, and its register is as it should be. */
  predicate Called(m: CpuMap, r0: Regs, r: Regs, op: Op, itLines: nat)
    requires |r0.routers| == |r.routers| == MAX_SPIS
  {
    var irqs := 32 * (itLines + 1);
    && (forall o :: 0 <= o < MAX_SPIS ==> AdvancedAt(m, r0, r, op, irqs, o))
    && forall o :: 0 <= o < MAX_SPIS ==> RouterStep(m, r0, r, op, itLines, o)
  }

  lemma CallDone(m: CpuMap, r0: Regs, r: Regs, op: Op, itLines: nat)
    requires |r0.routers| == |r.routers| == MAX_SPIS
    requires var irqs := NumIrqs(itLines); forall o :: 0 <= o < MAX_SPIS ==> AdvancedAt(m, r0, r, op, irqs, o)
    ensures Called(m, r0, r, op, itLines)
  {
    var n, irqs := NumIrqs(itLines), 32 * (itLines + 1);
    forall o | 0 <= o < MAX_SPIS
      ensures AdvancedAt(m, r0, r, op, irqs, o)
      ensures RouterStep(m, r0, r, op, itLines, o)
    {
      ImplementedIff(itLines, o);
      assert AdvancedAt(m, r0, r, op, n, o);
      RouterAfter(m, r0, r, op, itLines, o);
    }
  }

  predicate RanAt(m: CpuMap, r0: Regs, r: Regs, ops: seq<Op>, irqs: nat, o: nat)
    requires |r0.routers| == |r.routers| == MAX_SPIS && o < MAX_SPIS
  {
    View(r, o) == if SPI_START + o < irqs then Run(m, View(r0, o), ops) else View(r0, o)
  }

  lemma RanOneMore(m: CpuMap, r0: Regs, r: Regs, r': Regs, ops: seq<Op>, k: nat, irqs: nat, o: nat)
    requires |r0.routers| == |r.routers| == |r'.routers| == MAX_SPIS && o < MAX_SPIS && k < |ops|
    requires RanAt(m, r0, r, ops[..k], irqs, o) && AdvancedAt(m, r, r', ops[k], irqs, o)
    ensures RanAt(m, r0, r', ops[..k + 1], irqs, o)
  {
    assert ops[..k + 1][..k] == ops[..k];
  }

  /** Whether an SPI without records has its old routing back, implemented or not. */
  predicate BackIff(m: CpuMap, r0: Regs, r: Regs, ops: seq<Op>, irqs: nat, o: nat)
    requires |r0.routers| == |r.routers| == MAX_SPIS && o < MAX_SPIS
  {
    Markers(r0.excludedBy, o) == {} ==>
      (r.routers[o] == r0.routers[o] <==> (SPI_START + o < irqs ==> GivesBack(m, r0.routers[o], ops)))
  }

  lemma RanRestores(m: CpuMap, r0: Regs, r: Regs, ops: seq<Op>, irqs: nat, o: nat)
    requires Distinct(m) && |r0.routers| == |r.routers| == MAX_SPIS && o < MAX_SPIS
    requires RanAt(m, r0, r, ops, irqs, o) && Isolated(m, ops) == {}
    ensures BackIff(m, r0, r, ops, irqs, o)
  {
    RestoredIff(m, r0.routers[o], ops);
    NoRecordsLeft(m, r0.routers[o], ops);
  }

  class Controller {
    /** `GICD_IROUTER` of the SPIs. */
    const routers: array<bv64>
    const excludedBy: array<bv8>
    const cpuMap: CpuMap
    const itLines: nat

    ghost predicate Valid() {
      && routers.Length == MAX_SPIS
      && excludedBy.Length == MAX_CPUS * BITMAP_BYTES
      && Distinct(cpuMap) && itLines < 32
    }

    ghost function Value(): (r: Regs)
      requires Valid()
      reads routers, excludedBy
      ensures |r.routers| == MAX_SPIS
    {
      Regs(routers[..], excludedBy[..])
    }

    constructor (initial: seq<bv64>, cpuMap: CpuMap, itLines: nat)
      requires |initial| == MAX_SPIS && Distinct(cpuMap) && itLines < 32
      ensures Valid() && fresh(routers) && fresh(excludedBy)
      ensures this.cpuMap == cpuMap && this.itLines == itLines
      ensures Value() == Regs(initial, seq(MAX_CPUS * BITMAP_BYTES, _ => 0))
    {
      routers := new bv64[MAX_SPIS](i requires 0 <= i < MAX_SPIS => initial[i]);
      excludedBy := new bv8[MAX_CPUS * BITMAP_BYTES](_ => 0);
      this.cpuMap := cpuMap;
      this.itLines := itLines;
      new;
      assert routers[..] == initial;
      assert excludedBy[..] == seq(MAX_CPUS * BITMAP_BYTES, _ => 0);
    }

    /** `gic_set_affinity`: route to the lowest CPU of the mask, if that CPU exists. */
    method SetAffinity(irq: nat, mask: bv32) returns (ok: bool, cpu: nat)
      requires Valid() && irq < IRQ_END
      modifies routers
      ensures IsLowest(mask, cpu)
      ensures ok == (irq >= 32 && cpu < |cpuMap|)
      ensures routers[..] ==
        if ok then old(routers[..])[irq - SPI_START := RouterOf(cpuMap, cpu)] else old(routers[..])
      ensures ok ==> Home(cpuMap, routers[irq - SPI_START]) == Some(cpu)
    {
      cpu := 0;
      while cpu < 32 && !InMask(mask, cpu)
        invariant cpu <= 32
        invariant forall k :: 0 <= k < cpu ==> !InMask(mask, k)
      {
        cpu := cpu + 1;
      }
      ok := irq >= SPI_START && cpu < |cpuMap|;
      if ok {
        routers[irq - SPI_START] := RouterOf(cpuMap, cpu);
        SetThenGet(cpuMap, cpu);
      }
    }

    /** `gic_get_affinity`: the CPU the SPI is routed to, or none. */
    method GetAffinity(irq: nat) returns (cpu: Option<nat>)
      requires Valid() && irq < IRQ_END
      ensures cpu == if irq < SPI_START then None else Home(cpuMap, routers[irq - SPI_START])
    {
      if irq < SPI_START {
        return None;
      }
      var i := 0;
      while i < |cpuMap|
        invariant i <= |cpuMap|
        invariant Home(cpuMap, routers[irq - SPI_START]) == CpuFrom(cpuMap, routers[irq - SPI_START], i)
      {
        if Aff(cpuMap[i]) == Aff(routers[irq - SPI_START]) {
          return Some(i);
        }
        i := i + 1;
      }
      return None;
    }

    method StepOne(op: Op, irq: nat)
      requires Valid() && SPI_START <= irq < IRQ_END && op.cpu < MAX_CPUS
      modifies routers, excludedBy
      ensures Value() == StepAt(cpuMap, old(Value()), op, irq - SPI_START)
    {
      var off := irq - SPI_START;
      match op {
        case Exclude(cpu) =>
          if Aff(routers[off]) == Aff(RouterOf(cpuMap, cpu)) {
            routers[off] := RouterOf(cpuMap, 0);
            SetMark(excludedBy, cpu, off);
          }
        case Include(cpu) =>
          var marked := TestMark(excludedBy, cpu, off);
          if marked {
            routers[off] := RouterOf(cpuMap, cpu);
            ClearMark(excludedBy, cpu, off);
          }
      }
    }

    /** One call: every implemented SPI takes the step, everything else stays. */
    method Call(op: Op)
      requires Valid()
      modifies routers, excludedBy
      ensures Called(cpuMap, old(Value()), Value(), op, itLines)
    {
      ghost var r0 := Value();
      if op.cpu >= |cpuMap| || op.cpu >= MAX_CPUS {
        CallDone(cpuMap, r0, r0, op, itLines);
        return;
      }
      var irq := SPI_START;
      while irq < NumIrqs(itLines)
        invariant SPI_START <= irq <= NumIrqs(itLines)
        invariant forall o :: 0 <= o < MAX_SPIS ==> AdvancedAt(cpuMap, r0, Value(), op, irq, o)
      {
        ghost var r := Value();
        StepOne(op, irq);
        ghost var r', next := Value(), irq + 1;
        forall o | 0 <= o < MAX_SPIS
          ensures AdvancedAt(cpuMap, r0, r', op, next, o)
        {
          AdvanceOneAt(cpuMap, r0, r, op, irq, o);
        }
        irq := irq + 1;
      }
      CallDone(cpuMap, r0, Value(), op, itLines);
    }

    /**
     Any sequence of calls: each implemented SPI takes its own run, the others stay. Once everybody
     is included again, each router register is back bit for bit exactly if `GivesBack`.
     */
    method Calls(ops: seq<Op>)
      requires Valid()
      modifies routers, excludedBy
      ensures var irqs := 32 * (itLines + 1);
        && (forall o :: 0 <= o < MAX_SPIS ==> RanAt(cpuMap, old(Value()), Value(), ops, irqs, o))
        && (Isolated(cpuMap, ops) == {} ==>
              forall o :: 0 <= o < MAX_SPIS ==> BackIff(cpuMap, old(Value()), Value(), ops, irqs, o))
    {
      var k := 0;
      ghost var irqs := 32 * (itLines + 1);
      ghost var r0 := Value();
      while k < |ops|
        invariant k <= |ops|
        invariant forall o :: 0 <= o < MAX_SPIS ==> RanAt(cpuMap, r0, Value(), ops[..k], irqs, o)
      {
        ghost var r := Value();
        Call(ops[k]);
        ghost var r', done := Value(), ops[..k + 1];
        forall o | 0 <= o < MAX_SPIS
          ensures RanAt(cpuMap, r0, r', done, irqs, o)
        {
          RanOneMore(cpuMap, r0, r, r', ops, k, irqs, o);
        }
        k := k + 1;
      }
      assert ops[..|ops|] == ops;
      if Isolated(cpuMap, ops) == {} {
        ghost var r := Value();
        forall o | 0 <= o < MAX_SPIS
          ensures BackIff(cpuMap, r0, r, ops, irqs, o)
        {
          RanRestores(cpuMap, r0, r, ops, irqs, o);
        }
      }
    }
  }
}
