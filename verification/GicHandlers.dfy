/**
 The interrupt handler table, as interleaved atomic steps: one CPU registers and unregisters
 while any number of lookups run from interrupt context. A registration writes a slot's interrupt
 number first and publishes the handler after it; a lookup loads the handler first and compares
 the number after it. The acquire/release pair on the handler field is what allows treating each
 of these accesses as one indivisible, totally ordered step.
 */
module GicHandlers {
  import opened Bytes

  const SLOTS := 16

  type Handler = nat

  datatype Entry = Entry(irq: nat, fn: Option<Handler>)

  type Table = t: seq<Entry> | |t| == SLOTS witness seq(SLOTS, _ => Entry(0, None))

  /** Slot `k` serves interrupt `irq`. */
  predicate Serves(t: Table, k: nat, irq: nat) {
    k < SLOTS && t[k].fn.Some? && t[k].irq == irq
  }

  // ---------------------------------------------------------------- the registering CPU

  /** Idle, scanning for a free slot, or between the two writes of a registration. */
  datatype Writer =
    | Idle
    | Scanning(irq: nat, handler: Handler, slot: nat)
    | Named(irq: nat, handler: Handler, slot: nat)

  /** `published` is a history variable: every registration that completed. */
  datatype Core = Core(table: Table, writer: Writer, published: set<(nat, Handler)>)

  datatype WriterEvent =
    | Register(irq: nat, handler: Handler)
    | WriterStep
    | Unregister(irq: nat)

  function AdvanceWriter(c: Core): (c': Core) {
    match c.writer
    case Idle => c
    case Scanning(irq, h, i) =>
      if i >= SLOTS then c.(writer := Idle)                              // the table is full
      else if c.table[i].fn.Some? then c.(writer := Scanning(irq, h, i + 1))
      else c.(table := c.table[i := c.table[i].(irq := irq)], writer := Named(irq, h, i))
    case Named(irq, h, i) =>
      if i >= SLOTS then c.(writer := Idle)
      else c.(table := c.table[i := c.table[i].(fn := Some(h))], writer := Idle,
              published := c.published + {(irq, h)})
  }

  /** Clear the handler of the first slot, from `i` on, that serves `irq`. */
  function Removed(t: Table, irq: nat, i: nat): (t': Table)
    decreases SLOTS - i
  {
    if i >= SLOTS then t
    else if t[i].fn.Some? && t[i].irq == irq then t[i := t[i].(fn := None)]
    else Removed(t, irq, i + 1)
  }

  /** Both calls come from one CPU, so neither starts while the other is under way. */
  function CoreStep(c: Core, w: WriterEvent): (c': Core) {
    match w
    case Register(irq, h) => if c.writer.Idle? then c.(writer := Scanning(irq, h, 0)) else c
    case WriterStep => AdvanceWriter(c)
    case Unregister(irq) => if c.writer.Idle? then c.(table := Removed(c.table, irq, 0)) else c
  }

  function InitialCore(): (c: Core) {
    Core(seq(SLOTS, _ => Entry(0, None)), Idle, {})
  }

  function CoreRun(ws: seq<WriterEvent>): (c: Core) {
    if ws == [] then InitialCore() else CoreStep(CoreRun(ws[..|ws| - 1]), ws[|ws| - 1])
  }

  /** This step writes an interrupt number into slot `i`. */
  predicate Names(c: Core, w: WriterEvent, i: nat) {
    w.WriterStep? && c.writer.Scanning? && c.writer.slot == i && i < SLOTS && c.table[i].fn.None?
  }

  // ---------------------------------------------------------------- lookups

  /**
   A lookup: about to load slot `slot`, holding the handler loaded from it, or done. History:
   `steady` are the slots that served the number ever since the lookup began, `named` is the
   number of the slot when the handler was loaded, and `renamed` says that a registration has
   written a number into the slot since.
   */
  datatype Lookup =
    | Loading(irq: nat, steady: set<nat>, slot: nat)
    | Holding(irq: nat, steady: set<nat>, slot: nat, fn: Handler, named: nat, renamed: bool)
    | Found(irq: nat, steady: set<nat>, slot: nat, fn: Handler, named: nat, renamed: bool)
    | Missed(irq: nat, steady: set<nat>)

  function AdvanceLookup(t: Table, l: Lookup): (l': Lookup) {
    match l
    case Found(_, _, _, _, _, _) => l
    case Missed(_, _) => l
    case Loading(irq, st, i) =>
      if i >= SLOTS then Missed(irq, st)
      else if t[i].fn.None? then Loading(irq, st, i + 1)
      else Holding(irq, st, i, t[i].fn.value, t[i].irq, false)
    case Holding(irq, st, i, fn, named, renamed) =>
      if i < SLOTS && t[i].irq == irq then Found(irq, st, i, fn, named, renamed) else Loading(irq, st, i + 1)
  }

  /** The history of a lookup after step `w` of the registering CPU; a finished lookup keeps its own. */
  function Watch(c: Core, w: WriterEvent, l: Lookup): (l': Lookup) {
    var st := set k | k in l.steady && Serves(CoreStep(c, w).table, k, l.irq);
    match l
    case Loading(irq, _, i) => Loading(irq, st, i)
    case Holding(irq, _, i, fn, named, renamed) => Holding(irq, st, i, fn, named, renamed || Names(c, w, i))
    case Found(_, _, _, _, _, _) => l
    case Missed(_, _) => l
  }

  datatype State = State(core: Core, lookups: map<nat, Lookup>)

  datatype Event =
    | ByWriter(w: WriterEvent)
    | StartLookup(id: nat, irq: nat)
    | LookupStep(id: nat)

  function Step(s: State, e: Event): (s': State) {
    match e
    case ByWriter(w) =>
      State(CoreStep(s.core, w), map id | id in s.lookups :: Watch(s.core, w, s.lookups[id]))
    case StartLookup(id, irq) =>
      if id in s.lookups then s
      else s.(lookups := s.lookups[id := Loading(irq, set k | 0 <= k < SLOTS && Serves(s.core.table, k, irq), 0)])
    case LookupStep(id) =>
      if id in s.lookups then s.(lookups := s.lookups[id := AdvanceLookup(s.core.table, s.lookups[id])]) else s
  }

  function Run(es: seq<Event>): (s: State) {
    if es == [] then State(InitialCore(), map[]) else Step(Run(es[..|es| - 1]), es[|es| - 1])
  }

  lemma RunSnoc(es: seq<Event>, e: Event)
    ensures Run(es + [e]) == Step(Run(es), e)
  {
    assert (es + [e])[..|es|] == es;
  }

  // ---------------------------------------------------------------- every interleaving

  predicate GoodTable(c: Core) {
    forall i :: 0 <= i < SLOTS && c.table[i].fn.Some? ==> (c.table[i].irq, c.table[i].fn.value) in c.published
  }

  predicate GoodWriter(c: Core) {
    c.writer.Named? ==> c.writer.slot < SLOTS && c.table[c.writer.slot] == Entry(c.writer.irq, None)
  }

  /**
   A held handler was published for the number its slot had, and that is still the slot's number
   unless it was renamed; the slots that served the number all along still do and lie ahead.
   */
  predicate GoodLookup(c: Core, l: Lookup) {
    match l
    case Loading(irq, st, i) => forall k :: k in st ==> i <= k && Serves(c.table, k, irq)
    case Holding(irq, st, i, fn, named, renamed) =>
      && i < SLOTS && (named, fn) in c.published && (!renamed ==> c.table[i].irq == named)
      && forall k :: k in st ==> i <= k && Serves(c.table, k, irq)
    case Found(irq, st, i, fn, named, renamed) => (named, fn) in c.published && (named == irq || renamed)
    case Missed(_, st) => st == {}
  }

  predicate Inv(s: State) {
    && GoodTable(s.core) && GoodWriter(s.core)
    && forall id :: id in s.lookups ==> GoodLookup(s.core, s.lookups[id])
  }

  /** Unregistering changes at most one slot, which it frees without touching its number. */
  lemma {:induction false} RemovedSlots(t: Table, irq: nat, i: nat, k: nat)
    requires k < SLOTS
    ensures Removed(t, irq, i)[k] == t[k] || (Serves(t, k, irq) && Removed(t, irq, i)[k] == t[k].(fn := None))
    decreases SLOTS - i
  {
    if i >= SLOTS {
    } else if t[i].fn.Some? && t[i].irq == irq {
    } else {
      RemovedSlots(t, irq, i + 1, k);
    }
  }

  /** What a step of the registering CPU does to slot `k`. */
  lemma SlotAfter(c: Core, w: WriterEvent, k: nat)
    requires GoodTable(c) && GoodWriter(c) && k < SLOTS
    ensures var t, t' := c.table, CoreStep(c, w).table;
      && (t'[k].irq == t[k].irq || Names(c, w, k))
      && (t'[k].fn == t[k].fn
          || (w.Unregister? && t'[k].fn.None?)
          || (t[k].fn.None? && t'[k].fn.Some? && (t'[k].irq, t'[k].fn.value) in CoreStep(c, w).published))
  {
    if w.Unregister? {
      RemovedSlots(c.table, w.irq, 0, k);
    }
  }

  lemma CoreStepGood(c: Core, w: WriterEvent)
    requires GoodTable(c) && GoodWriter(c)
    ensures GoodTable(CoreStep(c, w)) && GoodWriter(CoreStep(c, w)) && c.published <= CoreStep(c, w).published
  {
    forall k | 0 <= k < SLOTS
      ensures var e := CoreStep(c, w).table[k]; e.fn.Some? ==> (e.irq, e.fn.value) in CoreStep(c, w).published
    {
      SlotAfter(c, w, k);
    }
  }

  lemma WatchGood(c: Core, w: WriterEvent, l: Lookup)
    requires GoodTable(c) && GoodWriter(c) && GoodLookup(c, l)
    ensures GoodLookup(CoreStep(c, w), Watch(c, w, l))
  {
    CoreStepGood(c, w);
    if l.Holding? {
      SlotAfter(c, w, l.slot);
    }
  }

  lemma LookupAdvances(c: Core, l: Lookup)
    requires GoodTable(c) && GoodLookup(c, l)
    ensures GoodLookup(c, AdvanceLookup(c.table, l))
  {
  }

  lemma StepKeepsInv(s: State, e: Event)
    requires Inv(s)
    ensures Inv(Step(s, e))
  {
    var s' := Step(s, e);
    if e.ByWriter? {
      CoreStepGood(s.core, e.w);
    }
    forall id | id in s'.lookups
      ensures GoodLookup(s'.core, s'.lookups[id])
    {
      if id in s.lookups {
        match e
        case ByWriter(w) => WatchGood(s.core, w, s.lookups[id]);
        case StartLookup(_, _) =>
        case LookupStep(k) => LookupAdvances(s.core, s.lookups[id]);
      }
    }
  }

  lemma {:induction false} RunKeepsInv(es: seq<Event>)
    ensures Inv(Run(es))
  {
    if es == [] {
    } else {
      RunKeepsInv(es[..|es| - 1]);
      StepKeepsInv(Run(es[..|es| - 1]), es[|es| - 1]);
    }
  }

  /**
   Over every interleaving of registrations, unregistrations and lookups: a lookup that found a
   handler returns one whose registration for that very interrupt completed, unless a registration
   renamed the slot while the lookup held its handler; and a lookup that found none had no slot
   that served its interrupt all the time.
   */
  lemma LookupsAreCorrect(es: seq<Event>, id: nat)
    requires id in Run(es).lookups
    ensures var l, pub := Run(es).lookups[id], Run(es).core.published;
      && (l.Found? ==> (l.irq, l.fn) in pub || (l.renamed && l.named != l.irq && (l.named, l.fn) in pub))
      && (l.Missed? ==> l.steady == {})
  {
    RunKeepsInv(es);
  }

  // ---------------------------------------------------------------- each call by itself

  /** Steps of the registering CPU with nothing else in between. */
  function Steps(c: Core, n: nat): (c': Core) {
    if n == 0 then c else AdvanceWriter(Steps(c, n - 1))
  }

  /** Slot `i` is the first free one; 16 if there is none. */
  predicate FirstFree(t: Table, i: nat) {
    && i <= 16 && (i < 16 ==> t[i].fn.None?)
    && forall k :: 0 <= k < i ==> t[k].fn.Some?
  }

  lemma {:induction false} ScanTo(c: Core, irq: nat, h: Handler, i: nat, n: nat)
    requires c.writer == Idle && FirstFree(c.table, i) && n <= i
    ensures Steps(CoreStep(c, Register(irq, h)), n) == c.(writer := Scanning(irq, h, n))
  {
    if n == 0 {
    } else {
      ScanTo(c, irq, h, i, n - 1);
    }
  }

  /**
   A registration on its own, from any table: with a free slot, `i + 2` steps put number and handler
   into the first one, `i`, and nowhere else, and the registration is published; with none, 17 steps
   end it and nothing has changed.
   */
  lemma RegisterFillsFirstFree(c: Core, irq: nat, h: Handler, i: nat)
    requires c.writer == Idle && FirstFree(c.table, i)
    ensures var start := CoreStep(c, Register(irq, h));
      if i < 16
      then Steps(start, i + 2) == Core(c.table[i := Entry(irq, Some(h))], Idle, c.published + {(irq, h)})
      else Steps(start, 17) == c
  {
    var start := CoreStep(c, Register(irq, h));
    ScanTo(c, irq, h, i, i);
    if i < 16 {
      var named := Steps(start, i + 1);
      assert named == Core(c.table[i := Entry(irq, None)], Named(irq, h, i), c.published);
      assert c.table[i := Entry(irq, None)][i := Entry(irq, Some(h))] == c.table[i := Entry(irq, Some(h))];
    }
  }

  /** Slot `i` is the lowest that serves `irq`; 16 if there is none. */
  predicate FirstServing(t: Table, irq: nat, i: nat) {
    i <= 16 && (i < 16 ==> Serves(t, i, irq)) && forall k :: 0 <= k < i ==> !Serves(t, k, irq)
  }

  lemma {:induction false} RemovedFrom(t: Table, irq: nat, i: nat, from: nat)
    requires FirstServing(t, irq, i) && from <= i
    ensures Removed(t, irq, from) == if i < 16 then t[i := Entry(irq, None)] else t
    decreases i - from
  {
    if from < i {
      assert !Serves(t, from, irq);
      RemovedFrom(t, irq, i, from + 1);
    }
  }

  /** An unregistration frees exactly the lowest slot that serves the interrupt, if there is one. */
  lemma UnregisterFreesFirst(c: Core, irq: nat, i: nat)
    requires c.writer == Idle && FirstServing(c.table, irq, i)
    ensures CoreStep(c, Unregister(irq)) == if i < 16 then c.(table := c.table[i := Entry(irq, None)]) else c
  {
    RemovedFrom(c.table, irq, i, 0);
  }

  /** A lookup with nothing else in between. */
  function Walk(t: Table, l: Lookup, n: nat): (l': Lookup) {
    if n == 0 then l else AdvanceLookup(t, Walk(t, l, n - 1))
  }

  /** What a lookup returns. */
  function Answer(l: Lookup): (fn: Option<Handler>) {
    if l.Found? then Some(l.fn) else None
  }

  /** Some number of steps takes a lookup past a slot that does not serve its number. */
  lemma {:induction false} WalkPast(t: Table, irq: nat, st: set<nat>, i: nat, k: nat) returns (n: nat)
    requires FirstServing(t, irq, i) && k <= i
    ensures Walk(t, Loading(irq, st, 0), n) == Loading(irq, st, k) && n <= 2 * k
  {
    n := 0;
    if k == 0 {
    } else {
      n := WalkPast(t, irq, st, i, k - 1);
      assert !Serves(t, k - 1, irq);
      if t[k - 1].fn.None? {
        n := n + 1;
      } else {
        assert Walk(t, Loading(irq, st, 0), n + 1).Holding?;
        n := n + 2;
      }
    }
  }

  /** A lookup on a table at rest ends with the handler of the lowest slot that serves the interrupt, or none. */
  lemma LookupFindsFirst(t: Table, irq: nat, st: set<nat>, i: nat) returns (n: nat)
    requires FirstServing(t, irq, i)
    ensures var l := Walk(t, Loading(irq, st, 0), n);
      && (l.Found? || l.Missed?) && n <= 34
      && Answer(l) == if i < 16 then t[i].fn else None
  {
    n := WalkPast(t, irq, st, i, i);
    if i < 16 {
      assert Walk(t, Loading(irq, st, 0), n + 1).Holding?;
      n := n + 2;
    } else {
      n := n + 1;
    }
  }

  /** Registering an interrupt that nothing serves, and then looking it up, gives the handler registered. */
  lemma RegisterThenLookup(c: Core, irq: nat, h: Handler, i: nat, st: set<nat>) returns (n: nat)
    requires c.writer == Idle && FirstFree(c.table, i) && i < 16 && FirstServing(c.table, irq, 16)
    ensures Answer(Walk(Steps(CoreStep(c, Register(irq, h)), i + 2).table, Loading(irq, st, 0), n)) == Some(h)
  {
    RegisterFillsFirstFree(c, irq, h, i);
    var t := c.table[i := Entry(irq, Some(h))];
    forall k | 0 <= k < i
      ensures !Serves(t, k, irq)
    {
      assert !Serves(c.table, k, irq);
    }
    n := LookupFindsFirst(t, irq, st, i);
  }

  // ---------------------------------------------------------------- what a caller can check

  /** This event names a slot whose handler some lookup is holding. */
  predicate NamesHeld(s: State, e: Event) {
    e.ByWriter? && exists id :: id in s.lookups && s.lookups[id].Holding? && Names(s.core, e.w, s.lookups[id].slot)
  }

  predicate Quiet(es: seq<Event>) {
    forall k :: 0 <= k < |es| ==> !NamesHeld(Run(es[..k]), es[k])
  }

  predicate Unrenamed(s: State, id: nat) {
    id in s.lookups && (s.lookups[id].Holding? || s.lookups[id].Found?) ==> !s.lookups[id].renamed
  }

  lemma QuietStep(s: State, e: Event, id: nat)
    requires !NamesHeld(s, e) && Unrenamed(s, id)
    ensures Unrenamed(Step(s, e), id)
  {
  }

  lemma {:induction false} QuietNeverRenames(es: seq<Event>, id: nat)
    requires Quiet(es)
    ensures Unrenamed(Run(es), id)
  {
    if es == [] {
    } else {
      var before, n := es[..|es| - 1], |es| - 1;
      assert forall k :: 0 <= k <= n ==> es[..k] == before[..k];
      QuietNeverRenames(before, id);
      assert !NamesHeld(Run(es[..n]), es[n]) && es[..n] == before;
      QuietStep(Run(before), es[n], id);
    }
  }

  /** As long as no registration names a slot that a lookup holds, every found handler is right. */
  lemma QuietLookupsAreCorrect(es: seq<Event>, id: nat)
    requires Quiet(es) && id in Run(es).lookups && Run(es).lookups[id].Found?
    ensures (Run(es).lookups[id].irq, Run(es).lookups[id].fn) in Run(es).core.published
  {
    LookupsAreCorrect(es, id);
    QuietNeverRenames(es, id);
  }

  predicate NoUnregister(es: seq<Event>) {
    forall e :: e in es ==> !(e.ByWriter? && e.w.Unregister?)
  }

  lemma {:induction false} HeldStays(es: seq<Event>, id: nat)
    requires NoUnregister(es) && id in Run(es).lookups && Run(es).lookups[id].Holding?
    ensures var l := Run(es).lookups[id]; l.slot < SLOTS && Run(es).core.table[l.slot].fn.Some?
  {
    if es == [] {
    } else {
      var before, e := es[..|es| - 1], es[|es| - 1];
      assert e in es;
      RunKeepsInv(before);
      if id in Run(before).lookups && Run(before).lookups[id].Holding? {
        HeldStays(before, id);
        if e.ByWriter? {
          SlotAfter(Run(before).core, e.w, Run(before).lookups[id].slot);
        }
      }
    }
  }

  /** Without unregistering no held slot is ever named. */
  lemma NoUnregisterIsQuiet(es: seq<Event>)
    requires NoUnregister(es)
    ensures Quiet(es)
  {
    forall k | 0 <= k < |es|
      ensures !NamesHeld(Run(es[..k]), es[k])
    {
      var s := Run(es[..k]);
      forall id | id in s.lookups && s.lookups[id].Holding?
        ensures s.lookups[id].slot < SLOTS && s.core.table[s.lookups[id].slot].fn.Some?
      {
        HeldStays(es[..k], id);
      }
    }
  }

  /** Without unregistering every published number is served by some slot. */
  lemma {:induction false} PublishedIsServed(es: seq<Event>, irq: nat, h: Handler) returns (k: nat)
    requires NoUnregister(es) && (irq, h) in Run(es).core.published
    ensures Serves(Run(es).core.table, k, irq)
  {
    k := 0;
    if es == [] {
    } else {
      var before, e := es[..|es| - 1], es[|es| - 1];
      assert e in es;
      RunKeepsInv(before);
      var c := Run(before).core;
      if (irq, h) in c.published {
        k := PublishedIsServed(before, irq, h);
        if e.ByWriter? {
          SlotAfter(c, e.w, k);
        }
      } else {
        k := c.writer.slot;
      }
    }
  }

  /** Lookup `id` looks for `irq`, which slot `k` has served ever since it began. */
  predicate SteadyFor(s: State, id: nat, irq: nat, k: nat) {
    && id in s.lookups && s.lookups[id].irq == irq
    && k in s.lookups[id].steady && Serves(s.core.table, k, irq)
  }

  lemma SteadyStep(s: State, e: Event, id: nat, irq: nat, k: nat)
    requires Inv(s) && !(e.ByWriter? && e.w.Unregister?) && SteadyFor(s, id, irq, k)
    ensures SteadyFor(Step(s, e), id, irq, k)
  {
    if e.ByWriter? {
      SlotAfter(s.core, e.w, k);
    }
  }

  /** A slot that serves the number at the start of a lookup is steady for all of it. */
  lemma {:induction false} SteadyWithoutUnregister(start: seq<Event>, after: seq<Event>, id: nat, irq: nat, k: nat)
    requires NoUnregister(after) && SteadyFor(Run(start), id, irq, k)
    ensures SteadyFor(Run(start + after), id, irq, k)
  {
    if after == [] {
      assert start + after == start;
    } else {
      var rest, e := after[..|after| - 1], after[|after| - 1];
      assert start + after == start + rest + [e] && e in after;
      SteadyWithoutUnregister(start, rest, id, irq, k);
      RunSnoc(start + rest, e);
      RunKeepsInv(start + rest);
      SteadyStep(Run(start + rest), e, id, irq, k);
    }
  }

  /**
   Without unregistering, a lookup that ends returns a handler registered for its interrupt, and
   it does return one if a registration for the interrupt had completed before the lookup began.
   */
  lemma RegisteredIsFound(before: seq<Event>, id: nat, irq: nat, h: Handler, after: seq<Event>)
    requires NoUnregister(before + [StartLookup(id, irq)] + after) && id !in Run(before).lookups
    requires (irq, h) in Run(before).core.published
    ensures var s := Run(before + [StartLookup(id, irq)] + after);
      && id in s.lookups && !s.lookups[id].Missed?
      && (s.lookups[id].Found? ==> (irq, s.lookups[id].fn) in s.core.published)
  {
    var start := before + [StartLookup(id, irq)];
    var es := start + after;
    assert forall e :: e in before || e in after ==> e in es;
    var k := PublishedIsServed(before, irq, h);
    RunSnoc(before, StartLookup(id, irq));
    SteadyWithoutUnregister(start, after, id, irq, k);
    LookupsAreCorrect(es, id);
    NoUnregisterIsQuiet(es);
    QuietNeverRenames(es, id);
  }

  // ---------------------------------------------------------------- exactly when it goes wrong

  /** What the registering CPU does in an interleaving. */
  function Program(es: seq<Event>): (ws: seq<WriterEvent>) {
    if es == [] then []
    else
      var ws, e := Program(es[..|es| - 1]), es[|es| - 1];
      if e.ByWriter? then ws + [e.w] else ws
  }

  /** Some lookup returned a handler that is never registered for its interrupt. */
  predicate Wrong(es: seq<Event>, id: nat) {
    var s := Run(es);
    id in s.lookups && s.lookups[id].Found? && (s.lookups[id].irq, s.lookups[id].fn) !in s.core.published
  }

  /** Slot `i` holds `fn` after `a` steps of the program. */
  predicate HeldAfter(ws: seq<WriterEvent>, i: nat, fn: Handler, a: nat) {
    a <= |ws| && i < SLOTS && CoreRun(ws[..a]).table[i].fn == Some(fn)
  }

  /** Slot `i` holds `fn` after `a` steps and has number `irq` after `b`. */
  predicate Reuse(ws: seq<WriterEvent>, i: nat, irq: nat, fn: Handler, a: nat, b: nat) {
    a <= b <= |ws| && HeldAfter(ws, i, fn, a) && CoreRun(ws[..b]).table[i].irq == irq
  }

  lemma {:induction false} CoreIsProgram(es: seq<Event>)
    ensures Run(es).core == CoreRun(Program(es))
  {
    if es == [] {
    } else {
      var before, e := es[..|es| - 1], es[|es| - 1];
      CoreIsProgram(before);
      if e.ByWriter? {
        assert Program(es)[..|Program(es)| - 1] == Program(before);
      }
    }
  }

  /** A lookup loaded its handler after `a` steps of the program, and compared the number after `b`. */
  predicate Moments(ws: seq<WriterEvent>, l: Lookup, a: nat, b: nat) {
    && (l.Holding? ==> HeldAfter(ws, l.slot, l.fn, a))
    && (l.Found? ==> Reuse(ws, l.slot, l.irq, l.fn, a, b))
  }

  lemma MomentsKept(ws: seq<WriterEvent>, w: WriterEvent, c: Core, l: Lookup, a: nat, b: nat)
    requires Moments(ws, l, a, b)
    ensures Moments(ws + [w], Watch(c, w, l), a, b)
  {
    if a <= |ws| && b <= |ws| {
      assert (ws + [w])[..a] == ws[..a] && (ws + [w])[..b] == ws[..b];
    } else if a <= |ws| {
      assert (ws + [w])[..a] == ws[..a];
    }
  }

  lemma MomentsAdvance(ws: seq<WriterEvent>, l: Lookup, a: nat, b: nat) returns (a': nat, b': nat)
    requires Moments(ws, l, a, b)
    ensures Moments(ws, AdvanceLookup(CoreRun(ws).table, l), a', b')
  {
    assert ws[..|ws|] == ws;
    a' := if l.Holding? || l.Found? then a else |ws|;
    b' := if l.Found? then b else |ws|;
  }

  lemma {:induction false} LookupMoments(es: seq<Event>, id: nat) returns (a: nat, b: nat)
    requires id in Run(es).lookups
    ensures Moments(Program(es), Run(es).lookups[id], a, b)
  {
    a, b := 0, 0;
    if es == [] {
    } else {
      var before, e := es[..|es| - 1], es[|es| - 1];
      CoreIsProgram(before);
      if id in Run(before).lookups {
        a, b := LookupMoments(before, id);
        match e
        case ByWriter(w) => MomentsKept(Program(before), w, Run(before).core, Run(before).lookups[id], a, b);
        case StartLookup(_, _) =>
        case LookupStep(k) =>
          if k == id {
            a, b := MomentsAdvance(Program(before), Run(before).lookups[id], a, b);
          }
      }
    }
  }

  function Events(ws: seq<WriterEvent>): (es: seq<Event>)
    ensures |es| == |ws| && forall k :: 0 <= k < |ws| ==> es[k] == ByWriter(ws[k])
  {
    seq(|ws|, k requires 0 <= k < |ws| => ByWriter(ws[k]))
  }

  /** A lookup without its history. */
  datatype Plain =
    | Going(irq: nat, slot: nat)
    | Has(irq: nat, slot: nat, fn: Handler)
    | Got(irq: nat, fn: Handler)
    | Nothing

  function PlainOf(l: Lookup): (p: Plain) {
    match l
    case Loading(irq, _, i) => Going(irq, i)
    case Holding(irq, _, i, fn, _, _) => Has(irq, i, fn)
    case Found(irq, _, _, fn, _, _) => Got(irq, fn)
    case Missed(_, _) => Nothing
  }

  predicate At(es: seq<Event>, p: Plain) {
    0 in Run(es).lookups && PlainOf(Run(es).lookups[0]) == p
  }

  /** A stretch of the program does not move a lookup. */
  lemma {:induction false} WriterStretch(es: seq<Event>, ws: seq<WriterEvent>, p: Plain)
    requires At(es, p)
    ensures At(es + Events(ws), p) && Program(es + Events(ws)) == Program(es) + ws
  {
    if ws == [] {
      assert es + Events(ws) == es;
    } else {
      var rest, w := ws[..|ws| - 1], ws[|ws| - 1];
      WriterStretch(es, rest, p);
      var es' := es + Events(rest);
      assert es + Events(ws) == es' + [ByWriter(w)];
      RunSnoc(es', ByWriter(w));
      assert (es' + [ByWriter(w)])[..|es'|] == es';
      assert Program(es) + ws == Program(es) + rest + [w];
    }
  }

  /** On the empty table a lookup walks to any slot. */
  lemma {:induction false} WalkTo(irq: nat, i: nat) returns (es: seq<Event>)
    requires i < SLOTS
    ensures At(es, Going(irq, i)) && Program(es) == []
  {
    if i == 0 {
      es := [StartLookup(0, irq)];
      assert es[..0] == [];
    } else {
      var es' := WalkTo(irq, i - 1);
      es := es' + [LookupStep(0)];
      RunSnoc(es', LookupStep(0));
      CoreIsProgram(es');
      assert es[..|es'|] == es';
    }
  }

  lemma LookupMove(es: seq<Event>)
    requires 0 in Run(es).lookups
    ensures Program(es + [LookupStep(0)]) == Program(es)
    ensures 0 in Run(es + [LookupStep(0)]).lookups
    ensures Run(es + [LookupStep(0)]).lookups[0] == AdvanceLookup(CoreRun(Program(es)).table, Run(es).lookups[0])
  {
    RunSnoc(es, LookupStep(0));
    CoreIsProgram(es);
    assert (es + [LookupStep(0)])[..|es|] == es;
  }

  /** The next step of a lookup, without its history. */
  lemma PlainMove(t: Table, l: Lookup)
    ensures var p, p' := PlainOf(l), PlainOf(AdvanceLookup(t, l));
      && (p.Going? && p.slot < SLOTS && t[p.slot].fn.Some? ==> p' == Has(p.irq, p.slot, t[p.slot].fn.value))
      && (p.Has? && p.slot < SLOTS && t[p.slot].irq == p.irq ==> p' == Got(p.irq, p.fn))
  {
  }

  /** A lookup that waits at slot `i` and loads its handler after `a` steps of the program. */
  lemma LoadAfter(ws: seq<WriterEvent>, i: nat, irq: nat, fn: Handler, a: nat) returns (es: seq<Event>)
    requires HeldAfter(ws, i, fn, a)
    ensures Program(es) == ws[..a] && At(es, Has(irq, i, fn))
  {
    var start := WalkTo(irq, i);
    WriterStretch(start, ws[..a], Going(irq, i));
    var wait := start + Events(ws[..a]);
    assert Program(wait) == ws[..a];
    LookupMove(wait);
    PlainMove(CoreRun(ws[..a]).table, Run(wait).lookups[0]);
    es := wait + [LookupStep(0)];
  }

  /** The same lookup comparing the number after `b` steps. */
  lemma CompareAfter(ws: seq<WriterEvent>, i: nat, irq: nat, fn: Handler, a: nat, b: nat) returns (es: seq<Event>)
    requires Reuse(ws, i, irq, fn, a, b)
    ensures Program(es) == ws[..b] && At(es, Got(irq, fn))
  {
    var start := LoadAfter(ws, i, irq, fn, a);
    WriterStretch(start, ws[a..b], Has(irq, i, fn));
    var hold := start + Events(ws[a..b]);
    assert Program(hold) == ws[..b];
    LookupMove(hold);
    PlainMove(CoreRun(ws[..b]).table, Run(hold).lookups[0]);
    es := hold + [LookupStep(0)];
  }

  /** Any reuse can be hit by some lookup. */
  lemma ReuseIsHit(ws: seq<WriterEvent>, i: nat, irq: nat, fn: Handler, a: nat, b: nat) returns (es: seq<Event>)
    requires Reuse(ws, i, irq, fn, a, b)
    ensures Program(es) == ws && At(es, Got(irq, fn))
  {
    var got := CompareAfter(ws, i, irq, fn, a, b);
    WriterStretch(got, ws[b..], Got(irq, fn));
    es := got + Events(ws[b..]);
    assert ws[..b] + ws[b..] == ws;
  }

  /**
   Exactly which programs of registrations and unregistrations are safe: some interleaving makes a
   lookup return a handler that is never registered for its interrupt if and only if some slot
   holds a handler and, then or later, has a number that handler is never registered for.
   */
  lemma WrongAnswerIff(ws: seq<WriterEvent>)
    ensures (exists es, id: nat :: Program(es) == ws && Wrong(es, id)) <==>
      exists i: nat, irq: nat, fn: Handler, a: nat, b: nat ::
        Reuse(ws, i, irq, fn, a, b) && (irq, fn) !in CoreRun(ws).published
  {
    if es, id: nat :| Program(es) == ws && Wrong(es, id) {
      var a, b := LookupMoments(es, id);
      CoreIsProgram(es);
      var l := Run(es).lookups[id];
      assert Reuse(ws, l.slot, l.irq, l.fn, a, b) && (l.irq, l.fn) !in CoreRun(ws).published;
    }
    if i: nat, irq: nat, fn: Handler, a: nat, b: nat :|
      Reuse(ws, i, irq, fn, a, b) && (irq, fn) !in CoreRun(ws).published
    {
      var es := ReuseIsHit(ws, i, irq, fn, a, b);
      CoreIsProgram(es);
      assert Wrong(es, 0);
    }
  }

  /** Such a program: register 5, unregister it, and reuse its slot for 7. */
  lemma ReuseWitness() returns (ws: seq<WriterEvent>, es: seq<Event>, id: nat)
    ensures ws == [Register(5, 1), WriterStep, WriterStep, Unregister(5), Register(7, 2), WriterStep]
    ensures Program(es) == ws && Wrong(es, id)
  {
    ws := [Register(5, 1), WriterStep, WriterStep, Unregister(5), Register(7, 2), WriterStep];
    var p1, p2, p3, p4, p5 := ws[..1], ws[..2], ws[..3], ws[..4], ws[..5];
    assert p1[..0] == [] && p2[..1] == p1 && p3[..2] == p2 && p4[..3] == p3 && p5[..4] == p4 && ws[..5] == p5;
    var t, c0 := InitialCore().table, InitialCore();
    assert CoreRun(p1[..0]) == c0;
    assert CoreRun(p1) == CoreStep(c0, ws[0]) == Core(t, Scanning(5, 1, 0), {});
    assert CoreRun(p2) == CoreStep(CoreRun(p1), ws[1]) == Core(t[0 := Entry(5, None)], Named(5, 1, 0), {});
    assert CoreRun(p3) == CoreStep(CoreRun(p2), ws[2]);
    assert CoreRun(p3).table[0] == Entry(5, Some(1)) && CoreRun(p3).writer == Idle && CoreRun(p3).published == {(5, 1)};
    assert CoreRun(p4) == CoreStep(CoreRun(p3), ws[3]);
    assert CoreRun(p4).table[0] == Entry(5, None) && CoreRun(p4).writer == Idle && CoreRun(p4).published == {(5, 1)};
    assert CoreRun(p5) == CoreStep(CoreRun(p4), ws[4]);
    assert CoreRun(ws) == CoreStep(CoreRun(p5), ws[5]);
    assert CoreRun(ws).table[0] == Entry(7, None) && CoreRun(ws).published == {(5, 1)};
    assert ws[..6] == ws;
    assert Reuse(ws, 0, 7, 1, 3, 6);
    WrongAnswerIff(ws);
    es, id :| Program(es) == ws && Wrong(es, id);
  }
}
