/**
 The per-CPU bitmaps that record which shared interrupts (SPIs) were routed away from a CPU:
 one bit per SPI, eight to a byte, the bitmaps of all CPUs one after the other.
 */
module GicBitmap {
  import opened MachineBits
  import opened GicBits

  const SPI_START := 32
  const MAX_SPIS := 988
  const IRQ_END := SPI_START + MAX_SPIS
  const MAX_CPUS := 8
  const BITMAP_BYTES := 124

  /** One past the last interrupt a distributor with this `ITLinesNumber` implements. */
  function NumIrqs(itLines: nat): (n: nat)
    ensures SPI_START <= n <= IRQ_END
  {
    var n := (itLines + 1) * 32;
    if n > IRQ_END then IRQ_END else n
  }

  /** The SPIs it implements: 32 interrupts for each line number, as far as there are SPIs. */
  lemma ImplementedIff(itLines: nat, off: nat)
    requires off < 988
    ensures 32 + off < NumIrqs(itLines) <==> 32 + off < 32 * (itLines + 1)
  {
  }

  /** Per-CPU bitmaps, laid out one after the other. */
  type Bitmap = m: seq<bv8> | |m| == MAX_CPUS * BITMAP_BYTES witness seq(MAX_CPUS * BITMAP_BYTES, _ => 0)

  function Slot(cpu: nat, off: nat): (i: nat)
    requires cpu < MAX_CPUS && off < MAX_SPIS
    ensures i < MAX_CPUS * BITMAP_BYTES
  {
    cpu * BITMAP_BYTES + off / 8
  }

  predicate Marked(m: Bitmap, cpu: nat, off: nat)
    requires cpu < MAX_CPUS && off < MAX_SPIS
  {
    Has(m[Slot(cpu, off)], off % 8)
  }

  /** Where the mark of a CPU and an SPI is: 124 bytes for each CPU, eight SPIs to a byte from its lowest bit. */
  lemma MarkedAsNumber(m: Bitmap, cpu: nat, off: nat)
    requires cpu < 8 && off < 988
    ensures Marked(m, cpu, off) <==> (m[124 * cpu + off / 8] as int) / Pow2(off % 8) % 2 == 1
  {
    BitAsNumber(m[Slot(cpu, off)], off % 8);
  }

  function Mark(m: Bitmap, cpu: nat, off: nat): (r: Bitmap)
    requires cpu < MAX_CPUS && off < MAX_SPIS
  {
    m[Slot(cpu, off) := m[Slot(cpu, off)] | Bit8(off % 8)]
  }

  function Unmark(m: Bitmap, cpu: nat, off: nat): (r: Bitmap)
    requires cpu < MAX_CPUS && off < MAX_SPIS
  {
    m[Slot(cpu, off) := m[Slot(cpu, off)] & !Bit8(off % 8)]
  }

  lemma SlotInjective(cpu: nat, off: nat, c: nat, o: nat)
    requires cpu < MAX_CPUS && off < MAX_SPIS && c < MAX_CPUS && o < MAX_SPIS
    ensures Slot(c, o) == Slot(cpu, off) && o % 8 == off % 8 <==> c == cpu && o == off
  {
  }

  lemma MarkAt(m: Bitmap, cpu: nat, off: nat, c: nat, o: nat)
    requires cpu < MAX_CPUS && off < MAX_SPIS && c < MAX_CPUS && o < MAX_SPIS
    ensures Marked(Mark(m, cpu, off), c, o) <==> (c == cpu && o == off) || Marked(m, c, o)
  {
    SlotInjective(cpu, off, c, o);
    SetBitAt(m[Slot(cpu, off)], off % 8, o % 8);
  }

  lemma UnmarkAt(m: Bitmap, cpu: nat, off: nat, c: nat, o: nat)
    requires cpu < MAX_CPUS && off < MAX_SPIS && c < MAX_CPUS && o < MAX_SPIS
    ensures Marked(Unmark(m, cpu, off), c, o) <==> !(c == cpu && o == off) && Marked(m, c, o)
  {
    SlotInjective(cpu, off, c, o);
    ClearBitAt(m[Slot(cpu, off)], off % 8, o % 8);
  }

  /** The CPUs whose bitmap marks SPI `off`. */
  function Markers(m: Bitmap, off: nat): (s: set<nat>)
    requires off < MAX_SPIS
  {
    set c | 0 <= c < MAX_CPUS && Marked(m, c, off)
  }

  lemma MarkersAfter(m: Bitmap, cpu: nat, off: nat, o: nat)
    requires cpu < MAX_CPUS && off < MAX_SPIS && o < MAX_SPIS
    ensures Markers(Mark(m, cpu, off), o) == if o == off then Markers(m, o) + {cpu} else Markers(m, o)
    ensures Markers(Unmark(m, cpu, off), o) == if o == off then Markers(m, o) - {cpu} else Markers(m, o)
  {
    forall c | 0 <= c < MAX_CPUS
      ensures Marked(Mark(m, cpu, off), c, o) <==> (c == cpu && o == off) || Marked(m, c, o)
      ensures Marked(Unmark(m, cpu, off), c, o) <==> !(c == cpu && o == off) && Marked(m, c, o)
    {
      MarkAt(m, cpu, off, c, o);
      UnmarkAt(m, cpu, off, c, o);
    }
  }

  method SetMark(m: array<bv8>, cpu: nat, off: nat)
    requires m.Length == MAX_CPUS * BITMAP_BYTES
    modifies m
    ensures m[..] == if cpu < MAX_CPUS && off < MAX_SPIS then Mark(old(m[..]), cpu, off) else old(m[..])
  {
    if cpu < MAX_CPUS && off < MAX_SPIS {
      m[Slot(cpu, off)] := m[Slot(cpu, off)] | Bit8(off % 8);
    }
  }

  method ClearMark(m: array<bv8>, cpu: nat, off: nat)
    requires m.Length == MAX_CPUS * BITMAP_BYTES
    modifies m
    ensures m[..] == if cpu < MAX_CPUS && off < MAX_SPIS then Unmark(old(m[..]), cpu, off) else old(m[..])
  {
    if cpu < MAX_CPUS && off < MAX_SPIS {
      m[Slot(cpu, off)] := m[Slot(cpu, off)] & !Bit8(off % 8);
    }
  }

  method TestMark(m: array<bv8>, cpu: nat, off: nat) returns (b: bool)
    requires m.Length == MAX_CPUS * BITMAP_BYTES
    ensures b <==> cpu < MAX_CPUS && off < MAX_SPIS && Marked(m[..], cpu, off)
  {
    b := cpu < MAX_CPUS && off < MAX_SPIS && Has(m[Slot(cpu, off)], off % 8);
  }
}
