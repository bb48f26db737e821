/**
 Filling a launch descriptor (QMD): a long sequence of field writes on the cleared descriptor,
 and the overrides a launcher makes afterwards.
 */
module QmdPopulate {
  import opened Bytes
  import opened MachineBits
  import opened QmdBits

  /** Bits `[hi:lo]` and the number to write there. */
  datatype Field = Field(hi: nat, lo: nat, val: nat)

  predicate ValidField(f: Field) {
    f.lo <= f.hi < QMD_BITS && TwoWords(f.hi, f.lo)
  }

  function Width(f: Field): (n: nat)
    requires ValidField(f)
    ensures 0 < n <= 64 && f.lo + n <= QMD_BITS
  {
    f.hi - f.lo + 1
  }

  predicate Apart(f: Field, g: Field) {
    f.hi < g.lo || g.hi < f.lo
  }

  predicate AllValid(fs: seq<Field>) {
    forall i :: 0 <= i < |fs| ==> ValidField(fs[i])
  }

  /** Valid fields, no two of which share a bit. */
  predicate Layout(fs: seq<Field>) {
    AllValid(fs) && forall i, j :: 0 <= i < j < |fs| ==> Apart(fs[i], fs[j])
  }

  function WriteField(b: Bits, f: Field): (r: Bits)
    requires |b| == QMD_BITS && ValidField(f)
    ensures |r| == QMD_BITS
  {
    Splice(b, f.lo, ToBits(f.val, Width(f)))
  }

  /** The descriptor after writing the fields in order. */
  function WriteAll(b: Bits, fs: seq<Field>): (r: Bits)
    requires |b| == QMD_BITS && AllValid(fs)
    ensures |r| == QMD_BITS
  {
    if fs == [] then b else WriteField(WriteAll(b, fs[..|fs| - 1]), fs[|fs| - 1])
  }

  function ReadField(b: Bits, f: Field): (v: nat)
    requires |b| == QMD_BITS && ValidField(f)
  {
    NatOf(b[f.lo..f.hi + 1])
  }

  /** Bit `b` lies in field `f`. */
  predicate Inside(f: Field, b: nat) {
    f.lo <= b <= f.hi
  }

  lemma LastWriteBit(b: Bits, fs: seq<Field>, k: nat)
    requires |b| == QMD_BITS && AllValid(fs) && fs != [] && k < QMD_BITS
    ensures var last := fs[|fs| - 1];
      WriteAll(b, fs)[k] ==
        if Inside(last, k) then ToBits(last.val, Width(last))[k - last.lo] else WriteAll(b, fs[..|fs| - 1])[k]
  {
  }

  /** The last field that holds a bit decides it. */
  lemma {:induction false} LastWriterWins(b: Bits, fs: seq<Field>, i: nat, k: nat)
    requires |b| == QMD_BITS && AllValid(fs) && i < |fs| && Inside(fs[i], k)
    requires forall j :: i < j < |fs| ==> !Inside(fs[j], k)
    ensures WriteAll(b, fs)[k] == ToBits(fs[i].val, Width(fs[i]))[k - fs[i].lo]
  {
    LastWriteBit(b, fs, k);
    if i == |fs| - 1 {
    } else {
      var before := fs[..|fs| - 1];
      assert before[i] == fs[i] && !Inside(fs[|fs| - 1], k);
      LastWriterWins(b, before, i, k);
    }
  }

  /** After all writes of a layout, each field's bits are its own. */
  lemma FieldBit(b: Bits, fs: seq<Field>, i: nat, k: nat)
    requires |b| == QMD_BITS && Layout(fs) && i < |fs| && Inside(fs[i], k)
    ensures WriteAll(b, fs)[k] == ToBits(fs[i].val, Width(fs[i]))[k - fs[i].lo]
  {
    forall j | i < j < |fs|
      ensures !Inside(fs[j], k)
    {
      assert Apart(fs[i], fs[j]);
    }
    LastWriterWins(b, fs, i, k);
  }

  /** All other bits are untouched. */
  lemma {:induction false} UnwrittenBit(b: Bits, fs: seq<Field>, k: nat)
    requires |b| == QMD_BITS && Layout(fs) && k < QMD_BITS && forall i :: 0 <= i < |fs| ==> !Inside(fs[i], k)
    ensures WriteAll(b, fs)[k] == b[k]
  {
    if fs == [] {
    } else {
      LastWriteBit(b, fs, k);
      UnwrittenBit(b, fs[..|fs| - 1], k);
    }
  }

  lemma FieldBits(b: Bits, fs: seq<Field>, i: nat)
    requires |b| == QMD_BITS && Layout(fs) && i < |fs|
    ensures WriteAll(b, fs)[fs[i].lo..fs[i].hi + 1] == ToBits(fs[i].val, Width(fs[i]))
  {
    var f := fs[i];
    var r, t := WriteAll(b, fs)[f.lo..f.hi + 1], ToBits(f.val, Width(f));
    forall k | 0 <= k < |r|
      ensures r[k] == t[k]
    {
      FieldBit(b, fs, i, f.lo + k);
    }
  }

  /** Every field of a layout reads back the number written, cut to the field's width. */
  lemma FieldReadsBack(b: Bits, fs: seq<Field>, i: nat)
    requires |b| == QMD_BITS && Layout(fs) && i < |fs|
    ensures ReadField(WriteAll(b, fs), fs[i]) == fs[i].val % Pow2(Width(fs[i]))
  {
    FieldBits(b, fs, i);
    NatOfToBits(fs[i].val, Width(fs[i]));
  }

  lemma ReadsBackExactly(b: Bits, fs: seq<Field>, i: nat)
    requires |b| == QMD_BITS && Layout(fs) && i < |fs| && fs[i].val < Pow2(Width(fs[i]))
    ensures ReadField(WriteAll(b, fs), fs[i]) == fs[i].val
  {
    FieldReadsBack(b, fs, i);
    SmallMod(fs[i].val, Pow2(Width(fs[i])));
  }

  /**
   An override after the whole sequence is the same as having written that value in the first
   place, so it disturbs no other field.
   */
  lemma OverrideIsUpdate(b: Bits, fs: seq<Field>, i: nat, v: nat)
    requires |b| == QMD_BITS && Layout(fs) && i < |fs|
    ensures var g := fs[i].(val := v);
      && Layout(fs[i := g])
      && WriteField(WriteAll(b, fs), g) == WriteAll(b, fs[i := g])
  {
    var g := fs[i].(val := v);
    var gs := fs[i := g];
    var l, r := WriteField(WriteAll(b, fs), g), WriteAll(b, gs);
    assert Layout(gs) by {
      assert forall j :: 0 <= j < |fs| ==> gs[j].lo == fs[j].lo && gs[j].hi == fs[j].hi;
      forall j, k | 0 <= j < k < |gs|
        ensures Apart(gs[j], gs[k])
      {
        assert Apart(fs[j], fs[k]);
      }
    }
    forall k | 0 <= k < QMD_BITS
      ensures l[k] == r[k]
    {
      OverrideBit(b, fs, i, v, k);
    }
  }

  lemma OverrideBit(b: Bits, fs: seq<Field>, i: nat, v: nat, k: nat)
    requires |b| == QMD_BITS && Layout(fs) && i < |fs| && k < QMD_BITS
    requires Layout(fs[i := fs[i].(val := v)])
    ensures var g := fs[i].(val := v);
      WriteField(WriteAll(b, fs), g)[k] == WriteAll(b, fs[i := g])[k]
  {
    var g := fs[i].(val := v);
    var gs := fs[i := g];
    if Inside(g, k) {
      FieldBit(b, gs, i, k);
    } else if j :| 0 <= j < |fs| && Inside(fs[j], k) {
      assert j != i && gs[j] == fs[j];
      FieldBit(b, fs, j, k);
      FieldBit(b, gs, j, k);
    } else {
      assert forall j :: 0 <= j < |gs| ==> !Inside(gs[j], k);
      UnwrittenBit(b, fs, k);
      UnwrittenBit(b, gs, k);
    }
  }

  // ---------------------------------------------------------------- the fields of a launch

  const CBUF_SIZE := 512

  function Lower32(va: nat): (low: nat) {
    va % 0x1_0000_0000
  }

  /** `(va >> 32) & 0x1FFFF`. */
  function Upper17(va: nat): (high: nat) {
    va / 0x1_0000_0000 % 0x2_0000
  }

  /** Versions, call limit and sampler index. */
  function VersionFields(): (fs: seq<Field>) {
    [Field(583, 580, 3), Field(579, 576, 0), Field(378, 378, 1), Field(382, 382, 0)]
  }

  /** One CTA of one thread. */
  function DimensionFields(): (fs: seq<Field>) {
    [Field(415, 384, 1), Field(431, 416, 1), Field(463, 448, 1),
     Field(607, 592, 1), Field(623, 608, 1), Field(639, 624, 1)]
  }

  /** Shader address; registers, shared and local memory, barriers. */
  function ProgramFields(shader: nat, registers: nat): (fs: seq<Field>) {
    [Field(1567, 1536, Lower32(shader)), Field(1584, 1568, Upper17(shader)),
     Field(656, 648, registers), Field(561, 544, 0), Field(759, 736, 0), Field(1623, 1600, 0), Field(767, 763, 0)]
  }

  /** Global caching and the six cache invalidates. */
  function CacheFields(): (fs: seq<Field>) {
    [Field(134, 134, 1), Field(186, 186, 1), Field(187, 187, 1), Field(188, 188, 1),
     Field(189, 189, 1), Field(190, 190, 1), Field(191, 191, 1)]
  }

  /** Constant buffer 0. */
  function CbufFields(cbuf: nat): (fs: seq<Field>) {
    [Field(1055, 1024, Lower32(cbuf)), Field(1072, 1056, Upper17(cbuf)),
     Field(1087, 1075, CBUF_SIZE / 16), Field(640, 640, 1)]
  }

  /** The writes of one population, in order. */
  function LaunchFields(shader: nat, cbuf: nat, registers: nat): (fs: seq<Field>)
    ensures |fs| == 28
  {
    VersionFields() + DimensionFields() + ProgramFields(shader, registers) + CacheFields() + CbufFields(cbuf)
  }

  lemma LaunchGroups(shader: nat, cbuf: nat, registers: nat)
    ensures var fs := LaunchFields(shader, cbuf, registers);
      && fs[0..4] == VersionFields() && fs[4..10] == DimensionFields()
      && fs[10..17] == ProgramFields(shader, registers)
      && fs[17..24] == CacheFields() && fs[24..28] == CbufFields(cbuf)
      && fs[..28] == fs
  {
    var fs := LaunchFields(shader, cbuf, registers);
    assert fs == VersionFields()
      + (DimensionFields() + (ProgramFields(shader, registers) + (CacheFields() + CbufFields(cbuf))));
    assert fs[24..28] == fs[24..];
  }

  lemma LaunchValid(shader: nat, cbuf: nat, registers: nat)
    ensures AllValid(LaunchFields(shader, cbuf, registers))
  {
  }

  /** The only field that can own bit `b`: the fields in ascending order, by their last bit. */
  function Owner(b: nat): (i: nat) {
    if b <= 134 then 17 else if b <= 186 then 18 else if b <= 187 then 19 else if b <= 188 then 20 else
    if b <= 189 then 21 else if b <= 190 then 22 else if b <= 191 then 23 else if b <= 378 then 2 else
    if b <= 382 then 3 else if b <= 415 then 4 else if b <= 431 then 5 else if b <= 463 then 6 else
    if b <= 561 then 13 else if b <= 579 then 1 else if b <= 583 then 0 else if b <= 607 then 7 else
    if b <= 623 then 8 else if b <= 639 then 9 else if b <= 640 then 27 else if b <= 656 then 12 else
    if b <= 759 then 14 else if b <= 767 then 16 else if b <= 1055 then 24 else if b <= 1072 then 25 else
    if b <= 1087 then 26 else if b <= 1567 then 10 else if b <= 1584 then 11 else if b <= 1623 then 15 else
    28
  }

  lemma OwnerOf(shader: nat, cbuf: nat, registers: nat, i: nat, b: nat)
    requires i < |LaunchFields(shader, cbuf, registers)| && Inside(LaunchFields(shader, cbuf, registers)[i], b)
    ensures Owner(b) == i
  {
  }

  lemma LaunchApart(shader: nat, cbuf: nat, registers: nat, i: nat, j: nat)
    requires i < j < 28
    requires var fs := LaunchFields(shader, cbuf, registers); ValidField(fs[i]) && ValidField(fs[j])
    ensures Apart(LaunchFields(shader, cbuf, registers)[i], LaunchFields(shader, cbuf, registers)[j])
  {
    var f, g := LaunchFields(shader, cbuf, registers)[i], LaunchFields(shader, cbuf, registers)[j];
    var b := if f.lo < g.lo then g.lo else f.lo;
    if Inside(f, b) && Inside(g, b) {
      OwnerOf(shader, cbuf, registers, i, b);
      OwnerOf(shader, cbuf, registers, j, b);
    }
  }

  lemma LaunchLayout(shader: nat, cbuf: nat, registers: nat)
    ensures Layout(LaunchFields(shader, cbuf, registers))
  {
    LaunchValid(shader, cbuf, registers);
    var fs := LaunchFields(shader, cbuf, registers);
    forall i, j | 0 <= i < j < |fs|
      ensures Apart(fs[i], fs[j])
    {
      assert ValidField(fs[i]) && ValidField(fs[j]);
      LaunchApart(shader, cbuf, registers, i, j);
    }
  }

  // ---------------------------------------------------------------- what a populated descriptor holds

  function Zeros(): (b: Bits)
    ensures |b| == QMD_BITS
  {
    seq(QMD_BITS, _ => false)
  }

  /** The descriptor after the whole population. */
  function Populated(shader: nat, cbuf: nat, registers: nat): (b: Bits)
    ensures |b| == QMD_BITS
  {
    LaunchLayout(shader, cbuf, registers);
    WriteAll(Zeros(), LaunchFields(shader, cbuf, registers))
  }

  lemma Pow2Values()
    ensures Pow2(1) == 2 && Pow2(4) == 16 && Pow2(5) == 32 && Pow2(9) == 512 && Pow2(13) == 8192
    ensures Pow2(16) == 0x1_0000 && Pow2(17) == 0x2_0000 && Pow2(18) == 0x4_0000
    ensures Pow2(24) == 0x100_0000 && Pow2(32) == 0x1_0000_0000
  {
  }

  /** The register count's place among the written fields. */
  const REGISTERS := 12

  /** Every value written fits its field, the register count if it has at most nine bits. */
  lemma ValuesFit(shader: nat, cbuf: nat, registers: nat, i: nat)
    requires i < |LaunchFields(shader, cbuf, registers)| && (i == REGISTERS ==> registers < 512)
    ensures var f := LaunchFields(shader, cbuf, registers)[i];
      ValidField(f) && f.val < Pow2(Width(f))
  {
    Pow2Values();
  }

  /** Every field reads back its intended value. */
  lemma EveryFieldReadsBack(shader: nat, cbuf: nat, registers: nat, i: nat)
    requires i < |LaunchFields(shader, cbuf, registers)| && (i == REGISTERS ==> registers < 512)
    ensures var f := LaunchFields(shader, cbuf, registers)[i];
      ValidField(f) && ReadField(Populated(shader, cbuf, registers), f) == f.val
  {
    LaunchLayout(shader, cbuf, registers);
    ValuesFit(shader, cbuf, registers, i);
    ReadsBackExactly(Zeros(), LaunchFields(shader, cbuf, registers), i);
  }

  /** Every bit outside the listed fields is zero. */
  lemma UnlistedBitsAreZero(shader: nat, cbuf: nat, registers: nat, k: nat)
    requires k < QMD_BITS
    requires forall i :: 0 <= i < |LaunchFields(shader, cbuf, registers)| ==>
      !Inside(LaunchFields(shader, cbuf, registers)[i], k)
    ensures !Populated(shader, cbuf, registers)[k]
  {
    LaunchLayout(shader, cbuf, registers);
    UnwrittenBit(Zeros(), LaunchFields(shader, cbuf, registers), k);
  }

  /**
   A populated descriptor by its bit ranges: versions, limits and one CTA of one thread; the register
   count cut to nine bits, no memory and no barriers; every cache invalidated; one constant buffer of
   512 bytes, in units of 16. The addresses are in `AddressesReassemble`.
   */
  lemma DescriptorHolds(shader: nat, cbuf: nat, registers: nat)
    ensures var q := Populated(shader, cbuf, registers);
      && ReadField(q, Field(583, 580, 0)) == 3 && ReadField(q, Field(579, 576, 0)) == 0
      && ReadField(q, Field(378, 378, 0)) == 1 && ReadField(q, Field(382, 382, 0)) == 0
      && ReadField(q, Field(415, 384, 0)) == 1 && ReadField(q, Field(431, 416, 0)) == 1
      && ReadField(q, Field(463, 448, 0)) == 1 && ReadField(q, Field(607, 592, 0)) == 1
      && ReadField(q, Field(623, 608, 0)) == 1 && ReadField(q, Field(639, 624, 0)) == 1
      && ReadField(q, Field(656, 648, 0)) == registers % 512
      && ReadField(q, Field(561, 544, 0)) == 0 && ReadField(q, Field(759, 736, 0)) == 0
      && ReadField(q, Field(1623, 1600, 0)) == 0 && ReadField(q, Field(767, 763, 0)) == 0
      && ReadField(q, Field(134, 134, 0)) == 1 && ReadField(q, Field(186, 186, 0)) == 1
      && ReadField(q, Field(187, 187, 0)) == 1 && ReadField(q, Field(188, 188, 0)) == 1
      && ReadField(q, Field(189, 189, 0)) == 1 && ReadField(q, Field(190, 190, 0)) == 1
      && ReadField(q, Field(191, 191, 0)) == 1
      && ReadField(q, Field(1087, 1075, 0)) == 32 && ReadField(q, Field(640, 640, 0)) == 1
  {
    VersionsHold(shader, cbuf, registers);
    DimensionsHold(shader, cbuf, registers);
    RegistersHold(shader, cbuf, registers);
    ProgramHolds(shader, cbuf, registers);
    CachesHold(shader, cbuf, registers);
    CbufHolds(shader, cbuf, registers);
  }

  /** A field reads back by its bit range alone. */
  lemma RangeReads(shader: nat, cbuf: nat, registers: nat, i: nat, hi: nat, lo: nat)
    requires i < |LaunchFields(shader, cbuf, registers)| && i != REGISTERS
    requires var f := LaunchFields(shader, cbuf, registers)[i]; f.hi == hi && f.lo == lo
    ensures ValidField(Field(hi, lo, 0))
    ensures var q := Populated(shader, cbuf, registers);
      ReadField(q, Field(hi, lo, 0)) == LaunchFields(shader, cbuf, registers)[i].val
  {
    EveryFieldReadsBack(shader, cbuf, registers, i);
  }

  lemma VersionsHold(shader: nat, cbuf: nat, registers: nat)
    ensures var q := Populated(shader, cbuf, registers);
      && ReadField(q, Field(583, 580, 0)) == 3 && ReadField(q, Field(579, 576, 0)) == 0
      && ReadField(q, Field(378, 378, 0)) == 1 && ReadField(q, Field(382, 382, 0)) == 0
  {
    RangeReads(shader, cbuf, registers, 0, 583, 580);
    RangeReads(shader, cbuf, registers, 1, 579, 576);
    RangeReads(shader, cbuf, registers, 2, 378, 378);
    RangeReads(shader, cbuf, registers, 3, 382, 382);
  }

  lemma DimensionsHold(shader: nat, cbuf: nat, registers: nat)
    ensures var q := Populated(shader, cbuf, registers);
      && ReadField(q, Field(415, 384, 0)) == 1 && ReadField(q, Field(431, 416, 0)) == 1
      && ReadField(q, Field(463, 448, 0)) == 1 && ReadField(q, Field(607, 592, 0)) == 1
      && ReadField(q, Field(623, 608, 0)) == 1 && ReadField(q, Field(639, 624, 0)) == 1
  {
    RangeReads(shader, cbuf, registers, 4, 415, 384);
    RangeReads(shader, cbuf, registers, 5, 431, 416);
    RangeReads(shader, cbuf, registers, 6, 463, 448);
    RangeReads(shader, cbuf, registers, 7, 607, 592);
    RangeReads(shader, cbuf, registers, 8, 623, 608);
    RangeReads(shader, cbuf, registers, 9, 639, 624);
  }

  lemma RegistersHold(shader: nat, cbuf: nat, registers: nat)
    ensures ReadField(Populated(shader, cbuf, registers), Field(656, 648, 0)) == registers % 512
  {
    LaunchLayout(shader, cbuf, registers);
    FieldReadsBack(Zeros(), LaunchFields(shader, cbuf, registers), REGISTERS);
    Pow2Values();
  }

  lemma ProgramHolds(shader: nat, cbuf: nat, registers: nat)
    ensures var q := Populated(shader, cbuf, registers);
      && ReadField(q, Field(561, 544, 0)) == 0 && ReadField(q, Field(759, 736, 0)) == 0
      && ReadField(q, Field(1623, 1600, 0)) == 0 && ReadField(q, Field(767, 763, 0)) == 0
  {
    RangeReads(shader, cbuf, registers, 13, 561, 544);
    RangeReads(shader, cbuf, registers, 14, 759, 736);
    RangeReads(shader, cbuf, registers, 15, 1623, 1600);
    RangeReads(shader, cbuf, registers, 16, 767, 763);
  }

  lemma CachesHold(shader: nat, cbuf: nat, registers: nat)
    ensures var q := Populated(shader, cbuf, registers);
      && ReadField(q, Field(134, 134, 0)) == 1 && ReadField(q, Field(186, 186, 0)) == 1
      && ReadField(q, Field(187, 187, 0)) == 1 && ReadField(q, Field(188, 188, 0)) == 1
      && ReadField(q, Field(189, 189, 0)) == 1 && ReadField(q, Field(190, 190, 0)) == 1
      && ReadField(q, Field(191, 191, 0)) == 1
  {
    RangeReads(shader, cbuf, registers, 17, 134, 134);
    RangeReads(shader, cbuf, registers, 18, 186, 186);
    RangeReads(shader, cbuf, registers, 19, 187, 187);
    RangeReads(shader, cbuf, registers, 20, 188, 188);
    RangeReads(shader, cbuf, registers, 21, 189, 189);
    RangeReads(shader, cbuf, registers, 22, 190, 190);
    RangeReads(shader, cbuf, registers, 23, 191, 191);
  }

  lemma CbufHolds(shader: nat, cbuf: nat, registers: nat)
    ensures var q := Populated(shader, cbuf, registers);
      ReadField(q, Field(1087, 1075, 0)) == 32 && ReadField(q, Field(640, 640, 0)) == 1
  {
    RangeReads(shader, cbuf, registers, 26, 1087, 1075);
    RangeReads(shader, cbuf, registers, 27, 640, 640);
  }

  /** The bits of a descriptor that a population may set. */
  predicate Listed(k: nat) {
    || k == 134 || 186 <= k <= 191 || k == 378 || k == 382 || 384 <= k <= 431 || 448 <= k <= 463 || 544 <= k <= 561
    || 576 <= k <= 583 || 592 <= k <= 640 || 648 <= k <= 656 || 736 <= k <= 759 || 763 <= k <= 767
    || 1024 <= k <= 1072 || 1075 <= k <= 1087 || 1536 <= k <= 1584 || 1600 <= k <= 1623
  }

  /** Every other bit is zero. */
  lemma OtherBitsAreZero(shader: nat, cbuf: nat, registers: nat, k: nat)
    requires k < 2048 && !Listed(k)
    ensures !Populated(shader, cbuf, registers)[k]
  {
    forall i | 0 <= i < |LaunchFields(shader, cbuf, registers)|
      ensures !Inside(LaunchFields(shader, cbuf, registers)[i], k)
    {
      ListedField(shader, cbuf, registers, i, k);
    }
    UnlistedBitsAreZero(shader, cbuf, registers, k);
  }

  lemma ListedField(shader: nat, cbuf: nat, registers: nat, i: nat, k: nat)
    requires i < |LaunchFields(shader, cbuf, registers)|
    ensures Inside(LaunchFields(shader, cbuf, registers)[i], k) ==> Listed(k)
  {
  }

  /** A 49-bit address put together from its 32-bit and 17-bit halves. */
  function Joined(b: Bits, lower: Field, upper: Field): (va: nat)
    requires |b| == QMD_BITS && ValidField(lower) && ValidField(upper)
  {
    ReadField(b, lower) + 0x1_0000_0000 * ReadField(b, upper)
  }

  /** Both split addresses come back exactly if they are below 2^49; otherwise cut to 49 bits. */
  lemma AddressesReassemble(shader: nat, cbuf: nat, registers: nat)
    ensures var q := Populated(shader, cbuf, registers);
      && Joined(q, Field(1567, 1536, 0), Field(1584, 1568, 0)) == shader % 0x2_0000_0000_0000
      && Joined(q, Field(1055, 1024, 0), Field(1072, 1056, 0)) == cbuf % 0x2_0000_0000_0000
  {
    EveryFieldReadsBack(shader, cbuf, registers, 10);
    EveryFieldReadsBack(shader, cbuf, registers, 11);
    EveryFieldReadsBack(shader, cbuf, registers, 24);
    EveryFieldReadsBack(shader, cbuf, registers, 25);
    SplitJoin(shader);
    SplitJoin(cbuf);
  }

  lemma SplitJoin(va: nat)
    ensures Lower32(va) + 0x1_0000_0000 * Upper17(va) == va % 0x2_0000_0000_0000
  {
  }

  // ---------------------------------------------------------------- overrides

  /** An override: which of the written fields, and its new value. */
  datatype Override = Override(field: nat, val: nat)

  function Overridden(fs: seq<Field>, os: seq<Override>): (gs: seq<Field>)
    requires forall o :: o in os ==> o.field < |fs|
    ensures |gs| == |fs|
    ensures forall i :: 0 <= i < |fs| ==> gs[i].lo == fs[i].lo && gs[i].hi == fs[i].hi
  {
    if os == [] then fs
    else
      var gs, o := Overridden(fs, os[..|os| - 1]), os[|os| - 1];
      gs[o.field := gs[o.field].(val := o.val)]
  }

  function ApplyOverrides(b: Bits, fs: seq<Field>, os: seq<Override>): (r: Bits)
    requires |b| == QMD_BITS && AllValid(fs) && forall o :: o in os ==> o.field < |fs|
    ensures |r| == QMD_BITS
  {
    if os == [] then b
    else
      var o := os[|os| - 1];
      WriteField(ApplyOverrides(b, fs, os[..|os| - 1]), fs[o.field].(val := o.val))
  }

  /** Any number of overrides of written fields equals one population with the last values. */
  lemma {:induction false} OverridesAreUpdates(b: Bits, fs: seq<Field>, os: seq<Override>)
    requires |b| == QMD_BITS && Layout(fs) && forall o :: o in os ==> o.field < |fs|
    ensures Layout(Overridden(fs, os))
    ensures ApplyOverrides(WriteAll(b, fs), fs, os) == WriteAll(b, Overridden(fs, os))
  {
    if os == [] {
    } else {
      var before, o := os[..|os| - 1], os[|os| - 1];
      OverridesAreUpdates(b, fs, before);
      var gs := Overridden(fs, before);
      OverrideIsUpdate(b, gs, o.field, o.val);
      assert gs[o.field].(val := o.val) == fs[o.field].(val := o.val);
    }
  }

  lemma {:induction false} UntouchedField(fs: seq<Field>, os: seq<Override>, i: nat)
    requires (forall o :: o in os ==> o.field < |fs| && o.field != i) && i < |fs|
    ensures Overridden(fs, os)[i] == fs[i]
  {
    if os == [] {
    } else {
      UntouchedField(fs, os[..|os| - 1], i);
    }
  }

  lemma KeptUnderOverrides(b: Bits, fs: seq<Field>, os: seq<Override>, i: nat)
    requires |b| == QMD_BITS && Layout(fs) && i < |fs| && fs[i].val < Pow2(Width(fs[i]))
    requires forall o :: o in os ==> o.field < |fs| && o.field != i
    ensures ReadField(ApplyOverrides(WriteAll(b, fs), fs, os), fs[i]) == fs[i].val
  {
    OverridesAreUpdates(b, fs, os);
    UntouchedField(fs, os, i);
    ReadsBackExactly(b, Overridden(fs, os), i);
  }

  /** The six grid and block dimension fields. */
  predicate IsDimension(i: nat) {
    4 <= i <= 9
  }

  predicate OnlyDimensions(os: seq<Override>)
    ensures OnlyDimensions(os) ==> forall o :: o in os ==> o.field < 28
  {
    forall o :: o in os ==> IsDimension(o.field)
  }

  /** Overriding dimensions, any number of times, leaves every other field at its intended value. */
  lemma OverridesDisturbNothing(shader: nat, cbuf: nat, registers: nat, os: seq<Override>, i: nat)
    requires OnlyDimensions(os) && (i == REGISTERS ==> registers < 512)
    requires i < |LaunchFields(shader, cbuf, registers)| && !IsDimension(i)
    ensures var fs := LaunchFields(shader, cbuf, registers);
      && AllValid(fs)
      && ReadField(ApplyOverrides(Populated(shader, cbuf, registers), fs, os), fs[i]) == fs[i].val
  {
    LaunchLayout(shader, cbuf, registers);
    ValuesFit(shader, cbuf, registers, i);
    KeptUnderOverrides(Zeros(), LaunchFields(shader, cbuf, registers), os, i);
  }

  // ---------------------------------------------------------------- in place

  /** `q` holds the first `k` writes of `fs` on a cleared descriptor. */
  ghost predicate Written(q: Qmd, fs: seq<Field>, k: nat) {
    k <= |fs| && AllValid(fs) && Flat(q) == WriteAll(Zeros(), fs[..k])
  }

  lemma WrittenNext(q: Qmd, fs: seq<Field>, k: nat)
    requires k < |fs| && Written(q, fs, k)
    ensures ValidField(fs[k]) && Written(SetBits(q, fs[k].hi, fs[k].lo, ToBits(fs[k].val, 64)), fs, k + 1)
  {
    var f := fs[k];
    SetBitsFlat(q, f.hi, f.lo, ToBits(f.val, 64));
    ToBitsPrefix(f.val, Width(f), 64);
    assert fs[..k + 1][..k] == fs[..k];
  }

  /** One call of the writer with the next field of `fs`. */
  method WriteNext(qmd: array<Word>, hi: nat, lo: nat, val: nat, ghost fs: seq<Field>, ghost k: nat)
    requires qmd.Length == QMD_WORDS && k < |fs| && Field(hi, lo, val) == fs[k] && Written(qmd[..], fs, k)
    modifies qmd
    ensures Written(qmd[..], fs, k + 1)
  {
    WrittenNext(qmd[..], fs, k);
    SetBitsInPlace(qmd, hi, lo, ToBits(val, 64));
  }

  method WriteThree(qmd: array<Word>, f: Field, g: Field, h: Field, ghost fs: seq<Field>, ghost k: nat)
    requires qmd.Length == QMD_WORDS && k + 3 <= |fs| && Written(qmd[..], fs, k)
    requires f == fs[k] && g == fs[k + 1] && h == fs[k + 2]
    modifies qmd
    ensures Written(qmd[..], fs, k + 3)
  {
    WriteNext(qmd, f.hi, f.lo, f.val, fs, k);
    WriteNext(qmd, g.hi, g.lo, g.val, fs, k + 1);
    WriteNext(qmd, h.hi, h.lo, h.val, fs, k + 2);
  }

  method ClearQmd(qmd: array<Word>)
    requires qmd.Length == QMD_WORDS
    modifies qmd
    ensures Flat(qmd[..]) == Zeros()
  {
    for i := 0 to QMD_WORDS
      invariant forall k :: 0 <= k < i ==> qmd[k] == Ones(0, 32)
    {
      qmd[i] := Ones(0, 32);
    }
    forall b | 0 <= b < QMD_BITS
      ensures !BitOf(qmd[..], b)
    {
      assert qmd[..][b / 32] == Ones(0, 32);
    }
  }

  method WriteVersions(qmd: array<Word>, ghost fs: seq<Field>)
    requires qmd.Length == QMD_WORDS && |fs| == 28 && Written(qmd[..], fs, 0)
    requires fs[0..4] == VersionFields()
    modifies qmd
    ensures Written(qmd[..], fs, 4)
  {
    ghost var g := VersionFields();
    assert forall k :: 0 <= k < |g| ==> fs[0 + k] == fs[0..4][k] == g[k];
    WriteThree(qmd, Field(583, 580, 3), Field(579, 576, 0), Field(378, 378, 1), fs, 0);
    WriteNext(qmd, 382, 382, 0, fs, 3);
  }

  method WriteDimensions(qmd: array<Word>, ghost fs: seq<Field>)
    requires qmd.Length == QMD_WORDS && |fs| == 28 && Written(qmd[..], fs, 4)
    requires fs[4..10] == DimensionFields()
    modifies qmd
    ensures Written(qmd[..], fs, 10)
  {
    ghost var g := DimensionFields();
    assert forall k :: 0 <= k < |g| ==> fs[4 + k] == fs[4..10][k] == g[k];
    WriteThree(qmd, Field(415, 384, 1), Field(431, 416, 1), Field(463, 448, 1), fs, 4);
    WriteThree(qmd, Field(607, 592, 1), Field(623, 608, 1), Field(639, 624, 1), fs, 7);
  }

  method WriteProgram(qmd: array<Word>, shader: nat, registers: nat, ghost fs: seq<Field>)
    requires qmd.Length == QMD_WORDS && |fs| == 28 && Written(qmd[..], fs, 10)
    requires fs[10..17] == ProgramFields(shader, registers)
    modifies qmd
    ensures Written(qmd[..], fs, 17)
  {
    ghost var g := ProgramFields(shader, registers);
    assert forall k :: 0 <= k < |g| ==> fs[10 + k] == fs[10..17][k] == g[k];
    WriteThree(qmd, Field(1567, 1536, Lower32(shader)), Field(1584, 1568, Upper17(shader)),
               Field(656, 648, registers), fs, 10);
    WriteThree(qmd, Field(561, 544, 0), Field(759, 736, 0), Field(1623, 1600, 0), fs, 13);
    WriteNext(qmd, 767, 763, 0, fs, 16);
  }

  method WriteCaches(qmd: array<Word>, ghost fs: seq<Field>)
    requires qmd.Length == QMD_WORDS && |fs| == 28 && Written(qmd[..], fs, 17)
    requires fs[17..24] == CacheFields()
    modifies qmd
    ensures Written(qmd[..], fs, 24)
  {
    ghost var g := CacheFields();
    assert forall k :: 0 <= k < |g| ==> fs[17 + k] == fs[17..24][k] == g[k];
    WriteThree(qmd, Field(134, 134, 1), Field(186, 186, 1), Field(187, 187, 1), fs, 17);
    WriteThree(qmd, Field(188, 188, 1), Field(189, 189, 1), Field(190, 190, 1), fs, 20);
    WriteNext(qmd, 191, 191, 1, fs, 23);
  }

  method WriteCbuf(qmd: array<Word>, cbuf: nat, ghost fs: seq<Field>)
    requires qmd.Length == QMD_WORDS && |fs| == 28 && Written(qmd[..], fs, 24)
    requires fs[24..28] == CbufFields(cbuf)
    modifies qmd
    ensures Written(qmd[..], fs, 28)
  {
    ghost var g := CbufFields(cbuf);
    assert forall k :: 0 <= k < |g| ==> fs[24 + k] == fs[24..28][k] == g[k];
    WriteThree(qmd, Field(1055, 1024, Lower32(cbuf)), Field(1072, 1056, Upper17(cbuf)),
               Field(1087, 1075, CBUF_SIZE / 16), fs, 24);
    WriteNext(qmd, 640, 640, 1, fs, 27);
  }

  /** The whole population, write by write. */
  method PopulateInPlace(qmd: array<Word>, shader: nat, cbuf: nat, registers: nat)
    requires qmd.Length == QMD_WORDS
    modifies qmd
    ensures Flat(qmd[..]) == Populated(shader, cbuf, registers)
  {
    ghost var fs := LaunchFields(shader, cbuf, registers);
    LaunchGroups(shader, cbuf, registers);
    LaunchLayout(shader, cbuf, registers);
    ClearQmd(qmd);
    WriteVersions(qmd, fs);
    WriteDimensions(qmd, fs);
    WriteProgram(qmd, shader, registers, fs);
    WriteCaches(qmd, fs);
    WriteCbuf(qmd, cbuf, fs);
  }
}
