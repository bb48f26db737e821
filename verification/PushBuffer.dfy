/**
 The GPU command stream: method headers, the stream that launches a compute descriptor, and the
 ring entry that submits a stream. Words are numbers below 2^32; the masked fields of a header
 never overlap, so combining them with `|` is adding them.
 */
module PushBuffer {
  import opened Bytes
  import MachineBits

  type Dword = w: nat | w < U32

  /** `GPU_HDR_INC`: `count` data words follow, for consecutive methods from byte offset `off`. */
  function HdrInc(count: nat, subch: nat, off: nat): (h: Dword) {
    1 * 0x2000_0000 + count % 0x2000 * 0x1_0000 + subch % 8 * 0x2000 + off / 4 % 0x2000
  }

  /** `GPU_HDR_IMMD`: the data is in the header itself. */
  function HdrImmd(subch: nat, off: nat, data: nat): (h: Dword) {
    4 * 0x2000_0000 + data % 0x2000 * 0x1_0000 + subch % 8 * 0x2000 + off / 4 % 0x2000
  }

  function Opcode(h: Dword): (k: nat) {
    h / 0x2000_0000
  }

  function Count(h: Dword): (c: nat) {
    h / 0x1_0000 % 0x2000
  }

  function Subchannel(h: Dword): (s: nat) {
    h / 0x2000 % 8
  }

  function Offset(h: Dword): (o: nat) {
    h % 0x2000 * 4
  }

  /** A header gives back what went in exactly when each part fits its field. */
  lemma HdrIncIff(count: nat, subch: nat, off: nat)
    ensures var h := HdrInc(count, subch, off);
      && Opcode(h) == 1
      && (Count(h) == count <==> count < 0x2000)
      && (Subchannel(h) == subch <==> subch < 8)
      && (Offset(h) == off <==> off % 4 == 0 && off < 0x8000)
  {
    HeaderParts(1, count % 0x2000, subch % 8, off / 4 % 0x2000);
  }

  lemma HdrImmdIff(subch: nat, off: nat, data: nat)
    ensures var h := HdrImmd(subch, off, data);
      && Opcode(h) == 4
      && (Count(h) == data <==> data < 0x2000)
      && (Subchannel(h) == subch <==> subch < 8)
      && (Offset(h) == off <==> off % 4 == 0 && off < 0x8000)
  {
    HeaderParts(4, data % 0x2000, subch % 8, off / 4 % 0x2000);
  }

  lemma HeaderParts(op: nat, c: nat, s: nat, o: nat)
    requires op < 8 && c < 0x2000 && s < 8 && o < 0x2000
    ensures var h := op * 0x2000_0000 + c * 0x1_0000 + s * 0x2000 + o;
      h < U32 && Opcode(h) == op && Count(h) == c && Subchannel(h) == s && h % 0x2000 == o
  {
    var h := op * 0x2000_0000 + c * 0x1_0000 + s * 0x2000 + o;
    Digit(0x2000_0000, op, c * 0x1_0000 + s * 0x2000 + o);
    Digit(0x1_0000, op * 0x2000 + c, s * 0x2000 + o);
    Digit(0x2000, op, c);
    assert h / 0x1_0000 == op * 0x2000 + c;
    Digit(0x2000, (op * 0x2000 + c) * 8 + s, o);
    Digit(8, op * 0x2000 + c, s);
    assert h / 0x2000 == (op * 0x2000 + c) * 8 + s;
  }

  lemma Digit(m: nat, high: nat, low: nat)
    requires low < m
    ensures (high * m + low) / m == high && (high * m + low) % m == low
  {
    var v := high * m + low;
    var k := v / m - high;
    assert m * k == low - v % m;
    MachineBits.MultipleIsFar(m, k);
  }

  // ---------------------------------------------------------------- streams of packets

  datatype Packet =
    | Inc(subch: nat, off: nat, data: seq<Dword>)
    | Immd(subch: nat, off: nat, value: nat)

  predicate InRange(p: Packet) {
    && p.subch < 8 && p.off % 4 == 0 && p.off < 0x8000
    && (p.Inc? ==> |p.data| < 0x2000)
    && (p.Immd? ==> p.value < 0x2000)
  }

  function EncodePacket(p: Packet): (ws: seq<Dword>)
    ensures |ws| > 0
  {
    match p
    case Inc(s, o, data) => [HdrInc(|data|, s, o)] + data
    case Immd(s, o, v) => [HdrImmd(s, o, v)]
  }

  function Encode(ps: seq<Packet>): (ws: seq<Dword>) {
    if ps == [] then [] else EncodePacket(ps[0]) + Encode(ps[1..])
  }

  /** What the host engine makes of a stream: the packets, or nothing if it is malformed. */
  function Decode(ws: seq<Dword>): (ps: Option<seq<Packet>>)
    decreases |ws|
  {
    if ws == [] then Some([])
    else
      var h := ws[0];
      if Opcode(h) == 4 then
        match Decode(ws[1..])
        case None => None
        case Some(rest) => Some([Immd(Subchannel(h), Offset(h), Count(h))] + rest)
      else if Opcode(h) == 1 && 1 + Count(h) <= |ws| then
        match Decode(ws[1 + Count(h)..])
        case None => None
        case Some(rest) => Some([Inc(Subchannel(h), Offset(h), ws[1..1 + Count(h)])] + rest)
      else None
  }

  lemma DecodePacket(p: Packet, tail: seq<Dword>)
    requires InRange(p) && Decode(tail).Some?
    ensures Decode(EncodePacket(p) + tail) == Some([p] + Decode(tail).value)
  {
    var ws := EncodePacket(p) + tail;
    match p
    case Inc(s, o, data) =>
      HdrIncIff(|data|, s, o);
      assert ws[1..1 + |data|] == data;
      assert ws[1 + |data|..] == tail;
    case Immd(s, o, v) =>
      HdrImmdIff(s, o, v);
      assert ws[1..] == tail;
  }

  /** Decoding the words of any list of in-range packets returns that list. */
  lemma {:induction false} DecodeEncode(ps: seq<Packet>)
    requires forall p :: p in ps ==> InRange(p)
    ensures Decode(Encode(ps)) == Some(ps)
  {
    if ps == [] {
    } else {
      DecodeEncode(ps[1..]);
      DecodePacket(ps[0], Encode(ps[1..]));
      assert [ps[0]] + ps[1..] == ps;
    }
  }

  lemma EncodeFrom(ps: seq<Packet>, i: nat)
    requires i < |ps|
    ensures Encode(ps[i..]) == EncodePacket(ps[i]) + Encode(ps[i + 1..])
  {
    assert ps[i..][1..] == ps[i + 1..];
  }

  // ---------------------------------------------------------------- the launch stream

  const SUBCH := 1
  const CLASS_COMPUTE := 0xC7C0

  /** The descriptor address goes in shifted right by 8 and cut to 32 bits. */
  function PcasWord(va: nat): (w: Dword) {
    va / 256 % U32
  }

  function LaunchPackets(va: nat): (ps: seq<Packet>) {
    [Inc(SUBCH, 0x0000, [CLASS_COMPUTE]),
     Inc(SUBCH, 0x02a0, [0, 0xfe00_0000]),
     Inc(SUBCH, 0x07b0, [0, 0xff00_0000]),
     Immd(SUBCH, 0x0298, 0),
     Immd(SUBCH, 0x0244, 0),
     Immd(SUBCH, 0x021c, 0x1017),
     Inc(SUBCH, 0x02b4, [PcasWord(va)]),
     Immd(SUBCH, 0x02c0, 0xA)]
  }

  function LaunchWords(va: nat): (ws: seq<Dword>)
    ensures |ws| == 14
  {
    [HdrInc(1, SUBCH, 0x0000), CLASS_COMPUTE,
     HdrInc(2, SUBCH, 0x02a0), 0, 0xfe00_0000,
     HdrInc(2, SUBCH, 0x07b0), 0, 0xff00_0000,
     HdrImmd(SUBCH, 0x0298, 0), HdrImmd(SUBCH, 0x0244, 0), HdrImmd(SUBCH, 0x021c, 0x1017),
     HdrInc(1, SUBCH, 0x02b4), PcasWord(va),
     HdrImmd(SUBCH, 0x02c0, 0xA)]
  }

  /** The fourteen words are the encoding of the eight launch packets. */
  lemma LaunchIsEncoded(va: nat)
    ensures LaunchWords(va) == Encode(LaunchPackets(va))
  {
    var ps, ws := LaunchPackets(va), LaunchWords(va);
    assert Encode(ps[8..]) == ws[14..];
    LaunchTail(va, ps, ws);
    LaunchMiddle(va, ps, ws);
    EncodeFrom(ps, 1);
    assert Encode(ps[1..]) == ws[2..];
    EncodeFrom(ps, 0);
    assert ps[0..] == ps;
  }

  lemma LaunchTail(va: nat, ps: seq<Packet>, ws: seq<Dword>)
    requires ps == LaunchPackets(va) && ws == LaunchWords(va) && Encode(ps[8..]) == ws[14..]
    ensures Encode(ps[4..]) == ws[9..]
  {
    EncodeFrom(ps, 7);
    assert Encode(ps[7..]) == ws[13..];
    EncodeFrom(ps, 6);
    assert Encode(ps[6..]) == ws[11..];
    EncodeFrom(ps, 5);
    assert Encode(ps[5..]) == ws[10..];
    EncodeFrom(ps, 4);
  }

  lemma LaunchMiddle(va: nat, ps: seq<Packet>, ws: seq<Dword>)
    requires ps == LaunchPackets(va) && ws == LaunchWords(va) && Encode(ps[4..]) == ws[9..]
    ensures Encode(ps[2..]) == ws[5..]
  {
    EncodeFrom(ps, 3);
    assert Encode(ps[3..]) == ws[8..];
    EncodeFrom(ps, 2);
  }

  lemma LaunchInRange(va: nat)
    ensures forall i :: 0 <= i < |LaunchPackets(va)| ==> InRange(LaunchPackets(va)[i])
  {
  }

  /** The hardware decodes the launch stream to those packets. */
  lemma LaunchDecodes(va: nat)
    ensures Decode(LaunchWords(va)) == Some(LaunchPackets(va))
  {
    LaunchIsEncoded(va);
    LaunchInRange(va);
    DecodeEncode(LaunchPackets(va));
  }

  /**
   The launch stream, number by number, and what it decodes to: on subchannel 1, bind the compute class,
   set the local and the shared memory window, three immediate methods, the descriptor address in units
   of 256 bytes, and the signal that starts it.
   */
  lemma LaunchIs(va: nat)
    ensures LaunchWords(va) ==
      [0x2001_2000, 0xC7C0, 0x2002_20A8, 0, 0xFE00_0000, 0x2002_21EC, 0, 0xFF00_0000,
       0x8000_20A6, 0x8000_2091, 0x9017_2087, 0x2001_20AD, va / 256 % 0x1_0000_0000, 0x800A_20B0]
    ensures Decode(LaunchWords(va)) ==
      Some([Inc(1, 0x0000, [0xC7C0]), Inc(1, 0x02A0, [0, 0xFE00_0000]), Inc(1, 0x07B0, [0, 0xFF00_0000]),
            Immd(1, 0x0298, 0), Immd(1, 0x0244, 0), Immd(1, 0x021C, 0x1017),
            Inc(1, 0x02B4, [va / 256 % 0x1_0000_0000]), Immd(1, 0x02C0, 0xA)])
  {
    HeaderNumbers();
    LaunchDecodes(va);
    assert LaunchPackets(va)[6].data == [va / 256 % 0x1_0000_0000];
  }

  lemma HeaderNumbers()
    ensures HdrInc(1, 1, 0x0000) == 0x2001_2000 && HdrInc(2, 1, 0x02a0) == 0x2002_20A8
    ensures HdrInc(2, 1, 0x07b0) == 0x2002_21EC && HdrInc(1, 1, 0x02b4) == 0x2001_20AD
    ensures HdrImmd(1, 0x0298, 0) == 0x8000_20A6 && HdrImmd(1, 0x0244, 0) == 0x8000_2091
    ensures HdrImmd(1, 0x021c, 0x1017) == 0x9017_2087 && HdrImmd(1, 0x02c0, 0xA) == 0x800A_20B0
  {
  }

  /** The descriptor address the launch packets carry. */
  function CarriedAddress(p: Packet): (va: nat) {
    if p.Inc? && |p.data| == 1 then (p.data[0] as int) * 256 else 0
  }

  /** The decoded stream carries the descriptor address if and only if that is 256-byte aligned and below 2^40. */
  lemma LaunchAddressIff(va: nat)
    ensures Decode(LaunchWords(va)) == Some(LaunchPackets(va))
    ensures CarriedAddress(LaunchPackets(va)[6]) == va <==> va % 256 == 0 && va < 0x100_0000_0000
  {
    LaunchDecodes(va);
    PcasWordIff(va);
    assert LaunchPackets(va)[6] == Inc(SUBCH, 0x02b4, [PcasWord(va)]);
  }

  lemma PcasWordIff(va: nat)
    ensures (PcasWord(va) as int) * 256 == va <==> va % 256 == 0 && va < 0x100_0000_0000
  {
  }

  /** The builder, storing word after word; returns how many words it wrote. */
  method BuildLaunch(pb: array<Dword>, va: nat) returns (n: nat)
    requires pb.Length >= 14
    modifies pb
    ensures n == 14 && pb[..n] == LaunchWords(va) && pb[n..] == old(pb[n..])
  {
    var p := 0;
    pb[p], p := HdrInc(1, SUBCH, 0x0000), p + 1;
    pb[p], p := CLASS_COMPUTE, p + 1;
    pb[p], p := HdrInc(2, SUBCH, 0x02a0), p + 1;
    pb[p], p := 0, p + 1;
    pb[p], p := 0xfe00_0000, p + 1;
    pb[p], p := HdrInc(2, SUBCH, 0x07b0), p + 1;
    pb[p], p := 0, p + 1;
    pb[p], p := 0xff00_0000, p + 1;
    pb[p], p := HdrImmd(SUBCH, 0x0298, 0), p + 1;
    pb[p], p := HdrImmd(SUBCH, 0x0244, 0), p + 1;
    pb[p], p := HdrImmd(SUBCH, 0x021c, 0x1017), p + 1;
    pb[p], p := HdrInc(1, SUBCH, 0x02b4), p + 1;
    pb[p], p := PcasWord(va), p + 1;
    pb[p], p := HdrImmd(SUBCH, 0x02c0, 0xA), p + 1;
    return p;
  }

  // ---------------------------------------------------------------- the ring entry

  const MAX_DWORDS := 0x40_0000

  datatype Entry = Entry(e0: Dword, e1: Dword)

  /** A stream whose length does not fit the entry is refused. */
  function RingEntry(va: nat, dwords: nat): (e: Option<Entry>) {
    if dwords >= MAX_DWORDS then None
    else Some(Entry(va % U32 / 4 * 4, va / U32 % 256 + dwords * 1024))
  }

  function EntryAddress(e: Entry): (va: nat) {
    e.e0 + e.e1 % 256 * U32
  }

  function EntryLength(e: Entry): (n: nat) {
    e.e1 / 1024
  }

  /**
   An accepted entry always gives back the length, and it gives back the address if and only if
   that is a multiple of 4 below 2^40.
   */
  lemma RingEntryIff(va: nat, dwords: nat)
    ensures RingEntry(va, dwords).Some? <==> dwords < MAX_DWORDS
    ensures RingEntry(va, dwords).Some? ==>
      && EntryLength(RingEntry(va, dwords).value) == dwords
      && (EntryAddress(RingEntry(va, dwords).value) == va <==> va % 4 == 0 && va < 0x100_0000_0000)
    ensures dwords < 0x40_0000 ==>
      && RingEntry(va, dwords).Some?
      && RingEntry(va, dwords).value.e0 == va % 0x1_0000_0000 / 4 * 4
      && RingEntry(va, dwords).value.e1 == va / 0x1_0000_0000 % 256 + 1024 * dwords
  {
    var high := va / U32 % 256;
    Digit(1024, dwords, high);
    Digit(256, dwords * 4, high);
    EntryAddressIff(va);
  }

  lemma EntryAddressIff(va: nat)
    ensures va % U32 / 4 * 4 + va / U32 % 256 * U32 == va <==> va % 4 == 0 && va < 0x100_0000_0000
  {
    var low, high := va % U32, va / U32;
    assert va == high * U32 + low;
    Digit(4, high * (U32 / 4) + low / 4, low % 4);
    assert high % 256 == high <==> va < 0x100_0000_0000;
  }
}
