/**
 The byte format of the persistent LittleFS store: the base image, and the delta
 journal (a 32-byte header followed by whole blocks) that is laid over it.
 */
module StoreFormat {
  import opened Bytes

  const BLOCK := 4096
  const CHUNK := 32768
  const DEFAULT_BYTES := 8 * 1024 * 1024
  const DELTA_MAGIC := 0x3146444C
  const HEADER_BYTES := 32

  type Image = seq<byte>

  /** Sizes a base image may have; `FSIZE_t` is 32 bits wide (exFAT is off). */
  predicate ValidImageSize(n: nat) {
    BLOCK <= n < U32 && n % BLOCK == 0
  }

  function BlockCount(n: nat): (blocks: nat) {
    n / BLOCK
  }

  /** An erased image: every byte 0xFF. */
  function Erased(n: nat): (s: Image)
    ensures |s| == n && forall i {:trigger s[i]} :: 0 <= i < n ==> s[i] == 0xFF
  {
    seq(n, _ => 0xFF)
  }

  /** A contiguous run of whole blocks with the bytes that belong there. */
  datatype Journal = Journal(first: nat, last: nat, payload: Image)

  predicate ValidJournal(j: Journal, n: nat) {
    j.first <= j.last < BlockCount(n) && |j.payload| == (j.last - j.first + 1) * BLOCK
  }

  predicate InBlocks(i: int, first: int, last: int) {
    first * BLOCK <= i < (last + 1) * BLOCK
  }

  lemma SpliceTwice(image: Image, at: nat, a: Image, b: Image)
    requires at + |a| + |b| <= |image|
    ensures Splice(Splice(image, at, a), at + |a|, b) == Splice(image, at, a + b)
  {
  }

  lemma SpliceSameIff(image: Image, at: nat, bytes: Image)
    requires at + |bytes| <= |image|
    ensures Splice(image, at, bytes) == image <==> bytes == image[at..at + |bytes|]
  {
    var r := Splice(image, at, bytes);
    assert r[at..at + |bytes|] == bytes;
  }

  lemma SpliceMore(image: Image, at: nat, file: Image, from: nat, done: nat, chunk: nat)
    requires from + done + chunk <= |file| && at + done + chunk <= |image|
    ensures Splice(Splice(image, at, file[from..from + done]), at + done, file[from + done..from + done + chunk])
      == Splice(image, at, file[from..from + done + chunk])
  {
    var a, b := file[from..from + done], file[from + done..from + done + chunk];
    SpliceTwice(image, at, a, b);
    assert a + b == file[from..from + done + chunk];
  }

  lemma BlockCountBound(n: nat)
    requires n % BLOCK == 0
    ensures BlockCount(n) * BLOCK == n
  {
  }

  lemma JournalFits(j: Journal, n: nat)
    requires n % BLOCK == 0 && ValidJournal(j, n)
    ensures j.first * BLOCK + |j.payload| == (j.last + 1) * BLOCK <= n
  {
    BlockCountBound(n);
  }

  function Overlay(base: Image, j: Journal): (r: Image)
    requires |base| % BLOCK == 0 && ValidJournal(j, |base|)
    ensures |r| == |base|
  {
    JournalFits(j, |base|);
    Splice(base, j.first * BLOCK, j.payload)
  }

  datatype Header = Header(magic: nat, imageBytes: nat, blockSize: nat, firstBlock: nat, blockCount: nat)

  predicate ValidHeader(h: Header) {
    h.magic < U32 && h.imageBytes < U32 && h.blockSize < U32 && h.firstBlock < U32 && h.blockCount < U32
  }

  /** The packed C struct: five words and three reserved zero words. */
  function EncodeHeader(h: Header): (s: seq<byte>)
    requires ValidHeader(h)
    ensures |s| == HEADER_BYTES
  {
    Le32(h.magic) + Le32(h.imageBytes) + Le32(h.blockSize) + Le32(h.firstBlock) + Le32(h.blockCount)
    + Le32(0) + Le32(0) + Le32(0)
  }

  function DecodeHeader(s: seq<byte>): (h: Header)
    requires |s| == HEADER_BYTES
  {
    Header(FromLe32(s[0..4]), FromLe32(s[4..8]), FromLe32(s[8..12]), FromLe32(s[12..16]), FromLe32(s[16..20]))
  }

  lemma HeaderRoundTrip(h: Header)
    requires ValidHeader(h)
    ensures DecodeHeader(EncodeHeader(h)) == h
  {
    var s := EncodeHeader(h);
    assert s[0..4] == Le32(h.magic);
    assert s[4..8] == Le32(h.imageBytes);
    assert s[8..12] == Le32(h.blockSize);
    assert s[12..16] == Le32(h.firstBlock);
    assert s[16..20] == Le32(h.blockCount);
    Le32RoundTrip(h.magic);
    Le32RoundTrip(h.imageBytes);
    Le32RoundTrip(h.blockSize);
    Le32RoundTrip(h.firstBlock);
    Le32RoundTrip(h.blockCount);
  }

  /** The loader's header and size checks, for a store whose image is `n` bytes long. */
  predicate HeaderAccepted(h: Header, fileSize: nat, n: nat) {
    && h.magic == DELTA_MAGIC
    && h.imageBytes == n
    && h.blockSize == BLOCK
    && h.blockCount != 0
    && h.firstBlock < BlockCount(n)
    && h.blockCount <= BlockCount(n)
    && h.firstBlock <= BlockCount(n) - h.blockCount
    && fileSize == HEADER_BYTES + h.blockCount * BLOCK
  }

  /** What the loader makes of a delta file: the journal it holds, or nothing. */
  function ParseDelta(file: seq<byte>, n: nat): (j: Option<Journal>)
    ensures j.Some? ==> ValidJournal(j.value, n)
  {
    if |file| < HEADER_BYTES then None
    else
      var h := DecodeHeader(file[..HEADER_BYTES]);
      if HeaderAccepted(h, |file|, n)
      then Some(Journal(h.firstBlock, h.firstBlock + h.blockCount - 1, file[HEADER_BYTES..]))
      else None
  }

  /** The number in the four bytes of a file from `at` on, lowest byte first. */
  function NumberAt(file: seq<byte>, at: nat): (v: nat)
    requires at + 4 <= |file|
  {
    var b0: int, b1: int, b2: int, b3: int := file[at], file[at + 1], file[at + 2], file[at + 3];
    b0 + 0x100 * b1 + 0x1_0000 * b2 + 0x100_0000 * b3
  }

  /**
   Exactly which files the loader takes for a delta of an image of `n` bytes, byte by byte, and what
   it takes from them: the magic "LDF1", the image size, blocks of 4096 bytes, a range of blocks that
   is not empty and inside the image, and a payload of just that many blocks.
   */
  lemma DeltaAcceptedIff(file: seq<byte>, n: nat)
    ensures ParseDelta(file, n).Some? <==>
      && |file| >= 32
      && file[0] == 0x4C && file[1] == 0x44 && file[2] == 0x46 && file[3] == 0x31
      && NumberAt(file, 4) == n
      && file[8] == 0x00 && file[9] == 0x10 && file[10] == 0x00 && file[11] == 0x00
      && NumberAt(file, 16) > 0 && NumberAt(file, 12) + NumberAt(file, 16) <= n / 4096
      && |file| == 32 + 4096 * NumberAt(file, 16)
    ensures ParseDelta(file, n).Some? ==>
      ParseDelta(file, n).value ==
      Journal(NumberAt(file, 12), NumberAt(file, 12) + NumberAt(file, 16) - 1, file[32..])
  {
    if |file| >= 32 {
      var hb := file[..HEADER_BYTES];
      WordIsNumber(file, hb, 4);
      WordIsNumber(file, hb, 12);
      WordIsNumber(file, hb, 16);
      LiteralWord(hb[0..4], 0x4C, 0x44, 0x46, 0x31);
      LiteralWord(hb[8..12], 0x00, 0x10, 0x00, 0x00);
    }
  }

  lemma WordIsNumber(file: seq<byte>, hb: seq<byte>, at: nat)
    requires |file| >= 32 && hb == file[..32] && at + 4 <= 32
    ensures FromLe32(hb[at..at + 4]) == NumberAt(file, at)
  {
    var w := hb[at..at + 4];
    assert w[0] == file[at] && w[1] == file[at + 1] && w[2] == file[at + 2] && w[3] == file[at + 3];
  }

  lemma LiteralWord(s: seq<byte>, b0: int, b1: int, b2: int, b3: int)
    requires |s| == 4 && 0 <= b0 < 256 && 0 <= b1 < 256 && 0 <= b2 < 256 && 0 <= b3 < 256
    ensures FromLe32(s) == b0 + 0x100 * b1 + 0x1_0000 * b2 + 0x100_0000 * b3 <==>
      s[0] == b0 && s[1] == b1 && s[2] == b2 && s[3] == b3
  {
  }

  /** The header the flush writes; the image size goes through a 32-bit cast. */
  function DeltaHeader(n: nat, first: nat, last: nat): (h: Header)
    requires first <= last < U32
    ensures ValidHeader(h)
  {
    Header(DELTA_MAGIC, n % U32, BLOCK, first, (last - first + 1) % U32)
  }

  function DeltaFile(n: nat, j: Journal): (s: seq<byte>)
    requires j.first <= j.last < U32
  {
    EncodeHeader(DeltaHeader(n, j.first, j.last)) + j.payload
  }

  /** How the loader reads a file that starts with the header bytes `hb`. */
  lemma ParseSplit(hb: seq<byte>, payload: Image, n: nat)
    requires |hb| == HEADER_BYTES
    ensures var h := DecodeHeader(hb);
      ParseDelta(hb + payload, n) ==
      if HeaderAccepted(h, HEADER_BYTES + |payload|, n)
      then Some(Journal(h.firstBlock, h.firstBlock + h.blockCount - 1, payload))
      else None
  {
    assert (hb + payload)[..HEADER_BYTES] == hb;
    assert (hb + payload)[HEADER_BYTES..] == payload;
  }

  /** Every delta a flush writes is accepted by the loader, which gives back the same journal. */
  lemma DeltaRoundTrip(n: nat, j: Journal)
    requires ValidImageSize(n) && ValidJournal(j, n)
    ensures j.last < U32
    ensures ParseDelta(DeltaFile(n, j), n) == Some(j)
  {
    DeltaAcceptedIffBelow4GiB(n, j);
  }

  lemma SizeFieldIff(n: nat, j: Journal)
    requires BLOCK <= n && n % BLOCK == 0 && ValidJournal(j, n) && j.last < U32 - 1
    ensures HeaderAccepted(DeltaHeader(n, j.first, j.last), HEADER_BYTES + |j.payload|, n) <==> n < U32
    ensures DeltaHeader(n, j.first, j.last).blockCount == j.last - j.first + 1
  {
    assert n % U32 == n <==> n < U32;
  }

  /** The 32-bit cast of the image size is harmless exactly below 4 GiB. */
  lemma DeltaAcceptedIffBelow4GiB(n: nat, j: Journal)
    requires BLOCK <= n && n % BLOCK == 0 && ValidJournal(j, n) && j.last < U32 - 1
    ensures ParseDelta(DeltaFile(n, j), n) == Some(j) <==> n < U32
  {
    var h := DeltaHeader(n, j.first, j.last);
    HeaderRoundTrip(h);
    ParseSplit(EncodeHeader(h), j.payload, n);
    SizeFieldIff(n, j);
  }

  /** The last twelve header bytes of a delta file are reserved and written as zeros. */
  lemma ReservedBytesAreZero(n: nat, j: Journal, i: nat)
    requires j.first <= j.last < U32 && 20 <= i < 32
    ensures |DeltaFile(n, j)| == 32 + |j.payload| && DeltaFile(n, j)[i] == 0
  {
    var hb := EncodeHeader(DeltaHeader(n, j.first, j.last));
    assert hb[20..32] == Le32(0) + Le32(0) + Le32(0);
    assert DeltaFile(n, j)[i] == hb[i] == hb[20..32][i - 20];
  }

  /** An accepted delta writes inside the image only, and nowhere outside its own blocks. */
  lemma OverlayLocal(base: Image, file: seq<byte>)
    requires |base| % BLOCK == 0
    ensures var j := ParseDelta(file, |base|);
      j.Some? ==>
        && (j.value.last + 1) * BLOCK <= |base|
        && |Overlay(base, j.value)| == |base|
        && forall i :: 0 <= i < |base| && !InBlocks(i, j.value.first, j.value.last)
             ==> Overlay(base, j.value)[i] == base[i]
  {
    var j := ParseDelta(file, |base|);
    if j.Some? {
      JournalFits(j.value, |base|);
    }
  }
}
