/**
 The packed encodings of the interrupt controller driver: four 8-bit target masks to a 32-bit
 word, and bitmaps of eight interrupts to a byte. Shift amounts are small constants, written as
 bit-vectors so that no conversion from integers is involved.
 */
module GicBits {
  import opened MachineBits

  /** `1u << k` in a byte. */
  function Bit8(k: nat): (b: bv8)
    requires k < 8
  {
    if k == 0 then 0x01 else if k == 1 then 0x02 else if k == 2 then 0x04 else if k == 3 then 0x08
    else if k == 4 then 0x10 else if k == 5 then 0x20 else if k == 6 then 0x40 else 0x80
  }

  predicate Has(b: bv8, k: nat)
    requires k < 8
  {
    b & Bit8(k) != 0
  }

  lemma SetBitAt(b: bv8, k: nat, i: nat)
    requires k < 8 && i < 8
    ensures Has(b | Bit8(k), i) <==> i == k || Has(b, i)
  {
  }

  lemma ClearBitAt(b: bv8, k: nat, i: nat)
    requires k < 8 && i < 8
    ensures Has(b & !Bit8(k), i) <==> i != k && Has(b, i)
  {
  }

  /** The CPUs whose bit is set in a target mask. */
  function Cpus(b: bv8): (s: set<nat>) {
    set k | 0 <= k < 8 && Has(b, k)
  }

  /** What a mask byte means as a number: CPU `k` is bit `k`, counted from the lowest. */
  lemma CpusAsNumber(b: bv8, k: nat)
    requires k < 8
    ensures k in Cpus(b) <==> (b as int) / Pow2(k) % 2 == 1
  {
    BitAsNumber(b, k);
  }

  /** The bits of a byte, lowest first. */
  function BitsOf(b: bv8): (s: Bits)
    ensures |s| == 8 && forall k {:trigger s[k]} :: 0 <= k < 8 ==> s[k] == Has(b, k)
  {
    seq(8, k requires 0 <= k < 8 => Has(b, k))
  }

  function Digit(b: bool): (d: nat) {
    if b then 1 else 0
  }

  /** A byte is the number of its bits. */
  lemma NumberOf(b: bv8)
    ensures b as int == NatOf(BitsOf(b))
  {
    var s := BitsOf(b);
    EightBits(s);
    SumOfBits(b, s);
  }

  lemma SumOfBits(b: bv8, s: Bits)
    requires s == BitsOf(b)
    ensures b as int == Digit(s[0]) + 2 * Digit(s[1]) + 4 * Digit(s[2]) + 8 * Digit(s[3])
      + 16 * Digit(s[4]) + 32 * Digit(s[5]) + 64 * Digit(s[6]) + 128 * Digit(s[7])
  {
  }

  lemma EightBits(s: Bits)
    requires |s| == 8
    ensures NatOf(s) == Digit(s[0]) + 2 * Digit(s[1]) + 4 * Digit(s[2]) + 8 * Digit(s[3])
      + 16 * Digit(s[4]) + 32 * Digit(s[5]) + 64 * Digit(s[6]) + 128 * Digit(s[7])
  {
    FourBits(s, 0);
    FourBits(s, 4);
    assert s[0..] == s;
  }

  lemma FourBits(s: Bits, k: nat)
    requires k + 4 <= |s|
    ensures NatOf(s[k..]) ==
      Digit(s[k]) + 2 * Digit(s[k + 1]) + 4 * Digit(s[k + 2]) + 8 * Digit(s[k + 3]) + 16 * NatOf(s[k + 4..])
  {
    NextBit(s, k);
    NextBit(s, k + 1);
    NextBit(s, k + 2);
    NextBit(s, k + 3);
  }

  lemma NextBit(s: Bits, k: nat)
    requires k < |s|
    ensures NatOf(s[k..]) == Digit(s[k]) + 2 * NatOf(s[k + 1..])
  {
    assert s[k..][1..] == s[k + 1..];
  }

  lemma BitAsNumber(b: bv8, k: nat)
    requires k < 8
    ensures Has(b, k) <==> (b as int) / Pow2(k) % 2 == 1
  {
    NumberOf(b);
    DigitAt(BitsOf(b), k);
  }

  /** Clearing a bit, as a number. */
  lemma ClearedNumber(b: bv8, k: nat)
    requires k < 8
    ensures (b & !Bit8(k)) as int == if Has(b, k) then b as int - Pow2(k) else b as int
  {
    forall i | 0 <= i < 8
      ensures Has(b & !Bit8(k), i) <==> i != k && Has(b, i)
    {
      ClearBitAt(b, k, i);
    }
    assert BitsOf(b & !Bit8(k)) == BitsOf(b)[k := false];
    NumberOf(b);
    NumberOf(b & !Bit8(k));
    UpdatedNumber(BitsOf(b), k, false);
  }

  /** Setting a bit, as a number. */
  lemma SetNumber(b: bv8, k: nat)
    requires k < 8
    ensures (b | Bit8(k)) as int == if Has(b, k) then b as int else b as int + Pow2(k)
  {
    forall i | 0 <= i < 8
      ensures Has(b | Bit8(k), i) <==> i == k || Has(b, i)
    {
      SetBitAt(b, k, i);
    }
    assert BitsOf(b | Bit8(k)) == BitsOf(b)[k := true];
    NumberOf(b);
    NumberOf(b | Bit8(k));
    UpdatedNumber(BitsOf(b), k, true);
  }

  lemma CpusSet(b: bv8, k: nat)
    requires k < 8
    ensures Cpus(b | Bit8(k)) == Cpus(b) + {k}
  {
    forall i | 0 <= i < 8
      ensures i in Cpus(b | Bit8(k)) <==> i in Cpus(b) + {k}
    {
      SetBitAt(b, k, i);
    }
  }

  lemma CpusClear(b: bv8, k: nat)
    requires k < 8
    ensures Cpus(b & !Bit8(k)) == Cpus(b) - {k}
  {
    forall i | 0 <= i < 8
      ensures i in Cpus(b & !Bit8(k)) <==> i in Cpus(b) - {k}
    {
      ClearBitAt(b, k, i);
    }
  }

  /** A mask is determined by its CPUs. */
  lemma CpusInjective(a: bv8, b: bv8)
    requires Cpus(a) == Cpus(b)
    ensures a == b
  {
    forall k | 0 <= k < 8
      ensures Has(a, k) == Has(b, k)
    {
      assert k in Cpus(a) <==> k in Cpus(b);
    }
    SameBits(a, b);
  }

  lemma SameBits(a: bv8, b: bv8)
    requires forall k :: 0 <= k < 8 ==> Has(a, k) == Has(b, k)
    ensures a == b
  {
    assert Has(a, 0) == Has(b, 0) && Has(a, 1) == Has(b, 1) && Has(a, 2) == Has(b, 2) && Has(a, 3) == Has(b, 3);
    assert Has(a, 4) == Has(b, 4) && Has(a, 5) == Has(b, 5) && Has(a, 6) == Has(b, 6) && Has(a, 7) == Has(b, 7);
  }

  lemma EmptyMask(b: bv8)
    ensures Cpus(b) == {} <==> b == 0
    ensures Cpus(1) == {0}
  {
    if Cpus(b) == {} {
      assert forall k :: 0 <= k < 8 ==> k !in Cpus(b);
      assert Cpus(b) == Cpus(0);
      CpusInjective(b, 0);
    }
    forall k | 0 <= k < 8
      ensures Has(1, k) <==> k == 0
    {
    }
  }

  /** Byte `k` of a packed word: `(val >> 8k) & 0xFF`. */
  function ByteAt(w: bv32, k: nat): (b: bv8)
    requires k < 4
  {
    (if k == 0 then w & 0xFF else if k == 1 then (w >> (8 as bv32)) & 0xFF
     else if k == 2 then (w >> (16 as bv32)) & 0xFF else (w >> (24 as bv32)) & 0xFF) as bv8
  }

  /** `(val & ~(0xFF << 8k)) | (b << 8k)`. */
  function WithByte(w: bv32, k: nat, b: bv8): (r: bv32)
    requires k < 4
  {
    var x := b as bv32;
    if k == 0 then (w & !0xFF) | x else if k == 1 then (w & !0xFF00) | (x << (8 as bv32))
    else if k == 2 then (w & !0xFF0000) | (x << (16 as bv32)) else (w & !0xFF000000) | (x << (24 as bv32))
  }

  /** A word is its four bytes, byte `k` at bits `8 * k` and up. */
  lemma WordIsBytes(w: bv32)
    ensures w == (ByteAt(w, 0) as bv32) | ((ByteAt(w, 1) as bv32) << (8 as bv32))
      | ((ByteAt(w, 2) as bv32) << (16 as bv32)) | ((ByteAt(w, 3) as bv32) << (24 as bv32))
  {
  }

  /** Byte 0 after a write of byte `k`. */
  lemma Lane0(w: bv32, k: nat, b: bv8)
    requires k < 4
    ensures ByteAt(WithByte(w, k, b), 0) == if k == 0 then b else ByteAt(w, 0)
  {
    if k == 0 {
    } else if k == 1 {
    } else if k == 2 {
    }
  }

  /** Byte 1 after a write of byte `k`. */
  lemma Lane1(w: bv32, k: nat, b: bv8)
    requires k < 4
    ensures ByteAt(WithByte(w, k, b), 1) == if k == 1 then b else ByteAt(w, 1)
  {
    if k == 0 {
    } else if k == 1 {
    } else if k == 2 {
    }
  }

  /** Byte 2 after a write of byte `k`. */
  lemma Lane2(w: bv32, k: nat, b: bv8)
    requires k < 4
    ensures ByteAt(WithByte(w, k, b), 2) == if k == 2 then b else ByteAt(w, 2)
  {
    if k == 0 {
    } else if k == 1 {
    } else if k == 2 {
    }
  }

  /** Byte 3 after a write of byte `k`. */
  lemma Lane3(w: bv32, k: nat, b: bv8)
    requires k < 4
    ensures ByteAt(WithByte(w, k, b), 3) == if k == 3 then b else ByteAt(w, 3)
  {
    if k == 0 {
    } else if k == 1 {
    } else if k == 2 {
    }
  }

  lemma ByteAtWithByte(w: bv32, k: nat, b: bv8, i: nat)
    requires k < 4 && i < 4
    ensures ByteAt(WithByte(w, k, b), i) == if i == k then b else ByteAt(w, i)
  {
    if i == 0 {
      Lane0(w, k, b);
    } else if i == 1 {
      Lane1(w, k, b);
    } else if i == 2 {
      Lane2(w, k, b);
    } else {
      Lane3(w, k, b);
    }
  }

  /** A word is determined by its four bytes. */
  lemma WordInjective(v: bv32, w: bv32)
    requires forall k :: 0 <= k < 4 ==> ByteAt(v, k) == ByteAt(w, k)
    ensures v == w
  {
    assert ByteAt(v, 0) == ByteAt(w, 0) && ByteAt(v, 1) == ByteAt(w, 1);
    assert ByteAt(v, 2) == ByteAt(w, 2) && ByteAt(v, 3) == ByteAt(w, 3);
  }
}
