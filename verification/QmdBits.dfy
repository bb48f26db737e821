/**
 The bit-range writer of the GPU launch descriptor (QMD): 64 words of 32 bits, a range of which
 may cross one word boundary.
 */
module QmdBits {
  import opened Bytes
  import opened MachineBits

  const QMD_WORDS := 64
  const QMD_BITS := 2048

  type Word = w: Bits | |w| == 32 witness Ones(0, 32)
  type Word64 = w: Bits | |w| == 64 witness Ones(0, 64)
  type Qmd = q: seq<Word> | |q| == QMD_WORDS witness seq(QMD_WORDS, _ => Ones(0, 32))

  function Low32(v: Word64): (w: Word)
    ensures forall i {:trigger w[i]} :: 0 <= i < 32 ==> w[i] == v[i]
  {
    v[..32]
  }

  /** Replace the masked bits of a word. */
  function Insert(w: Word, mask: Word, v: Word): (r: Word)
    ensures forall i {:trigger r[i]} :: 0 <= i < 32 ==> r[i] == if mask[i] then v[i] else w[i]
  {
    Or(And(w, Not(mask)), And(v, mask))
  }

  function ValueMask(nbits: nat): (m: Word64) {
    if nbits >= 64 then Ones(64, 64) else Ones(nbits, 64)
  }

  /** The mask is the number `(1 << nbits) - 1`, or all ones where that shift would be undefined. */
  lemma ValueMaskIs(nbits: nat)
    ensures NatOf(ValueMask(nbits)) == Pow2(if nbits >= 64 then 64 else nbits) - 1
  {
    OnesIsPow2Minus1(if nbits >= 64 then 64 else nbits, 64);
  }

  /** The low word of a range that crosses a word boundary. */
  function LowPart(w: Word, v: Word64, shift: nat): (r: Word) {
    Insert(w, Shl(Ones(32, 32), shift), Shl(Low32(v), shift))
  }

  /** The high word of such a range; `inLo` bits of the value went into the low word. */
  function HighPart(w: Word, v: Word64, nbits: nat, inLo: nat): (r: Word)
    requires inLo <= nbits
  {
    var inHi := nbits - inLo;
    var hiMask := if inHi >= 32 then Ones(32, 32) else Ones(inHi, 32);
    Insert(w, hiMask, Low32(Shr(v, inLo)))
  }

  /** A range inside one word. */
  function WithinWord(w: Word, mask: Word64, v: Word64, shift: nat): (r: Word) {
    Insert(w, Shl(Low32(mask), shift), Shl(Low32(v), shift))
  }

  function SetWithin(q: Qmd, k: nat, mask: Word64, v: Word64, shift: nat): (r: Qmd)
    requires k < QMD_WORDS
  {
    q[k := WithinWord(q[k], mask, v, shift)]
  }

  function SetAcross(q: Qmd, k: nat, k': nat, v: Word64, nbits: nat, shift: nat): (r: Qmd)
    requires k < k' < QMD_WORDS && shift < 32 && 32 - shift <= nbits
  {
    q[k := LowPart(q[k], v, shift)][k' := HighPart(q[k'], v, nbits, 32 - shift)]
  }

  /** The writer: masks and rewrites the first and the last word of the range `[hi:lo]`. */
  function SetBits(q: Qmd, hi: nat, lo: nat, val: Word64): (r: Qmd)
    requires lo <= hi < QMD_BITS
  {
    var nbits := hi - lo + 1;
    var mask := ValueMask(nbits);
    var v: Word64 := And(val, mask);
    if lo / 32 == hi / 32 then SetWithin(q, lo / 32, mask, v, lo % 32)
    else SetAcross(q, lo / 32, hi / 32, v, nbits, lo % 32)
  }

  /** Bit `b` of the whole descriptor. */
  predicate BitOf(q: Qmd, b: nat)
    requires b < QMD_BITS
  {
    q[b / 32][b % 32]
  }

  /** The range touches at most two words. */
  predicate TwoWords(hi: nat, lo: nat) {
    hi / 32 <= lo / 32 + 1
  }

  lemma SetBitsSameWord(q: Qmd, hi: nat, lo: nat, val: Word64, b: nat)
    requires lo <= hi < QMD_BITS && hi / 32 == lo / 32 && b < QMD_BITS
    ensures BitOf(SetBits(q, hi, lo, val), b) == if lo <= b <= hi then val[b - lo] else BitOf(q, b)
  {
    var mask := ValueMask(hi - lo + 1);
    var w := Shl(Low32(mask), lo % 32);
    if b / 32 == lo / 32 {
      assert w[b % 32] == (lo <= b <= hi);
    }
  }

  lemma LowPartBit(w: Word, val: Word64, hi: nat, lo: nat, shift: nat, i: nat, b: int)
    requires lo <= hi && shift < 32 && i < 32 && 32 - shift < hi - lo + 1 && b - lo == i - shift
    ensures LowPart(w, And(val, ValueMask(hi - lo + 1)), shift)[i] ==
      if lo <= b <= hi then val[b - lo] else w[i]
  {
  }

  lemma HighPartBit(w: Word, val: Word64, hi: nat, lo: nat, inLo: nat, i: nat, b: int)
    requires lo <= hi && 0 < inLo <= 32 && inLo < hi - lo + 1 <= inLo + 32 && i < 32 && b - lo == i + inLo
    ensures HighPart(w, And(val, ValueMask(hi - lo + 1)), hi - lo + 1, inLo)[i] ==
      if lo <= b <= hi then val[b - lo] else w[i]
  {
  }

  /** Bit `i` of word `j`, which is bit `b` of the descriptor, after a write that crosses into word `k + 1`. */
  lemma AcrossBit(q: Qmd, k: nat, shift: nat, hi: nat, lo: nat, val: Word64, j: nat, i: nat, b: nat)
    requires k + 1 < QMD_WORDS && shift < 32 && lo == 32 * k + shift && 32 * (k + 1) <= hi < 32 * (k + 2)
    requires j < QMD_WORDS && i < 32 && b == 32 * j + i
    ensures SetAcross(q, k, k + 1, And(val, ValueMask(hi - lo + 1)), hi - lo + 1, shift)[j][i] ==
      if lo <= b <= hi then val[b - lo] else q[j][i]
  {
    if j == k {
      LowPartBit(q[j], val, hi, lo, shift, i, b);
    } else if j == k + 1 {
      HighPartBit(q[j], val, hi, lo, 32 - shift, i, b);
    }
  }

  lemma SetBitsTwoWords(q: Qmd, hi: nat, lo: nat, val: Word64, b: nat)
    requires lo <= hi < QMD_BITS && hi / 32 == lo / 32 + 1 && b < QMD_BITS
    ensures BitOf(SetBits(q, hi, lo, val), b) == if lo <= b <= hi then val[b - lo] else BitOf(q, b)
  {
    AcrossBit(q, lo / 32, lo % 32, hi, lo, val, b / 32, b % 32, b);
  }

  /**
   Exactly when the writer does its job whatever the contents: bit `b` becomes bit `b - lo` of the
   value inside the range and stays outside it, if and only if the range touches at most two words.
   */
  lemma SetBitsIff(hi: nat, lo: nat)
    requires lo <= hi < QMD_BITS
    ensures TwoWords(hi, lo) <==>
      hi - lo < 64 && forall q: Qmd, val: Word64, b: nat :: b < QMD_BITS ==>
        BitOf(SetBits(q, hi, lo, val), b) == if lo <= b <= hi then val[b - lo] else BitOf(q, b)
  {
    if TwoWords(hi, lo) {
      forall q: Qmd, val: Word64, b: nat | b < QMD_BITS
        ensures BitOf(SetBits(q, hi, lo, val), b) == if lo <= b <= hi then val[b - lo] else BitOf(q, b)
      {
        if hi / 32 == lo / 32 {
          SetBitsSameWord(q, hi, lo, val, b);
        } else {
          SetBitsTwoWords(q, hi, lo, val, b);
        }
      }
    } else if hi - lo < 64 {
      var q: Qmd := seq(QMD_WORDS, _ => Ones(0, 32));
      var val: Word64, b := Ones(64, 64), (lo / 32 + 1) * 32;
      assert lo <= b <= hi && !BitOf(SetBits(q, hi, lo, val), b);
    }
  }

  // ---------------------------------------------------------------- the descriptor as one bit string

  /** The 2048 bits in order. */
  function Flat(q: Qmd): (f: Bits)
    ensures |f| == QMD_BITS && forall b :: 0 <= b < QMD_BITS ==> f[b] == BitOf(q, b)
  {
    seq(QMD_BITS, b requires 0 <= b < QMD_BITS => BitOf(q, b))
  }

  /** The writer puts the low bits of the value at the range and changes nothing else. */
  lemma SetBitsFlat(q: Qmd, hi: nat, lo: nat, val: Word64)
    requires lo <= hi < QMD_BITS && TwoWords(hi, lo)
    ensures hi - lo < 64
    ensures Flat(SetBits(q, hi, lo, val)) == Splice(Flat(q), lo, val[..hi - lo + 1])
  {
    forall b | 0 <= b < QMD_BITS
      ensures BitOf(SetBits(q, hi, lo, val), b) == if lo <= b <= hi then val[b - lo] else BitOf(q, b)
    {
      if hi / 32 == lo / 32 {
        SetBitsSameWord(q, hi, lo, val, b);
      } else {
        SetBitsTwoWords(q, hi, lo, val, b);
      }
    }
  }

  /** Writes to disjoint ranges commute. */
  lemma DisjointSplicesCommute(f: Bits, a: nat, x: Bits, b: nat, y: Bits)
    requires a + |x| <= |f| && b + |y| <= |f| && (a + |x| <= b || b + |y| <= a)
    ensures Splice(Splice(f, a, x), b, y) == Splice(Splice(f, b, y), a, x)
  {
  }

  /** The same on the packed words. */
  lemma DisjointWritesCommute(q: Qmd, hi: nat, lo: nat, v: Word64, hi': nat, lo': nat, v': Word64)
    requires lo <= hi < QMD_BITS && TwoWords(hi, lo) && lo' <= hi' < QMD_BITS && TwoWords(hi', lo')
    requires hi < lo' || hi' < lo
    ensures SetBits(SetBits(q, hi, lo, v), hi', lo', v') == SetBits(SetBits(q, hi', lo', v'), hi, lo, v)
  {
    var p, p' := SetBits(q, hi, lo, v), SetBits(q, hi', lo', v');
    SetBitsFlat(q, hi, lo, v);
    SetBitsFlat(p, hi', lo', v');
    SetBitsFlat(q, hi', lo', v');
    SetBitsFlat(p', hi, lo, v);
    DisjointSplicesCommute(Flat(q), lo, v[..hi - lo + 1], lo', v'[..hi' - lo' + 1]);
    FlatInjective(SetBits(p, hi', lo', v'), SetBits(p', hi, lo, v));
  }

  lemma FlatInjective(p: Qmd, q: Qmd)
    requires Flat(p) == Flat(q)
    ensures p == q
  {
    forall k | 0 <= k < QMD_WORDS
      ensures p[k] == q[k]
    {
      forall i | 0 <= i < 32
        ensures p[k][i] == q[k][i]
      {
        assert BitOf(p, 32 * k + i) == Flat(p)[32 * k + i] == Flat(q)[32 * k + i] == BitOf(q, 32 * k + i);
      }
    }
  }

  method StoreWithin(qmd: array<Word>, k: nat, mask: Word64, v: Word64, shift: nat)
    requires qmd.Length == QMD_WORDS && k < QMD_WORDS
    modifies qmd
    ensures qmd[..] == SetWithin(old(qmd[..]), k, mask, v, shift)
  {
    var w := WithinWord(qmd[k], mask, v, shift);
    qmd[k] := w;
    assert qmd[..] == old(qmd[..])[k := w];
  }

  method StoreAcross(qmd: array<Word>, k: nat, k': nat, v: Word64, nbits: nat, shift: nat)
    requires qmd.Length == QMD_WORDS && k < k' < QMD_WORDS && shift < 32 && 32 - shift <= nbits
    modifies qmd
    ensures qmd[..] == SetAcross(old(qmd[..]), k, k', v, nbits, shift)
  {
    var low := LowPart(qmd[k], v, shift);
    qmd[k] := low;
    var high := HighPart(qmd[k'], v, nbits, 32 - shift);
    qmd[k'] := high;
    assert qmd[..] == old(qmd[..])[k := low][k' := high];
  }

  /** The writer on the descriptor in memory. */
  method SetBitsInPlace(qmd: array<Word>, hi: nat, lo: nat, val: Word64)
    requires qmd.Length == QMD_WORDS && lo <= hi < QMD_BITS
    modifies qmd
    ensures qmd[..] == SetBits(old(qmd[..]), hi, lo, val)
  {
    var nbits := hi - lo + 1;
    var mask := ValueMask(nbits);
    var v: Word64 := And(val, mask);
    if lo / 32 == hi / 32 {
      StoreWithin(qmd, lo / 32, mask, v, lo % 32);
    } else {
      StoreAcross(qmd, lo / 32, hi / 32, v, nbits, lo % 32);
    }
  }
}
