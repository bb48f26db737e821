/**
 Unsigned machine words as their bits, least significant first, with the C operators the GPU
 descriptor code uses, and their connection to natural numbers.
 */
module MachineBits {

  type Bits = seq<bool>

  function Pow2(n: nat): (p: nat)
    ensures p > 0
  {
    if n == 0 then 1 else 2 * Pow2(n - 1)
  }

  function And(a: Bits, b: Bits): (r: Bits)
    requires |a| == |b|
    ensures |r| == |a| && forall i {:trigger r[i]} :: 0 <= i < |a| ==> r[i] == (a[i] && b[i])
  {
    seq(|a|, i requires 0 <= i < |a| => a[i] && b[i])
  }

  function Or(a: Bits, b: Bits): (r: Bits)
    requires |a| == |b|
    ensures |r| == |a| && forall i {:trigger r[i]} :: 0 <= i < |a| ==> r[i] == (a[i] || b[i])
  {
    seq(|a|, i requires 0 <= i < |a| => a[i] || b[i])
  }

  function Not(a: Bits): (r: Bits)
    ensures |r| == |a| && forall i {:trigger r[i]} :: 0 <= i < |a| ==> r[i] == !a[i]
  {
    seq(|a|, i requires 0 <= i < |a| => !a[i])
  }

  function Shl(a: Bits, k: nat): (r: Bits)
    ensures |r| == |a| && forall i {:trigger r[i]} :: 0 <= i < |a| ==> r[i] == (i >= k && a[i - k])
  {
    seq(|a|, i requires 0 <= i < |a| => i >= k && a[i - k])
  }

  function Shr(a: Bits, k: nat): (r: Bits)
    ensures |r| == |a| && forall i {:trigger r[i]} :: 0 <= i < |a| ==> r[i] == (i + k < |a| && a[i + k])
  {
    seq(|a|, i requires 0 <= i < |a| => i + k < |a| && a[i + k])
  }

  /** The word of width `width` with its low `n` bits set: `(1 << n) - 1`. */
  function Ones(n: nat, width: nat): (r: Bits)
    ensures |r| == width && forall i {:trigger r[i]} :: 0 <= i < width ==> r[i] == (i < n)
  {
    seq(width, i => i < n)
  }

  /** The number a word stands for. */
  function NatOf(b: Bits): (v: nat) {
    if b == [] then 0 else (if b[0] then 1 else 0) + 2 * NatOf(b[1..])
  }

  /** The low `n` bits of a number. */
  function ToBits(v: nat, n: nat): (b: Bits)
    ensures |b| == n
  {
    if n == 0 then [] else [v % 2 == 1] + ToBits(v / 2, n - 1)
  }

  lemma {:induction false} NatOfToBits(v: nat, n: nat)
    ensures NatOf(ToBits(v, n)) == v % Pow2(n)
  {
    if n == 0 {
    } else {
      NatOfToBits(v / 2, n - 1);
      HalveMod(v, Pow2(n - 1));
    }
  }

  lemma HalveMod(v: nat, p: nat)
    requires p > 0
    ensures v % 2 + 2 * (v / 2 % p) == v % (2 * p)
  {
    var q, r := v / 2 / p, v / 2 % p;
    assert v / 2 == q * p + r;
    assert v == (2 * p) * q + (2 * r + v % 2);
    assert 0 <= 2 * r + v % 2 < 2 * p;
    ModUnique(v, 2 * p, q, 2 * r + v % 2);
  }

  lemma ModUnique(v: nat, m: nat, q: nat, r: nat)
    requires m > 0 && r < m && v == m * q + r
    ensures v % m == r
  {
    var q', r' := v / m, v % m;
    assert m * (q' - q) == r - r';
    MultipleIsFar(m, q' - q);
  }

  lemma MultipleIsFar(m: int, k: int)
    requires m > 0
    ensures k > 0 ==> m * k >= m
    ensures k < 0 ==> m * k <= -m
  {
  }

  lemma SmallMod(v: nat, m: nat)
    requires v < m
    ensures v % m == v
  {
  }

  /** Bit `k` of a word is binary digit `k` of its number. */
  lemma {:induction false} DigitAt(b: Bits, k: nat)
    requires k < |b|
    ensures NatOf(b) / Pow2(k) % 2 == if b[k] then 1 else 0
  {
    if k == 0 {
    } else {
      DigitAt(b[1..], k - 1);
      assert NatOf(b) / 2 == NatOf(b[1..]);
      HalveDiv(NatOf(b), Pow2(k - 1));
    }
  }

  lemma HalveDiv(v: nat, p: nat)
    requires p > 0
    ensures v / (2 * p) == v / 2 / p
  {
    HalveMod(v, p);
    var q, r := v / 2 / p, v / 2 % p;
    assert v / 2 == q * p + r;
    assert v == 2 * (v / 2) + v % 2;
    assert v == (2 * p) * q + v % (2 * p);
    assert (2 * p) * (v / (2 * p) - q) == 0;
  }

  /** Changing one bit changes the number by its power of two. */
  lemma {:induction false} UpdatedNumber(b: Bits, k: nat, v: bool)
    requires k < |b|
    ensures NatOf(b[k := v]) + (if b[k] then Pow2(k) else 0) == NatOf(b) + (if v then Pow2(k) else 0)
  {
    if k == 0 {
      assert b[k := v][1..] == b[1..];
    } else {
      assert b[k := v][1..] == b[1..][k - 1 := v];
      UpdatedNumber(b[1..], k - 1, v);
    }
  }

  lemma {:induction false} ToBitsPrefix(v: nat, n: nat, m: nat)
    requires n <= m
    ensures ToBits(v, m)[..n] == ToBits(v, n)
  {
    if n == 0 {
    } else {
      ToBitsPrefix(v / 2, n - 1, m - 1);
      assert ToBits(v, m)[..n] == [v % 2 == 1] + ToBits(v / 2, m - 1)[..n - 1];
    }
  }

  /** `(1 << n) - 1` has exactly its low `n` bits set. */
  lemma {:induction false} OnesIsPow2Minus1(n: nat, width: nat)
    requires n <= width
    ensures NatOf(Ones(n, width)) == Pow2(n) - 1
  {
    if width == 0 {
    } else {
      var rest := Ones(if n == 0 then 0 else n - 1, width - 1);
      assert Ones(n, width)[1..] == rest;
      OnesIsPow2Minus1(if n == 0 then 0 else n - 1, width - 1);
    }
  }
}
