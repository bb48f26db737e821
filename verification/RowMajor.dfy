/**
 Two-dimensional data in linear memory, row after row: `w` columns and `h` rows, the element in
 column `x` of row `y` at `y * w + x`.
 */
module RowMajor {

  function Index(w: nat, h: nat, x: nat, y: nat): (i: nat)
    requires x < w && y < h
    ensures i < w * h
  {
    RowFits(w, h, y);
    y * w + x
  }

  lemma RowFits(w: nat, h: nat, y: nat)
    requires y < h
    ensures y * w + w <= h * w == w * h
  {
    MulMonotone(y + 1, h, w);
  }

  lemma MulMonotone(a: nat, b: nat, c: nat)
    requires a <= b
    ensures a * c <= b * c
  {
  }

  lemma IndexInjective(w: nat, h: nat, x: nat, y: nat, x': nat, y': nat)
    requires x < w && y < h && x' < w && y' < h
    ensures Index(w, h, x, y) == Index(w, h, x', y') <==> x == x' && y == y'
  {
    if y < y' {
      MulMonotone(y + 1, y', w);
    } else if y' < y {
      MulMonotone(y' + 1, y, w);
    }
  }

  /** Row `y`. */
  function Row<T>(a: seq<T>, w: nat, h: nat, y: nat): (r: seq<T>)
    requires |a| == w * h && y < h
    ensures |r| == w && forall x :: 0 <= x < w ==> r[x] == a[Index(w, h, x, y)]
  {
    RowFits(w, h, y);
    a[y * w..y * w + w]
  }

  /** One value per cell, each computed on its own from its column and row. */
  function Tabulate<T>(w: nat, h: nat, f: (nat, nat) -> T): (a: seq<T>)
    ensures |a| == w * h
    ensures forall x, y :: 0 <= x < w && 0 <= y < h ==> a[Index(w, h, x, y)] == f(x, y)
  {
    if h == 0 then []
    else
      var rest := Tabulate(w, h - 1, f);
      var a := rest + seq(w, x requires 0 <= x < w => f(x, h - 1));
      assert |a| == w * h;
      assert forall x, y :: 0 <= x < w && 0 <= y < h ==> a[Index(w, h, x, y)] == f(x, y) by {
        forall x, y | 0 <= x < w && 0 <= y < h
          ensures a[Index(w, h, x, y)] == f(x, y)
        {
          if y < h - 1 {
            assert Index(w, h, x, y) == Index(w, h - 1, x, y) < |rest|;
          } else {
            assert Index(w, h, x, y) == |rest| + x;
          }
        }
      }
      a
  }

  /** Data that agrees cell by cell is equal. */
  lemma RowMajorEqual<T>(a: seq<T>, b: seq<T>, w: nat, h: nat)
    requires |a| == |b| == w * h
    requires forall x, y :: 0 <= x < w && 0 <= y < h ==> a[Index(w, h, x, y)] == b[Index(w, h, x, y)]
    ensures a == b
  {
    forall i | 0 <= i < |a|
      ensures a[i] == b[i]
    {
      var x, y := CellOf(w, h, i);
    }
  }

  /** Every position belongs to a cell. */
  lemma CellOf(w: nat, h: nat, i: nat) returns (x: nat, y: nat)
    requires i < w * h
    ensures x < w && y < h && Index(w, h, x, y) == i
  {
    x, y := i, 0;
    while x >= w
      invariant y * w + x == i
      decreases x
    {
      x, y := x - w, y + 1;
    }
    if y >= h {
      MulMonotone(h, y, w);
      assert false;
    }
  }
}
