/**
 The three GPU kernels of a batched evaluation, thread by thread. A launch runs every thread of its
 grid once, in any order; a thread computes its own flat index, returns early outside the data, and
 otherwise writes one cell of an output buffer that no thread reads.
 */
module Kernels {
  import opened RowMajor
  import opened Mlp

  datatype Thread = Thread(blockX: nat, blockY: nat, blockZ: nat, threadX: nat, threadY: nat)

  /** Blocks in the grid and threads in a block. */
  datatype Grid = Grid(gx: nat, gy: nat, gz: nat, dx: nat, dy: nat)

  predicate InGrid(t: Thread, g: Grid) {
    t.blockX < g.gx && t.blockY < g.gy && t.blockZ < g.gz && t.threadX < g.dx && t.threadY < g.dy
  }

  /** The threads of a grid, in some order. */
  ghost predicate Schedule(ts: seq<Thread>, g: Grid) {
    forall t :: t in ts <==> InGrid(t, g)
  }

  /**
   A kernel with its arguments: the product of a batch `a` of rows with weights `wt`; bias and
   ReLU on a batch `x`; the sigmoid on the cells of `x`.
   */
  datatype Kernel =
    | GemmKernel(a: seq<real>, wt: seq<real>, rows: nat, inDim: nat, outDim: nat)
    | BiasKernel(x: seq<real>, b: seq<real>, rows: nat, relu: bool)
    | SigmoidKernel(x: seq<real>, sig: real -> real)

  predicate ValidKernel(k: Kernel) {
    match k
    case GemmKernel(a, wt, rows, inDim, outDim) => |a| == inDim * rows && |wt| == outDim * inDim
    case BiasKernel(x, b, rows, _) => |x| == |b| * rows
    case SigmoidKernel(_, _) => true
  }

  /** The cells of the output buffer. */
  function Cells(k: Kernel): (n: nat) {
    match k
    case GemmKernel(_, _, rows, _, outDim) => outDim * rows
    case BiasKernel(_, b, rows, _) => |b| * rows
    case SigmoidKernel(x, _) => |x|
  }

  /** The accumulator of a product thread for row `i` and column `j`, on flat indices. */
  function FlatAcc(a: seq<real>, wt: seq<real>, rows: nat, inDim: nat, outDim: nat, i: nat, j: nat, n: nat): (v: real)
    requires |a| == inDim * rows && |wt| == outDim * inDim && i < rows && j < outDim && n <= inDim
  {
    if n == 0 then 0.0
    else
      FlatAcc(a, wt, rows, inDim, outDim, i, j, n - 1) +
      a[Index(inDim, rows, n - 1, i)] * wt[Index(outDim, inDim, j, n - 1)]
  }

  datatype Write = Return | Put(cell: nat, value: real)

  const TILE := 16

  /** The product thread for row `i` and column `j`. */
  function GemmWrite(a: seq<real>, wt: seq<real>, rows: nat, inDim: nat, outDim: nat, i: nat, j: nat): (w: Write)
    requires |a| == inDim * rows && |wt| == outDim * inDim
    ensures w.Put? ==> w.cell < outDim * rows
  {
    if i >= rows || j >= outDim then Return
    else Put(Index(outDim, rows, j, i), FlatAcc(a, wt, rows, inDim, outDim, i, j, inDim))
  }

  /** What one thread of a kernel does. */
  function WriteOf(k: Kernel, t: Thread): (w: Write)
    requires ValidKernel(k)
    ensures w.Put? ==> w.cell < Cells(k)
  {
    match k
    case GemmKernel(a, wt, rows, inDim, outDim) =>
      GemmWrite(a, wt, rows, inDim, outDim, t.blockY * TILE + t.threadY, t.blockX * TILE + t.threadX)
    case BiasKernel(x, b, rows, relu) =>
      var n, c, wh := t.blockZ, t.blockY, t.blockX * 32 + t.threadX;
      if n >= rows || c >= |b| || wh >= 1 then Return
      else
        var idx := Index(|b|, rows, c, n);
        var v := x[idx] + b[c];
        Put(idx, if relu && v < 0.0 then 0.0 else v)
    case SigmoidKernel(x, sig) =>
      var i := t.blockX * 256 + t.threadX;
      if i >= |x| then Return else Put(i, sig(x[i]))
  }

  /** The output buffer after the threads ran in the order of `ts`. */
  function RunThreads(c: seq<real>, ts: seq<Thread>, k: Kernel): (r: seq<real>)
    requires ValidKernel(k) && |c| == Cells(k)
    ensures |r| == |c|
  {
    if ts == [] then c
    else
      var before, w := RunThreads(c, ts[..|ts| - 1], k), WriteOf(k, ts[|ts| - 1]);
      if w.Put? then before[w.cell := w.value] else before
  }

  /** What the whole batch operation is meant to compute. */
  function Meaning(k: Kernel): (y: seq<real>)
    requires ValidKernel(k)
    ensures |y| == Cells(k)
  {
    match k
    case GemmKernel(a, wt, rows, inDim, outDim) => BatchGemm(a, rows, wt, outDim, inDim)
    case BiasKernel(x, b, rows, relu) => BatchBias(x, rows, b, relu)
    case SigmoidKernel(x, sig) => Map(sig, x)
  }

  /** The grid the launcher chooses. */
  function GridOf(k: Kernel): (g: Grid) {
    match k
    case GemmKernel(_, _, rows, _, outDim) => Grid((outDim + 15) / 16, (rows + 15) / 16, 1, 16, 16)
    case BiasKernel(_, b, rows, _) => Grid(1, |b|, rows, 32, 1)
    case SigmoidKernel(_, _) => Grid(1, 1, 1, 256, 1)
  }

  // ---------------------------------------------------------------- each thread is right

  lemma {:induction false} FlatAccIsGemmAcc(a: seq<real>, wt: seq<real>, rows: nat, inDim: nat, outDim: nat,
      i: nat, j: nat, n: nat)
    requires |a| == inDim * rows && |wt| == outDim * inDim && i < rows && j < outDim && n <= inDim
    ensures FlatAcc(a, wt, rows, inDim, outDim, i, j, n) == GemmAcc(wt, outDim, inDim, Row(a, inDim, rows, i), j, n)
  {
    if n == 0 {
    } else {
      var m := n - 1;
      FlatAccIsGemmAcc(a, wt, rows, inDim, outDim, i, j, m);
    }
  }

  /** A thread that writes puts the right value into its cell. */
  predicate RightWrite(k: Kernel, t: Thread)
    requires ValidKernel(k)
  {
    WriteOf(k, t).Put? ==> WriteOf(k, t).value == Meaning(k)[WriteOf(k, t).cell]
  }

  lemma GemmThreadIsRight(k: Kernel, t: Thread)
    requires ValidKernel(k) && k.GemmKernel?
    ensures RightWrite(k, t)
  {
    GemmCell(k, t.blockY * TILE + t.threadY, t.blockX * TILE + t.threadX);
  }

  lemma BiasThreadIsRight(k: Kernel, t: Thread)
    requires ValidKernel(k) && k.BiasKernel?
    ensures RightWrite(k, t)
  {
    if t.blockZ < k.rows && t.blockY < |k.b| {
      BiasCell(k.x, k.b, k.rows, k.relu, t.blockZ, t.blockY);
    }
  }

  lemma ThreadIsRight(k: Kernel, t: Thread)
    requires ValidKernel(k)
    ensures RightWrite(k, t)
  {
    if k.GemmKernel? {
      GemmThreadIsRight(k, t);
    } else if k.BiasKernel? {
      BiasThreadIsRight(k, t);
    }
  }

  lemma GemmCell(k: Kernel, i: nat, j: nat)
    requires ValidKernel(k) && k.GemmKernel?
    ensures var w := GemmWrite(k.a, k.wt, k.rows, k.inDim, k.outDim, i, j); w.Put? ==> w.value == Meaning(k)[w.cell]
  {
    if i < k.rows && j < k.outDim {
      FlatAccIsGemmAcc(k.a, k.wt, k.rows, k.inDim, k.outDim, i, j, k.inDim);
    }
  }

  lemma BiasCell(x: seq<real>, b: seq<real>, rows: nat, relu: bool, n: nat, c: nat)
    requires |x| == |b| * rows && n < rows && c < |b|
    ensures var v := x[Index(|b|, rows, c, n)] + b[c];
      (if relu && v < 0.0 then 0.0 else v) == BatchBias(x, rows, b, relu)[Index(|b|, rows, c, n)]
  {
  }

  /** Some thread of `ts` writes cell `i`. */
  predicate Written(k: Kernel, ts: seq<Thread>, i: nat)
    requires ValidKernel(k)
  {
    exists t :: t in ts && Writes(k, t, i)
  }

  predicate Writes(k: Kernel, t: Thread, i: nat)
    requires ValidKernel(k)
  {
    WriteOf(k, t).Put? && WriteOf(k, t).cell == i
  }

  /** In any order, a cell that some thread writes ends up right, and any other keeps its contents. */
  lemma {:induction false} RunCell(c: seq<real>, ts: seq<Thread>, k: Kernel, i: nat)
    requires ValidKernel(k) && |c| == Cells(k) && i < |c|
    ensures RunThreads(c, ts, k)[i] == if Written(k, ts, i) then Meaning(k)[i] else c[i]
  {
    if ts == [] {
    } else {
      var before, t := ts[..|ts| - 1], ts[|ts| - 1];
      assert ts == before + [t] && t in ts;
      RunCell(c, before, k, i);
      assert Written(k, ts, i) == (Written(k, before, i) || Writes(k, t, i));
      ThreadIsRight(k, t);
    }
  }

  // ---------------------------------------------------------------- each grid is right

  /** The thread that writes a cell. */
  function ThreadFor(k: Kernel, x: nat, y: nat): (t: Thread) {
    match k
    case GemmKernel(_, _, _, _, _) => Thread(x / 16, y / 16, 0, x % 16, y % 16)
    case BiasKernel(_, _, _, _) => Thread(0, x, y, 0, 0)
    case SigmoidKernel(_, _) => Thread(0, 0, 0, x, 0)
  }

  lemma TileBounds(x: nat, n: nat)
    requires x < n
    ensures x / 16 < (n + 15) / 16 && x / 16 * TILE + x % 16 == x
  {
  }

  /** Every cell of a product or bias launch is written by its thread. */
  lemma MatrixCellWritten(k: Kernel, x: nat, y: nat, w: nat)
    requires ValidKernel(k) && !k.SigmoidKernel? && w == (if k.GemmKernel? then k.outDim else |k.b|)
    requires x < w && y < k.rows
    ensures InGrid(ThreadFor(k, x, y), GridOf(k)) && Writes(k, ThreadFor(k, x, y), Index(w, k.rows, x, y))
  {
    if k.GemmKernel? {
      TileBounds(x, w);
      TileBounds(y, k.rows);
    }
  }

  /** The sigmoid's single block of 256 threads reaches every cell exactly up to 256 cells. */
  predicate Fits(k: Kernel) {
    k.SigmoidKernel? ==> |k.x| <= 256
  }

  lemma CellWritten(k: Kernel, i: nat) returns (t: Thread)
    requires ValidKernel(k) && Fits(k) && i < Cells(k)
    ensures InGrid(t, GridOf(k)) && Writes(k, t, i)
  {
    if k.SigmoidKernel? {
      t := ThreadFor(k, i, 0);
    } else {
      var w := if k.GemmKernel? then k.outDim else |k.b|;
      var x, y := CellOf(w, k.rows, i);
      t := ThreadFor(k, x, y);
      MatrixCellWritten(k, x, y, w);
    }
  }

  lemma SameTile(b: nat, i: nat, c: nat, j: nat)
    requires i < TILE && j < TILE
    ensures b * TILE + i == c * TILE + j <==> b == c && i == j
  {
  }

  /** No two threads of a launch write the same cell. */
  lemma WrittenOnce(k: Kernel, t: Thread, u: Thread, i: nat)
    requires ValidKernel(k) && InGrid(t, GridOf(k)) && InGrid(u, GridOf(k)) && Writes(k, t, i) && Writes(k, u, i)
    ensures t == u
  {
    match k
    case GemmKernel(_, _, rows, _, outDim) =>
      IndexInjective(outDim, rows, t.blockX * TILE + t.threadX, t.blockY * TILE + t.threadY,
                     u.blockX * TILE + u.threadX, u.blockY * TILE + u.threadY);
      SameTile(t.blockX, t.threadX, u.blockX, u.threadX);
      SameTile(t.blockY, t.threadY, u.blockY, u.threadY);
    case BiasKernel(_, b, rows, _) => IndexInjective(|b|, rows, t.blockY, t.blockZ, u.blockY, u.blockZ);
    case SigmoidKernel(_, _) =>
  }

  /** A launch in any order, over any old contents of the output buffer, computes the batch operation. */
  lemma LaunchIsRight(k: Kernel, ts: seq<Thread>, c: seq<real>)
    requires ValidKernel(k) && Fits(k) && Schedule(ts, GridOf(k)) && |c| == Cells(k)
    ensures RunThreads(c, ts, k) == Meaning(k)
  {
    var r, m := RunThreads(c, ts, k), Meaning(k);
    forall i | 0 <= i < |r|
      ensures r[i] == m[i]
    {
      var t := CellWritten(k, i);
      assert t in ts && Written(k, ts, i);
      RunCell(c, ts, k, i);
    }
  }

  /** Exactly when every cell is written: a sigmoid launch over more than 256 cells leaves the rest as it was. */
  lemma LaunchCoversIff(k: Kernel, ts: seq<Thread>)
    requires ValidKernel(k) && Schedule(ts, GridOf(k))
    ensures (forall i :: 0 <= i < Cells(k) ==> Written(k, ts, i)) <==> Fits(k)
  {
    if Fits(k) {
      forall i | 0 <= i < Cells(k)
        ensures Written(k, ts, i)
      {
        var t := CellWritten(k, i);
        assert t in ts;
      }
    } else {
      assert !Written(k, ts, 256);
    }
  }

  // ---------------------------------------------------------------- a whole network by launches

  /** The schedules of one layer's two launches and what their output buffers held before. */
  datatype Layering = Layering(gemm: seq<Thread>, post: seq<Thread>, gemmOut: seq<real>, postOut: seq<real>)

  function GemmOf(l: Layer, a: seq<real>, rows: nat): (k: Kernel)
    requires ValidLayer(l) && |a| == l.inDim * rows
    ensures ValidKernel(k)
  {
    GemmKernel(a, Transposed(l), rows, l.inDim, l.outDim)
  }

  ghost predicate ValidLayering(l: Layer, rows: nat, s: Layering) {
    && |s.gemmOut| == |s.postOut| == l.outDim * rows
    && Schedule(s.gemm, Grid((l.outDim + 15) / 16, (rows + 15) / 16, 1, 16, 16))
    && Schedule(s.post, Grid(1, l.outDim, rows, 32, 1))
  }

  function LaunchLayer(l: Layer, a: seq<real>, rows: nat, relu: bool, s: Layering): (y: seq<real>)
    requires ValidLayer(l) && |a| == l.inDim * rows && |s.gemmOut| == |s.postOut| == l.outDim * rows
    ensures |y| == l.outDim * rows
  {
    RunThreads(s.postOut, s.post, BiasKernel(RunThreads(s.gemmOut, s.gemm, GemmOf(l, a, rows)), l.b, rows, relu))
  }

  lemma LayerByLaunches(l: Layer, a: seq<real>, rows: nat, relu: bool, s: Layering)
    requires ValidLayer(l) && |a| == l.inDim * rows && ValidLayering(l, rows, s)
    ensures LaunchLayer(l, a, rows, relu, s) == BatchLayer(l, a, rows, relu)
  {
    LaunchIsRight(GemmOf(l, a, rows), s.gemm, s.gemmOut);
    LaunchIsRight(BiasKernel(Meaning(GemmOf(l, a, rows)), l.b, rows, relu), s.post, s.postOut);
  }

  /** All layers, each reading the buffer the one before wrote. */
  function LaunchLayers(net: seq<Layer>, a: seq<real>, width: nat, rows: nat, ss: seq<Layering>): (y: seq<real>)
    requires ValidNet(net, width) && |a| == width * rows && |ss| == |net|
    requires forall i :: 0 <= i < |ss| ==> |ss[i].gemmOut| == |ss[i].postOut| == net[i].outDim * rows
    ensures |y| == OutWidth(net, width) * rows
    decreases |net|
  {
    if net == [] then a
    else LaunchLayers(net[1..], LaunchLayer(net[0], a, rows, |net| > 1, ss[0]), net[0].outDim, rows, ss[1..])
  }

  ghost predicate ValidLayerings(net: seq<Layer>, rows: nat, ss: seq<Layering>) {
    |ss| == |net| && forall i :: 0 <= i < |ss| ==> ValidLayering(net[i], rows, ss[i])
  }

  lemma {:induction false} LayersByLaunches(net: seq<Layer>, a: seq<real>, width: nat, rows: nat, ss: seq<Layering>)
    requires ValidNet(net, width) && |a| == width * rows && ValidLayerings(net, rows, ss)
    ensures LaunchLayers(net, a, width, rows, ss) == BatchSplit(net, a, width, rows)
    decreases |net|
  {
    if net == [] {
    } else {
      assert ValidLayering(net[0], rows, ss[0]);
      LayerByLaunches(net[0], a, rows, |net| > 1, ss[0]);
      LayersByLaunches(net[1..], BatchLayer(net[0], a, rows, |net| > 1), net[0].outDim, rows, ss[1..]);
    }
  }

  /**
   The batched network as the GPU runs it: two launches a layer and a last one for the sigmoid, the
   threads of each in any order. Row `r` of the scores is the fused network on row `r` of the input.
   */
  lemma LaunchedRowIsFused(net: seq<Layer>, a: seq<real>, width: nat, rows: nat, sig: real -> real,
      ss: seq<Layering>, last: seq<Thread>, out: seq<real>, r: nat)
    requires ValidNet(net, width) && net != [] && |a| == width * rows && r < rows
    requires ValidLayerings(net, rows, ss)
    requires |out| == OutWidth(net, width) * rows <= 256 && Schedule(last, Grid(1, 1, 1, 256, 1))
    ensures var scores := RunThreads(out, last, SigmoidKernel(LaunchLayers(net, a, width, rows, ss), sig));
      Row(scores, OutWidth(net, width), rows, r) == Fused(net, Row(a, width, rows, r), sig)
  {
    LayersByLaunches(net, a, width, rows, ss);
    LaunchIsRight(SigmoidKernel(BatchSplit(net, a, width, rows), sig), last, out);
    BatchRowIsFused(net, a, width, rows, sig, r);
  }

  // ---------------------------------------------------------------- the product thread

  /** The accumulation loop of a product thread. */
  method GemmSum(k: Kernel, i: nat, j: nat) returns (sum: real)
    requires k.GemmKernel? && ValidKernel(k) && i < k.rows && j < k.outDim
    ensures sum == FlatAcc(k.a, k.wt, k.rows, k.inDim, k.outDim, i, j, k.inDim)
  {
    sum := 0.0;
    for n := 0 to k.inDim
      invariant sum == FlatAcc(k.a, k.wt, k.rows, k.inDim, k.outDim, i, j, n)
    {
      sum := sum + k.a[Index(k.inDim, k.rows, n, i)] * k.wt[Index(k.outDim, k.inDim, j, n)];
    }
  }

  /** One product thread, storing its cell in place. */
  method GemmThread(k: Kernel, c: array<real>, t: Thread)
    requires k.GemmKernel? && ValidKernel(k) && c.Length == Cells(k)
    modifies c
    ensures var w := WriteOf(k, t);
      c[..] == if w.Put? then old(c[..])[w.cell := w.value] else old(c[..])
  {
    var i, j := t.blockY * TILE + t.threadY, t.blockX * TILE + t.threadX;
    if i >= k.rows || j >= k.outDim {
      return;
    }
    var sum := GemmSum(k, i, j);
    var cell := Index(k.outDim, k.rows, j, i);
    c[cell] := sum;
    assert c[..] == old(c[..])[cell := sum];
  }

  /** A product launch, thread after thread in any order. */
  method GemmLaunch(k: Kernel, c: array<real>, ts: seq<Thread>)
    requires k.GemmKernel? && ValidKernel(k) && c.Length == Cells(k) && Schedule(ts, GridOf(k))
    modifies c
    ensures c[..] == Meaning(k)
  {
    ghost var was := c[..];
    assert ts[..0] == [];
    for n := 0 to |ts|
      invariant c[..] == RunThreads(was, ts[..n], k)
    {
      GemmThread(k, c, ts[n]);
      assert ts[..n + 1][..n] == ts[..n];
    }
    assert ts[..|ts|] == ts;
    LaunchIsRight(k, ts, was);
  }
}
