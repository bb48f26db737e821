/**
 The eviction network: a multi-layer perceptron computed in three ways. The fused reference adds
 each row of the weights to the bias; the GPU pipeline works on transposed weights and splits a
 layer into matrix product, bias and activation; the launcher's self-check is the pipeline on one
 row with two alternating buffers. Numbers are reals and the sigmoid is any function.
 */
module Mlp {
  import opened Bytes
  import opened RowMajor

  /** Weights `[out][in]` row-major, and the biases. */
  datatype Layer = Layer(w: seq<real>, b: seq<real>, outDim: nat, inDim: nat)

  predicate ValidLayer(l: Layer) {
    |l.w| == l.inDim * l.outDim && |l.b| == l.outDim
  }

  /** The layers fit together, from inputs of width `n`. */
  predicate ValidNet(net: seq<Layer>, n: nat) {
    net == [] || (ValidLayer(net[0]) && net[0].inDim == n && ValidNet(net[1..], net[0].outDim))
  }

  /** The width of the last layer. */
  function OutWidth(net: seq<Layer>, n: nat): (w: nat) {
    if net == [] then n else OutWidth(net[1..], net[0].outDim)
  }

  function Weight(l: Layer, i: nat, k: nat): (v: real)
    requires ValidLayer(l) && i < l.outDim && k < l.inDim
  {
    l.w[Index(l.inDim, l.outDim, k, i)]
  }

  function Relu(v: real): (r: real) {
    if v > 0.0 then v else 0.0
  }

  function Map(f: real -> real, xs: seq<real>): (ys: seq<real>)
    ensures |ys| == |xs| && forall i :: 0 <= i < |xs| ==> ys[i] == f(xs[i])
  {
    seq(|xs|, i requires 0 <= i < |xs| => f(xs[i]))
  }

  function ReluAll(xs: seq<real>): (ys: seq<real>)
    ensures |ys| == |xs| && forall i :: 0 <= i < |xs| ==> ys[i] == Relu(xs[i])
  {
    seq(|xs|, i requires 0 <= i < |xs| => Relu(xs[i]))
  }

  // ---------------------------------------------------------------- the fused reference

  /** The accumulator of output `i`, started from the bias, after `k` inputs. */
  function FusedAcc(l: Layer, x: seq<real>, i: nat, k: nat): (v: real)
    requires ValidLayer(l) && |x| == l.inDim && i < l.outDim && k <= l.inDim
  {
    if k == 0 then l.b[i] else FusedAcc(l, x, i, k - 1) + Weight(l, i, k - 1) * x[k - 1]
  }

  function FusedLayer(l: Layer, x: seq<real>): (y: seq<real>)
    requires ValidLayer(l) && |x| == l.inDim
    ensures |y| == l.outDim && forall i :: 0 <= i < l.outDim ==> y[i] == FusedAcc(l, x, i, l.inDim)
  {
    seq(l.outDim, i requires 0 <= i < l.outDim => FusedAcc(l, x, i, l.inDim))
  }

  /** One layer of the reference: ReLU, but the sigmoid on the last layer. */
  function FusedStep(l: Layer, x: seq<real>, sig: real -> real, last: bool): (y: seq<real>)
    requires ValidLayer(l) && |x| == l.inDim
    ensures |y| == l.outDim
  {
    if last then Map(sig, FusedLayer(l, x)) else ReluAll(FusedLayer(l, x))
  }

  function Fused(net: seq<Layer>, x: seq<real>, sig: real -> real): (y: seq<real>)
    requires ValidNet(net, |x|)
    ensures |y| == OutWidth(net, |x|)
  {
    if net == [] then x else Fused(net[1..], FusedStep(net[0], x, sig, |net| == 1), sig)
  }

  function Dot(a: seq<real>, b: seq<real>): (v: real)
    requires |a| == |b|
  {
    if a == [] then 0.0 else a[0] * b[0] + Dot(a[1..], b[1..])
  }

  lemma {:induction false} DotSnoc(a: seq<real>, b: seq<real>)
    requires |a| == |b| > 0
    ensures var n := |a| - 1; Dot(a, b) == Dot(a[..n], b[..n]) + a[n] * b[n]
  {
    var n := |a| - 1;
    if n == 0 {
    } else {
      DotSnoc(a[1..], b[1..]);
      assert a[1..][..n - 1] == a[..n][1..] && b[1..][..n - 1] == b[..n][1..];
    }
  }

  lemma {:induction false} AccIsDot(l: Layer, x: seq<real>, i: nat, k: nat)
    requires ValidLayer(l) && |x| == l.inDim && i < l.outDim && k <= l.inDim
    ensures FusedAcc(l, x, i, k) == l.b[i] + Dot(Row(l.w, l.inDim, l.outDim, i)[..k], x[..k])
  {
    if k == 0 {
    } else {
      var row := Row(l.w, l.inDim, l.outDim, i);
      var a, b := row[..k], x[..k];
      AccIsDot(l, x, i, k - 1);
      DotSnoc(a, b);
      assert a[..k - 1] == row[..k - 1] && b[..k - 1] == x[..k - 1];
    }
  }

  /** A neuron: its bias plus the product of its row of the weights with the input. */
  lemma NeuronIs(l: Layer, x: seq<real>, i: nat)
    requires ValidLayer(l) && |x| == l.inDim && i < l.outDim
    ensures FusedLayer(l, x)[i] == l.b[i] + Dot(Row(l.w, l.inDim, l.outDim, i), x)
  {
    AccIsDot(l, x, i, l.inDim);
    assert x[..l.inDim] == x && Row(l.w, l.inDim, l.outDim, i)[..l.inDim] == Row(l.w, l.inDim, l.outDim, i);
  }

  /** `y` is `z` with every negative number replaced by zero. */
  predicate Clipped(y: seq<real>, z: seq<real>) {
    |y| == |z| && forall i :: 0 <= i < |z| ==> y[i] == if z[i] < 0.0 then 0.0 else z[i]
  }

  /** The network layer by layer: hidden layers are clipped at zero, the sigmoid is on the last one only. */
  lemma FusedUnrolls(net: seq<Layer>, x: seq<real>, sig: real -> real, y: seq<real>)
    requires ValidNet(net, |x|) && net != []
    ensures |net| == 1 ==>
      forall i :: 0 <= i < |Fused(net, x, sig)| ==> Fused(net, x, sig)[i] == sig(FusedLayer(net[0], x)[i])
    ensures |net| > 1 && Clipped(y, FusedLayer(net[0], x)) ==> Fused(net, x, sig) == Fused(net[1..], y, sig)
  {
    if |net| > 1 && Clipped(y, FusedLayer(net[0], x)) {
      assert y == ReluAll(FusedLayer(net[0], x));
    } else if |net| == 1 {
      assert net[1..] == [];
    }
  }

  // ---------------------------------------------------------------- the split pipeline

  /** A layer as the GPU sees it: weights `[in][out]` row-major. */
  function Transposed(l: Layer): (wt: seq<real>)
    requires ValidLayer(l)
    ensures |wt| == l.outDim * l.inDim
    ensures forall i, k :: 0 <= i < l.outDim && 0 <= k < l.inDim ==>
      wt[Index(l.outDim, l.inDim, i, k)] == Weight(l, i, k)
  {
    Tabulate(l.outDim, l.inDim, (i: nat, k: nat) => if i < l.outDim && k < l.inDim then Weight(l, i, k) else 0.0)
  }

  /** Column `j` of the matrix product, after `k` inputs. */
  function GemmAcc(wt: seq<real>, outDim: nat, inDim: nat, x: seq<real>, j: nat, k: nat): (v: real)
    requires |wt| == outDim * inDim && |x| == inDim && j < outDim && k <= inDim
  {
    if k == 0 then 0.0
    else GemmAcc(wt, outDim, inDim, x, j, k - 1) + x[k - 1] * wt[Index(outDim, inDim, j, k - 1)]
  }

  function Gemm(wt: seq<real>, outDim: nat, inDim: nat, x: seq<real>): (y: seq<real>)
    requires |wt| == outDim * inDim && |x| == inDim
    ensures |y| == outDim && forall j :: 0 <= j < outDim ==> y[j] == GemmAcc(wt, outDim, inDim, x, j, inDim)
  {
    seq(outDim, j requires 0 <= j < outDim => GemmAcc(wt, outDim, inDim, x, j, inDim))
  }

  /** Bias, and ReLU if asked for. */
  function AddBias(g: seq<real>, b: seq<real>, relu: bool): (y: seq<real>)
    requires |g| == |b|
    ensures |y| == |g| && forall j :: 0 <= j < |g| ==> y[j] == if relu then Relu(g[j] + b[j]) else g[j] + b[j]
  {
    seq(|g|, j requires 0 <= j < |g| => if relu then Relu(g[j] + b[j]) else g[j] + b[j])
  }

  /** The product and bias steps of one layer. */
  function PostLayer(l: Layer, x: seq<real>, relu: bool): (y: seq<real>)
    requires ValidLayer(l) && |x| == l.inDim
    ensures |y| == l.outDim
  {
    AddBias(Gemm(Transposed(l), l.outDim, l.inDim, x), l.b, relu)
  }

  /** The product and bias steps of all layers; the last one has no ReLU. */
  function Split(net: seq<Layer>, x: seq<real>): (y: seq<real>)
    requires ValidNet(net, |x|)
    ensures |y| == OutWidth(net, |x|)
  {
    if net == [] then x else Split(net[1..], PostLayer(net[0], x, |net| > 1))
  }

  /** The whole pipeline: all layers, then the sigmoid as a step of its own. */
  function Pipeline(net: seq<Layer>, x: seq<real>, sig: real -> real): (y: seq<real>)
    requires ValidNet(net, |x|)
    ensures |y| == OutWidth(net, |x|)
  {
    Map(sig, Split(net, x))
  }

  /** `wt` holds the weights of output `i` in its column `i`. */
  predicate ColumnOf(wt: seq<real>, l: Layer, i: nat)
    requires ValidLayer(l) && i < l.outDim && |wt| == l.outDim * l.inDim
  {
    forall k :: 0 <= k < l.inDim ==> wt[Index(l.outDim, l.inDim, i, k)] == Weight(l, i, k)
  }

  lemma {:induction false} AccAgree(l: Layer, wt: seq<real>, x: seq<real>, i: nat, k: nat)
    requires ValidLayer(l) && |x| == l.inDim && i < l.outDim && k <= l.inDim
    requires |wt| == l.outDim * l.inDim && ColumnOf(wt, l, i)
    ensures FusedAcc(l, x, i, k) == GemmAcc(wt, l.outDim, l.inDim, x, i, k) + l.b[i]
  {
    if k == 0 {
    } else {
      var m := k - 1;
      AccAgree(l, wt, x, i, m);
    }
  }

  lemma CellAgree(l: Layer, x: seq<real>, relu: bool, i: nat)
    requires ValidLayer(l) && |x| == l.inDim && i < l.outDim
    ensures PostLayer(l, x, relu)[i] == if relu then Relu(FusedLayer(l, x)[i]) else FusedLayer(l, x)[i]
  {
    AccAgree(l, Transposed(l), x, i, l.inDim);
    assert FusedLayer(l, x)[i] == FusedAcc(l, x, i, l.inDim);
  }

  lemma LayerAgree(l: Layer, x: seq<real>, relu: bool)
    requires ValidLayer(l) && |x| == l.inDim
    ensures PostLayer(l, x, relu) == if relu then ReluAll(FusedLayer(l, x)) else FusedLayer(l, x)
  {
    var p, q := PostLayer(l, x, relu), if relu then ReluAll(FusedLayer(l, x)) else FusedLayer(l, x);
    forall i | 0 <= i < l.outDim
      ensures p[i] == q[i]
    {
      CellAgree(l, x, relu, i);
    }
  }

  lemma LastLayerAgrees(net: seq<Layer>, x: seq<real>, sig: real -> real)
    requires ValidNet(net, |x|) && |net| == 1
    ensures Pipeline(net, x, sig) == Fused(net, x, sig)
  {
    var z := FusedLayer(net[0], x);
    LayerAgree(net[0], x, false);
    assert net[1..] == [];
    assert Split(net, x) == z;
    assert Fused(net, x, sig) == Map(sig, z);
  }

  lemma HiddenLayerAgrees(net: seq<Layer>, x: seq<real>, sig: real -> real, y: seq<real>)
    requires ValidNet(net, |x|) && |net| > 1 && y == FusedStep(net[0], x, sig, false)
    ensures Split(net, x) == Split(net[1..], y) && Fused(net, x, sig) == Fused(net[1..], y, sig)
  {
    LayerAgree(net[0], x, true);
  }

  /** For any depth and any dimensions the split pipeline on transposed weights is the fused network. */
  lemma {:induction false} PipelineIsFused(net: seq<Layer>, x: seq<real>, sig: real -> real)
    requires ValidNet(net, |x|) && net != []
    ensures Pipeline(net, x, sig) == Fused(net, x, sig)
    decreases |net|
  {
    if |net| == 1 {
      LastLayerAgrees(net, x, sig);
    } else {
      var y := FusedStep(net[0], x, sig, false);
      PipelineIsFused(net[1..], y, sig);
      HiddenLayerAgrees(net, x, sig, y);
    }
  }

  /** With no layer at all the two differ: the pipeline still applies its sigmoid. */
  lemma EmptyNet(x: seq<real>, sig: real -> real)
    ensures Fused([], x, sig) == x && Pipeline([], x, sig) == Map(sig, x)
    ensures Pipeline([], x, sig) == Fused([], x, sig) <==> forall i :: 0 <= i < |x| ==> sig(x[i]) == x[i]
  {
    assert Map(sig, x) == x <==> forall i :: 0 <= i < |x| ==> Map(sig, x)[i] == x[i];
  }

  // ---------------------------------------------------------------- batches

  /** The product kernel on a batch `[rows][in]`: one thread per output cell `[rows][out]`. */
  function BatchGemm(a: seq<real>, rows: nat, wt: seq<real>, outDim: nat, inDim: nat): (c: seq<real>)
    requires |a| == inDim * rows && |wt| == outDim * inDim
    ensures |c| == outDim * rows
    ensures forall j, r :: 0 <= j < outDim && 0 <= r < rows ==>
      c[Index(outDim, rows, j, r)] == GemmAcc(wt, outDim, inDim, Row(a, inDim, rows, r), j, inDim)
  {
    Tabulate(outDim, rows, (j: nat, r: nat) =>
      if j < outDim && r < rows then GemmAcc(wt, outDim, inDim, Row(a, inDim, rows, r), j, inDim) else 0.0)
  }

  /** The bias kernel: the bias of a column is added in every row. */
  function BatchBias(g: seq<real>, rows: nat, b: seq<real>, relu: bool): (y: seq<real>)
    requires |g| == |b| * rows
    ensures |y| == |b| * rows
    ensures forall j, r :: 0 <= j < |b| && 0 <= r < rows ==>
      y[Index(|b|, rows, j, r)] ==
      if relu then Relu(g[Index(|b|, rows, j, r)] + b[j]) else g[Index(|b|, rows, j, r)] + b[j]
  {
    Tabulate(|b|, rows, (j: nat, r: nat) =>
      if j >= |b| || r >= rows then 0.0
      else if relu then Relu(g[Index(|b|, rows, j, r)] + b[j])
      else g[Index(|b|, rows, j, r)] + b[j])
  }

  function BatchLayer(l: Layer, a: seq<real>, rows: nat, relu: bool): (y: seq<real>)
    requires ValidLayer(l) && |a| == l.inDim * rows
    ensures |y| == l.outDim * rows
  {
    BatchBias(BatchGemm(a, rows, Transposed(l), l.outDim, l.inDim), rows, l.b, relu)
  }

  /** Row `r` of a layer's output depends on row `r` of its input alone. */
  lemma BatchLayerRow(l: Layer, a: seq<real>, rows: nat, relu: bool, r: nat)
    requires ValidLayer(l) && |a| == l.inDim * rows && r < rows
    ensures Row(BatchLayer(l, a, rows, relu), l.outDim, rows, r) == PostLayer(l, Row(a, l.inDim, rows, r), relu)
  {
    var x := Row(a, l.inDim, rows, r);
    var p, q := Row(BatchLayer(l, a, rows, relu), l.outDim, rows, r), PostLayer(l, x, relu);
    forall j | 0 <= j < l.outDim
      ensures p[j] == q[j]
    {
      BatchCell(l, a, rows, relu, r, j);
    }
  }

  lemma BatchCell(l: Layer, a: seq<real>, rows: nat, relu: bool, r: nat, j: nat)
    requires ValidLayer(l) && |a| == l.inDim * rows && r < rows && j < l.outDim
    ensures Row(BatchLayer(l, a, rows, relu), l.outDim, rows, r)[j] ==
      PostLayer(l, Row(a, l.inDim, rows, r), relu)[j]
  {
    var g := BatchGemm(a, rows, Transposed(l), l.outDim, l.inDim);
    var y := BatchBias(g, rows, l.b, relu);
    assert Row(y, l.outDim, rows, r)[j] == y[Index(l.outDim, rows, j, r)];
  }

  function BatchSplit(net: seq<Layer>, a: seq<real>, width: nat, rows: nat): (y: seq<real>)
    requires ValidNet(net, width) && |a| == width * rows
    ensures |y| == OutWidth(net, width) * rows
    decreases |net|
  {
    if net == [] then a
    else BatchSplit(net[1..], BatchLayer(net[0], a, rows, |net| > 1), net[0].outDim, rows)
  }

  function BatchPipeline(net: seq<Layer>, a: seq<real>, width: nat, rows: nat, sig: real -> real): (y: seq<real>)
    requires ValidNet(net, width) && |a| == width * rows
    ensures |y| == OutWidth(net, width) * rows
  {
    Map(sig, BatchSplit(net, a, width, rows))
  }

  lemma {:induction false} BatchSplitRow(net: seq<Layer>, a: seq<real>, width: nat, rows: nat, r: nat)
    requires ValidNet(net, width) && |a| == width * rows && r < rows
    ensures Row(BatchSplit(net, a, width, rows), OutWidth(net, width), rows, r) == Split(net, Row(a, width, rows, r))
    decreases |net|
  {
    if net == [] {
    } else {
      BatchLayerRow(net[0], a, rows, |net| > 1, r);
      BatchSplitRow(net[1..], BatchLayer(net[0], a, rows, |net| > 1), net[0].outDim, rows, r);
    }
  }

  /** Row `r` of a batch is the fused network on input row `r`, whatever the other rows hold. */
  lemma BatchRowIsFused(net: seq<Layer>, a: seq<real>, width: nat, rows: nat, sig: real -> real, r: nat)
    requires ValidNet(net, width) && net != [] && |a| == width * rows && r < rows
    ensures Row(BatchPipeline(net, a, width, rows, sig), OutWidth(net, width), rows, r)
         == Fused(net, Row(a, width, rows, r), sig)
  {
    BatchSplitRow(net, a, width, rows, r);
    PipelineIsFused(net, Row(a, width, rows, r), sig);
    var w := OutWidth(net, width);
    var s, y := BatchSplit(net, a, width, rows), BatchPipeline(net, a, width, rows, sig);
    assert forall x :: 0 <= x < w ==> Row(y, w, rows, r)[x] == sig(Row(s, w, rows, r)[x]);
  }

  // ---------------------------------------------------------------- the programs

  /** Re-order row-major `[out][in]` weights to `[in][out]`; a wrong length is refused. */
  method TransposeWeight(flat: seq<real>, outDim: nat, inDim: nat) returns (r: Option<seq<real>>)
    ensures r.Some? <==> |flat| == inDim * outDim
    ensures r.Some? ==>
      forall b: seq<real> :: |b| == outDim ==> r.value == Transposed(Layer(flat, b, outDim, inDim))
  {
    if |flat| != outDim * inDim {
      return None;
    }
    var out := new real[outDim * inDim](_ => 0.0);
    for i := 0 to outDim
      invariant Moved(flat, out[..], outDim, inDim, i, 0)
    {
      for k := 0 to inDim
        invariant Moved(flat, out[..], outDim, inDim, i, k)
      {
        ghost var before := out[..];
        out[Index(outDim, inDim, i, k)] := flat[Index(inDim, outDim, k, i)];
        MovedStep(flat, before, out[..], outDim, inDim, i, k);
      }
    }
    MovedAll(flat, out[..], outDim, inDim);
    return Some(out[..]);
  }

  /** The cells of all outputs below `i`, and of output `i` for inputs below `k`, are in place. */
  ghost predicate Moved(flat: seq<real>, out: seq<real>, outDim: nat, inDim: nat, i: nat, k: nat) {
    && |flat| == inDim * outDim && |out| == outDim * inDim
    && forall j, m :: 0 <= j < outDim && 0 <= m < inDim && (j < i || (j == i && m < k)) ==>
         out[Index(outDim, inDim, j, m)] == flat[Index(inDim, outDim, m, j)]
  }

  lemma MovedStep(flat: seq<real>, out: seq<real>, out': seq<real>, outDim: nat, inDim: nat, i: nat, k: nat)
    requires Moved(flat, out, outDim, inDim, i, k) && i < outDim && k < inDim
    requires out' == out[Index(outDim, inDim, i, k) := flat[Index(inDim, outDim, k, i)]]
    ensures Moved(flat, out', outDim, inDim, i, k + 1)
  {
    forall j, m | 0 <= j < outDim && 0 <= m < inDim && (j < i || (j == i && m < k + 1))
      ensures out'[Index(outDim, inDim, j, m)] == flat[Index(inDim, outDim, m, j)]
    {
      IndexInjective(outDim, inDim, i, k, j, m);
    }
  }

  lemma MovedAll(flat: seq<real>, out: seq<real>, outDim: nat, inDim: nat)
    requires Moved(flat, out, outDim, inDim, outDim, 0)
    ensures forall b: seq<real> :: |b| == outDim ==> out == Transposed(Layer(flat, b, outDim, inDim))
  {
    forall b: seq<real> | |b| == outDim
      ensures out == Transposed(Layer(flat, b, outDim, inDim))
    {
      var l := Layer(flat, b, outDim, inDim);
      forall j, m | 0 <= j < outDim && 0 <= m < inDim
        ensures out[Index(outDim, inDim, j, m)] == Transposed(l)[Index(outDim, inDim, j, m)]
      {
      }
      RowMajorEqual(out, Transposed(l), outDim, inDim);
    }
  }

  /** Taking the next layer off the remaining net. */
  lemma Peel(net: seq<Layer>, li: nat, x: seq<real>)
    requires li < |net| && ValidNet(net[li..], |x|)
    ensures var l := net[li];
      && ValidLayer(l) && |x| == l.inDim && ValidNet(net[li + 1..], l.outDim)
      && OutWidth(net[li..], |x|) == OutWidth(net[li + 1..], l.outDim)
      && Split(net[li..], x) == Split(net[li + 1..], PostLayer(l, x, li < |net| - 1))
  {
    assert net[li..][0] == net[li] && net[li..][1..] == net[li + 1..];
  }

  /** The reference forward pass, accumulating each output from its bias. */
  method CpuForward(net: seq<Layer>, x: seq<real>, sig: real -> real) returns (cur: seq<real>)
    requires ValidNet(net, |x|)
    ensures cur == Fused(net, x, sig)
  {
    cur := x;
    var li := 0;
    assert net[0..] == net;
    while li < |net|
      invariant li <= |net| && ValidNet(net[li..], |cur|)
      invariant Fused(net[li..], cur, sig) == Fused(net, x, sig)
    {
      var l, rest := net[li], net[li..];
      assert rest[0] == l && rest[1..] == net[li + 1..];
      var nxt := ForwardLayer(l, cur);
      cur := if li < |net| - 1 then ReluAll(nxt) else Map(sig, nxt);
      li := li + 1;
    }
  }

  method ForwardLayer(l: Layer, cur: seq<real>) returns (nxt: seq<real>)
    requires ValidLayer(l) && |cur| == l.inDim
    ensures nxt == FusedLayer(l, cur)
  {
    nxt := l.b;
    for i := 0 to l.outDim
      invariant |nxt| == l.outDim
      invariant forall j :: 0 <= j < l.outDim ==> nxt[j] == if j < i then FusedAcc(l, cur, j, l.inDim) else l.b[j]
    {
      for k := 0 to l.inDim
        invariant |nxt| == l.outDim && nxt[i] == FusedAcc(l, cur, i, k)
        invariant forall j :: 0 <= j < l.outDim && j != i ==>
          nxt[j] == if j < i then FusedAcc(l, cur, j, l.inDim) else l.b[j]
      {
        nxt := nxt[i := nxt[i] + l.w[Index(l.inDim, l.outDim, k, i)] * cur[k]];
      }
    }
  }

  /** The same sum read off the original weights. */
  function RowAcc(l: Layer, x: seq<real>, i: nat, k: nat): (v: real)
    requires ValidLayer(l) && |x| == l.inDim && i < l.outDim && k <= l.inDim
  {
    if k == 0 then 0.0 else RowAcc(l, x, i, k - 1) + Weight(l, i, k - 1) * x[k - 1]
  }

  lemma {:induction false} RowAccIsGemmAcc(l: Layer, wt: seq<real>, x: seq<real>, i: nat, k: nat)
    requires ValidLayer(l) && |x| == l.inDim && i < l.outDim && k <= l.inDim
    requires |wt| == l.outDim * l.inDim && ColumnOf(wt, l, i)
    ensures RowAcc(l, x, i, k) == GemmAcc(wt, l.outDim, l.inDim, x, i, k)
  {
    if k == 0 {
    } else {
      var m := k - 1;
      RowAccIsGemmAcc(l, wt, x, i, m);
    }
  }

  lemma TransposedColumns(l: Layer, wt: seq<real>)
    requires ValidLayer(l) && wt == Transposed(l)
    ensures forall i :: 0 <= i < l.outDim ==> ColumnOf(wt, l, i)
  {
  }

  method DotRow(l: Layer, cur: seq<real>, i: nat, ghost wt: seq<real>) returns (sum: real)
    requires ValidLayer(l) && |cur| == l.inDim && i < l.outDim
    requires |wt| == l.outDim * l.inDim && ColumnOf(wt, l, i)
    ensures sum == GemmAcc(wt, l.outDim, l.inDim, cur, i, l.inDim)
  {
    sum := 0.0;
    for k := 0 to l.inDim
      invariant sum == RowAcc(l, cur, i, k)
    {
      sum := sum + l.w[Index(l.inDim, l.outDim, k, i)] * cur[k];
    }
    RowAccIsGemmAcc(l, wt, cur, i, l.inDim);
  }

  /** The product step alone, on the original weights. */
  method GemmRows(l: Layer, cur: seq<real>, ghost wt: seq<real>) returns (g: seq<real>)
    requires ValidLayer(l) && |cur| == l.inDim
    requires |wt| == l.outDim * l.inDim && forall i :: 0 <= i < l.outDim ==> ColumnOf(wt, l, i)
    ensures g == Gemm(wt, l.outDim, l.inDim, cur)
  {
    g := [];
    for i := 0 to l.outDim
      invariant |g| == i && forall j :: 0 <= j < i ==> g[j] == GemmAcc(wt, l.outDim, l.inDim, cur, j, l.inDim)
    {
      var sum := DotRow(l, cur, i, wt);
      g := g + [sum];
    }
  }

  /** The split pipeline, step by step: product, bias, ReLU on hidden layers; the sigmoid at the end. */
  method SplitForward(net: seq<Layer>, x: seq<real>, sig: real -> real) returns (scores: seq<real>)
    requires ValidNet(net, |x|)
    ensures scores == Pipeline(net, x, sig)
  {
    var cur, li := x, 0;
    assert net[0..] == net;
    while li < |net|
      invariant li <= |net| && ValidNet(net[li..], |cur|)
      invariant Split(net[li..], cur) == Split(net, x)
    {
      Peel(net, li, cur);
      ghost var wt := Transposed(net[li]);
      TransposedColumns(net[li], wt);
      var g := GemmRows(net[li], cur, wt);
      cur := AddBias(g, net[li].b, li < |net| - 1);
      li := li + 1;
    }
    scores := Map(sig, cur);
  }

  /** The inner loop of the self-check: one column of the product. */
  method DotColumn(wt: seq<real>, outDim: nat, inDim: nat, inp: array<real>, j: nat) returns (sum: real)
    requires |wt| == outDim * inDim && inDim <= inp.Length && j < outDim
    ensures sum == GemmAcc(wt, outDim, inDim, inp[..inDim], j, inDim)
  {
    sum := 0.0;
    for k := 0 to inDim
      invariant sum == GemmAcc(wt, outDim, inDim, inp[..inDim], j, k)
    {
      sum := sum + inp[k] * wt[Index(outDim, inDim, j, k)];
    }
  }

  /** One output cell of the self-check: product, bias, and ReLU on hidden layers. */
  method ScoreCell(l: Layer, inp: array<real>, relu: bool, j: nat) returns (v: real)
    requires ValidLayer(l) && l.inDim <= inp.Length && j < l.outDim
    ensures v == PostLayer(l, inp[..l.inDim], relu)[j]
  {
    PostCell(l, inp[..l.inDim], relu, j);
    v := DotColumn(Transposed(l), l.outDim, l.inDim, inp, j);
    v := v + l.b[j];
    if relu && v < 0.0 {
      v := 0.0;
    }
  }

  /** One layer of the self-check, from `inp` into the other buffer. */
  method ScoreLayer(l: Layer, inp: array<real>, out: array<real>, relu: bool)
    requires ValidLayer(l) && l.inDim <= inp.Length && l.outDim <= out.Length && inp != out
    modifies out
    ensures out[..l.outDim] == PostLayer(l, inp[..l.inDim], relu)
  {
    ghost var y := PostLayer(l, inp[..l.inDim], relu);
    var j := 0;
    while j < l.outDim
      invariant j <= l.outDim && inp[..] == old(inp[..])
      invariant out[..j] == y[..j]
    {
      assert inp[..l.inDim] == inp[..][..l.inDim];
      out[j] := ScoreCell(l, inp, relu, j);
      j := j + 1;
    }
  }

  lemma PostCell(l: Layer, x: seq<real>, relu: bool, j: nat)
    requires ValidLayer(l) && |x| == l.inDim && j < l.outDim
    ensures var sum := GemmAcc(Transposed(l), l.outDim, l.inDim, x, j, l.inDim) + l.b[j];
      PostLayer(l, x, relu)[j] == if relu && sum < 0.0 then 0.0 else sum
  {
  }

  const ACT_WIDTH := 64

  /** Every layer's output fits one of the two buffers. */
  predicate FitsBuffers(net: seq<Layer>) {
    forall i :: 0 <= i < |net| ==> net[i].outDim <= ACT_WIDTH
  }

  lemma {:induction false} ValidAt(net: seq<Layer>, n: nat, i: nat)
    requires ValidNet(net, n) && i < |net|
    ensures ValidLayer(net[i]) && net[i].inDim == if i == 0 then n else net[i - 1].outDim
  {
    if i == 0 {
    } else {
      ValidAt(net[1..], net[0].outDim, i - 1);
    }
  }

  /** The live activations before layer `li`. */
  function Act(net: seq<Layer>, x: seq<real>, li: nat): (cur: seq<real>)
    requires ValidNet(net, |x|) && li <= |net|
    ensures |cur| == if li == 0 then |x| else net[li - 1].outDim
  {
    if li == 0 then x
    else
      ValidAt(net, |x|, li - 1);
      PostLayer(net[li - 1], Act(net, x, li - 1), li < |net|)
  }

  /** The remaining layers turn them into the output of the whole net. */
  lemma {:induction false} ActSplit(net: seq<Layer>, x: seq<real>, li: nat)
    requires ValidNet(net, |x|) && li <= |net|
    ensures ValidNet(net[li..], |Act(net, x, li)|)
    ensures Split(net[li..], Act(net, x, li)) == Split(net, x)
  {
    if li == 0 {
      assert net[0..] == net;
    } else {
      ActSplit(net, x, li - 1);
      Peel(net, li - 1, Act(net, x, li - 1));
    }
  }

  lemma ScoreIsFused(net: seq<Layer>, x: seq<real>, sig: real -> real)
    requires ValidNet(net, |x|) && net != [] && OutWidth(net, |x|) > 0
    ensures var cur := Act(net, x, |net|);
      cur != [] && Fused(net, x, sig) != [] && sig(cur[0]) == Fused(net, x, sig)[0]
  {
    ActSplit(net, x, |net|);
    assert net[|net|..] == [];
    PipelineIsFused(net, x, sig);
    assert Map(sig, Act(net, x, |net|)) == Fused(net, x, sig);
  }

  /** Layer `li` of the self-check, out of one buffer into the other. */
  method ScoreNext(net: seq<Layer>, li: nat, inp: array<real>, out: array<real>, ghost x: seq<real>)
    requires li < |net| && FitsBuffers(net) && ValidNet(net, |x|)
    requires Holds(inp[..], Act(net, x, li)) && inp != out && out.Length == ACT_WIDTH
    modifies out
    ensures Holds(out[..], Act(net, x, li + 1))
  {
    ValidAt(net, |x|, li);
    ScoreLayer(net[li], inp, out, li < |net| - 1);
  }

  /** A buffer holds the activations in its first cells. */
  predicate Holds(buf: seq<real>, cur: seq<real>) {
    |cur| <= |buf| && buf[..|cur|] == cur
  }

  /** The low bit of a counter. */
  predicate Odd(n: nat) {
    n > 0 && !Odd(n - 1)
  }

  /** The buffer layer `li` writes. */
  function Buffer(act0: array<real>, act1: array<real>, li: nat): (out: array<real>) {
    if Odd(li) then act1 else act0
  }

  /** All layers in turn, alternating between the buffers; returns the one that holds the result. */
  method ScoreLayers(x: array<real>, net: seq<Layer>, act0: array<real>, act1: array<real>) returns (inp: array<real>)
    requires ValidNet(net, x.Length) && FitsBuffers(net)
    requires act0.Length == ACT_WIDTH && act1.Length == ACT_WIDTH && x != act0 && x != act1 && act0 != act1
    modifies act0, act1
    ensures Holds(inp[..], Act(net, old(x[..]), |net|))
  {
    inp := x;
    ghost var x0 := x[..];
    for li := 0 to |net|
      invariant Holds(inp[..], Act(net, x0, li)) && inp != Buffer(act0, act1, li)
    {
      var out := Buffer(act0, act1, li);
      ScoreNext(net, li, inp, out, x0);
      inp := out;
    }
  }

  /**
   The launcher's self-check: layers alternate between two buffers, so the live input is never the
   buffer being written, and the score is that of the fused network.
   */
  method CpuReferenceScore(x: array<real>, net: seq<Layer>, sig: real -> real) returns (score: real)
    requires ValidNet(net, x.Length) && net != [] && FitsBuffers(net) && OutWidth(net, x.Length) > 0
    ensures score == Fused(net, x[..], sig)[0]
  {
    var act0, act1 := new real[ACT_WIDTH], new real[ACT_WIDTH];
    var inp := ScoreLayers(x, net, act0, act1);
    ScoreIsFused(net, x[..], sig);
    return sig(inp[0]);
  }
}
