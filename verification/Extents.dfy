/**
 Coalescing the physical pages of a pool into extents: consecutive pages whose addresses follow
 each other become one extent, a page without a known address leaves a hole, and the table has a
 fixed capacity.
 */
module Extents {

  const PAGE := 4096

  datatype Extent = Extent(phys: nat, pages: nat)

  /** An extent together with where in the pool it starts. */
  datatype Run = Run(at: nat, phys: nat, pages: nat)

  function ExtentOf(r: Run): (e: Extent) {
    Extent(r.phys, r.pages)
  }

  function ExtentsOf(rs: seq<Run>): (es: seq<Extent>)
    ensures |es| == |rs| && forall k :: 0 <= k < |rs| ==> es[k] == ExtentOf(rs[k])
  {
    seq(|rs|, k requires 0 <= k < |rs| => ExtentOf(rs[k]))
  }

  function End(r: Run): (i: nat) {
    r.at + r.pages
  }

  // ---------------------------------------------------------------- the reference

  /** The run covers existing pages with consecutive, known addresses. */
  predicate Covers(ps: seq<nat>, r: Run) {
    && 0 < r.pages && End(r) <= |ps|
    && forall t :: r.at <= t < End(r) ==> ps[t] != 0 && ps[t] == r.phys + (t - r.at) * 4096
  }

  /** Only holes lie in `[i, j)`. */
  predicate Holes(ps: seq<nat>, i: nat, j: nat) {
    i <= j <= |ps| && forall t :: i <= t < j ==> ps[t] == 0
  }

  /** The runs tile the pool up to holes. */
  predicate Tiles(ps: seq<nat>, rs: seq<Run>) {
    && (forall k :: 0 <= k < |rs| ==> Covers(ps, rs[k]))
    && (forall k :: 0 <= k < |rs| - 1 ==> Holes(ps, End(rs[k]), rs[k + 1].at))
    && (|rs| == 0 ==> Holes(ps, 0, |ps|))
    && (|rs| > 0 ==> Holes(ps, 0, rs[0].at) && Holes(ps, End(rs[|rs| - 1]), |ps|))
  }

  /** Neighbours that could be merged have a hole between them. */
  predicate Maximal(rs: seq<Run>) {
    forall k :: 0 <= k < |rs| - 1 && rs[k].phys + rs[k].pages * PAGE == rs[k + 1].phys ==>
      End(rs[k]) < rs[k + 1].at
  }

  function Extended(rs: seq<Run>): (r: seq<Run>)
    requires rs != []
  {
    rs[|rs| - 1 := rs[|rs| - 1].(pages := rs[|rs| - 1].pages + 1)]
  }

  /** The next page continues the last run. */
  predicate Continues(ps: seq<nat>, rs: seq<Run>, p: nat) {
    rs != [] && End(rs[|rs| - 1]) == |ps| && p == rs[|rs| - 1].phys + rs[|rs| - 1].pages * PAGE
  }

  /** The runs after one more page. */
  function AddPage(ps: seq<nat>, rs: seq<Run>, p: nat): (r: seq<Run>) {
    if p == 0 then rs
    else if Continues(ps, rs, p) then Extended(rs)
    else rs + [Run(|ps|, p, 1)]
  }

  /** The maximal runs of a pool, page by page. */
  function Runs(ps: seq<nat>): (rs: seq<Run>) {
    if ps == [] then [] else AddPage(ps[..|ps| - 1], Runs(ps[..|ps| - 1]), ps[|ps| - 1])
  }

  lemma CoversMore(ps: seq<nat>, p: nat, r: Run)
    requires Covers(ps, r)
    ensures Covers(ps + [p], r)
  {
  }

  lemma AddHoleTiles(ps: seq<nat>, rs: seq<Run>)
    requires Tiles(ps, rs)
    ensures Tiles(ps + [0], rs)
  {
    forall k | 0 <= k < |rs|
      ensures Covers(ps + [0], rs[k])
    {
      CoversMore(ps, 0, rs[k]);
    }
  }

  lemma ExtendTiles(ps: seq<nat>, rs: seq<Run>, p: nat)
    requires Tiles(ps, rs) && Continues(ps, rs, p) && p != 0
    ensures Tiles(ps + [p], Extended(rs))
  {
    var qs := Extended(rs);
    forall k | 0 <= k < |qs|
      ensures Covers(ps + [p], qs[k])
    {
      CoversMore(ps, p, rs[k]);
    }
    forall k | 0 <= k < |qs| - 1
      ensures Holes(ps + [p], End(qs[k]), qs[k + 1].at)
    {
      assert Holes(ps, End(rs[k]), rs[k + 1].at);
    }
  }

  lemma NewRunTiles(ps: seq<nat>, rs: seq<Run>, p: nat)
    requires Tiles(ps, rs) && p != 0
    ensures Tiles(ps + [p], rs + [Run(|ps|, p, 1)])
  {
    var qs := rs + [Run(|ps|, p, 1)];
    forall k | 0 <= k < |qs|
      ensures Covers(ps + [p], qs[k])
    {
      if k < |rs| {
        CoversMore(ps, p, rs[k]);
      }
    }
    forall k | 0 <= k < |qs| - 1
      ensures Holes(ps + [p], End(qs[k]), qs[k + 1].at)
    {
      if k < |rs| - 1 {
        assert Holes(ps, End(rs[k]), rs[k + 1].at);
      }
    }
  }

  lemma AddPageMaximal(ps: seq<nat>, rs: seq<Run>, p: nat)
    requires Tiles(ps, rs) && Maximal(rs)
    ensures Maximal(AddPage(ps, rs, p))
  {
    var qs := AddPage(ps, rs, p);
    forall k | 0 <= k < |qs| - 1 && qs[k].phys + qs[k].pages * PAGE == qs[k + 1].phys
      ensures End(qs[k]) < qs[k + 1].at
    {
      if k < |rs| - 1 {
        assert rs[k] == qs[k] && rs[k + 1].phys == qs[k + 1].phys && rs[k + 1].at == qs[k + 1].at;
      }
    }
  }

  /** The runs tile the pool up to holes, and neighbours are mergeable only across a hole. */
  lemma {:induction false} RunsAreMaximal(ps: seq<nat>)
    ensures Tiles(ps, Runs(ps)) && Maximal(Runs(ps))
  {
    if ps == [] {
    } else {
      var before, p := ps[..|ps| - 1], ps[|ps| - 1];
      RunsAreMaximal(before);
      assert ps == before + [p];
      AddPageMaximal(before, Runs(before), p);
      if p == 0 {
        AddHoleTiles(before, Runs(before));
      } else if Continues(before, Runs(before), p) {
        ExtendTiles(before, Runs(before), p);
      } else {
        NewRunTiles(before, Runs(before), p);
      }
    }
  }

  /** Without holes, neighbouring extents are never mergeable. */
  lemma NoHolesNoMerge(ps: seq<nat>, k: nat)
    requires 0 !in ps && k + 1 < |Runs(ps)|
    ensures var e, e' := ExtentsOf(Runs(ps))[k], ExtentsOf(Runs(ps))[k + 1];
      e.phys + e.pages * PAGE != e'.phys
  {
    RunsAreMaximal(ps);
    var r, r' := Runs(ps)[k], Runs(ps)[k + 1];
    if End(r) < r'.at {
      HoleIsListed(ps, End(r), r'.at);
    }
  }

  lemma HoleIsListed(ps: seq<nat>, i: nat, j: nat)
    requires Holes(ps, i, j) && i < j
    ensures 0 in ps
  {
    assert ps[i] == 0;
  }

  // ---------------------------------------------------------------- expanding

  /** The page addresses of one extent. */
  function Pages(e: Extent): (ps: seq<nat>)
    ensures |ps| == e.pages
  {
    seq(e.pages, t requires 0 <= t < e.pages => e.phys + t * PAGE)
  }

  /** The page addresses an extent table stands for. */
  function Expand(es: seq<Extent>): (ps: seq<nat>) {
    if es == [] then [] else Expand(es[..|es| - 1]) + Pages(es[|es| - 1])
  }

  function NonZero(ps: seq<nat>): (qs: seq<nat>) {
    if ps == [] then []
    else
      var rest, p := NonZero(ps[..|ps| - 1]), ps[|ps| - 1];
      if p == 0 then rest else rest + [p]
  }

  lemma ExpandExtended(rs: seq<Run>)
    requires rs != []
    ensures var r := rs[|rs| - 1];
      Expand(ExtentsOf(Extended(rs))) == Expand(ExtentsOf(rs)) + [r.phys + r.pages * PAGE]
  {
    var r := rs[|rs| - 1];
    var es, xs := ExtentsOf(rs), ExtentsOf(Extended(rs));
    assert xs[..|xs| - 1] == es[..|es| - 1];
    assert Pages(Extent(r.phys, r.pages + 1)) == Pages(Extent(r.phys, r.pages)) + [r.phys + r.pages * PAGE];
  }

  lemma ExpandNew(rs: seq<Run>, at: nat, p: nat)
    ensures Expand(ExtentsOf(rs + [Run(at, p, 1)])) == Expand(ExtentsOf(rs)) + [p]
  {
    var es := ExtentsOf(rs + [Run(at, p, 1)]);
    assert es[..|es| - 1] == ExtentsOf(rs);
    assert Pages(Extent(p, 1)) == [p];
  }

  /** Expanding the runs gives back exactly the known page addresses, in order. */
  lemma {:induction false} ExpandRuns(ps: seq<nat>)
    ensures Expand(ExtentsOf(Runs(ps))) == NonZero(ps)
  {
    if ps == [] {
    } else {
      var before, p := ps[..|ps| - 1], ps[|ps| - 1];
      ExpandRuns(before);
      if p != 0 {
        if Continues(before, Runs(before), p) {
          ExpandExtended(Runs(before));
        } else {
          ExpandNew(Runs(before), |before|, p);
        }
      }
    }
  }

  lemma {:induction false} NonZeroAll(ps: seq<nat>)
    requires 0 !in ps
    ensures NonZero(ps) == ps
  {
    if ps == [] {
    } else {
      NonZeroAll(ps[..|ps| - 1]);
      assert ps[|ps| - 1] in ps;
    }
  }

  /** When no lookup failed, expanding gives back every page in its position. */
  lemma ExpandAll(ps: seq<nat>)
    requires 0 !in ps
    ensures Expand(ExtentsOf(Runs(ps))) == ps
  {
    ExpandRuns(ps);
    NonZeroAll(ps);
  }

  // ---------------------------------------------------------------- the loop

  /** The first `max` runs, or all of them. */
  function Truncated(rs: seq<Run>, max: nat): (r: seq<Run>) {
    if |rs| <= max then rs else rs[..max]
  }

  /** The table holds the runs in order from the first on, all of them if there is room. */
  lemma TruncatedIs(rs: seq<Run>, max: nat)
    ensures Truncated(rs, max) <= rs
    ensures |Truncated(rs, max)| == if |rs| < max then |rs| else max
  {
  }

  /** More pages never change a table that is already full. */
  lemma {:induction false} FullStaysFull(ps: seq<nat>, i: nat, max: nat)
    requires i <= |ps| && |Runs(ps[..i])| > max
    ensures |Runs(ps)| > max && Runs(ps)[..max] == Runs(ps[..i])[..max]
    decreases |ps|
  {
    if i < |ps| {
      var before := ps[..|ps| - 1];
      assert before[..i] == ps[..i];
      FullStaysFull(before, i, max);
    } else {
      assert ps[..i] == ps;
    }
  }

  lemma RunsStep(ps: seq<nat>, i: nat)
    requires i < |ps|
    ensures Runs(ps[..i + 1]) == AddPage(ps[..i], Runs(ps[..i]), ps[i])
  {
    assert ps[..i + 1][..i] == ps[..i];
  }

  lemma FullStep(ps: seq<nat>, i: nat, max: nat)
    requires i < |ps| && |Runs(ps[..i])| > max
    ensures |Runs(ps[..i + 1])| > max && Runs(ps[..i + 1])[..max] == Runs(ps[..i])[..max]
  {
    assert ps[..i + 1][..i] == ps[..i];
    FullStaysFull(ps[..i + 1], i, max);
  }

  /** What the walk has done after the pages with runs `rs`: table `es` and the run in progress. */
  predicate Walked(rs: seq<Run>, i: nat, max: nat, es: seq<Extent>, phys: nat, pages: nat) {
    if |rs| > max then es == ExtentsOf(rs[..max])
    else if pages == 0 then es == ExtentsOf(rs) && (rs != [] ==> End(rs[|rs| - 1]) < i)
    else
      && rs != [] && ExtentOf(rs[|rs| - 1]) == Extent(phys, pages) && End(rs[|rs| - 1]) == i
      && es == ExtentsOf(rs[..|rs| - 1])
  }

  /** One step over a hole. */
  lemma WalkedHole(rs: seq<Run>, i: nat, max: nat, es: seq<Extent>, phys: nat, pages: nat)
    requires Walked(rs, i, max, es, phys, pages)
    ensures pages > 0 && |es| < max ==> Walked(rs, i + 1, max, es + [Extent(phys, pages)], 0, 0)
    ensures pages == 0 || |es| >= max ==> Walked(rs, i + 1, max, es, phys, pages)
  {
    if |rs| <= max && pages > 0 {
      assert rs == rs[..|rs| - 1] + [rs[|rs| - 1]];
    }
  }

  lemma WalkedEnd(rs: seq<Run>, i: nat, max: nat, es: seq<Extent>, phys: nat, pages: nat)
    requires Walked(rs, i, max, es, phys, pages)
    ensures ExtentsOf(Truncated(rs, max)) == if pages > 0 && |es| < max then es + [Extent(phys, pages)] else es
  {
    WalkedHole(rs, i, max, es, phys, pages);
  }

  /** One step over a page at `p`, while the table is not over-full. */
  lemma WalkedPage(ps: seq<nat>, rs: seq<Run>, max: nat, es: seq<Extent>, phys: nat, pages: nat, p: nat)
    requires Walked(rs, |ps|, max, es, phys, pages) && |rs| <= max && p != 0
    ensures var rs' := AddPage(ps, rs, p);
      && (pages == 0 ==> Walked(rs', |ps| + 1, max, es, p, 1))
      && (pages > 0 && p == phys + pages * PAGE ==> Walked(rs', |ps| + 1, max, es, phys, pages + 1))
      && (pages > 0 && p != phys + pages * PAGE && |es| < max ==>
            Walked(rs', |ps| + 1, max, es + [Extent(phys, pages)], p, 1))
  {
    if pages > 0 {
      assert rs == rs[..|rs| - 1] + [rs[|rs| - 1]];
    }
  }

  /**
   The walk over the pool: coalesces into the run in progress, flushes it at a hole or a
   discontinuity, and stops appending when the table is full.
   */
  method Coalesce(ps: seq<nat>, max: nat) returns (es: seq<Extent>)
    ensures es == ExtentsOf(Truncated(Runs(ps), max))
  {
    es := [];
    var curPhys: nat, curPages: nat := 0, 0;
    var i := 0;
    while i < |ps|
      invariant i <= |ps| && Walked(Runs(ps[..i]), i, max, es, curPhys, curPages)
    {
      var p := ps[i];
      ghost var rs := Runs(ps[..i]);
      RunsStep(ps, i);
      if p == 0 {
        WalkedHole(rs, i, max, es, curPhys, curPages);
      } else if |rs| > max {
        FullStep(ps, i, max);
      } else {
        WalkedPage(ps[..i], rs, max, es, curPhys, curPages, p);
      }
      i := i + 1;
      if p == 0 {
        if curPages > 0 && |es| < max {
          es := es + [Extent(curPhys, curPages)];
          curPhys, curPages := 0, 0;
        }
      } else if curPages == 0 {
        curPhys, curPages := p, 1;
      } else if p == curPhys + curPages * PAGE {
        curPages := curPages + 1;
      } else if |es| < max {
        es := es + [Extent(curPhys, curPages)];
        curPhys, curPages := p, 1;
      } else {
        FullStaysFull(ps, i - 1, max);
        return;
      }
    }
    assert ps[..i] == ps;
    WalkedEnd(Runs(ps), i, max, es, curPhys, curPages);
    if curPages > 0 && |es| < max {
      es := es + [Extent(curPhys, curPages)];
    }
  }
}
