/** src/modules/heatmap.rs: counts the placements on every cell of the
    final-tier canvas, caps the largest count at `MAX_HEAT`, and colours each
    cell along a black, dark red, yellow, white gradient by its share of
    that cap. */
module Heatmap {
  import opened Image
  import opened Render
  import opened Canvas
  import opened Reports
  import opened Gradient

  const MAX_HEAT: nat := 20

  /** A row of the query: raw `x` and `y`. */
  datatype Placement = Placement(x: int, y: int)

  predicate At(p: Placement, x: nat, y: nat) {
    AsU32(p.x) == x && AsU32(p.y) == y
  }

  function AtCell(x: nat, y: nat): Placement -> bool {
    p => At(p, x, y)
  }

  predicate AllInCanvas(tiers: seq<Tier>, ps: seq<Placement>)
    requires |tiers| >= 1
  {
    forall i :: 0 <= i < |ps| ==> InCanvas(tiers, ps[i].x, ps[i].y)
  }

  /** `heat_matrix` after a prefix of the placements: zeroes, each
      placement adding one to its cell. */
  function HeatMatrix(tiers: seq<Tier>, ps: seq<Placement>): (m: Grid<nat>)
    requires |tiers| >= 1 && AllInCanvas(tiers, ps)
    ensures IsGrid(m, FinalTier(tiers).w, FinalTier(tiers).h)
    decreases |ps|
  {
    if |ps| == 0 then Fill(FinalTier(tiers).w, FinalTier(tiers).h, 0)
    else
      var n := |ps| - 1;
      assert AllInCanvas(tiers, ps[..n]);
      var m := HeatMatrix(tiers, ps[..n]);
      var x := AsU32(ps[n].x);
      var y := AsU32(ps[n].y);
      Put(m, x, y, m[x][y] + 1)
  }

  /** Every cell holds the number of placements on it. */
  lemma {:induction false} HeatCounts(tiers: seq<Tier>, ps: seq<Placement>, x: nat, y: nat)
    requires |tiers| >= 1 && AllInCanvas(tiers, ps)
    requires x < FinalTier(tiers).w && y < FinalTier(tiers).h
    ensures HeatMatrix(tiers, ps)[x][y] == CountWhere(ps, AtCell(x, y))
    decreases |ps|
  {
    if |ps| > 0 {
      var n := |ps| - 1;
      assert AllInCanvas(tiers, ps[..n]);
      HeatCounts(tiers, ps[..n], x, y);
    }
  }

  /** The per-column sums of a grid. */
  function ColumnSums(g: Grid<nat>): (s: seq<int>)
    ensures |s| == |g|
  {
    seq(|g|, i requires 0 <= i < |g| => Sum(g[i]))
  }

  /** The sum of all cells. */
  function GridSum(g: Grid<nat>): int {
    Sum(ColumnSums(g))
  }

  /** Adding one to a cell adds one to the grid's sum. */
  lemma BumpGridSum(g: Grid<nat>, x: nat, y: nat)
    requires x < |g| && y < |g[x]|
    ensures GridSum(Put(g, x, y, g[x][y] + 1)) == GridSum(g) + 1
  {
    var g' := Put(g, x, y, g[x][y] + 1);
    var col: seq<int> := g[x];
    assert g'[x] == col[y := col[y] + 1];
    SumUpdate(col, y, 1);
    var s := ColumnSums(g);
    assert ColumnSums(g') == s[x := s[x] + 1];
    SumUpdate(s, x, 1);
  }

  lemma {:induction false} SumZeroes(s: seq<int>)
    requires forall i :: 0 <= i < |s| ==> s[i] == 0
    ensures Sum(s) == 0
    decreases |s|
  {
    if |s| > 0 {
      SumZeroes(s[..|s| - 1]);
    }
  }

  /** No placement is lost or counted twice: the counts add up to the
      number of placements. */
  lemma {:induction false} HeatTotal(tiers: seq<Tier>, ps: seq<Placement>)
    requires |tiers| >= 1 && AllInCanvas(tiers, ps)
    ensures GridSum(HeatMatrix(tiers, ps)) == |ps|
    decreases |ps|
  {
    if |ps| == 0 {
      var m := HeatMatrix(tiers, ps);
      forall i | 0 <= i < |m|
        ensures ColumnSums(m)[i] == 0
      {
        SumZeroes(m[i]);
      }
      SumZeroes(ColumnSums(m));
    } else {
      var n := |ps| - 1;
      assert AllInCanvas(tiers, ps[..n]);
      HeatTotal(tiers, ps[..n]);
      BumpGridSum(HeatMatrix(tiers, ps[..n]), AsU32(ps[n].x), AsU32(ps[n].y));
    }
  }

  /** `v` is the largest cell of a `w` by `h` grid. */
  predicate IsHottest(m: Grid<nat>, w: nat, h: nat, v: nat)
    requires IsGrid(m, w, h)
  {
    && (forall x, y :: 0 <= x < w && 0 <= y < h ==> m[x][y] <= v)
    && (exists x, y :: 0 <= x < w && 0 <= y < h && m[x][y] == v)
  }

  /** `hottest`: the maximum over the column maxima; `None` where an
      `unwrap` of an empty maximum panics, that is for an empty grid. */
  method Hottest(m: Grid<nat>, w: nat, h: nat) returns (r: Option<nat>)
    requires IsGrid(m, w, h)
    ensures r.None? <==> w == 0 || h == 0
    ensures r.Some? ==> IsHottest(m, w, h, r.value)
  {
    if w == 0 || h == 0 {
      return None;
    }
    var best := m[0][0];
    ghost var hx, hy := 0, 0;
    var x := 0;
    while x < w
      invariant 0 <= x <= w
      invariant forall i, j :: 0 <= i < x && 0 <= j < h ==> m[i][j] <= best
      invariant 0 <= hx < w && 0 <= hy < h && m[hx][hy] == best
    {
      var y := 0;
      while y < h
        invariant 0 <= y <= h
        invariant forall i, j :: 0 <= i < x && 0 <= j < h ==> m[i][j] <= best
        invariant forall j :: 0 <= j < y ==> m[x][j] <= best
        invariant 0 <= hx < w && 0 <= hy < h && m[hx][hy] == best
      {
        if m[x][y] > best {
          best := m[x][y];
          hx, hy := x, y;
        }
        y := y + 1;
      }
      x := x + 1;
    }
    return Some(best);
  }

  /** `hottest_capped`: the hottest count, at most `MAX_HEAT`. */
  function Capped(hottest: nat): (c: nat)
    ensures c <= MAX_HEAT && c <= hottest
    ensures c == hottest || c == MAX_HEAT
  {
    if hottest > MAX_HEAT then MAX_HEAT else hottest
  }

  /** The cap is zero exactly when nothing was placed. */
  lemma CapZeroIffEmpty(tiers: seq<Tier>, ps: seq<Placement>, hottest: nat)
    requires |tiers| >= 1 && AllInCanvas(tiers, ps)
    requires IsHottest(HeatMatrix(tiers, ps), FinalTier(tiers).w, FinalTier(tiers).h, hottest)
    ensures Capped(hottest) == 0 <==> |ps| == 0
  {
    var m := HeatMatrix(tiers, ps);
    if |ps| > 0 {
      var x, y := AsU32(ps[0].x), AsU32(ps[0].y);
      HeatCounts(tiers, ps, x, y);
      CountAtLeastOne(ps, 0, AtCell(x, y));
    } else {
      var x, y :| 0 <= x < FinalTier(tiers).w && 0 <= y < FinalTier(tiers).h && m[x][y] == hottest;
      HeatCounts(tiers, ps, x, y);
    }
  }

  lemma {:induction false} CountAtLeastOne<T>(s: seq<T>, i: nat, P: T -> bool)
    requires i < |s| && P(s[i])
    ensures CountWhere(s, P) >= 1
    decreases |s|
  {
    if i < |s| - 1 {
      CountAtLeastOne(s[..|s| - 1], i, P);
    }
  }

  /** `heat`: the cell's count over the cap, as `f32` division. */
  function Ratio(count: nat, cap: nat): Option<real> {
    if cap == 0 then None else Some(count as real / cap as real)
  }

  /** The rendered image: every cell coloured by its share of the cap. */
  function HeatImage(m: Grid<nat>, w: nat, h: nat, cap: nat): (g: Grid<Rgb8>)
    requires IsGrid(m, w, h)
    ensures IsGrid(g, w, h)
  {
    seq(w, x requires 0 <= x < w => seq(h, y requires 0 <= y < h => HeatColour(Ratio(m[x][y], cap))))
  }

  /** With a positive cap, empty cells are black and cells at or above the
      cap are white; with a zero cap (no placements) every cell is white. */
  lemma HeatImageExtremes(m: Grid<nat>, w: nat, h: nat, cap: nat, x: nat, y: nat)
    requires IsGrid(m, w, h) && x < w && y < h
    ensures cap > 0 && m[x][y] == 0 ==> HeatImage(m, w, h, cap)[x][y] == BLACK8
    ensures cap > 0 && m[x][y] >= cap ==> HeatImage(m, w, h, cap)[x][y] == WHITE8
    ensures cap == 0 ==> HeatImage(m, w, h, cap)[x][y] == WHITE8
  {
    if cap > 0 {
      var v := m[x][y] as real / cap as real;
      RatioBounds(m[x][y], cap);
      GradientSegments(v);
      if v == 1.0 {
        assert (v - 0.66) / 0.34 == 1.0;
      }
    }
  }

  lemma RatioMonotone(a: nat, b: nat, cap: nat)
    requires cap > 0 && a <= b
    ensures a as real / cap as real <= b as real / cap as real
  {
  }

  lemma RatioBounds(c: nat, cap: nat)
    requires cap > 0
    ensures c as real / cap as real >= 0.0
    ensures c == 0 ==> c as real / cap as real == 0.0
    ensures c >= cap ==> c as real / cap as real >= 1.0
  {
    if c >= cap {
      RatioMonotone(cap, c, cap);
      assert cap as real / cap as real == 1.0;
    }
  }

  /** Of two cells, the one with more placements is never darker. */
  lemma HeatImageOrdered(m: Grid<nat>, w: nat, h: nat, cap: nat, x1: nat, y1: nat, x2: nat, y2: nat)
    requires IsGrid(m, w, h) && x1 < w && y1 < h && x2 < w && y2 < h
    requires m[x1][y1] <= m[x2][y2]
    ensures var g := HeatImage(m, w, h, cap);
            g[x1][y1].r <= g[x2][y2].r && g[x1][y1].g <= g[x2][y2].g && g[x1][y1].b <= g[x2][y2].b
  {
    if cap > 0 {
      RatioMonotone(m[x1][y1], m[x2][y2], cap);
      RatioBounds(m[x1][y1], cap);
      HotterNeverDarker(m[x1][y1] as real / cap as real, m[x2][y2] as real / cap as real);
    }
  }

  /** The whole report: the count matrix, its hottest cell (`None` where
      that panics), the cap, and the image. */
  method RenderHeatmap(tiers: seq<Tier>, ps: seq<Placement>) returns (r: Option<Grid<Rgb8>>)
    requires |tiers| >= 1 && AllInCanvas(tiers, ps)
    ensures r.None? <==> FinalTier(tiers).w == 0 || FinalTier(tiers).h == 0
    ensures r.Some? ==> exists hottest :: IsHottest(HeatMatrix(tiers, ps), FinalTier(tiers).w, FinalTier(tiers).h, hottest)
                          && r.value == HeatImage(HeatMatrix(tiers, ps), FinalTier(tiers).w, FinalTier(tiers).h, Capped(hottest))
  {
    var w, h := FinalTier(tiers).w, FinalTier(tiers).h;
    var m := HeatMatrix(tiers, ps);
    var hot := Hottest(m, w, h);
    match hot
    case None => return None;
    case Some(v) => return Some(HeatImage(m, w, h, Capped(v)));
  }
}
