/** `render_timelapse` of src/modules/agemap.rs. The state is a matrix of
    pixel ages the size of the final tier, not an image: a placement sets its
    cell to the lifetime 60, every emitted frame first decays all positive
    ages by one, and each frame is drawn afresh from the current tier's
    bordered background with one shade per age. Growth only moves to the
    next tier and its offset; nothing is copied. */
module Agemap {
  import opened Image
  import opened Render
  import opened Batching
  import opened Gradient

  /** `pixel_lifetime`. */
  const PIXEL_LIFETIME: nat := 60

  /** A row of the placement query: raw `x`, `y` and the timestamp. */
  datatype Placement = Placement(x: int, y: int, ts: int)

  /** The tier table; `bases[i]`, the background of a frame drawn at tier
      `i` (the two-argument `blank_image_borders(i, true)`, which is not
      part of this model); and the pacing arguments. */
  datatype Config = Config(tiers: seq<Tier>, bases: seq<Grid<Rgba>>, pacing: Pacing)

  predicate ValidConfig(cfg: Config) {
    && ValidTiers(cfg.tiers)
    && |cfg.bases| == |cfg.tiers|
    && (forall i :: 0 <= i < |cfg.bases| ==> IsGrid(cfg.bases[i], FRAME_W, FRAME_H))
  }

  /** The colour drawn for an age: `heatmap_color(age / pixel_lifetime)`,
      opaque. */
  function Shade(age: int): Rgba
    requires 0 <= age <= PIXEL_LIFETIME
  {
    var c := HeatColour(Some(age as real / PIXEL_LIFETIME as real));
    Rgba(c.r, c.g, c.b, 255)
  }

  /** A fresh placement is drawn white, an expired one black, and a pixel
      only darkens as it ages. */
  lemma ShadeFadesWithAge(a: int, b: int)
    requires 0 <= a <= b <= PIXEL_LIFETIME
    ensures Shade(0) == BLACK_OPAQUE
    ensures Shade(PIXEL_LIFETIME) == WHITE_OPAQUE
    ensures Shade(a).r <= Shade(b).r && Shade(a).g <= Shade(b).g && Shade(a).b <= Shade(b).b
  {
    GradientSegments(0.0);
    GradientSegments(1.0);
    assert (1.0 - 0.66) / 0.34 == 1.0;
    assert PIXEL_LIFETIME as real / PIXEL_LIFETIME as real == 1.0;
    assert a as real / PIXEL_LIFETIME as real <= b as real / PIXEL_LIFETIME as real;
    HotterNeverDarker(a as real / PIXEL_LIFETIME as real, b as real / PIXEL_LIFETIME as real);
  }

  /** `FINAL_CANVAS_SIZE`, the dimensions of the age matrix. */
  function FinalW(cfg: Config): nat
    requires ValidConfig(cfg)
  {
    cfg.tiers[|cfg.tiers| - 1].w
  }

  function FinalH(cfg: Config): nat
    requires ValidConfig(cfg)
  {
    cfg.tiers[|cfg.tiers| - 1].h
  }

  predicate AgesInRange(age: Grid<int>) {
    forall x, y :: 0 <= x < |age| && 0 <= y < |age[x]| ==> 0 <= age[x][y] <= PIXEL_LIFETIME
  }

  /** The loop state: tier index, offset, batching clock, `pixel_age`, and
      the frames written so far. */
  datatype Engine = Engine(idx: nat, off: Offset, clock: Clock, age: Grid<int>, frames: seq<Grid<Rgba>>)

  datatype Run = Running(e: Engine) | Panicked(e: Engine)

  predicate Inv(cfg: Config, e: Engine)
    requires ValidConfig(cfg)
  {
    && e.idx < |cfg.tiers|
    && e.off == PixelOffset(cfg.tiers, e.idx)
    && IsGrid(e.age, FinalW(cfg), FinalH(cfg))
    && AgesInRange(e.age)
    && forall f :: f in e.frames ==> IsGrid(f, FRAME_W, FRAME_H)
  }

  /** Tier 0, a fresh clock, every age 0, no frames. */
  function Initial(cfg: Config): (e: Engine)
    requires ValidConfig(cfg)
    ensures Inv(cfg, e)
    ensures forall x, y :: 0 <= x < FinalW(cfg) && 0 <= y < FinalH(cfg) ==> e.age[x][y] == 0
  {
    Engine(0, PixelOffset(cfg.tiers, 0), START, Fill(FinalW(cfg), FinalH(cfg), 0), [])
  }

  /** One decay pass: every positive age drops by one, zero stays zero. */
  function Decay(age: Grid<int>): (a: Grid<int>)
    ensures |a| == |age| && forall x :: 0 <= x < |age| ==> |a[x]| == |age[x]|
    ensures forall x, y :: 0 <= x < |age| && 0 <= y < |age[x]| ==>
              a[x][y] == if age[x][y] > 0 then age[x][y] - 1 else age[x][y]
  {
    seq(|age|, x requires 0 <= x < |age| =>
      seq(|age[x]|, y requires 0 <= y < |age[x]| => if age[x][y] > 0 then age[x][y] - 1 else age[x][y]))
  }

  /** `n` decay passes. */
  function DecayTimes(age: Grid<int>, n: nat): Grid<int>
  {
    if n == 0 then age else Decay(DecayTimes(age, n - 1))
  }

  function Max0(v: int): nat {
    if v > 0 then v else 0
  }

  /** Decay never leaves the lifetime range. */
  lemma DecayInRange(age: Grid<int>)
    requires AgesInRange(age)
    ensures AgesInRange(Decay(age))
  {
  }

  /** After `n` passes a non-negative age `a` is `max(0, a - n)`: a pixel
      set to the lifetime fades out after exactly 60 emitted frames. */
  lemma {:induction false} DecayTimesClosedForm(age: Grid<int>, n: nat, x: nat, y: nat)
    requires x < |age| && y < |age[x]| && age[x][y] >= 0
    ensures |DecayTimes(age, n)| == |age| && |DecayTimes(age, n)[x]| == |age[x]|
    ensures DecayTimes(age, n)[x][y] == Max0(age[x][y] - n)
  {
    if n > 0 {
      DecayTimesClosedForm(age, n - 1, x, y);
    }
  }

  /** A frame position drawn from the age matrix at tier `idx`: its tier
      coordinate is within the inclusive `w`/`h` bound of the loop's
      `continue` tests and inside the matrix. */
  predicate Rendered(cfg: Config, idx: nat, X: int, Y: int)
    requires ValidConfig(cfg) && idx < |cfg.tiers|
  {
    var off := PixelOffset(cfg.tiers, idx);
    && off.x <= X && X - off.x <= cfg.tiers[idx].w && X - off.x < FinalW(cfg)
    && off.y <= Y && Y - off.y <= cfg.tiers[idx].h && Y - off.y < FinalH(cfg)
  }

  /** The frame drawn at tier `idx` from the ages `age`. */
  function AgeFrame(cfg: Config, idx: nat, age: Grid<int>): (g: Grid<Rgba>)
    requires ValidConfig(cfg) && idx < |cfg.tiers| && IsGrid(age, FinalW(cfg), FinalH(cfg)) && AgesInRange(age)
    ensures IsGrid(g, FRAME_W, FRAME_H)
    ensures forall X, Y :: InFrame(X, Y) && !Rendered(cfg, idx, X, Y) ==> g[X][Y] == cfg.bases[idx][X][Y]
  {
    var off := PixelOffset(cfg.tiers, idx);
    seq(FRAME_W, X requires 0 <= X < FRAME_W => seq(FRAME_H, Y requires 0 <= Y < FRAME_H =>
      if Rendered(cfg, idx, X, Y) then Shade(age[X - off.x][Y - off.y]) else cfg.bases[idx][X][Y]))
  }

  /** Every cell the drawing loop reaches lands inside the frame (so its
      `put_pixel` never panics) and shows the shade of its age. */
  lemma AgeFrameShowsAges(cfg: Config, idx: nat, age: Grid<int>, x: nat, y: nat)
    requires ValidConfig(cfg) && idx < |cfg.tiers| && IsGrid(age, FinalW(cfg), FinalH(cfg)) && AgesInRange(age)
    requires x <= cfg.tiers[idx].w && x < FinalW(cfg) && y <= cfg.tiers[idx].h && y < FinalH(cfg)
    ensures var off := PixelOffset(cfg.tiers, idx);
            && InFrame(x + off.x, y + off.y)
            && AgeFrame(cfg, idx, age)[x + off.x][y + off.y] == Shade(age[x][y])
  {
    assert Fits(cfg.tiers[|cfg.tiers| - 1]);
  }

  /** After the drawing loop has done every tier column before `x` and rows
      before `y` of column `x`, the drawn cells hold their final shade and
      the rest still hold the background. */
  ghost predicate DrawnUpTo(cfg: Config, idx: nat, g: Grid<Rgba>, f: Grid<Rgba>, x: int, y: int)
    requires ValidConfig(cfg) && idx < |cfg.tiers|
    requires IsGrid(g, FRAME_W, FRAME_H) && IsGrid(f, FRAME_W, FRAME_H)
  {
    var off := PixelOffset(cfg.tiers, idx);
    forall X, Y :: InFrame(X, Y) ==>
      g[X][Y] == if (X - off.x < x || (X - off.x == x && Y - off.y < y)) && Rendered(cfg, idx, X, Y)
                 then f[X][Y] else cfg.bases[idx][X][Y]
  }

  lemma DrawOnePixel(cfg: Config, idx: nat, g: Grid<Rgba>, f: Grid<Rgba>, x: nat, y: nat)
    requires ValidConfig(cfg) && idx < |cfg.tiers|
    requires IsGrid(g, FRAME_W, FRAME_H) && IsGrid(f, FRAME_W, FRAME_H)
    requires var off := PixelOffset(cfg.tiers, idx);
             InFrame(x + off.x, y + off.y) && Rendered(cfg, idx, x + off.x, y + off.y)
    requires DrawnUpTo(cfg, idx, g, f, x, y)
    ensures var off := PixelOffset(cfg.tiers, idx);
            DrawnUpTo(cfg, idx, Put(g, x + off.x, y + off.y, f[x + off.x][y + off.y]), f, x, y + 1)
  {
  }

  lemma SkipPixel(cfg: Config, idx: nat, g: Grid<Rgba>, f: Grid<Rgba>, x: int, y: int)
    requires ValidConfig(cfg) && idx < |cfg.tiers|
    requires IsGrid(g, FRAME_W, FRAME_H) && IsGrid(f, FRAME_W, FRAME_H)
    requires y > cfg.tiers[idx].h || y >= FinalH(cfg)
    requires DrawnUpTo(cfg, idx, g, f, x, y)
    ensures DrawnUpTo(cfg, idx, g, f, x, y + 1)
  {
  }

  lemma SkipColumn(cfg: Config, idx: nat, g: Grid<Rgba>, f: Grid<Rgba>, x: int)
    requires ValidConfig(cfg) && idx < |cfg.tiers|
    requires IsGrid(g, FRAME_W, FRAME_H) && IsGrid(f, FRAME_W, FRAME_H)
    requires x > cfg.tiers[idx].w || x >= FinalW(cfg) || FinalH(cfg) == 0
    requires DrawnUpTo(cfg, idx, g, f, x, 0)
    ensures DrawnUpTo(cfg, idx, g, f, x + 1, 0)
  {
  }

  lemma NextColumn(cfg: Config, idx: nat, g: Grid<Rgba>, f: Grid<Rgba>, x: int)
    requires ValidConfig(cfg) && idx < |cfg.tiers|
    requires IsGrid(g, FRAME_W, FRAME_H) && IsGrid(f, FRAME_W, FRAME_H)
    requires DrawnUpTo(cfg, idx, g, f, x, FinalH(cfg))
    ensures DrawnUpTo(cfg, idx, g, f, x + 1, 0)
  {
  }

  lemma DrawComplete(cfg: Config, idx: nat, age: Grid<int>, g: Grid<Rgba>)
    requires ValidConfig(cfg) && idx < |cfg.tiers| && IsGrid(age, FinalW(cfg), FinalH(cfg)) && AgesInRange(age)
    requires IsGrid(g, FRAME_W, FRAME_H)
    requires DrawnUpTo(cfg, idx, g, AgeFrame(cfg, idx, age), FinalW(cfg), 0)
    ensures g == AgeFrame(cfg, idx, age)
  {
    var f := AgeFrame(cfg, idx, age);
    forall X | 0 <= X < FRAME_W
      ensures g[X] == f[X]
    {
      forall Y | 0 <= Y < FRAME_H
        ensures g[X][Y] == f[X][Y]
      {
        assert InFrame(X, Y);
      }
    }
  }

  /** The drawing loop as written: over the columns and rows of the age
      matrix, skipping tier coordinates beyond `w` or `h`, `put_pixel` of
      the age's shade at the offset position onto the tier's background. */
  method DrawAges(cfg: Config, idx: nat, age: Grid<int>) returns (g: Grid<Rgba>)
    requires ValidConfig(cfg) && idx < |cfg.tiers| && IsGrid(age, FinalW(cfg), FinalH(cfg)) && AgesInRange(age)
    ensures g == AgeFrame(cfg, idx, age)
  {
    var off := PixelOffset(cfg.tiers, idx);
    var width := cfg.tiers[idx].w;
    var height := cfg.tiers[idx].h;
    ghost var f := AgeFrame(cfg, idx, age);
    g := cfg.bases[idx];
    var x := 0;
    while x < |age|
      invariant 0 <= x <= FinalW(cfg)
      invariant IsGrid(g, FRAME_W, FRAME_H)
      invariant DrawnUpTo(cfg, idx, g, f, x, 0)
    {
      if x > width || |age[x]| == 0 {
        SkipColumn(cfg, idx, g, f, x);
      } else {
        var y := 0;
        while y < |age[x]|
          invariant 0 <= y <= FinalH(cfg)
          invariant IsGrid(g, FRAME_W, FRAME_H)
          invariant DrawnUpTo(cfg, idx, g, f, x, y)
        {
          if y > height {
            SkipPixel(cfg, idx, g, f, x, y);
          } else {
            AgeFrameShowsAges(cfg, idx, age, x, y);
            DrawOnePixel(cfg, idx, g, f, x, y);
            g := Put(g, x + off.x, y + off.y, Shade(age[x][y]));
          }
          y := y + 1;
        }
        NextColumn(cfg, idx, g, f, x);
      }
      x := x + 1;
    }
    DrawComplete(cfg, idx, age, g);
  }

  function Stamps(ps: seq<Placement>): (ts: seq<int>)
    ensures |ts| == |ps| && forall i :: 0 <= i < |ps| ==> ts[i] == ps[i].ts
  {
    seq(|ps|, i requires 0 <= i < |ps| => ps[i].ts)
  }

  lemma StampsPrefix(ps: seq<Placement>, k: nat)
    requires k <= |ps|
    ensures Stamps(ps[..k]) == Stamps(ps)[..k]
  {
  }

  /** The batching half: when the clock fires, decay every age and write the
      frame drawn from the decayed ages at the current tier. */
  function Emit(cfg: Config, e: Engine, ts: int): (e': Engine)
    requires ValidConfig(cfg) && Inv(cfg, e)
    ensures Inv(cfg, e')
    ensures e'.age == if Fires(e.clock, ts, cfg.pacing) then Decay(e.age) else e.age
    ensures e'.frames == e.frames + (if Fires(e.clock, ts, cfg.pacing) then [AgeFrame(cfg, e.idx, e'.age)] else [])
    ensures e'.clock == Tick(e.clock, ts, cfg.pacing)
    ensures e'.idx == e.idx
  {
    if Fires(e.clock, ts, cfg.pacing) then
      DecayInRange(e.age);
      var age := Decay(e.age);
      e.(age := age, frames := e.frames + [AgeFrame(cfg, e.idx, age)], clock := Tick(e.clock, ts, cfg.pacing))
    else
      e.(clock := Tick(e.clock, ts, cfg.pacing))
  }

  /** The drawing half: growth moves to the next tier only (a panic past the
      last one), then the placement's cell is set to the lifetime; a
      position outside the age matrix panics. */
  function Apply(cfg: Config, e: Engine, p: Placement): (r: Run)
    requires ValidConfig(cfg) && Inv(cfg, e)
    ensures Inv(cfg, r.e)
    ensures r.e.frames == e.frames && r.e.clock == e.clock
    ensures r.Panicked? <==>
              || (NeedsGrowth(cfg.tiers, e.idx, AsU32(p.x), AsU32(p.y)) && e.idx + 1 == |cfg.tiers|)
              || AsU32(p.x) >= FinalW(cfg) || AsU32(p.y) >= FinalH(cfg)
    ensures r.Running? ==>
              && r.e.idx == (if NeedsGrowth(cfg.tiers, e.idx, AsU32(p.x), AsU32(p.y)) then e.idx + 1 else e.idx)
              && r.e.age[AsU32(p.x)][AsU32(p.y)] == PIXEL_LIFETIME
              && forall i, j :: 0 <= i < FinalW(cfg) && 0 <= j < FinalH(cfg) && (i != AsU32(p.x) || j != AsU32(p.y)) ==>
                   r.e.age[i][j] == e.age[i][j]
  {
    var x := AsU32(p.x);
    var y := AsU32(p.y);
    if NeedsGrowth(cfg.tiers, e.idx, x, y) && e.idx + 1 == |cfg.tiers| then Panicked(e)
    else
      var g := if NeedsGrowth(cfg.tiers, e.idx, x, y)
               then e.(idx := e.idx + 1, off := PixelOffset(cfg.tiers, e.idx + 1))
               else e;
      if x >= FinalW(cfg) || y >= FinalH(cfg) then Panicked(e)
      else Running(g.(age := Put(g.age, x, y, PIXEL_LIFETIME)))
  }

  function Step(cfg: Config, e: Engine, p: Placement): (r: Run)
    requires ValidConfig(cfg) && Inv(cfg, e)
    ensures Inv(cfg, r.e)
  {
    Apply(cfg, Emit(cfg, e, p.ts), p)
  }

  function Replay(cfg: Config, ps: seq<Placement>): (r: Run)
    requires ValidConfig(cfg)
    ensures Inv(cfg, r.e)
    decreases |ps|
  {
    if |ps| == 0 then Running(Initial(cfg))
    else
      match Replay(cfg, ps[..|ps| - 1])
      case Panicked(e) => Panicked(e)
      case Running(e) => Step(cfg, e, ps[|ps| - 1])
  }

  /** The loop, then the trailing frame, which also decays first. */
  function RenderAgemap(cfg: Config, ps: seq<Placement>): (r: Run)
    requires ValidConfig(cfg)
    ensures Inv(cfg, r.e)
  {
    match Replay(cfg, ps)
    case Panicked(e) => Panicked(e)
    case Running(e) =>
      if Trailing(e.clock, cfg.pacing) then
        DecayInRange(e.age);
        var age := Decay(e.age);
        Running(e.(age := age, frames := e.frames + [AgeFrame(cfg, e.idx, age)]))
      else Running(e)
  }

  /** The trailing frame, when written, first decays every positive age by
      one and then shows the decayed ages; otherwise the run ends as the
      loop did. */
  lemma TrailingFrameDecays(cfg: Config, ps: seq<Placement>)
    requires ValidConfig(cfg) && Replay(cfg, ps).Running?
    ensures var e := Replay(cfg, ps).e;
            var r := RenderAgemap(cfg, ps).e;
            && r.idx == e.idx
            && (Trailing(e.clock, cfg.pacing) ==>
                  && r.age == Decay(e.age)
                  && AgesInRange(r.age)
                  && r.frames == e.frames + [AgeFrame(cfg, e.idx, r.age)])
            && (!Trailing(e.clock, cfg.pacing) ==> r == e)
  {
  }

  /** The clock and in-loop frame count follow the batching schedule. */
  lemma {:induction false} ReplayFollowsSchedule(cfg: Config, ps: seq<Placement>)
    requires ValidConfig(cfg) && Replay(cfg, ps).Running?
    ensures Replay(cfg, ps).e.clock == ClockAfter(Stamps(ps), cfg.pacing)
    ensures |Replay(cfg, ps).e.frames| == FireCount(Stamps(ps), cfg.pacing)
    decreases |ps|
  {
    if |ps| > 0 {
      var k := |ps| - 1;
      ReplayFollowsSchedule(cfg, ps[..k]);
      StampsPrefix(ps, k);
      FireCountStep(Stamps(ps), k, cfg.pacing);
      assert Stamps(ps)[..k + 1] == Stamps(ps);
    }
  }

  /** A full run writes exactly the frames of the schedule. */
  lemma FramesFollowSchedule(cfg: Config, ps: seq<Placement>)
    requires ValidConfig(cfg) && RenderAgemap(cfg, ps).Running?
    ensures |RenderAgemap(cfg, ps).e.frames| == FrameCount(Stamps(ps), cfg.pacing)
    ensures |RenderAgemap(cfg, ps).e.frames| <= |ps| + 1
  {
    ReplayFollowsSchedule(cfg, ps);
    FrameCountBound(Stamps(ps), cfg.pacing);
  }

  lemma ReplayLast(cfg: Config, ps: seq<Placement>, k: nat)
    requires ValidConfig(cfg) && k < |ps| && Replay(cfg, ps[..k + 1]).Running?
    ensures Replay(cfg, ps[..k]).Running?
    ensures Replay(cfg, ps[..k + 1]) == Step(cfg, Replay(cfg, ps[..k]).e, ps[k])
  {
    PrefixOfPrefix(ps, k, k + 1);
    assert ps[..k + 1][k] == ps[k];
  }

  predicate PlacedAt(p: Placement, x: nat, y: nat) {
    AsU32(p.x) == x && AsU32(p.y) == y
  }

  /** The index of the last placement at matrix cell `(x, y)`, or -1. */
  function LastPlacedAt(ps: seq<Placement>, x: nat, y: nat): (j: int)
    ensures -1 <= j < |ps|
    ensures j >= 0 ==> PlacedAt(ps[j], x, y)
    ensures forall i :: j < i < |ps| ==> !PlacedAt(ps[i], x, y)
    decreases |ps|
  {
    if |ps| == 0 then -1
    else if PlacedAt(ps[|ps| - 1], x, y) then |ps| - 1
    else LastPlacedAt(ps[..|ps| - 1], x, y)
  }

  /** The age the cell should have: untouched cells are 0; otherwise the
      lifetime minus the frames emitted after the last placement there,
      floored at 0. */
  function ExpectedAge(ps: seq<Placement>, pacing: Pacing, x: nat, y: nat): nat {
    var j := LastPlacedAt(ps, x, y);
    if j < 0 then 0
    else Max0(PIXEL_LIFETIME - (FireCount(Stamps(ps), pacing) - FireCount(Stamps(ps)[..j + 1], pacing)))
  }

  /** One iteration's effect on one cell: set to the lifetime by a
      placement there, otherwise decayed when the clock fires. */
  lemma StepAge(cfg: Config, e: Engine, p: Placement, x: nat, y: nat)
    requires ValidConfig(cfg) && Inv(cfg, e) && Step(cfg, e, p).Running?
    requires x < FinalW(cfg) && y < FinalH(cfg)
    ensures Step(cfg, e, p).e.age[x][y] ==
              if PlacedAt(p, x, y) then PIXEL_LIFETIME
              else if Fires(e.clock, p.ts, cfg.pacing) then Max0(e.age[x][y] - 1)
              else e.age[x][y]
  {
  }

  /** The reference age obeys the same one-step rule as the engine. */
  lemma ExpectedAgeStep(ps: seq<Placement>, pacing: Pacing, x: nat, y: nat)
    requires |ps| > 0
    ensures var n := |ps| - 1;
            ExpectedAge(ps, pacing, x, y) ==
              if PlacedAt(ps[n], x, y) then PIXEL_LIFETIME
              else if FiresAt(Stamps(ps), n, pacing) then Max0(ExpectedAge(ps[..n], pacing, x, y) - 1)
              else ExpectedAge(ps[..n], pacing, x, y)
  {
    var n := |ps| - 1;
    if PlacedAt(ps[n], x, y) {
      assert Stamps(ps)[..n + 1] == Stamps(ps);
    } else if LastPlacedAt(ps[..n], x, y) >= 0 {
      ExpectedAgeDecays(ps, pacing, x, y);
    } else {
      assert LastPlacedAt(ps, x, y) < 0;
    }
  }

  /** A placement elsewhere leaves the last placement at the cell in
      place, so the reference age only counts one more frame, if one fired. */
  lemma ExpectedAgeDecays(ps: seq<Placement>, pacing: Pacing, x: nat, y: nat)
    requires |ps| > 0 && !PlacedAt(ps[|ps| - 1], x, y) && LastPlacedAt(ps[..|ps| - 1], x, y) >= 0
    ensures var n := |ps| - 1;
            ExpectedAge(ps, pacing, x, y) ==
              if FiresAt(Stamps(ps), n, pacing) then Max0(ExpectedAge(ps[..n], pacing, x, y) - 1)
              else ExpectedAge(ps[..n], pacing, x, y)
  {
    var n := |ps| - 1;
    var ts := Stamps(ps);
    StampsPrefix(ps, n);
    FireCountStep(ts, n, pacing);
    assert ts[..n + 1] == ts;
    var j := LastPlacedAt(ps[..n], x, y);
    PrefixOfPrefix(ts, j + 1, n);
  }

  /** The age matrix of a running replay is the reference above at every
      cell: a placement resets its cell to 60, and each later frame takes
      one off until it reaches 0. */
  lemma {:induction false} AgeTracksLastPlacement(cfg: Config, ps: seq<Placement>, x: nat, y: nat)
    requires ValidConfig(cfg) && Replay(cfg, ps).Running?
    requires x < FinalW(cfg) && y < FinalH(cfg)
    ensures Replay(cfg, ps).e.age[x][y] == ExpectedAge(ps, cfg.pacing, x, y)
    decreases |ps|
  {
    if |ps| > 0 {
      var n := |ps| - 1;
      assert ps[..n + 1] == ps;
      ReplayLast(cfg, ps, n);
      var prev := Replay(cfg, ps[..n]).e;
      AgeTracksLastPlacement(cfg, ps[..n], x, y);
      ReplayFollowsSchedule(cfg, ps[..n]);
      StampsPrefix(ps, n);
      assert Fires(prev.clock, ps[n].ts, cfg.pacing) == FiresAt(Stamps(ps), n, cfg.pacing);
      StepAge(cfg, prev, ps[n], x, y);
      ExpectedAgeStep(ps, cfg.pacing, x, y);
    }
  }
}
