/** `render_timelapse` of src/modules/virginmap.rs: the timelapse loop with a
    magenta "virgin" tier box on black, where every placement paints its
    pixel black. Growth uses `extend_canvas_with_colour` with the same two
    colours, so untouched pixels of a new tier are virgin again. */
module Virginmap {
  import opened Image
  import opened Render
  import opened Batching

  /** `VIRGIN_COLOUR`. */
  const VIRGIN := Rgba(255, 0, 255, 255)

  /** A row of the placement query: raw `x`, `y` and the timestamp. */
  datatype Placement = Placement(x: int, y: int, ts: int)

  datatype Config = Config(tiers: seq<Tier>, pacing: Pacing)

  predicate ValidConfig(cfg: Config) {
    ValidTiers(cfg.tiers)
  }

  /** The loop state: tier index, offset, batching clock, buffer, frames. */
  datatype Engine = Engine(idx: nat, off: Offset, clock: Clock, image: Grid<Rgba>, frames: seq<Grid<Rgba>>)

  datatype Run = Running(e: Engine) | Panicked(e: Engine)

  predicate Inv(cfg: Config, e: Engine)
    requires ValidConfig(cfg)
  {
    && e.idx < |cfg.tiers|
    && e.off == PixelOffset(cfg.tiers, e.idx)
    && IsGrid(e.image, FRAME_W, FRAME_H)
    && forall f :: f in e.frames ==> IsGrid(f, FRAME_W, FRAME_H)
  }

  /** The buffer before the loop: `blank_image_borders_with_colour(0,
      VIRGIN_COLOUR, BLACK)`. */
  function Initial(cfg: Config): (e: Engine)
    requires ValidConfig(cfg)
    ensures Inv(cfg, e)
    ensures forall x, y :: InFrame(x, y) ==>
              e.image[x][y] == if InBorderBox(cfg.tiers, 0, x, y) then VIRGIN else BLACK
  {
    Engine(0, PixelOffset(cfg.tiers, 0), START, BlankImageBordersWithColour(cfg.tiers, 0, VIRGIN, BLACK), [])
  }

  function Stamps(ps: seq<Placement>): (ts: seq<int>)
    ensures |ts| == |ps| && forall i :: 0 <= i < |ps| ==> ts[i] == ps[i].ts
  {
    seq(|ps|, i requires 0 <= i < |ps| => ps[i].ts)
  }

  lemma StampsPrefix(ps: seq<Placement>, k: nat)
    requires k <= |ps|
    ensures Stamps(ps[..k]) == Stamps(ps)[..k]
  {
  }

  /** The batching half of one iteration. */
  function Emit(cfg: Config, e: Engine, ts: int): (e': Engine)
    requires ValidConfig(cfg) && Inv(cfg, e)
    ensures Inv(cfg, e')
    ensures e'.frames == e.frames + (if Fires(e.clock, ts, cfg.pacing) then [e.image] else [])
    ensures e'.clock == Tick(e.clock, ts, cfg.pacing)
    ensures e'.idx == e.idx && e'.image == e.image
  {
    var frames := if Fires(e.clock, ts, cfg.pacing) then e.frames + [e.image] else e.frames;
    e.(clock := Tick(e.clock, ts, cfg.pacing), frames := frames)
  }

  /** Growth by one tier when the raw coordinate is beyond the current
      tier, with magenta inside the new border box and black outside. */
  function Grow(cfg: Config, e: Engine, x: int, y: int): (g: Engine)
    requires ValidConfig(cfg) && Inv(cfg, e)
    requires NeedsGrowth(cfg.tiers, e.idx, x, y) ==> e.idx + 1 < |cfg.tiers|
    ensures Inv(cfg, g)
    ensures g.frames == e.frames && g.clock == e.clock
    ensures g.idx == if NeedsGrowth(cfg.tiers, e.idx, x, y) then e.idx + 1 else e.idx
  {
    if NeedsGrowth(cfg.tiers, e.idx, x, y)
    then e.(idx := e.idx + 1,
            image := ExtendCanvasWithColour(cfg.tiers, e.image, e.idx + 1, VIRGIN, BLACK),
            off := PixelOffset(cfg.tiers, e.idx + 1))
    else e
  }

  /** The drawing half: growth, then a black pixel at the offset position;
      a panic past the last tier or outside the frame. */
  function Apply(cfg: Config, e: Engine, p: Placement): (r: Run)
    requires ValidConfig(cfg) && Inv(cfg, e)
    ensures Inv(cfg, r.e)
    ensures r.e.frames == e.frames && r.e.clock == e.clock
    ensures NeedsGrowth(cfg.tiers, e.idx, AsU32(p.x), AsU32(p.y)) && e.idx + 1 == |cfg.tiers| ==> r.Panicked?
  {
    var x := AsU32(p.x);
    var y := AsU32(p.y);
    if NeedsGrowth(cfg.tiers, e.idx, x, y) && e.idx + 1 == |cfg.tiers| then Panicked(e)
    else
      var g := Grow(cfg, e, x, y);
      if !InFrame(x + g.off.x, y + g.off.y) then Panicked(e)
      else Running(g.(image := Put(g.image, x + g.off.x, y + g.off.y, BLACK)))
  }

  /** A placement that does not panic moves to the next tier exactly when it
      grows the canvas. */
  lemma ApplyTier(cfg: Config, e: Engine, p: Placement)
    requires ValidConfig(cfg) && Inv(cfg, e) && Apply(cfg, e, p).Running?
    ensures Apply(cfg, e, p).e.idx == if NeedsGrowth(cfg.tiers, e.idx, AsU32(p.x), AsU32(p.y)) then e.idx + 1 else e.idx
  {
  }

  /** A placement that does not panic blacks out its offset position, which
      lies in the frame. */
  lemma ApplyPaints(cfg: Config, e: Engine, p: Placement)
    requires ValidConfig(cfg) && Inv(cfg, e) && Apply(cfg, e, p).Running?
    ensures var r := Apply(cfg, e, p);
            var X := AsU32(p.x) + r.e.off.x;
            var Y := AsU32(p.y) + r.e.off.y;
            InFrame(X, Y) && r.e.image[X][Y] == BLACK
  {
    var g := Grow(cfg, e, AsU32(p.x), AsU32(p.y));
    assert InFrame(AsU32(p.x) + g.off.x, AsU32(p.y) + g.off.y);
    assert Apply(cfg, e, p).e.image == Put(g.image, AsU32(p.x) + g.off.x, AsU32(p.y) + g.off.y, BLACK);
  }

  /** Every other pixel of the frame is as it was after any growth. */
  lemma ApplyKeeps(cfg: Config, e: Engine, p: Placement, i: int, j: int)
    requires ValidConfig(cfg) && Inv(cfg, e) && Apply(cfg, e, p).Running? && InFrame(i, j)
    requires i != AsU32(p.x) + Apply(cfg, e, p).e.off.x || j != AsU32(p.y) + Apply(cfg, e, p).e.off.y
    ensures NeedsGrowth(cfg.tiers, e.idx, AsU32(p.x), AsU32(p.y)) ==> e.idx + 1 < |cfg.tiers|
    ensures Apply(cfg, e, p).e.image[i][j] == Grow(cfg, e, AsU32(p.x), AsU32(p.y)).image[i][j]
  {
  }

  /** The drawing half panics exactly on growth past the last tier or a
      position outside the frame. */
  lemma ApplyPanics(cfg: Config, e: Engine, p: Placement)
    requires ValidConfig(cfg) && Inv(cfg, e)
    ensures var x := AsU32(p.x);
            var y := AsU32(p.y);
            var grew := NeedsGrowth(cfg.tiers, e.idx, x, y);
            Apply(cfg, e, p).Panicked? <==>
              || (grew && e.idx + 1 == |cfg.tiers|)
              || (var off := PixelOffset(cfg.tiers, if grew then e.idx + 1 else e.idx);
                  !InFrame(x + off.x, y + off.y))
  {
  }

  /** A placement inside the current tier (edges included) never panics. */
  lemma InTierNeverPanics(cfg: Config, e: Engine, p: Placement)
    requires ValidConfig(cfg) && Inv(cfg, e)
    requires 0 <= p.x < FRAME_W && 0 <= p.y < FRAME_H
    requires p.x <= cfg.tiers[e.idx].w && p.y <= cfg.tiers[e.idx].h
    requires p.x < FRAME_W - PixelOffset(cfg.tiers, e.idx).x && p.y < FRAME_H - PixelOffset(cfg.tiers, e.idx).y
    ensures Apply(cfg, e, p).Running?
    ensures Apply(cfg, e, p).e.idx == e.idx
  {
  }

  function Step(cfg: Config, e: Engine, p: Placement): (r: Run)
    requires ValidConfig(cfg) && Inv(cfg, e)
    ensures Inv(cfg, r.e)
  {
    Apply(cfg, Emit(cfg, e, p.ts), p)
  }

  function Replay(cfg: Config, ps: seq<Placement>): (r: Run)
    requires ValidConfig(cfg)
    ensures Inv(cfg, r.e)
    decreases |ps|
  {
    if |ps| == 0 then Running(Initial(cfg))
    else
      match Replay(cfg, ps[..|ps| - 1])
      case Panicked(e) => Panicked(e)
      case Running(e) => Step(cfg, e, ps[|ps| - 1])
  }

  /** The loop, then the trailing frame. */
  function RenderVirginmap(cfg: Config, ps: seq<Placement>): (r: Run)
    requires ValidConfig(cfg)
    ensures Inv(cfg, r.e)
  {
    match Replay(cfg, ps)
    case Panicked(e) => Panicked(e)
    case Running(e) =>
      Running(if Trailing(e.clock, cfg.pacing) then e.(frames := e.frames + [e.image]) else e)
  }

  /** The clock and in-loop frame count follow the batching schedule. */
  lemma {:induction false} ReplayFollowsSchedule(cfg: Config, ps: seq<Placement>)
    requires ValidConfig(cfg) && Replay(cfg, ps).Running?
    ensures Replay(cfg, ps).e.clock == ClockAfter(Stamps(ps), cfg.pacing)
    ensures |Replay(cfg, ps).e.frames| == FireCount(Stamps(ps), cfg.pacing)
    decreases |ps|
  {
    if |ps| > 0 {
      var k := |ps| - 1;
      ReplayFollowsSchedule(cfg, ps[..k]);
      StampsPrefix(ps, k);
      FireCountStep(Stamps(ps), k, cfg.pacing);
      assert Stamps(ps)[..k + 1] == Stamps(ps);
    }
  }

  /** A full run writes exactly the frames of the schedule. */
  lemma FramesFollowSchedule(cfg: Config, ps: seq<Placement>)
    requires ValidConfig(cfg) && RenderVirginmap(cfg, ps).Running?
    ensures |RenderVirginmap(cfg, ps).e.frames| == FrameCount(Stamps(ps), cfg.pacing)
    ensures |RenderVirginmap(cfg, ps).e.frames| <= |ps| + 1
  {
    ReplayFollowsSchedule(cfg, ps);
    FrameCountBound(Stamps(ps), cfg.pacing);
  }

  lemma StepGrows(cfg: Config, e: Engine, p: Placement)
    requires ValidConfig(cfg) && Inv(cfg, e)
    ensures e.frames <= Step(cfg, e, p).e.frames
    ensures Step(cfg, e, p).Running? ==> e.idx <= Step(cfg, e, p).e.idx
  {
  }

  /** A run still going was going at every earlier point, with fewer frames
      and no larger tier index. */
  lemma {:induction false} RunningPrefix(cfg: Config, ps: seq<Placement>, k: nat)
    requires ValidConfig(cfg) && k <= |ps| && Replay(cfg, ps).Running?
    ensures Replay(cfg, ps[..k]).Running?
    ensures Replay(cfg, ps[..k]).e.frames <= Replay(cfg, ps).e.frames
    ensures Replay(cfg, ps[..k]).e.idx <= Replay(cfg, ps).e.idx
    decreases |ps|
  {
    if k < |ps| {
      var n := |ps| - 1;
      PrefixOfPrefix(ps, k, n);
      var prev := Replay(cfg, ps[..n]);
      assert prev.Running?;
      StepGrows(cfg, prev.e, ps[n]);
      RunningPrefix(cfg, ps[..n], k);
    } else {
      assert ps[..k] == ps;
    }
  }

  /** Tier coordinate `(x, y)` lies in the current tier's `w x h` area and
      shows black. */
  predicate BlackAt(cfg: Config, e: Engine, x: nat, y: nat) {
    && e.idx < |cfg.tiers|
    && IsGrid(e.image, FRAME_W, FRAME_H)
    && x < cfg.tiers[e.idx].w && y < cfg.tiers[e.idx].h
    && InFrame(x + e.off.x, y + e.off.y)
    && e.image[x + e.off.x][y + e.off.y] == BLACK
  }

  /** One more iteration keeps a black pixel of the tier's `w x h` area
      black, at its tier coordinate, whether or not the canvas grows. */
  lemma StepKeepsBlack(cfg: Config, e: Engine, p: Placement, x: nat, y: nat)
    requires ValidConfig(cfg) && Inv(cfg, e) && BlackAt(cfg, e, x, y)
    requires Step(cfg, e, p).Running?
    ensures BlackAt(cfg, Step(cfg, e, p).e, x, y)
  {
    var e1 := Emit(cfg, e, p.ts);
    assert BlackAt(cfg, e1, x, y);
    ApplyKeepsTierBlack(cfg, e1, p, x, y);
  }

  /** The drawing half keeps a black pixel of the tier's area black. */
  lemma ApplyKeepsTierBlack(cfg: Config, e: Engine, p: Placement, x: nat, y: nat)
    requires ValidConfig(cfg) && Inv(cfg, e) && BlackAt(cfg, e, x, y)
    requires Apply(cfg, e, p).Running?
    ensures BlackAt(cfg, Apply(cfg, e, p).e, x, y)
  {
    GrowKeepsBlack(cfg, e, AsU32(p.x), AsU32(p.y), x, y);
    if x == AsU32(p.x) && y == AsU32(p.y) {
      PaintKeepsBlack(cfg, e, p, x, y);
    } else {
      PaintElsewhereKeepsBlack(cfg, e, p, x, y);
    }
  }

  /** Painting the black pixel itself leaves it black. */
  lemma PaintKeepsBlack(cfg: Config, e: Engine, p: Placement, x: nat, y: nat)
    requires ValidConfig(cfg) && Inv(cfg, e) && Apply(cfg, e, p).Running?
    requires x == AsU32(p.x) && y == AsU32(p.y)
    requires BlackAt(cfg, Grow(cfg, e, AsU32(p.x), AsU32(p.y)), x, y)
    ensures BlackAt(cfg, Apply(cfg, e, p).e, x, y)
  {
    ApplyTier(cfg, e, p);
    ApplyPaints(cfg, e, p);
  }

  /** Painting another pixel leaves a black pixel of the grown canvas black. */
  lemma PaintElsewhereKeepsBlack(cfg: Config, e: Engine, p: Placement, x: nat, y: nat)
    requires ValidConfig(cfg) && Inv(cfg, e) && Apply(cfg, e, p).Running?
    requires x != AsU32(p.x) || y != AsU32(p.y)
    requires BlackAt(cfg, Grow(cfg, e, AsU32(p.x), AsU32(p.y)), x, y)
    ensures BlackAt(cfg, Apply(cfg, e, p).e, x, y)
  {
    ApplyTier(cfg, e, p);
    var g := Grow(cfg, e, AsU32(p.x), AsU32(p.y));
    ApplyKeeps(cfg, e, p, x + g.off.x, y + g.off.y);
  }

  /** Growth, when it happens, keeps a black pixel of the tier's area black. */
  lemma GrowKeepsBlack(cfg: Config, e: Engine, px: int, py: int, x: nat, y: nat)
    requires ValidConfig(cfg) && Inv(cfg, e) && BlackAt(cfg, e, x, y)
    requires NeedsGrowth(cfg.tiers, e.idx, px, py) ==> e.idx + 1 < |cfg.tiers|
    ensures BlackAt(cfg, Grow(cfg, e, px, py), x, y)
  {
    var g := Grow(cfg, e, px, py);
    if NeedsGrowth(cfg.tiers, e.idx, px, py) {
      GrowthKeepsBlack(cfg, e, x, y);
      assert g.image == ExtendCanvasWithColour(cfg.tiers, e.image, e.idx + 1, VIRGIN, BLACK);
      assert g.off == PixelOffset(cfg.tiers, e.idx + 1);
      assert g.image[x + g.off.x][y + g.off.y] == BLACK;
    } else {
      assert g == e;
    }
  }

  /** Growth carries a black pixel of the tier's area to the next tier's
      offset, still inside that tier's area. */
  lemma GrowthKeepsBlack(cfg: Config, e: Engine, x: nat, y: nat)
    requires ValidConfig(cfg) && Inv(cfg, e) && BlackAt(cfg, e, x, y) && e.idx + 1 < |cfg.tiers|
    ensures var no := PixelOffset(cfg.tiers, e.idx + 1);
            && x < cfg.tiers[e.idx + 1].w && y < cfg.tiers[e.idx + 1].h
            && InFrame(x + no.x, y + no.y)
            && ExtendCanvasWithColour(cfg.tiers, e.image, e.idx + 1, VIRGIN, BLACK)[x + no.x][y + no.y] == BLACK
  {
    GrowthKeepsOldContent(cfg.tiers, e.image, e.idx, VIRGIN, BLACK, x, y);
  }

  /** The placement itself leaves its pixel black. */
  lemma StepPaintsBlack(cfg: Config, e: Engine, p: Placement)
    requires ValidConfig(cfg) && Inv(cfg, e) && Step(cfg, e, p).Running?
    requires 0 <= p.x < cfg.tiers[Step(cfg, e, p).e.idx].w && 0 <= p.y < cfg.tiers[Step(cfg, e, p).e.idx].h
    ensures BlackAt(cfg, Step(cfg, e, p).e, p.x, p.y)
  {
  }

  /** A running replay of `k + 1` placements is one step from the running
      replay of the first `k`. */
  lemma ReplayLast(cfg: Config, ps: seq<Placement>, k: nat)
    requires ValidConfig(cfg) && k < |ps| && Replay(cfg, ps[..k + 1]).Running?
    ensures Replay(cfg, ps[..k]).Running?
    ensures Replay(cfg, ps[..k + 1]) == Step(cfg, Replay(cfg, ps[..k]).e, ps[k])
  {
    PrefixOfPrefix(ps, k, k + 1);
    assert ps[..k + 1][k] == ps[k];
  }

  /** A pixel placed inside its tier's `w x h` area stays black for the rest
      of the run: later placements only paint black, and growth carries the
      area to the new offset. */
  lemma PlacedStaysBlack(cfg: Config, ps: seq<Placement>, j: nat, k: nat)
    requires ValidConfig(cfg) && j < k <= |ps| && Replay(cfg, ps[..k]).Running?
    requires var t := cfg.tiers[Replay(cfg, ps[..j + 1]).e.idx];
             0 <= ps[j].x < t.w && 0 <= ps[j].y < t.h
    ensures BlackAt(cfg, Replay(cfg, ps[..k]).e, ps[j].x, ps[j].y)
  {
    RunningPrefix(cfg, ps[..k], j + 1);
    PrefixOfPrefix(ps, j + 1, k);
    PaintsBlackAt(cfg, ps, j);
    StaysBlackFrom(cfg, ps, j + 1, k, ps[j].x, ps[j].y);
  }

  /** A black pixel of the tier area after `m` placements is still black
      after any longer running prefix. */
  lemma {:induction false} StaysBlackFrom(cfg: Config, ps: seq<Placement>, m: nat, k: nat, x: nat, y: nat)
    requires ValidConfig(cfg) && m <= k <= |ps| && Replay(cfg, ps[..k]).Running?
    requires BlackAt(cfg, Replay(cfg, ps[..m]).e, x, y)
    ensures BlackAt(cfg, Replay(cfg, ps[..k]).e, x, y)
    decreases k
  {
    if m < k {
      var n := k - 1;
      ReplayLast(cfg, ps, n);
      StaysBlackFrom(cfg, ps, m, n, x, y);
      KeepsBlackAt(cfg, ps, n, x, y);
    } else {
      assert ps[..m] == ps[..k];
    }
  }

  /** Placement `j` of a running replay leaves its pixel black. */
  lemma PaintsBlackAt(cfg: Config, ps: seq<Placement>, j: nat)
    requires ValidConfig(cfg) && j < |ps| && Replay(cfg, ps[..j + 1]).Running?
    requires var t := cfg.tiers[Replay(cfg, ps[..j + 1]).e.idx];
             0 <= ps[j].x < t.w && 0 <= ps[j].y < t.h
    ensures BlackAt(cfg, Replay(cfg, ps[..j + 1]).e, ps[j].x, ps[j].y)
  {
    ReplayLast(cfg, ps, j);
    StepPaintsBlack(cfg, Replay(cfg, ps[..j]).e, ps[j]);
  }

  /** Placement `n` of a running replay keeps a black pixel black. */
  lemma KeepsBlackAt(cfg: Config, ps: seq<Placement>, n: nat, x: nat, y: nat)
    requires ValidConfig(cfg) && n < |ps| && Replay(cfg, ps[..n + 1]).Running?
    requires Replay(cfg, ps[..n]).Running? && BlackAt(cfg, Replay(cfg, ps[..n]).e, x, y)
    ensures BlackAt(cfg, Replay(cfg, ps[..n + 1]).e, x, y)
  {
    ReplayLast(cfg, ps, n);
    StepKeepsBlack(cfg, Replay(cfg, ps[..n]).e, ps[n], x, y);
  }

  /** The frame written at placement `i` is the buffer before placement `i`. */
  lemma FrameShowsStateBefore(cfg: Config, ps: seq<Placement>, i: nat)
    requires ValidConfig(cfg) && i < |ps| && Replay(cfg, ps).Running?
    requires FiresAt(Stamps(ps), i, cfg.pacing)
    ensures FireCount(Stamps(ps)[..i], cfg.pacing) < |Replay(cfg, ps).e.frames|
    ensures Replay(cfg, ps).e.frames[FireCount(Stamps(ps)[..i], cfg.pacing)] == Replay(cfg, ps[..i]).e.image
  {
    RunningPrefix(cfg, ps, i + 1);
    var before := Replay(cfg, ps[..i]).e;
    PrefixOfPrefix(ps, i, i + 1);
    assert ps[..i + 1][i] == ps[i];
    ReplayFollowsSchedule(cfg, ps[..i]);
    StampsPrefix(ps, i);
    assert Replay(cfg, ps[..i + 1]).e.frames == before.frames + [before.image];
  }

  /** The trailing frame, when written, is the buffer the loop ended with;
      otherwise the run's frames are the loop's. */
  lemma TrailingFrameIsFinalState(cfg: Config, ps: seq<Placement>)
    requires ValidConfig(cfg) && Replay(cfg, ps).Running?
    ensures var e := Replay(cfg, ps).e;
            var frames := RenderVirginmap(cfg, ps).e.frames;
            && (Trailing(e.clock, cfg.pacing) ==> frames == e.frames + [e.image])
            && (!Trailing(e.clock, cfg.pacing) ==> frames == e.frames)
            && RenderVirginmap(cfg, ps).e.image == e.image
  {
  }

  /** A placement on the current tier's inclusive right or bottom edge is
      accepted and painted black, but growth copies only the old `w x h`
      rectangle, so the new tier shows that tier coordinate virgin again:
      the black-stays-black property holds strictly inside the tier only. */
  lemma GrowthRepaintsEdge(cfg: Config, e: Engine, px: int, py: int, x: nat, y: nat)
    requires ValidConfig(cfg) && Inv(cfg, e) && e.idx + 1 < |cfg.tiers|
    requires cfg.tiers[e.idx].w < cfg.tiers[e.idx + 1].w && cfg.tiers[e.idx].h < cfg.tiers[e.idx + 1].h
    requires x <= cfg.tiers[e.idx].w && y <= cfg.tiers[e.idx].h && (x == cfg.tiers[e.idx].w || y == cfg.tiers[e.idx].h)
    requires NeedsGrowth(cfg.tiers, e.idx, px, py)
    ensures var g := Grow(cfg, e, px, py);
            InFrame(x + g.off.x, y + g.off.y) && g.image[x + g.off.x][y + g.off.y] == VIRGIN
  {
    OldEdgeShowsBackground(cfg.tiers, e.image, e.idx, VIRGIN, BLACK, x, y);
  }

  /** With tiers 100 x 100 then 200 x 200, a placement at (100, 0), on the
      right edge of the first tier, blacks out frame pixel (530, 220); a
      placement at (150, 0) then grows the canvas, and tier coordinate
      (100, 0), now frame pixel (480, 170), is virgin again. */
  lemma EdgePlacementLost(cfg: Config, ps: seq<Placement>)
    requires cfg.tiers == [Tier(100, 100), Tier(200, 200)]
    requires |ps| == 2 && ps[0].x == 100 && ps[0].y == 0 && ps[1].x == 150 && ps[1].y == 0
    ensures ValidConfig(cfg)
    ensures Replay(cfg, ps[..1]).Running? && Replay(cfg, ps[..1]).e.image[530][220] == BLACK
    ensures Replay(cfg, ps).Running? && Replay(cfg, ps).e.idx == 1 && Replay(cfg, ps).e.image[480][170] == VIRGIN
  {
    assert ValidConfig(cfg);
    EdgePainted(cfg, ps[..1]);
    assert ps[..2] == ps;
    EdgeRepainted(cfg, ps);
  }

  lemma EdgePainted(cfg: Config, ps: seq<Placement>)
    requires cfg.tiers == [Tier(100, 100), Tier(200, 200)]
    requires |ps| == 1 && ps[0].x == 100 && ps[0].y == 0
    ensures ValidConfig(cfg)
    ensures Replay(cfg, ps).Running? && Replay(cfg, ps).e.idx == 0
    ensures Replay(cfg, ps).e.image[530][220] == BLACK
  {
    assert ValidConfig(cfg);
    assert ps[..0] == [];
    var e1 := Emit(cfg, Initial(cfg), ps[0].ts);
    assert e1.off == Offset(430, 220) && e1.idx == 0;
    ApplyTier(cfg, e1, ps[0]);
    ApplyPaints(cfg, e1, ps[0]);
  }

  lemma EdgeRepainted(cfg: Config, ps: seq<Placement>)
    requires cfg.tiers == [Tier(100, 100), Tier(200, 200)]
    requires |ps| == 2 && ps[0].x == 100 && ps[0].y == 0 && ps[1].x == 150 && ps[1].y == 0
    ensures ValidConfig(cfg)
    ensures Replay(cfg, ps).Running? && Replay(cfg, ps).e.idx == 1 && Replay(cfg, ps).e.image[480][170] == VIRGIN
  {
    assert ValidConfig(cfg);
    EdgePainted(cfg, ps[..1]);
    var e := Emit(cfg, Replay(cfg, ps[..1]).e, ps[1].ts);
    assert Replay(cfg, ps) == Apply(cfg, e, ps[1]);
    GrowthRepaintsEdge(cfg, e, 150, 0, 100, 0);
    ApplyTier(cfg, e, ps[1]);
    var g := Grow(cfg, e, 150, 0);
    assert g.off == Offset(380, 170);
    ApplyKeeps(cfg, e, ps[1], 480, 170);
  }
}
