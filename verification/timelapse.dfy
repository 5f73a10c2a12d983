/** `render_timelapse` of src/modules/timelapse.rs: replays the placements
    onto a 960 x 540 buffer that grows through the tiers, and writes a frame
    to the encoder whenever the batching clock fires. The encoder is the
    sequence `frames`; a panic of the Rust code ends the run as `Panicked`. */
module Timelapse {
  import opened Image
  import opened Color
  import opened Render
  import opened Batching

  /** A row of the placement query: raw `x`, `y` (i64), the colour string
      and the parsed `created_at` timestamp. */
  datatype Placement = Placement(x: int, y: int, color: seq<Byte>, ts: int)

  /** The tier table, the initial buffer (made by the two-argument
      `blank_image_borders(0, false)`, which is not part of this model) and the
      pacing arguments. */
  datatype Config = Config(tiers: seq<Tier>, initial: Grid<Rgba>, pacing: Pacing)

  predicate ValidConfig(cfg: Config) {
    ValidTiers(cfg.tiers) && IsGrid(cfg.initial, FRAME_W, FRAME_H)
  }

  /** The loop state: `canvas_size_idx`, `placement_offset`, the batching
      clock, the buffer, and the frames written so far. */
  datatype Engine = Engine(idx: nat, off: Offset, clock: Clock, image: Grid<Rgba>, frames: seq<Grid<Rgba>>)

  /** A run either goes on or has panicked; a panicked run keeps the frames
      that reached the encoder before the panic. */
  datatype Run = Running(e: Engine) | Panicked(e: Engine)

  predicate Inv(cfg: Config, e: Engine)
    requires ValidConfig(cfg)
  {
    && e.idx < |cfg.tiers|
    && e.off == PixelOffset(cfg.tiers, e.idx)
    && IsGrid(e.image, FRAME_W, FRAME_H)
    && forall f :: f in e.frames ==> IsGrid(f, FRAME_W, FRAME_H)
  }

  function Initial(cfg: Config): (e: Engine)
    requires ValidConfig(cfg)
    ensures Inv(cfg, e)
  {
    Engine(0, PixelOffset(cfg.tiers, 0), START, cfg.initial, [])
  }

  function Stamps(ps: seq<Placement>): (ts: seq<int>)
    ensures |ts| == |ps| && forall i :: 0 <= i < |ps| ==> ts[i] == ps[i].ts
  {
    seq(|ps|, i requires 0 <= i < |ps| => ps[i].ts)
  }

  lemma StampsPrefix(ps: seq<Placement>, k: nat)
    requires k <= |ps|
    ensures Stamps(ps[..k]) == Stamps(ps)[..k]
  {
  }

  /** The batching half of one iteration: the frame test, the write of the
      current buffer, the counter reset and the decrement. */
  function Emit(cfg: Config, e: Engine, ts: int): (e': Engine)
    requires ValidConfig(cfg) && Inv(cfg, e)
    ensures Inv(cfg, e')
    ensures e'.frames == e.frames + (if Fires(e.clock, ts, cfg.pacing) then [e.image] else [])
    ensures e'.clock == Tick(e.clock, ts, cfg.pacing)
    ensures e'.idx == e.idx && e'.image == e.image
  {
    var frames := if Fires(e.clock, ts, cfg.pacing) then e.frames + [e.image] else e.frames;
    e.(clock := Tick(e.clock, ts, cfg.pacing), frames := frames)
  }

  /** Growth by one tier when the raw coordinate is beyond the current
      tier: the next tier's index and offset, and `extend_canvas`. */
  function Grow(cfg: Config, e: Engine, x: int, y: int): (g: Engine)
    requires ValidConfig(cfg) && Inv(cfg, e)
    requires NeedsGrowth(cfg.tiers, e.idx, x, y) ==> e.idx + 1 < |cfg.tiers|
    ensures Inv(cfg, g)
    ensures g.frames == e.frames && g.clock == e.clock
    ensures g.idx == if NeedsGrowth(cfg.tiers, e.idx, x, y) then e.idx + 1 else e.idx
  {
    if NeedsGrowth(cfg.tiers, e.idx, x, y)
    then e.(idx := e.idx + 1,
            image := ExtendCanvas(cfg.tiers, e.image, e.idx + 1),
            off := PixelOffset(cfg.tiers, e.idx + 1))
    else e
  }

  /** The drawing half: growth, then `put_pixel` of the decoded colour. */
  function Apply(cfg: Config, e: Engine, p: Placement): (r: Run)
    requires ValidConfig(cfg) && Inv(cfg, e)
    ensures Inv(cfg, r.e)
    ensures r.e.frames == e.frames && r.e.clock == e.clock
    ensures NeedsGrowth(cfg.tiers, e.idx, AsU32(p.x), AsU32(p.y)) && e.idx + 1 == |cfg.tiers| ==> r.Panicked?
  {
    var x := AsU32(p.x);
    var y := AsU32(p.y);
    if NeedsGrowth(cfg.tiers, e.idx, x, y) && e.idx + 1 == |cfg.tiers| then Panicked(e)
    else
      var g := Grow(cfg, e, x, y);
      var color := HexToRgba(p.color);
      if color.None? || !InFrame(x + g.off.x, y + g.off.y) then Panicked(e)
      else Running(g.(image := Put(g.image, x + g.off.x, y + g.off.y, color.value)))
  }

  /** A placement that does not panic moves to the next tier exactly when
      its raw coordinate is beyond the current tier. */
  lemma ApplyTier(cfg: Config, e: Engine, p: Placement)
    requires ValidConfig(cfg) && Inv(cfg, e) && Apply(cfg, e, p).Running?
    ensures Apply(cfg, e, p).e.idx == if NeedsGrowth(cfg.tiers, e.idx, AsU32(p.x), AsU32(p.y)) then e.idx + 1 else e.idx
  {
  }

  /** A placement that does not panic has a well-formed colour and draws it
      at its offset position, which lies in the frame. */
  lemma ApplyPaints(cfg: Config, e: Engine, p: Placement)
    requires ValidConfig(cfg) && Inv(cfg, e) && Apply(cfg, e, p).Running?
    ensures var r := Apply(cfg, e, p);
            var X := AsU32(p.x) + r.e.off.x;
            var Y := AsU32(p.y) + r.e.off.y;
            && InFrame(X, Y)
            && HexToRgba(p.color).Some?
            && r.e.image[X][Y] == HexToRgba(p.color).value
  {
  }

  /** Every other pixel of the frame is as it was after any growth. */
  lemma ApplyKeeps(cfg: Config, e: Engine, p: Placement, i: int, j: int)
    requires ValidConfig(cfg) && Inv(cfg, e) && Apply(cfg, e, p).Running? && InFrame(i, j)
    requires i != AsU32(p.x) + Apply(cfg, e, p).e.off.x || j != AsU32(p.y) + Apply(cfg, e, p).e.off.y
    ensures NeedsGrowth(cfg.tiers, e.idx, AsU32(p.x), AsU32(p.y)) ==> e.idx + 1 < |cfg.tiers|
    ensures Apply(cfg, e, p).e.image[i][j] == Grow(cfg, e, AsU32(p.x), AsU32(p.y)).image[i][j]
  {
  }

  /** A placement that can only panic in the drawing half: growth past the
      last tier, an undecodable colour, or a position outside the frame. */
  lemma ApplyPanics(cfg: Config, e: Engine, p: Placement)
    requires ValidConfig(cfg) && Inv(cfg, e)
    ensures var x := AsU32(p.x);
            var y := AsU32(p.y);
            var grew := NeedsGrowth(cfg.tiers, e.idx, x, y);
            Apply(cfg, e, p).Panicked? <==>
              || (grew && e.idx + 1 == |cfg.tiers|)
              || (var off := PixelOffset(cfg.tiers, if grew then e.idx + 1 else e.idx);
                  !WellFormedHex(p.color) || !InFrame(x + off.x, y + off.y))
  {
  }

  /** One iteration of the `for pixel in placements` loop. */
  function Step(cfg: Config, e: Engine, p: Placement): (r: Run)
    requires ValidConfig(cfg) && Inv(cfg, e)
    ensures Inv(cfg, r.e)
  {
    Apply(cfg, Emit(cfg, e, p.ts), p)
  }

  /** The loop over a prefix of the placements. */
  function Replay(cfg: Config, ps: seq<Placement>): (r: Run)
    requires ValidConfig(cfg)
    ensures Inv(cfg, r.e)
    decreases |ps|
  {
    if |ps| == 0 then Running(Initial(cfg))
    else
      match Replay(cfg, ps[..|ps| - 1])
      case Panicked(e) => Panicked(e)
      case Running(e) => Step(cfg, e, ps[|ps| - 1])
  }

  /** `render_timelapse`: the loop, then the trailing frame when
      `remaining_pixels < pixels_per_frame`. */
  function RenderTimelapse(cfg: Config, ps: seq<Placement>): (r: Run)
    requires ValidConfig(cfg)
    ensures Inv(cfg, r.e)
  {
    match Replay(cfg, ps)
    case Panicked(e) => Panicked(e)
    case Running(e) =>
      Running(if Trailing(e.clock, cfg.pacing) then e.(frames := e.frames + [e.image]) else e)
  }

  /** A running replay's clock and in-loop frame count are those of the
      batching schedule of its timestamps, whatever the pixels. */
  lemma {:induction false} ReplayFollowsSchedule(cfg: Config, ps: seq<Placement>)
    requires ValidConfig(cfg) && Replay(cfg, ps).Running?
    ensures Replay(cfg, ps).e.clock == ClockAfter(Stamps(ps), cfg.pacing)
    ensures |Replay(cfg, ps).e.frames| == FireCount(Stamps(ps), cfg.pacing)
    decreases |ps|
  {
    if |ps| > 0 {
      var k := |ps| - 1;
      ReplayFollowsSchedule(cfg, ps[..k]);
      StampsPrefix(ps, k);
      FireCountStep(Stamps(ps), k, cfg.pacing);
      assert Stamps(ps)[..k + 1] == Stamps(ps);
    }
  }

  /** A full run writes exactly the frames of the schedule, at most one per
      placement plus the trailing one. */
  lemma FramesFollowSchedule(cfg: Config, ps: seq<Placement>)
    requires ValidConfig(cfg) && RenderTimelapse(cfg, ps).Running?
    ensures |RenderTimelapse(cfg, ps).e.frames| == FrameCount(Stamps(ps), cfg.pacing)
    ensures |RenderTimelapse(cfg, ps).e.frames| <= |ps| + 1
  {
    ReplayFollowsSchedule(cfg, ps);
    FrameCountBound(Stamps(ps), cfg.pacing);
  }

  /** One iteration only appends frames and never lowers the tier index. */
  lemma StepGrows(cfg: Config, e: Engine, p: Placement)
    requires ValidConfig(cfg) && Inv(cfg, e)
    ensures e.frames <= Step(cfg, e, p).e.frames
    ensures Step(cfg, e, p).Running? ==> e.idx <= Step(cfg, e, p).e.idx
  {
  }

  /** A run that is still going was going at every earlier point; its frames
      only grow and its tier index never decreases. */
  lemma {:induction false} RunningPrefix(cfg: Config, ps: seq<Placement>, k: nat)
    requires ValidConfig(cfg) && k <= |ps| && Replay(cfg, ps).Running?
    ensures Replay(cfg, ps[..k]).Running?
    ensures Replay(cfg, ps[..k]).e.frames <= Replay(cfg, ps).e.frames
    ensures Replay(cfg, ps[..k]).e.idx <= Replay(cfg, ps).e.idx
    decreases |ps|
  {
    if k < |ps| {
      var n := |ps| - 1;
      PrefixOfPrefix(ps, k, n);
      var prev := Replay(cfg, ps[..n]);
      assert prev.Running?;
      StepGrows(cfg, prev.e, ps[n]);
      RunningPrefix(cfg, ps[..n], k);
    } else {
      assert ps[..k] == ps;
    }
  }

  /** The frame written at placement `i` is the buffer as it was before
      placement `i` was applied. */
  lemma FrameShowsStateBefore(cfg: Config, ps: seq<Placement>, i: nat)
    requires ValidConfig(cfg) && i < |ps| && Replay(cfg, ps).Running?
    requires FiresAt(Stamps(ps), i, cfg.pacing)
    ensures FireCount(Stamps(ps)[..i], cfg.pacing) < |Replay(cfg, ps).e.frames|
    ensures Replay(cfg, ps).e.frames[FireCount(Stamps(ps)[..i], cfg.pacing)] == Replay(cfg, ps[..i]).e.image
  {
    RunningPrefix(cfg, ps, i + 1);
    var before := Replay(cfg, ps[..i]).e;
    PrefixOfPrefix(ps, i, i + 1);
    assert ps[..i + 1][i] == ps[i];
    ReplayFollowsSchedule(cfg, ps[..i]);
    StampsPrefix(ps, i);
    assert Replay(cfg, ps[..i + 1]).e.frames == before.frames + [before.image];
  }

  /** The trailing frame is the final buffer. */
  lemma TrailingFrameIsFinalState(cfg: Config, ps: seq<Placement>)
    requires ValidConfig(cfg) && Replay(cfg, ps).Running?
    requires Trailing(Replay(cfg, ps).e.clock, cfg.pacing)
    ensures var frames := RenderTimelapse(cfg, ps).e.frames;
            |frames| > 0 && frames[|frames| - 1] == Replay(cfg, ps).e.image
  {
  }

  /** Growing carries the old tier's content to the new offset, except its
      inclusive right and bottom edges, which become the new tier's clear
      white background (unless this very placement lands there). */
  lemma GrowthCarriesTierContent(cfg: Config, e: Engine, p: Placement, x: nat, y: nat)
    requires ValidConfig(cfg) && Inv(cfg, e)
    requires e.idx + 1 < |cfg.tiers|
    requires cfg.tiers[e.idx].w < cfg.tiers[e.idx + 1].w && cfg.tiers[e.idx].h < cfg.tiers[e.idx + 1].h
    requires Step(cfg, e, p).Running? && Step(cfg, e, p).e.idx == e.idx + 1
    requires x <= cfg.tiers[e.idx].w && y <= cfg.tiers[e.idx].h
    requires x != AsU32(p.x) || y != AsU32(p.y)
    ensures var e' := Step(cfg, e, p).e;
            && InFrame(x + e'.off.x, y + e'.off.y)
            && e'.image[x + e'.off.x][y + e'.off.y] ==
                 if x < cfg.tiers[e.idx].w && y < cfg.tiers[e.idx].h
                 then e.image[x + e.off.x][y + e.off.y]
                 else CLEAR_WHITE
  {
    var e1 := Emit(cfg, e, p.ts);
    assert Step(cfg, e, p) == Apply(cfg, e1, p);
    ApplyTier(cfg, e1, p);
    var no := PixelOffset(cfg.tiers, e.idx + 1);
    assert Apply(cfg, e1, p).e.off == no;
    GrowCarries(cfg, e1, AsU32(p.x), AsU32(p.y), x, y);
    ApplyKeeps(cfg, e1, p, x + no.x, y + no.y);
  }

  /** The growth half alone: tier coordinate `(x, y)` of the old tier's area
      shows the old pixel at the new offset, or clear white on the old
      inclusive edges. */
  lemma GrowCarries(cfg: Config, e: Engine, px: int, py: int, x: nat, y: nat)
    requires ValidConfig(cfg) && Inv(cfg, e) && NeedsGrowth(cfg.tiers, e.idx, px, py) && e.idx + 1 < |cfg.tiers|
    requires cfg.tiers[e.idx].w < cfg.tiers[e.idx + 1].w && cfg.tiers[e.idx].h < cfg.tiers[e.idx + 1].h
    requires x <= cfg.tiers[e.idx].w && y <= cfg.tiers[e.idx].h
    ensures var no := PixelOffset(cfg.tiers, e.idx + 1);
            && InFrame(x + no.x, y + no.y)
            && Grow(cfg, e, px, py).image[x + no.x][y + no.y] ==
                 if x < cfg.tiers[e.idx].w && y < cfg.tiers[e.idx].h
                 then e.image[x + e.off.x][y + e.off.y]
                 else CLEAR_WHITE
  {
    GrownPixel(cfg.tiers, e.image, e.idx, x, y);
    assert Grow(cfg, e, px, py).image == ExtendCanvasWithColour(cfg.tiers, e.image, e.idx + 1, CLEAR_WHITE, BLACK);
  }


}
