/** Tier geometry of src/util/render.rs: centring a tier in the fixed
    960 x 540 video frame, the bordered blank frame, and the re-centring copy
    that carries a tier's content into the next tier. The tier table
    `CANVAS_SIZES` (config.rs) is not part of this model; it is a parameter. */
module Render {
  import opened Image

  const FRAME_W: nat := 960
  const FRAME_H: nat := 540

  /** `render.rs` WHITE: white with alpha 0. */
  const CLEAR_WHITE := Rgba(255, 255, 255, 0)
  /** `render.rs` BLACK. */
  const BLACK := BLACK_OPAQUE

  /** One `(width, height)` entry of `CANVAS_SIZES`. */
  datatype Tier = Tier(w: nat, h: nat)

  /** A pixel position inside the video frame, or an offset into it. */
  datatype Offset = Offset(x: nat, y: nat)

  predicate Fits(t: Tier) {
    t.w <= FRAME_W && t.h <= FRAME_H
  }

  /** The tier table: non-empty, every tier fits in the frame, and each tier
      contains the ones before it. */
  predicate ValidTiers(tiers: seq<Tier>) {
    && |tiers| >= 1
    && (forall i :: 0 <= i < |tiers| ==> Fits(tiers[i]))
    && (forall i, j :: 0 <= i <= j < |tiers| ==> tiers[i].w <= tiers[j].w && tiers[i].h <= tiers[j].h)
  }

  predicate InFrame(x: int, y: int) {
    0 <= x < FRAME_W && 0 <= y < FRAME_H
  }

  /** `pixel_offset`: the tier is centred with floor division, so an odd
      margin leaves the extra pixel on the right / bottom. */
  function PixelOffset(tiers: seq<Tier>, i: nat): (off: Offset)
    requires i < |tiers| && Fits(tiers[i])
    ensures 0 <= FRAME_W - tiers[i].w - 2 * off.x <= 1
    ensures 0 <= FRAME_H - tiers[i].h - 2 * off.y <= 1
  {
    Offset((FRAME_W - tiers[i].w) / 2, (FRAME_H - tiers[i].h) / 2)
  }

  /** The in-bounds test of `blank_image_borders_with_colour`: both edges
      inclusive, so the box is one pixel wider and taller than the tier. */
  predicate InBorderBox(tiers: seq<Tier>, i: nat, x: int, y: int)
    requires i < |tiers| && Fits(tiers[i])
  {
    var off := PixelOffset(tiers, i);
    off.x <= x <= off.x + tiers[i].w && off.y <= y <= off.y + tiers[i].h
  }

  /** `blank_image_borders_with_colour`. */
  function BlankImageBordersWithColour(tiers: seq<Tier>, i: nat, inBounds: Rgba, outOfBounds: Rgba): (g: Grid<Rgba>)
    requires i < |tiers| && Fits(tiers[i])
    ensures IsGrid(g, FRAME_W, FRAME_H)
    ensures forall x, y :: InFrame(x, y) ==>
              g[x][y] == if InBorderBox(tiers, i, x, y) then inBounds else outOfBounds
  {
    var t := tiers[i];
    var off := PixelOffset(tiers, i);
    seq(FRAME_W, x => seq(FRAME_H, y =>
      if x < off.x || y < off.y || x > off.x + t.w || y > off.y + t.h then outOfBounds else inBounds))
  }

  /** `blank_image_borders`: opaque black inside, opaque white outside. */
  function BlankImageBorders(tiers: seq<Tier>, i: nat): (g: Grid<Rgba>)
    requires i < |tiers| && Fits(tiers[i])
    ensures IsGrid(g, FRAME_W, FRAME_H)
    ensures forall x, y :: InFrame(x, y) ==>
              g[x][y] == if InBorderBox(tiers, i, x, y) then BLACK_OPAQUE else WHITE_OPAQUE
  {
    BlankImageBordersWithColour(tiers, i, BLACK_OPAQUE, WHITE_OPAQUE)
  }

  /** The integers `a <= x < b`. */
  function Span(a: int, b: int): (r: set<int>)
    ensures forall x :: x in r <==> a <= x < b
    decreases b - a
  {
    if a >= b then {} else {a} + Span(a + 1, b)
  }

  lemma {:induction false} SpanSize(a: int, b: int)
    requires a <= b
    ensures |Span(a, b)| == b - a
    decreases b - a
  {
    if a < b {
      SpanSize(a + 1, b);
      assert Span(a, b) == {a} + Span(a + 1, b);
      assert a !in Span(a + 1, b);
    }
  }

  /** The members of `s` below `n`. */
  function Below(s: set<int>, n: int): (r: set<int>)
    ensures forall x :: x in r <==> x in s && x < n
  {
    set x | x in s && x < n
  }

  /** The frame columns and rows `blank_image_borders_with_colour` paints in bounds. */
  function BoxColumns(tiers: seq<Tier>, i: nat): set<int>
    requires i < |tiers| && Fits(tiers[i])
  {
    var off := PixelOffset(tiers, i);
    Below(Span(off.x, off.x + tiers[i].w + 1), FRAME_W)
  }

  function BoxRows(tiers: seq<Tier>, i: nat): set<int>
    requires i < |tiers| && Fits(tiers[i])
  {
    var off := PixelOffset(tiers, i);
    Below(Span(off.y, off.y + tiers[i].h + 1), FRAME_H)
  }

  /** A span of `n + 1` integers from `lo`, clipped below `limit`. */
  lemma ClippedSpanSize(lo: int, n: nat, limit: int)
    requires lo + n <= limit
    ensures |Below(Span(lo, lo + n + 1), limit)| == if lo + n < limit then n + 1 else n
  {
    var b := Below(Span(lo, lo + n + 1), limit);
    var hi := if lo + n < limit then lo + n + 1 else lo + n;
    forall x | x in b ensures x in Span(lo, hi) { }
    forall x | x in Span(lo, hi) ensures x in b { }
    assert b == Span(lo, hi);
    SpanSize(lo, hi);
  }

  /** The in-bounds region is `w + 1` columns by `h + 1` rows, clipped by
      the frame only when the tier fills it. */
  lemma BorderBoxSize(tiers: seq<Tier>, i: nat)
    requires i < |tiers| && Fits(tiers[i])
    ensures |BoxColumns(tiers, i)| == if tiers[i].w < FRAME_W then tiers[i].w + 1 else FRAME_W
    ensures |BoxRows(tiers, i)| == if tiers[i].h < FRAME_H then tiers[i].h + 1 else FRAME_H
  {
    var off := PixelOffset(tiers, i);
    ClippedSpanSize(off.x, tiers[i].w, FRAME_W);
    ClippedSpanSize(off.y, tiers[i].h, FRAME_H);
  }

  /** The growth test of the replay loops: strictly beyond the current
      tier's width or height, so a coordinate equal to the width stays. */
  predicate NeedsGrowth(tiers: seq<Tier>, idx: nat, x: int, y: int)
    requires idx < |tiers|
  {
    x > tiers[idx].w || y > tiers[idx].h
  }

  /** Frame positions that receive old content when growing into tier `i`:
      the old tier's `w x h` rectangle (exclusive edges) at the new offset. */
  predicate InCopiedRect(tiers: seq<Tier>, i: nat, x: int, y: int)
    requires 1 <= i < |tiers| && Fits(tiers[i])
  {
    var no := PixelOffset(tiers, i);
    no.x <= x < no.x + tiers[i - 1].w && no.y <= y < no.y + tiers[i - 1].h
  }

  /** The frame position the copy reads for frame position `(x, y)` of the
      copied rectangle: the same tier coordinate at the old offset. */
  function CopySource(tiers: seq<Tier>, i: nat, x: int, y: int): (p: Offset)
    requires ValidTiers(tiers) && 1 <= i < |tiers| && InCopiedRect(tiers, i, x, y)
    ensures InFrame(p.x, p.y)
  {
    var no := PixelOffset(tiers, i);
    var oo := PixelOffset(tiers, i - 1);
    Offset(x - no.x + oo.x, y - no.y + oo.y)
  }

  /** With nested tiers that fit the frame, every write of the copy lands in
      the frame. */
  lemma CopiedRectInsideFrame(tiers: seq<Tier>, i: nat, x: int, y: int)
    requires ValidTiers(tiers) && 1 <= i < |tiers| && InCopiedRect(tiers, i, x, y)
    ensures InFrame(x, y)
  {
    assert tiers[i - 1].w <= tiers[i].w && tiers[i - 1].h <= tiers[i].h;
  }

  /** One pixel of `extend_canvas_with_colour`: inside the copied rectangle
      the old pixel read at the old offset, elsewhere the pixel of the new
      tier's bordered frame. */
  function ExtendedPixel(tiers: seq<Tier>, image: Grid<Rgba>, i: nat, inBounds: Rgba, outOfBounds: Rgba, x: int, y: int): Rgba
    requires ValidTiers(tiers) && 1 <= i < |tiers| && IsGrid(image, FRAME_W, FRAME_H) && InFrame(x, y)
  {
    if InCopiedRect(tiers, i, x, y) then image[CopySource(tiers, i, x, y).x][CopySource(tiers, i, x, y).y]
    else if InBorderBox(tiers, i, x, y) then inBounds
    else outOfBounds
  }

  /** The first `n` columns of the extended canvas. */
  function ExtendedColumns(tiers: seq<Tier>, image: Grid<Rgba>, i: nat, inBounds: Rgba, outOfBounds: Rgba, n: nat): (g: Grid<Rgba>)
    requires ValidTiers(tiers) && 1 <= i < |tiers| && IsGrid(image, FRAME_W, FRAME_H) && n <= FRAME_W
    ensures IsGrid(g, n, FRAME_H)
    decreases n
  {
    if n == 0 then []
    else
      ExtendedColumns(tiers, image, i, inBounds, outOfBounds, n - 1)
        + [seq(FRAME_H, y requires 0 <= y < FRAME_H => ExtendedPixel(tiers, image, i, inBounds, outOfBounds, n - 1, y))]
  }

  lemma {:induction false} ExtendedColumnsPixel(tiers: seq<Tier>, image: Grid<Rgba>, i: nat, inBounds: Rgba, outOfBounds: Rgba, n: nat, x: nat, y: nat)
    requires ValidTiers(tiers) && 1 <= i < |tiers| && IsGrid(image, FRAME_W, FRAME_H) && n <= FRAME_W
    requires x < n && y < FRAME_H
    ensures ExtendedColumns(tiers, image, i, inBounds, outOfBounds, n)[x][y] == ExtendedPixel(tiers, image, i, inBounds, outOfBounds, x, y)
    decreases n
  {
    if x < n - 1 {
      ExtendedColumnsPixel(tiers, image, i, inBounds, outOfBounds, n - 1, x, y);
    }
  }

  /** `extend_canvas_with_colour`: a fresh bordered frame for tier `i`, with
      the old tier's `w x h` content moved from the old offset to the new one. */
  function ExtendCanvasWithColour(tiers: seq<Tier>, image: Grid<Rgba>, i: nat, inBounds: Rgba, outOfBounds: Rgba): (g: Grid<Rgba>)
    requires ValidTiers(tiers) && 1 <= i < |tiers| && IsGrid(image, FRAME_W, FRAME_H)
    ensures IsGrid(g, FRAME_W, FRAME_H)
  {
    ExtendedColumns(tiers, image, i, inBounds, outOfBounds, FRAME_W)
  }

  /** Each pixel of the extended canvas: inside the copied rectangle the old
      pixel read at the old offset, elsewhere the new tier's bordered frame. */
  lemma ExtendCanvasWithColourPixel(tiers: seq<Tier>, image: Grid<Rgba>, i: nat, inBounds: Rgba, outOfBounds: Rgba, x: int, y: int)
    requires ValidTiers(tiers) && 1 <= i < |tiers| && IsGrid(image, FRAME_W, FRAME_H) && InFrame(x, y)
    ensures ExtendCanvasWithColour(tiers, image, i, inBounds, outOfBounds)[x][y] ==
              if InCopiedRect(tiers, i, x, y) then image[CopySource(tiers, i, x, y).x][CopySource(tiers, i, x, y).y]
              else if InBorderBox(tiers, i, x, y) then inBounds
              else outOfBounds
  {
    ExtendedColumnsPixel(tiers, image, i, inBounds, outOfBounds, FRAME_W, x, y);
  }

  /** A pixel of the copied rectangle comes from the old offset. */
  lemma ExtendCanvasWithColourCopied(tiers: seq<Tier>, image: Grid<Rgba>, i: nat, inBounds: Rgba, outOfBounds: Rgba, x: int, y: int)
    requires ValidTiers(tiers) && 1 <= i < |tiers| && IsGrid(image, FRAME_W, FRAME_H)
    requires InFrame(x, y) && InCopiedRect(tiers, i, x, y)
    ensures ExtendCanvasWithColour(tiers, image, i, inBounds, outOfBounds)[x][y] == image[CopySource(tiers, i, x, y).x][CopySource(tiers, i, x, y).y]
  {
    ExtendedColumnsPixel(tiers, image, i, inBounds, outOfBounds, FRAME_W, x, y);
  }

  /** A pixel outside the copied rectangle is the bordered frame's. */
  lemma ExtendCanvasWithColourBorder(tiers: seq<Tier>, image: Grid<Rgba>, i: nat, inBounds: Rgba, outOfBounds: Rgba, x: int, y: int)
    requires ValidTiers(tiers) && 1 <= i < |tiers| && IsGrid(image, FRAME_W, FRAME_H)
    requires InFrame(x, y) && !InCopiedRect(tiers, i, x, y)
    ensures ExtendCanvasWithColour(tiers, image, i, inBounds, outOfBounds)[x][y] == if InBorderBox(tiers, i, x, y) then inBounds else outOfBounds
  {
    ExtendedColumnsPixel(tiers, image, i, inBounds, outOfBounds, FRAME_W, x, y);
  }

  /** `extend_canvas`: clear white inside the new border box, black outside. */
  function ExtendCanvas(tiers: seq<Tier>, image: Grid<Rgba>, i: nat): (g: Grid<Rgba>)
    requires ValidTiers(tiers) && 1 <= i < |tiers| && IsGrid(image, FRAME_W, FRAME_H)
    ensures IsGrid(g, FRAME_W, FRAME_H)
  {
    ExtendCanvasWithColour(tiers, image, i, CLEAR_WHITE, BLACK)
  }

  /** Each pixel of the plain growth: the moved old content, else clear
      white inside the new border box and black outside. */
  lemma ExtendCanvasPixel(tiers: seq<Tier>, image: Grid<Rgba>, i: nat, x: int, y: int)
    requires ValidTiers(tiers) && 1 <= i < |tiers| && IsGrid(image, FRAME_W, FRAME_H) && InFrame(x, y)
    ensures ExtendCanvas(tiers, image, i)[x][y] ==
              if InCopiedRect(tiers, i, x, y) then image[CopySource(tiers, i, x, y).x][CopySource(tiers, i, x, y).y]
              else if InBorderBox(tiers, i, x, y) then CLEAR_WHITE
              else BLACK
  {
    ExtendCanvasWithColourPixel(tiers, image, i, CLEAR_WHITE, BLACK, x, y);
  }

  /** Growing from tier `j` keeps every pixel of its `w x h` rectangle, read
      at the old offset and found at the new one, inside the new tier. */
  lemma GrowthKeepsOldContent(tiers: seq<Tier>, image: Grid<Rgba>, j: nat, inBounds: Rgba, outOfBounds: Rgba, x: nat, y: nat)
    requires ValidTiers(tiers) && j + 1 < |tiers| && IsGrid(image, FRAME_W, FRAME_H)
    requires x < tiers[j].w && y < tiers[j].h
    ensures var no := PixelOffset(tiers, j + 1);
            var oo := PixelOffset(tiers, j);
            && x < tiers[j + 1].w && y < tiers[j + 1].h
            && InFrame(x + no.x, y + no.y) && InFrame(x + oo.x, y + oo.y)
            && ExtendCanvasWithColour(tiers, image, j + 1, inBounds, outOfBounds)[x + no.x][y + no.y] == image[x + oo.x][y + oo.y]
  {
    var no := PixelOffset(tiers, j + 1);
    var oo := PixelOffset(tiers, j);
    assert tiers[j].w <= tiers[j + 1].w && tiers[j].h <= tiers[j + 1].h;
    CopiedRectInsideFrame(tiers, j + 1, x + no.x, y + no.y);
    assert CopySource(tiers, j + 1, x + no.x, y + no.y) == Offset(x + oo.x, y + oo.y);
    ExtendCanvasWithColourCopied(tiers, image, j + 1, inBounds, outOfBounds, x + no.x, y + no.y);
  }

  /** After growth from tier `j`, tier coordinate `(x, y)` of the old tier's
      area, edges included, shows the old pixel at that coordinate, or clear
      white on the inclusive right and bottom edges. */
  lemma GrownPixel(tiers: seq<Tier>, image: Grid<Rgba>, j: nat, x: nat, y: nat)
    requires ValidTiers(tiers) && j + 1 < |tiers| && IsGrid(image, FRAME_W, FRAME_H)
    requires tiers[j].w < tiers[j + 1].w && tiers[j].h < tiers[j + 1].h
    requires x <= tiers[j].w && y <= tiers[j].h
    ensures var no := PixelOffset(tiers, j + 1);
            var oo := PixelOffset(tiers, j);
            && InFrame(x + no.x, y + no.y)
            && (x < tiers[j].w && y < tiers[j].h ==> InFrame(x + oo.x, y + oo.y))
            && ExtendCanvasWithColour(tiers, image, j + 1, CLEAR_WHITE, BLACK)[x + no.x][y + no.y] ==
                 if x < tiers[j].w && y < tiers[j].h then image[x + oo.x][y + oo.y] else CLEAR_WHITE
  {
    if x < tiers[j].w && y < tiers[j].h {
      GrowthKeepsOldContent(tiers, image, j, CLEAR_WHITE, BLACK, x, y);
    } else {
      OldEdgeShowsBackground(tiers, image, j, CLEAR_WHITE, BLACK, x, y);
    }
  }

  /** The old tier's inclusive right and bottom edges are not copied: they
      show the new tier's in-bounds colour at the new offset. */
  lemma OldEdgeShowsBackground(tiers: seq<Tier>, image: Grid<Rgba>, j: nat, inBounds: Rgba, outOfBounds: Rgba, x: nat, y: nat)
    requires ValidTiers(tiers) && j + 1 < |tiers| && IsGrid(image, FRAME_W, FRAME_H)
    requires tiers[j].w < tiers[j + 1].w && tiers[j].h < tiers[j + 1].h
    requires x <= tiers[j].w && y <= tiers[j].h && (x == tiers[j].w || y == tiers[j].h)
    ensures var no := PixelOffset(tiers, j + 1);
            && InFrame(x + no.x, y + no.y)
            && ExtendCanvasWithColour(tiers, image, j + 1, inBounds, outOfBounds)[x + no.x][y + no.y] == inBounds
  {
    var no := PixelOffset(tiers, j + 1);
    OldEdgeGeometry(tiers, j, x, y);
    ExtendCanvasWithColourBorder(tiers, image, j + 1, inBounds, outOfBounds, x + no.x, y + no.y);
  }

  /** The old tier's right and bottom edges, placed at the new offset, lie in
      the frame and in the new border box but outside the copied rectangle. */
  lemma OldEdgeGeometry(tiers: seq<Tier>, j: nat, x: nat, y: nat)
    requires ValidTiers(tiers) && j + 1 < |tiers|
    requires tiers[j].w < tiers[j + 1].w && tiers[j].h < tiers[j + 1].h
    requires x <= tiers[j].w && y <= tiers[j].h && (x == tiers[j].w || y == tiers[j].h)
    ensures var no := PixelOffset(tiers, j + 1);
            && InFrame(x + no.x, y + no.y)
            && InBorderBox(tiers, j + 1, x + no.x, y + no.y)
            && !InCopiedRect(tiers, j + 1, x + no.x, y + no.y)
  {
  }


  /** After the copy loop has written column `x` up to (not including) row
      `y` of the copied rectangle, every earlier position of the rectangle
      holds the pixel read at the old offset and every other position still
      holds the blank frame. */
  ghost predicate CopiedUpTo(tiers: seq<Tier>, i: nat, g: Grid<Rgba>, image: Grid<Rgba>, blank: Grid<Rgba>, x: int, y: int)
    requires ValidTiers(tiers) && 1 <= i < |tiers|
    requires IsGrid(g, FRAME_W, FRAME_H) && IsGrid(image, FRAME_W, FRAME_H) && IsGrid(blank, FRAME_W, FRAME_H)
  {
    forall X, Y :: InFrame(X, Y) ==>
      g[X][Y] == if (X < x || (X == x && Y < y)) && InCopiedRect(tiers, i, X, Y)
                 then image[CopySource(tiers, i, X, Y).x][CopySource(tiers, i, X, Y).y]
                 else blank[X][Y]
  }

  /** One iteration of the copy loop extends the written part by a row. */
  lemma CopyStep(tiers: seq<Tier>, image: Grid<Rgba>, i: nat, blank: Grid<Rgba>, g: Grid<Rgba>, x: nat, y: nat)
    requires ValidTiers(tiers) && 1 <= i < |tiers|
    requires IsGrid(image, FRAME_W, FRAME_H) && IsGrid(blank, FRAME_W, FRAME_H) && IsGrid(g, FRAME_W, FRAME_H)
    requires x < tiers[i - 1].w && y < tiers[i - 1].h
    requires var no := PixelOffset(tiers, i);
             CopiedUpTo(tiers, i, g, image, blank, x + no.x, y + no.y)
    ensures var no := PixelOffset(tiers, i);
            var oo := PixelOffset(tiers, i - 1);
            && InFrame(x + no.x, y + no.y) && InFrame(x + oo.x, y + oo.y)
            && IsGrid(Put(g, x + no.x, y + no.y, image[x + oo.x][y + oo.y]), FRAME_W, FRAME_H)
            && CopiedUpTo(tiers, i, Put(g, x + no.x, y + no.y, image[x + oo.x][y + oo.y]), image, blank, x + no.x, y + no.y + 1)
  {
    var no := PixelOffset(tiers, i);
    var oo := PixelOffset(tiers, i - 1);
    var X0, Y0 := x + no.x, y + no.y;
    assert InCopiedRect(tiers, i, X0, Y0);
    CopiedRectInsideFrame(tiers, i, X0, Y0);
    assert CopySource(tiers, i, X0, Y0) == Offset(x + oo.x, y + oo.y);
    var g' := Put(g, X0, Y0, image[x + oo.x][y + oo.y]);
    forall X, Y | InFrame(X, Y)
      ensures g'[X][Y] == if (X < X0 || (X == X0 && Y < Y0 + 1)) && InCopiedRect(tiers, i, X, Y)
                          then image[CopySource(tiers, i, X, Y).x][CopySource(tiers, i, X, Y).y]
                          else blank[X][Y]
    {
      if X != X0 || Y != Y0 {
        assert g'[X][Y] == g[X][Y];
      }
    }
  }

  /** Finishing a column moves on to the top of the next one. */
  lemma NextColumn(tiers: seq<Tier>, i: nat, g: Grid<Rgba>, image: Grid<Rgba>, blank: Grid<Rgba>, x: int)
    requires ValidTiers(tiers) && 1 <= i < |tiers|
    requires IsGrid(g, FRAME_W, FRAME_H) && IsGrid(image, FRAME_W, FRAME_H) && IsGrid(blank, FRAME_W, FRAME_H)
    requires CopiedUpTo(tiers, i, g, image, blank, x, PixelOffset(tiers, i).y + tiers[i - 1].h)
    ensures CopiedUpTo(tiers, i, g, image, blank, x + 1, PixelOffset(tiers, i).y)
  {
  }

  /** Once every column is written, the buffer is the extended canvas. */
  lemma CopyComplete(tiers: seq<Tier>, i: nat, g: Grid<Rgba>, image: Grid<Rgba>, inBounds: Rgba, outOfBounds: Rgba)
    requires ValidTiers(tiers) && 1 <= i < |tiers| && IsGrid(image, FRAME_W, FRAME_H) && IsGrid(g, FRAME_W, FRAME_H)
    requires CopiedUpTo(tiers, i, g, image, BlankImageBordersWithColour(tiers, i, inBounds, outOfBounds),
                        PixelOffset(tiers, i).x + tiers[i - 1].w, PixelOffset(tiers, i).y)
    ensures g == ExtendCanvasWithColour(tiers, image, i, inBounds, outOfBounds)
  {
    var e := ExtendCanvasWithColour(tiers, image, i, inBounds, outOfBounds);
    forall X | 0 <= X < FRAME_W
      ensures g[X] == e[X]
    {
      forall Y | 0 <= Y < FRAME_H
        ensures g[X][Y] == e[X][Y]
      {
        assert InFrame(X, Y);
        ExtendCanvasWithColourPixel(tiers, image, i, inBounds, outOfBounds, X, Y);
      }
    }
  }

  /** One column of the copy loop: rows `0..old_height` of old column `x`,
      `put_pixel` of the pixel read at the old offset. */
  method CopyColumn(tiers: seq<Tier>, image: Grid<Rgba>, i: nat, blank: Grid<Rgba>, g0: Grid<Rgba>, x: nat)
    returns (g: Grid<Rgba>)
    requires ValidTiers(tiers) && 1 <= i < |tiers|
    requires IsGrid(image, FRAME_W, FRAME_H) && IsGrid(blank, FRAME_W, FRAME_H) && IsGrid(g0, FRAME_W, FRAME_H)
    requires x < tiers[i - 1].w
    requires CopiedUpTo(tiers, i, g0, image, blank, x + PixelOffset(tiers, i).x, PixelOffset(tiers, i).y)
    ensures IsGrid(g, FRAME_W, FRAME_H)
    ensures CopiedUpTo(tiers, i, g, image, blank, x + PixelOffset(tiers, i).x + 1, PixelOffset(tiers, i).y)
  {
    var oldOffset := PixelOffset(tiers, i - 1);
    var newOffset := PixelOffset(tiers, i);
    g := g0;
    var y := 0;
    while y < tiers[i - 1].h
      invariant 0 <= y <= tiers[i - 1].h
      invariant IsGrid(g, FRAME_W, FRAME_H)
      invariant CopiedUpTo(tiers, i, g, image, blank, x + newOffset.x, y + newOffset.y)
    {
      CopyStep(tiers, image, i, blank, g, x, y);
      g := Put(g, x + newOffset.x, y + newOffset.y, image[x + oldOffset.x][y + oldOffset.y]);
      y := y + 1;
    }
    NextColumn(tiers, i, g, image, blank, x + newOffset.x);
  }

  /** The copy loop of `extend_canvas_with_colour` as written: column by
      column over a fresh bordered frame. */
  method ExtendCanvasLoop(tiers: seq<Tier>, image: Grid<Rgba>, i: nat, inBounds: Rgba, outOfBounds: Rgba) returns (g: Grid<Rgba>)
    requires ValidTiers(tiers) && 1 <= i < |tiers| && IsGrid(image, FRAME_W, FRAME_H)
    ensures g == ExtendCanvasWithColour(tiers, image, i, inBounds, outOfBounds)
  {
    var newOffset := PixelOffset(tiers, i);
    var blank := BlankImageBordersWithColour(tiers, i, inBounds, outOfBounds);
    g := blank;
    var x := 0;
    while x < tiers[i - 1].w
      invariant 0 <= x <= tiers[i - 1].w
      invariant IsGrid(g, FRAME_W, FRAME_H)
      invariant CopiedUpTo(tiers, i, g, image, blank, x + newOffset.x, newOffset.y)
    {
      g := CopyColumn(tiers, image, i, blank, g, x);
      x := x + 1;
    }
    CopyComplete(tiers, i, g, image, inBounds, outOfBounds);
  }
}
