/** `blank_image` of src/util/canvas.rs: the unpadded final tier, all opaque
    white. Report modules index it by raw placement coordinates. */
module Canvas {
  import opened Image
  import opened Render

  /** `FINAL_CANVAS_SIZE`: the last entry of the tier table. */
  function FinalTier(tiers: seq<Tier>): Tier
    requires |tiers| >= 1
  {
    tiers[|tiers| - 1]
  }

  /** The report canvas: final-tier width and height, not the 960 x 540
      frame, every pixel opaque white. */
  function BlankImage(tiers: seq<Tier>): (g: Grid<Rgba>)
    requires |tiers| >= 1
    ensures IsGrid(g, FinalTier(tiers).w, FinalTier(tiers).h)
    ensures forall x, y :: 0 <= x < FinalTier(tiers).w && 0 <= y < FinalTier(tiers).h ==> g[x][y] == WHITE_OPAQUE
  {
    Fill(FinalTier(tiers).w, FinalTier(tiers).h, WHITE_OPAQUE)
  }
}
