/** `heatmap_color` and `convert_color`, written out identically in
    src/modules/heatmap.rs and src/modules/agemap.rs: a piecewise-linear
    gradient black, dark red, yellow, white over `[0, 1]` in `palette`'s
    linear sRGB, converted to bytes by truncating `as u8` casts. Values are
    exact rationals here, not `f32`. */
module Gradient {
  import opened Image

  /** A colour of `palette`'s linear sRGB space. */
  datatype Lin = Lin(red: real, green: real, blue: real)

  /** An 8-bit RGB pixel. */
  datatype Rgb8 = Rgb8(r: Byte, g: Byte, b: Byte)

  const BLACK_LIN := Lin(0.0, 0.0, 0.0)
  const DARK_RED_LIN := Lin(0.5451, 0.0, 0.0)
  const YELLOW_LIN := Lin(1.0, 1.0, 0.0)
  const WHITE_LIN := Lin(1.0, 1.0, 1.0)

  /** The gradient stops of `COLORS`: positions and colours. */
  const STOPS: seq<real> := [0.0, 0.2, 0.66, 1.0]
  const STOP_COLOURS: seq<Lin> := [BLACK_LIN, DARK_RED_LIN, YELLOW_LIN, WHITE_LIN]

  /** Linear interpolation from `a` towards `b`. */
  function Mix(a: Lin, b: Lin, t: real): Lin {
    Lin(a.red + (b.red - a.red) * t, a.green + (b.green - a.green) * t, a.blue + (b.blue - a.blue) * t)
  }

  /** Rust's `as u8` on a float: truncation, saturating at both ends. */
  function ToU8(v: real): (b: Byte)
    ensures v <= 0.0 ==> b == 0
    ensures v >= 255.0 ==> b == 255
    ensures 0.0 <= v < 255.0 ==> b as real <= v < b as real + 1.0
  {
    if v <= 0.0 then 0 else if v >= 255.0 then 255 else v.Floor
  }

  /** `convert_color`. */
  function Convert(c: Lin): Rgb8 {
    Rgb8(ToU8(c.red * 255.0), ToU8(c.green * 255.0), ToU8(c.blue * 255.0))
  }

  /** The loop of `heatmap_color` from segment `i` on, before conversion:
      the first segment whose closed range holds `v` interpolates; past the
      last one, the last colour. */
  function GradientFrom(v: real, i: nat): Lin
    requires i <= 3
    decreases 3 - i
  {
    if i == 3 then STOP_COLOURS[3]
    else if STOPS[i] <= v <= STOPS[i + 1] then
      Mix(STOP_COLOURS[i], STOP_COLOURS[i + 1], (v - STOPS[i]) / (STOPS[i + 1] - STOPS[i]))
    else GradientFrom(v, i + 1)
  }

  /** `heatmap_color`; `None` stands for the NaN or infinity of a division
      by a zero cap, which fails every comparison of the loop. */
  function HeatColour(v: Option<real>): Rgb8 {
    match v
    case None => Convert(WHITE_LIN)
    case Some(x) => Convert(GradientFrom(x, 0))
  }

  const WHITE8 := Rgb8(255, 255, 255)
  const BLACK8 := Rgb8(0, 0, 0)

  /** Which segment the loop picks for a non-negative value, with the
      interpolation factor spelled out; beyond 1, white. */
  lemma GradientSegments(v: real)
    requires v >= 0.0
    ensures 0.0 <= v <= 0.2 ==> GradientFrom(v, 0) == Mix(BLACK_LIN, DARK_RED_LIN, v / 0.2)
    ensures 0.2 < v <= 0.66 ==> GradientFrom(v, 0) == Mix(DARK_RED_LIN, YELLOW_LIN, (v - 0.2) / 0.46)
    ensures 0.66 < v <= 1.0 ==> GradientFrom(v, 0) == Mix(YELLOW_LIN, WHITE_LIN, (v - 0.66) / 0.34)
    ensures v > 1.0 ==> GradientFrom(v, 0) == WHITE_LIN
  {
    assert STOPS[0] == 0.0 && STOPS[1] == 0.2 && STOPS[2] == 0.66 && STOPS[3] == 1.0;
    if v > 0.2 {
      assert GradientFrom(v, 0) == GradientFrom(v, 1);
      if v > 0.66 {
        assert GradientFrom(v, 1) == GradientFrom(v, 2);
      }
    }
  }

  /** Channel-wise `<=`. */
  predicate Le(a: Lin, b: Lin) {
    a.red <= b.red && a.green <= b.green && a.blue <= b.blue
  }

  /** The segment a non-negative value falls in, 3 beyond 1. */
  function Segment(v: real): nat {
    if v <= 0.2 then 0 else if v <= 0.66 then 1 else if v <= 1.0 then 2 else 3
  }

  /** Every colour of a segment lies between the segment's end colours. */
  lemma InSegment(v: real)
    requires v >= 0.0
    ensures Segment(v) < 3 ==> Le(STOP_COLOURS[Segment(v)], GradientFrom(v, 0))
    ensures Le(GradientFrom(v, 0), STOP_COLOURS[if Segment(v) < 3 then Segment(v) + 1 else 3])
  {
    GradientSegments(v);
  }

  lemma MonotoneInFirst(a: real, b: real)
    requires 0.0 <= a <= b <= 0.2
    ensures Le(Mix(BLACK_LIN, DARK_RED_LIN, a / 0.2), Mix(BLACK_LIN, DARK_RED_LIN, b / 0.2))
  {
  }

  lemma MonotoneInSecond(a: real, b: real)
    requires 0.2 < a <= b <= 0.66
    ensures Le(Mix(DARK_RED_LIN, YELLOW_LIN, (a - 0.2) / 0.46), Mix(DARK_RED_LIN, YELLOW_LIN, (b - 0.2) / 0.46))
  {
  }

  lemma MonotoneInThird(a: real, b: real)
    requires 0.66 < a <= b <= 1.0
    ensures Le(Mix(YELLOW_LIN, WHITE_LIN, (a - 0.66) / 0.34), Mix(YELLOW_LIN, WHITE_LIN, (b - 0.66) / 0.34))
  {
  }

  /** On non-negative values the gradient never darkens. */
  lemma GradientMonotone(a: real, b: real)
    requires 0.0 <= a <= b
    ensures Le(GradientFrom(a, 0), GradientFrom(b, 0))
  {
    GradientSegments(a);
    GradientSegments(b);
    if Segment(a) != Segment(b) {
      InSegment(a);
      InSegment(b);
      assert Le(STOP_COLOURS[Segment(a) + 1], STOP_COLOURS[if Segment(b) < 3 then Segment(b) else 3]);
    } else if b <= 0.2 {
      MonotoneInFirst(a, b);
    } else if b <= 0.66 {
      MonotoneInSecond(a, b);
    } else if b <= 1.0 {
      MonotoneInThird(a, b);
    }
  }

  lemma ToU8Monotone(a: real, b: real)
    requires a <= b
    ensures ToU8(a) <= ToU8(b)
  {
  }

  /** A hotter cell is never darker in any channel. */
  lemma HotterNeverDarker(a: real, b: real)
    requires 0.0 <= a <= b
    ensures var ca := HeatColour(Some(a));
            var cb := HeatColour(Some(b));
            ca.r <= cb.r && ca.g <= cb.g && ca.b <= cb.b
  {
    var ga := GradientFrom(a, 0);
    var gb := GradientFrom(b, 0);
    GradientMonotone(a, b);
    ToU8Monotone(ga.red * 255.0, gb.red * 255.0);
    ToU8Monotone(ga.green * 255.0, gb.green * 255.0);
    ToU8Monotone(ga.blue * 255.0, gb.blue * 255.0);
  }
}
