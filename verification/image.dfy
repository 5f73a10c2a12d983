/** Pixels, colours and grids as the program's image buffers use them.

    A grid is a sequence of columns indexed `[x][y]`, the same layout as the
    `vec![vec![..; height]; width]` matrices of the report modules and the
    coordinate order of `put_pixel(x, y, ..)`. */
module Image {

  /** An unsigned 8-bit value. */
  type Byte = b: int | 0 <= b < 256

  /** One RGBA pixel. */
  datatype Rgba = Rgba(r: Byte, g: Byte, b: Byte, a: Byte)

  /** Absence of a result; `None` stands for a Rust panic (`unwrap`, an index
      out of range, `put_pixel` outside the image). */
  datatype Option<T> = None | Some(value: T)

  type Grid<T> = seq<seq<T>>

  /** `g` has `w` columns of `h` cells each. */
  predicate IsGrid<T>(g: Grid<T>, w: nat, h: nat) {
    |g| == w && forall x :: 0 <= x < w ==> |g[x]| == h
  }

  /** Every cell of a `w` by `h` grid holds `c`. */
  function Fill<T>(w: nat, h: nat, c: T): (g: Grid<T>)
    ensures IsGrid(g, w, h)
    ensures forall x, y :: 0 <= x < w && 0 <= y < h ==> g[x][y] == c
  {
    seq(w, _ => seq(h, _ => c))
  }

  /** `put_pixel(x, y, c)` / `grid[x][y] = c` at a position inside the grid. */
  function Put<T>(g: Grid<T>, x: nat, y: nat, c: T): (g': Grid<T>)
    requires x < |g| && y < |g[x]|
    ensures |g'| == |g|
    ensures forall i :: 0 <= i < |g| ==> |g'[i]| == |g[i]|
    ensures g'[x][y] == c
    ensures forall i, j :: 0 <= i < |g| && 0 <= j < |g[i]| && (i != x || j != y) ==> g'[i][j] == g[i][j]
  {
    g[x := g[x][y := c]]
  }

  const U32_MODULUS: nat := 0x1_0000_0000

  /** Rust's `v as u32` for a signed 64-bit `v`: keeps the low 32 bits. */
  function AsU32(v: int): (r: nat)
    ensures r < U32_MODULUS
    ensures 0 <= v < U32_MODULUS ==> r == v
    ensures -(U32_MODULUS as int) <= v < 0 ==> r == v + U32_MODULUS
  {
    v % U32_MODULUS
  }

  const WHITE_OPAQUE := Rgba(255, 255, 255, 255)
  const BLACK_OPAQUE := Rgba(0, 0, 0, 255)
}
