/** src/modules/singleplayer.rs: the final owner and colour of every cell
    (last writer wins, a moderation row clears the cell to white and no
    owner), then one image per owner showing only that owner's cells. */
module Singleplayer {
  import opened Image
  import opened Color
  import opened Render
  import opened Canvas
  import opened Reports

  /** A row of the query: raw `x`, `y`, the colour string, the Discord id
      and `mod_action`. */
  datatype Placement = Placement(x: int, y: int, color: seq<Byte>, user: nat, modAction: int)

  /** One cell of `grid`: the owner (0 for none) and the colour. */
  datatype Cell = Cell(owner: nat, color: Rgba)

  /** The cell value before any placement: no owner, transparent black. */
  const UNOWNED := Cell(0, Rgba(0, 0, 0, 0))

  predicate At(p: Placement, x: nat, y: nat) {
    AsU32(p.x) == x && AsU32(p.y) == y
  }

  function AtCell(x: nat, y: nat): Placement -> bool {
    p => At(p, x, y)
  }

  predicate AllInCanvas(tiers: seq<Tier>, ps: seq<Placement>)
    requires |tiers| >= 1
  {
    forall i :: 0 <= i < |ps| ==> InCanvas(tiers, ps[i].x, ps[i].y)
  }

  /** The cell a placement writes, given its decoded colour. */
  function Written(p: Placement, c: Rgba): Cell {
    if p.modAction == 0 then Cell(p.user, c) else Cell(0, WHITE_OPAQUE)
  }

  /** The `grid` fold over a prefix of the placements; `None` where
      `hex_to_rgba` panics, which it may do on any row, moderation rows
      included, since the colour is decoded before `mod_action` is read. */
  function OwnerGrid(tiers: seq<Tier>, ps: seq<Placement>): (r: Option<Grid<Cell>>)
    requires |tiers| >= 1 && AllInCanvas(tiers, ps)
    ensures r.Some? ==> IsGrid(r.value, FinalTier(tiers).w, FinalTier(tiers).h)
    decreases |ps|
  {
    if |ps| == 0 then Some(Fill(FinalTier(tiers).w, FinalTier(tiers).h, UNOWNED))
    else
      var n := |ps| - 1;
      assert AllInCanvas(tiers, ps[..n]);
      match OwnerGrid(tiers, ps[..n])
      case None => None
      case Some(g) =>
        match HexToRgba(ps[n].color)
        case None => None
        case Some(c) => Some(Put(g, AsU32(ps[n].x), AsU32(ps[n].y), Written(ps[n], c)))
  }

  /** A longer prefix is built exactly when the shorter one is and the new
      row's colour is well formed. */
  lemma OwnerGridLast(tiers: seq<Tier>, ps: seq<Placement>)
    requires |tiers| >= 1 && AllInCanvas(tiers, ps) && |ps| > 0
    ensures AllInCanvas(tiers, ps[..|ps| - 1])
    ensures OwnerGrid(tiers, ps).Some? <==> OwnerGrid(tiers, ps[..|ps| - 1]).Some? && WellFormedHex(ps[|ps| - 1].color)
  {
    var n := |ps| - 1;
    assert AllInCanvas(tiers, ps[..n]);
    var prev := OwnerGrid(tiers, ps[..n]);
    var c := HexToRgba(ps[n].color);
    assert OwnerGrid(tiers, ps) ==
      if prev.None? || c.None? then None
      else Some(Put(prev.value, AsU32(ps[n].x), AsU32(ps[n].y), Written(ps[n], c.value)));
  }

  /** A successful fold over a longer prefix is the successful fold over
      the shorter one with the new row's cell written. */
  lemma OwnerGridStep(tiers: seq<Tier>, ps: seq<Placement>)
    requires |tiers| >= 1 && AllInCanvas(tiers, ps) && |ps| > 0 && OwnerGrid(tiers, ps).Some?
    ensures var n := |ps| - 1;
            && AllInCanvas(tiers, ps[..n])
            && OwnerGrid(tiers, ps[..n]).Some?
            && HexToRgba(ps[n].color).Some?
            && var g := OwnerGrid(tiers, ps[..n]).value;
               AsU32(ps[n].x) < |g| && AsU32(ps[n].y) < |g[AsU32(ps[n].x)]|
               && OwnerGrid(tiers, ps).value == Put(g, AsU32(ps[n].x), AsU32(ps[n].y), Written(ps[n], HexToRgba(ps[n].color).value))
  {
    assert AllInCanvas(tiers, ps[..|ps| - 1]);
  }

  /** Every colour of a sequence is well formed exactly when every colour
      of its prefix and the last one are. */
  lemma AllWellFormedLast(ps: seq<Placement>)
    requires |ps| > 0
    ensures var n := |ps| - 1;
            (forall i :: 0 <= i < |ps| ==> WellFormedHex(ps[i].color)) <==>
              (forall i :: 0 <= i < n ==> WellFormedHex(ps[..n][i].color)) && WellFormedHex(ps[n].color)
  {
    var n := |ps| - 1;
    assert forall i :: 0 <= i < n ==> ps[..n][i] == ps[i];
  }

  /** The grid is built exactly when every colour string is well formed. */
  lemma {:induction false} OwnerGridPanics(tiers: seq<Tier>, ps: seq<Placement>)
    requires |tiers| >= 1 && AllInCanvas(tiers, ps)
    ensures OwnerGrid(tiers, ps).Some? <==> forall i :: 0 <= i < |ps| ==> WellFormedHex(ps[i].color)
    decreases |ps|
  {
    if |ps| > 0 {
      var n := |ps| - 1;
      OwnerGridLast(tiers, ps);
      OwnerGridPanics(tiers, ps[..n]);
      AllWellFormedLast(ps);
    }
  }

  /** Each cell holds what the last placement there wrote, or `UNOWNED`. */
  lemma {:induction false} LastWriterWins(tiers: seq<Tier>, ps: seq<Placement>, x: nat, y: nat)
    requires |tiers| >= 1 && AllInCanvas(tiers, ps) && OwnerGrid(tiers, ps).Some?
    requires x < FinalTier(tiers).w && y < FinalTier(tiers).h
    ensures var j := LastWhere(ps, AtCell(x, y));
            var g := OwnerGrid(tiers, ps).value;
            && (j < 0 ==> g[x][y] == UNOWNED)
            && (j >= 0 ==> HexToRgba(ps[j].color).Some? && g[x][y] == Written(ps[j], HexToRgba(ps[j].color).value))
    decreases |ps|
  {
    if |ps| > 0 {
      var n := |ps| - 1;
      OwnerGridStep(tiers, ps);
      LastWriterWins(tiers, ps[..n], x, y);
      assert ps == ps[..n] + [ps[n]];
      LastWhereAppend(ps[..n], ps[n], AtCell(x, y));
    }
  }

  /** The users that get an image: nonzero owners of some cell. */
  function Owners(grid: Grid<Cell>): set<nat> {
    set x, y | 0 <= x < |grid| && 0 <= y < |grid[x]| && grid[x][y].owner != 0 :: grid[x][y].owner
  }

  /** User `u`'s image: the final-tier white canvas with `u`'s cells drawn
      in their grid colour. */
  function UserImage(tiers: seq<Tier>, grid: Grid<Cell>, u: nat): (g: Grid<Rgba>)
    requires |tiers| >= 1 && IsGrid(grid, FinalTier(tiers).w, FinalTier(tiers).h)
    ensures IsGrid(g, FinalTier(tiers).w, FinalTier(tiers).h)
  {
    var W := FinalTier(tiers).w;
    var H := FinalTier(tiers).h;
    seq(W, x requires 0 <= x < W => seq(H, y requires 0 <= y < H =>
      if grid[x][y].owner == u then grid[x][y].color else WHITE_OPAQUE))
  }

  /** `user_images`: the loop skips unowned cells and draws each owned cell
      into its owner's image, created white on first use. */
  function UserImages(tiers: seq<Tier>, grid: Grid<Cell>): (m: map<nat, Grid<Rgba>>)
    requires |tiers| >= 1 && IsGrid(grid, FinalTier(tiers).w, FinalTier(tiers).h)
    ensures forall u :: u in m <==> u != 0 && exists x, y :: 0 <= x < |grid| && 0 <= y < |grid[x]| && grid[x][y].owner == u
    ensures forall u :: u in m ==> IsGrid(m[u], FinalTier(tiers).w, FinalTier(tiers).h)
    ensures forall u, x, y :: u in m && 0 <= x < FinalTier(tiers).w && 0 <= y < FinalTier(tiers).h ==>
              && |m[u]| == FinalTier(tiers).w && |m[u][x]| == FinalTier(tiers).h
              && m[u][x][y] == if grid[x][y].owner == u then grid[x][y].color else WHITE_OPAQUE
  {
    map u | u in Owners(grid) :: UserImage(tiers, grid, u)
  }

  /** The images partition the owned cells: an owned cell is drawn in its
      owner's image and shows white in every other one, and an unowned cell
      is white in all of them. */
  lemma ImagesPartitionCells(tiers: seq<Tier>, grid: Grid<Cell>, x: nat, y: nat)
    requires |tiers| >= 1 && IsGrid(grid, FinalTier(tiers).w, FinalTier(tiers).h)
    requires x < FinalTier(tiers).w && y < FinalTier(tiers).h
    ensures var m := UserImages(tiers, grid);
            && (grid[x][y].owner != 0 ==> grid[x][y].owner in m && m[grid[x][y].owner][x][y] == grid[x][y].color)
            && forall u :: u in m && u != grid[x][y].owner ==> m[u][x][y] == WHITE_OPAQUE
  {
  }

  /** Cell `(i, j)` comes before `(x, y)` in the loop's order: column by
      column, each column from the top. */
  predicate Before(i: nat, j: nat, x: nat, y: nat) {
    i < x || (i == x && j < y)
  }

  /** One pass of the inner loop's body at cell `(x, y)`: an unowned cell is
      skipped; an owned one is drawn into its owner's image, which
      `or_insert_with(blank_image)` creates white the first time. */
  function DrawCell(tiers: seq<Tier>, grid: Grid<Cell>, m: map<nat, Grid<Rgba>>, x: nat, y: nat): (m': map<nat, Grid<Rgba>>)
    requires |tiers| >= 1 && IsGrid(grid, FinalTier(tiers).w, FinalTier(tiers).h)
    requires x < FinalTier(tiers).w && y < FinalTier(tiers).h
    requires forall u :: u in m ==> IsGrid(m[u], FinalTier(tiers).w, FinalTier(tiers).h)
    ensures forall u :: u in m' ==> IsGrid(m'[u], FinalTier(tiers).w, FinalTier(tiers).h)
  {
    var u := grid[x][y].owner;
    if u == 0 then m
    else
      var image: Grid<Rgba> := if u in m then m[u] else BlankImage(tiers);
      assert IsGrid(image, FinalTier(tiers).w, FinalTier(tiers).h);
      m[u := Put(image, x, y, grid[x][y].color)]
  }

  /** `keys` are the nonzero owners of the cells before `(x, y)`. */
  ghost predicate KeysUpTo(grid: Grid<Cell>, w: nat, h: nat, keys: set<nat>, x: nat, y: nat)
    requires IsGrid(grid, w, h)
  {
    forall u :: u in keys <==> u != 0 && exists i, j :: 0 <= i < w && 0 <= j < h && Before(i, j, x, y) && grid[i][j].owner == u
  }

  /** `image` is white except for `u`'s cells before `(x, y)`, drawn in
      their colours. */
  predicate PixelsUpTo(grid: Grid<Cell>, w: nat, h: nat, u: nat, image: Grid<Rgba>, x: nat, y: nat)
    requires IsGrid(grid, w, h)
  {
    && IsGrid(image, w, h)
    && forall i, j :: 0 <= i < w && 0 <= j < h ==>
         image[i][j] == if Before(i, j, x, y) && grid[i][j].owner == u then grid[i][j].color else WHITE_OPAQUE
  }

  /** The images after the loop has visited every cell before `(x, y)`: one
      per nonzero owner met so far, white except for that owner's visited
      cells. */
  ghost predicate DrawnUpTo(tiers: seq<Tier>, grid: Grid<Cell>, m: map<nat, Grid<Rgba>>, x: nat, y: nat)
    requires |tiers| >= 1 && IsGrid(grid, FinalTier(tiers).w, FinalTier(tiers).h)
  {
    && KeysUpTo(grid, FinalTier(tiers).w, FinalTier(tiers).h, m.Keys, x, y)
    && forall u :: u in m ==> PixelsUpTo(grid, FinalTier(tiers).w, FinalTier(tiers).h, u, m[u], x, y)
  }

  /** Visiting cell `(x, y)` adds its owner, if any, to the owners met. */
  lemma KeysStep(grid: Grid<Cell>, w: nat, h: nat, keys: set<nat>, x: nat, y: nat)
    requires IsGrid(grid, w, h) && x < w && y < h
    requires KeysUpTo(grid, w, h, keys, x, y)
    ensures KeysUpTo(grid, w, h, if grid[x][y].owner == 0 then keys else keys + {grid[x][y].owner}, x, y + 1)
  {
    var o := grid[x][y].owner;
    var keys' := if o == 0 then keys else keys + {o};
    forall u
      ensures u in keys' <==> u != 0 && exists i, j :: 0 <= i < w && 0 <= j < h && Before(i, j, x, y + 1) && grid[i][j].owner == u
    {
      if u != 0 && u == o {
        assert Before(x, y, x, y + 1) && grid[x][y].owner == u;
      }
      if u != 0 && exists i, j :: 0 <= i < w && 0 <= j < h && Before(i, j, x, y + 1) && grid[i][j].owner == u {
        var i, j :| 0 <= i < w && 0 <= j < h && Before(i, j, x, y + 1) && grid[i][j].owner == u;
        if !Before(i, j, x, y) {
          assert i == x && j == y;
        }
      }
    }
  }

  /** Another owner's image is untouched by cell `(x, y)` and stays white
      there. */
  lemma PixelsStepOther(grid: Grid<Cell>, w: nat, h: nat, u: nat, image: Grid<Rgba>, x: nat, y: nat)
    requires IsGrid(grid, w, h) && x < w && y < h && grid[x][y].owner != u
    requires PixelsUpTo(grid, w, h, u, image, x, y)
    ensures PixelsUpTo(grid, w, h, u, image, x, y + 1)
  {
  }

  /** The owner's image gets the cell's colour at `(x, y)`. */
  lemma PixelsStepOwner(grid: Grid<Cell>, w: nat, h: nat, u: nat, image: Grid<Rgba>, x: nat, y: nat)
    requires IsGrid(grid, w, h) && x < w && y < h && grid[x][y].owner == u
    requires PixelsUpTo(grid, w, h, u, image, x, y)
    ensures PixelsUpTo(grid, w, h, u, Put(image, x, y, grid[x][y].color), x, y + 1)
  {
  }

  /** A fresh white image is the drawn image of an owner not met yet. */
  lemma BlankPixels(tiers: seq<Tier>, grid: Grid<Cell>, u: nat, x: nat, y: nat)
    requires |tiers| >= 1 && IsGrid(grid, FinalTier(tiers).w, FinalTier(tiers).h)
    requires forall i, j :: 0 <= i < FinalTier(tiers).w && 0 <= j < FinalTier(tiers).h && Before(i, j, x, y) ==> grid[i][j].owner != u
    ensures PixelsUpTo(grid, FinalTier(tiers).w, FinalTier(tiers).h, u, BlankImage(tiers), x, y)
  {
  }

  /** Drawing cell `(x, y)` extends the drawn region by that cell. */
  lemma DrawCellStep(tiers: seq<Tier>, grid: Grid<Cell>, m: map<nat, Grid<Rgba>>, x: nat, y: nat)
    requires |tiers| >= 1 && IsGrid(grid, FinalTier(tiers).w, FinalTier(tiers).h)
    requires x < FinalTier(tiers).w && y < FinalTier(tiers).h
    requires DrawnUpTo(tiers, grid, m, x, y)
    ensures DrawnUpTo(tiers, grid, DrawCell(tiers, grid, m, x, y), x, y + 1)
  {
    var W := FinalTier(tiers).w;
    var H := FinalTier(tiers).h;
    KeysStep(grid, W, H, m.Keys, x, y);
    if grid[x][y].owner == 0 {
      forall u | u in m
        ensures PixelsUpTo(grid, W, H, u, m[u], x, y + 1)
      {
        PixelsStepOther(grid, W, H, u, m[u], x, y);
      }
    } else {
      DrawOwnedCell(tiers, grid, m, x, y);
    }
  }

  /** An owned cell is drawn into its owner's image, new or not, and every
      other image is kept. */
  lemma DrawOwnedCell(tiers: seq<Tier>, grid: Grid<Cell>, m: map<nat, Grid<Rgba>>, x: nat, y: nat)
    requires |tiers| >= 1 && IsGrid(grid, FinalTier(tiers).w, FinalTier(tiers).h)
    requires x < FinalTier(tiers).w && y < FinalTier(tiers).h && grid[x][y].owner != 0
    requires DrawnUpTo(tiers, grid, m, x, y)
    ensures var m' := DrawCell(tiers, grid, m, x, y);
            forall u :: u in m' ==> PixelsUpTo(grid, FinalTier(tiers).w, FinalTier(tiers).h, u, m'[u], x, y + 1)
  {
    var W := FinalTier(tiers).w;
    var H := FinalTier(tiers).h;
    var o := grid[x][y].owner;
    var image := if o in m then m[o] else BlankImage(tiers);
    if o !in m {
      BlankPixels(tiers, grid, o, x, y);
    }
    PixelsStepOwner(grid, W, H, o, image, x, y);
    var m' := m[o := Put(image, x, y, grid[x][y].color)];
    assert DrawCell(tiers, grid, m, x, y) == m';
    forall u | u in m' && u != o
      ensures PixelsUpTo(grid, W, H, u, m'[u], x, y + 1)
    {
      PixelsStepOther(grid, W, H, u, m[u], x, y);
    }
  }

  /** Finishing a column is starting the next one. */
  lemma NextColumnDrawn(tiers: seq<Tier>, grid: Grid<Cell>, m: map<nat, Grid<Rgba>>, x: nat)
    requires |tiers| >= 1 && IsGrid(grid, FinalTier(tiers).w, FinalTier(tiers).h)
    requires DrawnUpTo(tiers, grid, m, x, FinalTier(tiers).h)
    ensures DrawnUpTo(tiers, grid, m, x + 1, 0)
  {
    var H := FinalTier(tiers).h;
    assert forall i, j :: 0 <= j < H ==> (Before(i, j, x, H) <==> Before(i, j, x + 1, 0));
  }

  /** Two `w` by `h` grids that agree on every cell are equal. */
  lemma GridsEqual<T>(a: Grid<T>, b: Grid<T>, w: nat, h: nat)
    requires IsGrid(a, w, h) && IsGrid(b, w, h)
    requires forall x, y :: 0 <= x < w && 0 <= y < h ==> a[x][y] == b[x][y]
    ensures a == b
  {
    forall x | 0 <= x < w
      ensures a[x] == b[x]
    {
      assert forall y :: 0 <= y < h ==> a[x][y] == b[x][y];
    }
  }

  /** Once every cell is visited, the owners met are all the owners. */
  lemma AllKeys(grid: Grid<Cell>, w: nat, h: nat, keys: set<nat>)
    requires IsGrid(grid, w, h) && KeysUpTo(grid, w, h, keys, w, 0)
    ensures keys == Owners(grid)
  {
    assert forall i, j :: 0 <= i < w ==> Before(i, j, w, 0);
    forall u | u in Owners(grid)
      ensures u in keys
    {
      var i, j :| 0 <= i < |grid| && 0 <= j < |grid[i]| && grid[i][j].owner != 0 && grid[i][j].owner == u;
      assert Before(i, j, w, 0);
    }
  }

  /** Once every cell is visited, an owner's drawn image is the closed form. */
  lemma AllPixels(tiers: seq<Tier>, grid: Grid<Cell>, u: nat, image: Grid<Rgba>)
    requires |tiers| >= 1 && IsGrid(grid, FinalTier(tiers).w, FinalTier(tiers).h)
    requires PixelsUpTo(grid, FinalTier(tiers).w, FinalTier(tiers).h, u, image, FinalTier(tiers).w, 0)
    ensures image == UserImage(tiers, grid, u)
  {
    var W := FinalTier(tiers).w;
    var H := FinalTier(tiers).h;
    var r := UserImage(tiers, grid, u);
    forall i, j | 0 <= i < W && 0 <= j < H
      ensures image[i][j] == r[i][j]
    {
      assert Before(i, j, W, 0);
    }
    GridsEqual(image, r, W, H);
  }

  /** Once every cell is visited, the images are the closed form. */
  lemma AllDrawn(tiers: seq<Tier>, grid: Grid<Cell>, m: map<nat, Grid<Rgba>>)
    requires |tiers| >= 1 && IsGrid(grid, FinalTier(tiers).w, FinalTier(tiers).h)
    requires DrawnUpTo(tiers, grid, m, FinalTier(tiers).w, 0)
    ensures m == UserImages(tiers, grid)
  {
    var W := FinalTier(tiers).w;
    var H := FinalTier(tiers).h;
    AllKeys(grid, W, H, m.Keys);
    AllImages(tiers, grid, m);
    ClosedForm(tiers, grid, m);
  }

  /** The images of exactly the owners, each its closed form, are the
      closed form of the whole map. */
  lemma ClosedForm(tiers: seq<Tier>, grid: Grid<Cell>, m: map<nat, Grid<Rgba>>)
    requires |tiers| >= 1 && IsGrid(grid, FinalTier(tiers).w, FinalTier(tiers).h)
    requires m.Keys == Owners(grid)
    requires forall u :: u in m ==> m[u] == UserImage(tiers, grid, u)
    ensures m == UserImages(tiers, grid)
  {
    var r := UserImages(tiers, grid);
    assert r.Keys == Owners(grid);
    MapsEqual(m, r);
  }

  /** Once every cell is visited, every drawn image is the closed form. */
  lemma AllImages(tiers: seq<Tier>, grid: Grid<Cell>, m: map<nat, Grid<Rgba>>)
    requires |tiers| >= 1 && IsGrid(grid, FinalTier(tiers).w, FinalTier(tiers).h)
    requires DrawnUpTo(tiers, grid, m, FinalTier(tiers).w, 0)
    ensures forall u :: u in m ==> m[u] == UserImage(tiers, grid, u)
  {
    forall u | u in m
      ensures m[u] == UserImage(tiers, grid, u)
    {
      AllPixels(tiers, grid, u, m[u]);
    }
  }

  /** Two maps with the same keys and the same value at each are equal. */
  lemma MapsEqual<K, V>(a: map<K, V>, b: map<K, V>)
    requires a.Keys == b.Keys
    requires forall k :: k in a ==> a[k] == b[k]
    ensures a == b
  {
  }

  /** The `user_images` loop of the program: columns in order, each column
      from the top, skipping unowned cells and drawing every owned one into
      its owner's image, created white on the owner's first cell. It builds
      exactly one image per nonzero owner, white but for that owner's
      cells. */
  method DrawUserImages(tiers: seq<Tier>, grid: Grid<Cell>) returns (m: map<nat, Grid<Rgba>>)
    requires |tiers| >= 1 && IsGrid(grid, FinalTier(tiers).w, FinalTier(tiers).h)
    ensures m == UserImages(tiers, grid)
  {
    m := map[];
    var x := 0;
    while x < FinalTier(tiers).w
      invariant 0 <= x <= FinalTier(tiers).w
      invariant DrawnUpTo(tiers, grid, m, x, 0)
    {
      m := DrawColumn(tiers, grid, m, x);
      x := x + 1;
    }
    AllDrawn(tiers, grid, m);
  }

  /** The inner loop: column `x` from the top. */
  method DrawColumn(tiers: seq<Tier>, grid: Grid<Cell>, m0: map<nat, Grid<Rgba>>, x: nat) returns (m: map<nat, Grid<Rgba>>)
    requires |tiers| >= 1 && IsGrid(grid, FinalTier(tiers).w, FinalTier(tiers).h)
    requires x < FinalTier(tiers).w && DrawnUpTo(tiers, grid, m0, x, 0)
    ensures DrawnUpTo(tiers, grid, m, x + 1, 0)
  {
    m := m0;
    var y := 0;
    while y < FinalTier(tiers).h
      invariant 0 <= y <= FinalTier(tiers).h
      invariant DrawnUpTo(tiers, grid, m, x, y)
    {
      DrawCellStep(tiers, grid, m, x, y);
      m := DrawCell(tiers, grid, m, x, y);
      y := y + 1;
    }
    NextColumnDrawn(tiers, grid, m, x);
  }
}
