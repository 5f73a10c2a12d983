/** src/modules/singleplace.rs: paints each cell of the final-tier canvas
    with the colour of the first placement there. A `placed` matrix marks
    painted cells; a later placement at a painted cell is skipped before its
    colour is decoded. */
module Singleplace {
  import opened Image
  import opened Color
  import opened Render
  import opened Canvas
  import opened Reports

  /** A row of the query: raw `x`, `y` and the colour string. */
  datatype Placement = Placement(x: int, y: int, color: seq<Byte>)

  /** The canvas and the `placed` matrix. */
  datatype State = State(image: Grid<Rgba>, placed: Grid<bool>)

  predicate At(p: Placement, x: nat, y: nat) {
    AsU32(p.x) == x && AsU32(p.y) == y
  }

  function AtCell(x: nat, y: nat): Placement -> bool {
    p => At(p, x, y)
  }

  predicate AllInCanvas(tiers: seq<Tier>, ps: seq<Placement>)
    requires |tiers| >= 1
  {
    forall i :: 0 <= i < |ps| ==> InCanvas(tiers, ps[i].x, ps[i].y)
  }

  predicate Shaped(tiers: seq<Tier>, s: State)
    requires |tiers| >= 1
  {
    IsGrid(s.image, FinalTier(tiers).w, FinalTier(tiers).h) && IsGrid(s.placed, FinalTier(tiers).w, FinalTier(tiers).h)
  }

  function Start(tiers: seq<Tier>): (s: State)
    requires |tiers| >= 1
    ensures Shaped(tiers, s)
  {
    State(BlankImage(tiers), Fill(FinalTier(tiers).w, FinalTier(tiers).h, false))
  }

  /** One iteration: skip a placed cell; otherwise decode the colour (`None`
      where `hex_to_rgba` panics), paint it and mark the cell. */
  function Step(tiers: seq<Tier>, s: State, p: Placement): (r: Option<State>)
    requires |tiers| >= 1 && Shaped(tiers, s) && InCanvas(tiers, p.x, p.y)
    ensures r.Some? ==> Shaped(tiers, r.value)
    ensures s.placed[AsU32(p.x)][AsU32(p.y)] ==> r == Some(s)
    ensures !s.placed[AsU32(p.x)][AsU32(p.y)] ==>
              && (r.Some? <==> WellFormedHex(p.color))
              && (r.Some? ==> r.value == State(Put(s.image, AsU32(p.x), AsU32(p.y), HexToRgba(p.color).value),
                                               Put(s.placed, AsU32(p.x), AsU32(p.y), true)))
  {
    var x := AsU32(p.x);
    var y := AsU32(p.y);
    if s.placed[x][y] then Some(s)
    else
      match HexToRgba(p.color)
      case None => None
      case Some(c) => Some(State(Put(s.image, x, y, c), Put(s.placed, x, y, true)))
  }

  /** The loop over a prefix of the placements. */
  function Paint(tiers: seq<Tier>, ps: seq<Placement>): (r: Option<State>)
    requires |tiers| >= 1 && AllInCanvas(tiers, ps)
    ensures r.Some? ==> Shaped(tiers, r.value)
    decreases |ps|
  {
    if |ps| == 0 then Some(Start(tiers))
    else
      var n := |ps| - 1;
      assert AllInCanvas(tiers, ps[..n]);
      match Paint(tiers, ps[..n])
      case None => None
      case Some(s) => Step(tiers, s, ps[n])
  }

  lemma PaintLast(tiers: seq<Tier>, ps: seq<Placement>)
    requires |tiers| >= 1 && AllInCanvas(tiers, ps) && |ps| > 0
    ensures var n := |ps| - 1;
            && AllInCanvas(tiers, ps[..n])
            && Paint(tiers, ps) == match Paint(tiers, ps[..n])
                                   case None => None
                                   case Some(s) => Step(tiers, s, ps[n])
  {
  }

  /** The cell holds the colour of the first placement there, or stays
      white; it is marked exactly when some placement hit it. */
  lemma {:induction false} FirstWriterWins(tiers: seq<Tier>, ps: seq<Placement>, x: nat, y: nat)
    requires |tiers| >= 1 && AllInCanvas(tiers, ps) && Paint(tiers, ps).Some?
    requires x < FinalTier(tiers).w && y < FinalTier(tiers).h
    ensures var s := Paint(tiers, ps).value;
            var j := FirstWhere(ps, AtCell(x, y));
            && (s.placed[x][y] <==> j >= 0)
            && (j < 0 ==> s.image[x][y] == WHITE_OPAQUE)
            && (j >= 0 ==> HexToRgba(ps[j].color) == Some(s.image[x][y]))
    decreases |ps|
  {
    if |ps| > 0 {
      var n := |ps| - 1;
      PaintLast(tiers, ps);
      FirstWriterWins(tiers, ps[..n], x, y);
      assert ps == ps[..n] + [ps[n]];
      FirstWhereAppend(ps[..n], ps[n], AtCell(x, y));
    }
  }

  /** Placement `i` is the first at its cell. */
  predicate IsFirst(ps: seq<Placement>, i: nat)
    requires i < |ps|
  {
    FirstWhere(ps, AtCell(AsU32(ps[i].x), AsU32(ps[i].y))) == i
  }

  lemma IsFirstAppend(ps: seq<Placement>, p: Placement, i: nat)
    requires i < |ps|
    ensures IsFirst(ps + [p], i) == IsFirst(ps, i)
  {
    var P := AtCell(AsU32(ps[i].x), AsU32(ps[i].y));
    FirstWhereAppend(ps, p, P);
    assert P(ps[i]);
  }

  /** Some first placement at a cell carries a malformed colour. */
  ghost predicate BadFirst(ps: seq<Placement>) {
    exists i :: 0 <= i < |ps| && IsFirst(ps, i) && !WellFormedHex(ps[i].color)
  }

  lemma BadFirstAppend(ps: seq<Placement>, p: Placement)
    ensures BadFirst(ps + [p]) <==>
              BadFirst(ps) || (FirstWhere(ps, AtCell(AsU32(p.x), AsU32(p.y))) < 0 && !WellFormedHex(p.color))
  {
    var qs := ps + [p];
    var P := AtCell(AsU32(p.x), AsU32(p.y));
    forall i | 0 <= i < |ps|
      ensures IsFirst(qs, i) == IsFirst(ps, i) && qs[i] == ps[i]
    {
      IsFirstAppend(ps, p, i);
    }
    FirstWhereAppend(ps, p, P);
    assert P(p);
    assert IsFirst(qs, |ps|) <==> FirstWhere(ps, P) < 0;
    if BadFirst(qs) {
      var i :| 0 <= i < |qs| && IsFirst(qs, i) && !WellFormedHex(qs[i].color);
      if i < |ps| {
        assert IsFirst(ps, i) && !WellFormedHex(ps[i].color);
      }
    }
    if BadFirst(ps) {
      var i :| 0 <= i < |ps| && IsFirst(ps, i) && !WellFormedHex(ps[i].color);
      assert IsFirst(qs, i) && !WellFormedHex(qs[i].color);
    }
    if FirstWhere(ps, P) < 0 && !WellFormedHex(p.color) {
      assert IsFirst(qs, |ps|) && !WellFormedHex(qs[|ps|].color);
    }
  }

  /** The run panics exactly when the first placement at some cell carries
      a malformed colour; malformed colours of later placements at a
      painted cell are never decoded. */
  lemma {:induction false} PaintPanics(tiers: seq<Tier>, ps: seq<Placement>)
    requires |tiers| >= 1 && AllInCanvas(tiers, ps)
    ensures Paint(tiers, ps).None? <==> exists i :: 0 <= i < |ps| && IsFirst(ps, i) && !WellFormedHex(ps[i].color)
    decreases |ps|
  {
    if |ps| > 0 {
      var n := |ps| - 1;
      var p := ps[n];
      PaintLast(tiers, ps);
      PaintPanics(tiers, ps[..n]);
      assert ps == ps[..n] + [p];
      BadFirstAppend(ps[..n], p);
      if Paint(tiers, ps[..n]).Some? {
        FirstWriterWins(tiers, ps[..n], AsU32(p.x), AsU32(p.y));
      }
    }
  }
}
