/** src/modules/usermap.rs: every cell of the final-tier canvas in the
    colour of the user who placed there last. A user's colour comes from
    the persisted colour cache when present; otherwise it is derived from
    the Discord id, written, and cached as a `#rrggbb` string. A moderation
    row paints white. */
module Usermap {
  import opened Image
  import opened Color
  import opened Render
  import opened Canvas
  import opened Reports

  /** A row of the query: raw `x`, `y`, the parsed Discord id and
      `mod_action`. */
  datatype Placement = Placement(x: int, y: int, user: nat, modAction: int)

  /** The three channels `hsv_to_rgb` returns. */
  datatype Rgb = Rgb(r: Byte, g: Byte, b: Byte)

  /** The canvas tiers; the id-to-colour derivation (floating-point HSV
      arithmetic, a parameter here); the cache as read from
      `db/user_colors.json`, or empty when that file cannot be read. */
  datatype Config = Config(tiers: seq<Tier>, derive: nat -> Rgb, cache: map<nat, seq<Byte>>)

  predicate ValidConfig(cfg: Config) {
    |cfg.tiers| >= 1
  }

  /** The canvas and the cache as the loop updates them. */
  datatype State = State(image: Grid<Rgba>, colors: map<nat, seq<Byte>>)

  predicate At(p: Placement, x: nat, y: nat) {
    AsU32(p.x) == x && AsU32(p.y) == y
  }

  function AtCell(x: nat, y: nat): Placement -> bool {
    p => At(p, x, y)
  }

  predicate AllInCanvas(tiers: seq<Tier>, ps: seq<Placement>)
    requires |tiers| >= 1
  {
    forall i :: 0 <= i < |ps| ==> InCanvas(tiers, ps[i].x, ps[i].y)
  }

  predicate Shaped(cfg: Config, s: State)
    requires ValidConfig(cfg)
  {
    IsGrid(s.image, FinalTier(cfg.tiers).w, FinalTier(cfg.tiers).h)
  }

  function Start(cfg: Config): (s: State)
    requires ValidConfig(cfg)
    ensures Shaped(cfg, s)
  {
    State(BlankImage(cfg.tiers), cfg.cache)
  }

  /** The opaque colour of derived channels. */
  function Opaque(c: Rgb): Rgba {
    Rgba(c.r, c.g, c.b, 255)
  }

  /** One iteration. A cached string is decoded (`None` where `hex_to_rgba`
      panics); a missing one is derived, cached and written. */
  function Step(cfg: Config, s: State, p: Placement): (r: Option<State>)
    requires ValidConfig(cfg) && Shaped(cfg, s) && InCanvas(cfg.tiers, p.x, p.y)
    ensures r.Some? ==> Shaped(cfg, r.value)
    ensures r.Some? ==> forall x, y :: 0 <= x < FinalTier(cfg.tiers).w && 0 <= y < FinalTier(cfg.tiers).h && !At(p, x, y) ==>
              r.value.image[x][y] == s.image[x][y]
    ensures p.modAction != 0 ==> r.Some? && r.value.colors == s.colors && r.value.image[AsU32(p.x)][AsU32(p.y)] == WHITE_OPAQUE
    ensures p.modAction == 0 && p.user in s.colors ==>
              && (r.Some? <==> WellFormedHex(s.colors[p.user]))
              && (r.Some? ==> r.value.colors == s.colors
                              && HexToRgba(s.colors[p.user]) == Some(r.value.image[AsU32(p.x)][AsU32(p.y)]))
    ensures p.modAction == 0 && p.user !in s.colors ==>
              && r.Some?
              && r.value.colors.Keys == s.colors.Keys + {p.user}
              && (forall u :: u in s.colors ==> r.value.colors[u] == s.colors[u])
              && HexToRgba(r.value.colors[p.user]) == Some(r.value.image[AsU32(p.x)][AsU32(p.y)])
  {
    var x := AsU32(p.x);
    var y := AsU32(p.y);
    if p.modAction == 0 then
      if p.user in s.colors then
        match HexToRgba(s.colors[p.user])
        case None => None
        case Some(c) => Some(State(Put(s.image, x, y, c), s.colors))
      else
        var d := cfg.derive(p.user);
        FormatRoundTrip(d.r, d.g, d.b);
        Some(State(Put(s.image, x, y, Opaque(d)), s.colors[p.user := FormatHex(d.r, d.g, d.b)]))
    else
      Some(State(Put(s.image, x, y, WHITE_OPAQUE), s.colors))
  }

  /** The loop over a prefix of the placements. */
  function Run(cfg: Config, ps: seq<Placement>): (r: Option<State>)
    requires ValidConfig(cfg) && AllInCanvas(cfg.tiers, ps)
    ensures r.Some? ==> Shaped(cfg, r.value)
    decreases |ps|
  {
    if |ps| == 0 then Some(Start(cfg))
    else
      var n := |ps| - 1;
      assert AllInCanvas(cfg.tiers, ps[..n]);
      match Run(cfg, ps[..n])
      case None => None
      case Some(s) => Step(cfg, s, ps[n])
  }

  lemma RunLast(cfg: Config, ps: seq<Placement>)
    requires ValidConfig(cfg) && AllInCanvas(cfg.tiers, ps) && |ps| > 0
    ensures var n := |ps| - 1;
            && AllInCanvas(cfg.tiers, ps[..n])
            && Run(cfg, ps) == match Run(cfg, ps[..n])
                               case None => None
                               case Some(s) => Step(cfg, s, ps[n])
  {
  }

  /** The colour user `u` paints with throughout the run: the decoded
      cached string, or the derived colour; `None` for a malformed cached
      string. */
  function UserColour(cfg: Config, u: nat): Option<Rgba> {
    if u in cfg.cache then HexToRgba(cfg.cache[u]) else Some(Opaque(cfg.derive(u)))
  }

  /** Rows of `ps` that draw in their user's colour. */
  ghost predicate Paints(ps: seq<Placement>, u: nat) {
    exists i :: 0 <= i < |ps| && ps[i].modAction == 0 && ps[i].user == u
  }

  /** The cache holds the persisted entries unchanged, plus the formatted
      derived colour of exactly the users who painted without one. */
  ghost predicate CacheAfter(cfg: Config, ps: seq<Placement>, colors: map<nat, seq<Byte>>) {
    && (forall u :: u in colors <==> u in cfg.cache || Paints(ps, u))
    && (forall u :: u in colors ==> colors[u] == if u in cfg.cache then cfg.cache[u] else FormatHex(cfg.derive(u).r, cfg.derive(u).g, cfg.derive(u).b))
  }

  lemma PaintsAppend(ps: seq<Placement>, p: Placement, u: nat)
    ensures Paints(ps + [p], u) <==> Paints(ps, u) || (p.modAction == 0 && p.user == u)
  {
    var qs := ps + [p];
    if Paints(ps, u) {
      var i :| 0 <= i < |ps| && ps[i].modAction == 0 && ps[i].user == u;
      assert qs[i] == ps[i];
    }
    if p.modAction == 0 && p.user == u {
      assert qs[|ps|] == p;
    }
    if Paints(qs, u) {
      var i :| 0 <= i < |qs| && qs[i].modAction == 0 && qs[i].user == u;
      if i < |ps| {
        assert qs[i] == ps[i];
      }
    }
  }

  /** The cache after every prefix of a successful run is the persisted
      cache extended by the derived colours of new painters; an entry once
      made is never replaced. */
  lemma {:induction false} CacheGrowsOnly(cfg: Config, ps: seq<Placement>)
    requires ValidConfig(cfg) && AllInCanvas(cfg.tiers, ps) && Run(cfg, ps).Some?
    ensures CacheAfter(cfg, ps, Run(cfg, ps).value.colors)
    decreases |ps|
  {
    if |ps| > 0 {
      var n := |ps| - 1;
      var p := ps[n];
      RunLast(cfg, ps);
      CacheGrowsOnly(cfg, ps[..n]);
      assert ps == ps[..n] + [p];
      forall u ensures Paints(ps, u) <==> Paints(ps[..n], u) || (p.modAction == 0 && p.user == u) {
        PaintsAppend(ps[..n], p, u);
      }
    }
  }

  /** A cached entry is only ever decoded when it came from the persisted
      cache, so the run panics exactly when a painting row's user has a
      malformed persisted entry. */
  lemma {:induction false} RunPanics(cfg: Config, ps: seq<Placement>)
    requires ValidConfig(cfg) && AllInCanvas(cfg.tiers, ps)
    ensures Run(cfg, ps).None? <==>
              exists i :: 0 <= i < |ps| && ps[i].modAction == 0 && UserColour(cfg, ps[i].user).None?
    decreases |ps|
  {
    if |ps| > 0 {
      var n := |ps| - 1;
      var p := ps[n];
      RunLast(cfg, ps);
      RunPanics(cfg, ps[..n]);
      assert ps == ps[..n] + [p];
      BadRowAppend(cfg, ps[..n], p);
      if Run(cfg, ps[..n]).Some? {
        StepPanics(cfg, ps[..n], p);
      }
    }
  }

  /** Some painting row has a user whose colour does not decode. */
  ghost predicate BadRow(cfg: Config, ps: seq<Placement>) {
    exists i :: 0 <= i < |ps| && ps[i].modAction == 0 && UserColour(cfg, ps[i].user).None?
  }

  lemma BadRowAppend(cfg: Config, ps: seq<Placement>, p: Placement)
    ensures BadRow(cfg, ps + [p]) <==> BadRow(cfg, ps) || (p.modAction == 0 && UserColour(cfg, p.user).None?)
  {
    var qs := ps + [p];
    if BadRow(cfg, ps) {
      var i :| 0 <= i < |ps| && ps[i].modAction == 0 && UserColour(cfg, ps[i].user).None?;
      assert qs[i] == ps[i];
    }
    if p.modAction == 0 && UserColour(cfg, p.user).None? {
      assert qs[|ps|] == p;
    }
    if BadRow(cfg, qs) {
      var i :| 0 <= i < |qs| && qs[i].modAction == 0 && UserColour(cfg, qs[i].user).None?;
      if i < |ps| {
        assert qs[i] == ps[i];
      }
    }
  }

  /** After a successful prefix, the next row panics exactly when it paints
      with a colour that does not decode. */
  lemma StepPanics(cfg: Config, ps: seq<Placement>, p: Placement)
    requires ValidConfig(cfg) && AllInCanvas(cfg.tiers, ps) && Run(cfg, ps).Some?
    requires InCanvas(cfg.tiers, p.x, p.y)
    ensures Step(cfg, Run(cfg, ps).value, p).None? <==> p.modAction == 0 && UserColour(cfg, p.user).None?
  {
    var s := Run(cfg, ps).value;
    CacheGrowsOnly(cfg, ps);
    if p.modAction == 0 && p.user in s.colors && p.user !in cfg.cache {
      FormatRoundTrip(cfg.derive(p.user).r, cfg.derive(p.user).g, cfg.derive(p.user).b);
    }
  }

  /** The colour a placement writes, when its user's colour decodes. */
  function Written(cfg: Config, p: Placement): Option<Rgba> {
    if p.modAction == 0 then UserColour(cfg, p.user) else Some(WHITE_OPAQUE)
  }

  /** Each cell of a successful run shows what the last placement there
      wrote — its user's one colour, or white for a moderation row — or
      stays white. */
  lemma {:induction false} LastWriterWins(cfg: Config, ps: seq<Placement>, x: nat, y: nat)
    requires ValidConfig(cfg) && AllInCanvas(cfg.tiers, ps) && Run(cfg, ps).Some?
    requires x < FinalTier(cfg.tiers).w && y < FinalTier(cfg.tiers).h
    ensures var j := LastWhere(ps, AtCell(x, y));
            var g := Run(cfg, ps).value.image;
            && (j < 0 ==> g[x][y] == WHITE_OPAQUE)
            && (j >= 0 ==> Written(cfg, ps[j]) == Some(g[x][y]))
    decreases |ps|
  {
    if |ps| > 0 {
      var n := |ps| - 1;
      var p := ps[n];
      RunLast(cfg, ps);
      LastWriterWins(cfg, ps[..n], x, y);
      assert ps == ps[..n] + [p];
      LastWhereAppend(ps[..n], p, AtCell(x, y));
      if At(p, x, y) && p.modAction == 0 {
        var s := Run(cfg, ps[..n]).value;
        CacheGrowsOnly(cfg, ps[..n]);
        if p.user in s.colors && p.user !in cfg.cache {
          FormatRoundTrip(cfg.derive(p.user).r, cfg.derive(p.user).g, cfg.derive(p.user).b);
        }
      }
    }
  }
}
