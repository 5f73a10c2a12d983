/** src/modules/currentpixels.rs: who owns each cell of the current canvas
    (the last placement there, or nobody after a moderation removal), how
    many cells each user owns, and the leaderboard sorted by that count.
    The `HashMap` of counts is a list of entries with distinct users; its
    iteration order is unspecified in the program, so nothing here depends
    on the order of its entries. */
module Currentpixels {
  import opened Image
  import opened Render
  import opened Canvas
  import opened Reports

  /** A row of the query: raw `x`, `y`, the Discord id and `mod_action`. */
  datatype Placement = Placement(x: int, y: int, user: nat, modAction: int)

  /** One `(user_id, count)` pair of `user_counts`. */
  datatype Entry = Entry(user: nat, count: nat)

  predicate At(p: Placement, x: nat, y: nat) {
    AsU32(p.x) == x && AsU32(p.y) == y
  }

  function AtCell(x: nat, y: nat): Placement -> bool {
    p => At(p, x, y)
  }

  predicate AllInCanvas(tiers: seq<Tier>, ps: seq<Placement>)
    requires |tiers| >= 1
  {
    forall i :: 0 <= i < |ps| ==> InCanvas(tiers, ps[i].x, ps[i].y)
  }

  /** The value a placement writes: 0 for a removal (`mod_action == 1`),
      the user otherwise. */
  function Owner(p: Placement): nat {
    if p.modAction == 1 then 0 else p.user
  }

  /** The `user_grid` fold over a prefix of the placements. */
  function UserGrid(tiers: seq<Tier>, ps: seq<Placement>): (g: Grid<nat>)
    requires |tiers| >= 1 && AllInCanvas(tiers, ps)
    ensures IsGrid(g, FinalTier(tiers).w, FinalTier(tiers).h)
    decreases |ps|
  {
    if |ps| == 0 then Fill(FinalTier(tiers).w, FinalTier(tiers).h, 0)
    else
      var n := |ps| - 1;
      assert AllInCanvas(tiers, ps[..n]);
      Put(UserGrid(tiers, ps[..n]), AsU32(ps[n].x), AsU32(ps[n].y), Owner(ps[n]))
  }

  /** Each cell holds the owner written by the last placement there, or 0
      when no placement hit it. */
  lemma {:induction false} LastWriterWins(tiers: seq<Tier>, ps: seq<Placement>, x: nat, y: nat)
    requires |tiers| >= 1 && AllInCanvas(tiers, ps)
    requires x < FinalTier(tiers).w && y < FinalTier(tiers).h
    ensures var j := LastWhere(ps, AtCell(x, y));
            UserGrid(tiers, ps)[x][y] == if j < 0 then 0 else Owner(ps[j])
    decreases |ps|
  {
    if |ps| > 0 {
      var n := |ps| - 1;
      assert AllInCanvas(tiers, ps[..n]);
      LastWriterWins(tiers, ps[..n], x, y);
      assert ps == ps[..n] + [ps[n]];
      LastWhereAppend(ps[..n], ps[n], AtCell(x, y));
    }
  }

  /** `*user_counts.entry(u).or_insert(0) += 1`. */
  function Bump(es: seq<Entry>, u: nat): (r: seq<Entry>)
    ensures |r| >= 1
    decreases |es|
  {
    if |es| == 0 then [Entry(u, 1)]
    else if es[0].user == u then [Entry(u, es[0].count + 1)] + es[1..]
    else [es[0]] + Bump(es[1..], u)
  }

  /** `user_counts[u]`, with 0 for an absent user. */
  function Lookup(es: seq<Entry>, u: nat): nat
    decreases |es|
  {
    if |es| == 0 then 0
    else if es[0].user == u then es[0].count
    else Lookup(es[1..], u)
  }

  function Users(es: seq<Entry>): set<nat> {
    set e | e in es :: e.user
  }

  predicate DistinctUsers(es: seq<Entry>) {
    forall i, j :: 0 <= i < j < |es| ==> es[i].user != es[j].user
  }

  /** Entries that only `Bump` with a nonzero user can create. */
  predicate Counted(es: seq<Entry>) {
    forall i :: 0 <= i < |es| ==> es[i].user != 0 && es[i].count > 0
  }

  function Counts(es: seq<Entry>): (r: seq<int>)
    ensures |r| == |es| && forall i :: 0 <= i < |es| ==> r[i] == es[i].count
  {
    seq(|es|, i requires 0 <= i < |es| => es[i].count)
  }

  lemma SumCons(a: int, s: seq<int>)
    ensures Sum([a] + s) == a + Sum(s)
  {
    SumAppend([a], s);
    assert [a][..0] == [];
  }

  lemma BumpHead(es: seq<Entry>, u: nat)
    requires |es| > 0
    ensures Bump(es, u) == if es[0].user == u then [Entry(u, es[0].count + 1)] + es[1..]
                           else [es[0]] + Bump(es[1..], u)
    ensures Lookup(es, u) == if es[0].user == u then es[0].count else Lookup(es[1..], u)
  {
  }

  lemma CountsHead(es: seq<Entry>)
    requires |es| > 0
    ensures Counts(es) == [es[0].count] + Counts(es[1..])
  {
  }

  /** A bump adds one to `u`'s count and leaves every other count. */
  lemma {:induction false} BumpLookup(es: seq<Entry>, u: nat, v: nat)
    requires DistinctUsers(es)
    ensures Lookup(Bump(es, u), v) == Lookup(es, v) + (if v == u then 1 else 0)
    decreases |es|
  {
    if |es| > 0 {
      BumpHead(es, u);
      if es[0].user == u {
        if v == u {
          HeadNotInRest(es);
          LookupAbsent(es[1..], u);
        }
      } else {
        BumpLookup(es[1..], u, v);
      }
    }
  }

  /** A bump adds `u` to the users. */
  lemma {:induction false} BumpUsers(es: seq<Entry>, u: nat)
    ensures Users(Bump(es, u)) == Users(es) + {u}
    decreases |es|
  {
    if |es| == 0 {
      assert Bump(es, u)[0] == Entry(u, 1);
    } else {
      BumpHead(es, u);
      BumpHeadUsers(es);
      if es[0].user == u {
        var r := Bump(es, u);
        assert r[0] == Entry(u, es[0].count + 1) && r[1..] == es[1..];
        BumpHeadUsers(r);
      } else {
        BumpUsers(es[1..], u);
        var r := Bump(es, u);
        assert r[0] == es[0] && r[1..] == Bump(es[1..], u);
        BumpHeadUsers(r);
      }
    }
  }

  lemma BumpHeadUsers(r: seq<Entry>)
    requires |r| > 0
    ensures Users(r) == {r[0].user} + Users(r[1..])
  {
    assert r == [r[0]] + r[1..];
  }

  /** With distinct users, the head's user does not occur in the tail. */
  lemma HeadNotInRest(es: seq<Entry>)
    requires |es| > 0 && DistinctUsers(es)
    ensures es[0].user !in Users(es[1..])
  {
    forall k | 0 <= k < |es| - 1
      ensures es[1..][k].user != es[0].user
    {
      assert es[1..][k] == es[k + 1];
    }
  }

  lemma DistinctCons(e: Entry, s: seq<Entry>)
    requires DistinctUsers(s) && e.user !in Users(s)
    ensures DistinctUsers([e] + s)
  {
    var r := [e] + s;
    forall i, j | 0 <= i < j < |r|
      ensures r[i].user != r[j].user
    {
      assert r[j] == s[j - 1];
      if i > 0 {
        assert r[i] == s[i - 1];
      } else {
        assert r[j] in s;
      }
    }
  }

  /** A bump keeps the users distinct. */
  lemma {:induction false} BumpDistinct(es: seq<Entry>, u: nat)
    requires DistinctUsers(es)
    ensures DistinctUsers(Bump(es, u))
    decreases |es|
  {
    if |es| == 0 {
      DistinctCons(Entry(u, 1), []);
      assert [Entry(u, 1)] + [] == Bump(es, u);
    } else {
      BumpHead(es, u);
      var rest := es[1..];
      HeadNotInRest(es);
      assert DistinctUsers(rest) by {
        forall i, j | 0 <= i < j < |rest| ensures rest[i].user != rest[j].user {
          assert rest[i] == es[i + 1] && rest[j] == es[j + 1];
        }
      }
      if es[0].user == u {
        DistinctCons(Entry(u, es[0].count + 1), rest);
      } else {
        BumpDistinct(rest, u);
        BumpUsers(rest, u);
        DistinctCons(es[0], Bump(rest, u));
      }
    }
  }

  /** Bumping a nonzero user keeps every entry a nonzero user with a
      positive count. */
  lemma {:induction false} BumpCounted(es: seq<Entry>, u: nat)
    requires Counted(es) && u != 0
    ensures Counted(Bump(es, u))
    decreases |es|
  {
    if |es| > 0 {
      BumpHead(es, u);
      if es[0].user != u {
        BumpCounted(es[1..], u);
      }
    }
  }

  /** A bump adds one to the total. */
  lemma {:induction false} BumpSum(es: seq<Entry>, u: nat)
    ensures Sum(Counts(Bump(es, u))) == Sum(Counts(es)) + 1
    decreases |es|
  {
    if |es| == 0 {
      assert Counts(Bump(es, u)) == [1];
      assert Sum([1]) == Sum([1][..0]) + 1;
    } else {
      BumpHead(es, u);
      CountsHead(es);
      SumCons(es[0].count, Counts(es[1..]));
      var r := Bump(es, u);
      if es[0].user == u {
        assert Counts(r) == [es[0].count + 1] + Counts(es[1..]);
        SumCons(es[0].count + 1, Counts(es[1..]));
      } else {
        BumpSum(es[1..], u);
        assert Counts(r) == [es[0].count] + Counts(Bump(es[1..], u));
        SumCons(es[0].count, Counts(Bump(es[1..], u)));
      }
    }
  }

  /** With distinct users, an entry for `u` at the head means no other. */
  lemma {:induction false} LookupAbsent(es: seq<Entry>, u: nat)
    requires u !in Users(es)
    ensures Lookup(es, u) == 0
    decreases |es|
  {
    if |es| > 0 {
      assert es[0] in es;
      assert forall e :: e in es[1..] ==> e in es;
      LookupAbsent(es[1..], u);
    }
  }

  /** With positive counts, a user has a nonzero count exactly when it is
      a key. */
  lemma {:induction false} LookupPresent(es: seq<Entry>, u: nat)
    requires Counted(es)
    ensures Lookup(es, u) > 0 <==> u in Users(es)
    decreases |es|
  {
    if u !in Users(es) {
      LookupAbsent(es, u);
    } else if |es| > 0 && es[0].user != u {
      assert forall e :: e in es[1..] ==> e in es;
      var k :| 0 <= k < |es| && es[k].user == u;
      assert es[1..][k - 1] == es[k];
      LookupPresent(es[1..], u);
    }
  }

  /** The counting loop over the cells in order, skipping zeros. */
  function Tally(s: seq<nat>): seq<Entry>
    decreases |s|
  {
    if |s| == 0 then []
    else
      var t := Tally(s[..|s| - 1]);
      if s[|s| - 1] != 0 then Bump(t, s[|s| - 1]) else t
  }

  lemma TallyLast(s: seq<nat>)
    requires |s| > 0
    ensures Tally(s) == if s[|s| - 1] != 0 then Bump(Tally(s[..|s| - 1]), s[|s| - 1]) else Tally(s[..|s| - 1])
  {
  }

  /** The tally's entries have distinct nonzero users and positive counts. */
  lemma {:induction false} TallyWellFormed(s: seq<nat>)
    ensures DistinctUsers(Tally(s)) && Counted(Tally(s))
    decreases |s|
  {
    if |s| > 0 {
      var n := |s| - 1;
      TallyWellFormed(s[..n]);
      if s[n] != 0 {
        BumpDistinct(Tally(s[..n]), s[n]);
        BumpCounted(Tally(s[..n]), s[n]);
      }
    }
  }

  /** Each count is the number of cells holding that user; 0 has none. */
  lemma {:induction false} TallyLookup(s: seq<nat>, u: nat)
    ensures Lookup(Tally(s), u) == if u == 0 then 0 else Occurrences(s, u)
    decreases |s|
  {
    if |s| > 0 {
      var n := |s| - 1;
      TallyLookup(s[..n], u);
      TallyWellFormed(s[..n]);
      if s[n] != 0 {
        BumpLookup(Tally(s[..n]), s[n], u);
      }
    }
  }

  /** The counts add up to the number of nonzero cells. */
  lemma {:induction false} TallySum(s: seq<nat>)
    ensures Sum(Counts(Tally(s))) == |s| - Occurrences(s, 0)
    decreases |s|
  {
    if |s| > 0 {
      var n := |s| - 1;
      TallySum(s[..n]);
      if s[n] != 0 {
        BumpSum(Tally(s[..n]), s[n]);
      }
    }
  }

  /** `user_counts` has one entry per user owning a cell, with 0 never a
      key; each count is the number of cells holding that user; and the
      counts add up to the number of owned cells. */
  lemma TallySpec(s: seq<nat>)
    ensures DistinctUsers(Tally(s)) && Counted(Tally(s))
    ensures forall u :: Lookup(Tally(s), u) == if u == 0 then 0 else Occurrences(s, u)
    ensures forall u :: u in Users(Tally(s)) <==> u != 0 && Occurrences(s, u) > 0
    ensures Sum(Counts(Tally(s))) == |s| - Occurrences(s, 0)
  {
    TallyWellFormed(s);
    TallySum(s);
    forall u
      ensures Lookup(Tally(s), u) == if u == 0 then 0 else Occurrences(s, u)
      ensures u in Users(Tally(s)) <==> u != 0 && Occurrences(s, u) > 0
    {
      TallyLookup(s, u);
      LookupPresent(Tally(s), u);
    }
  }

  /** The counting loops as written: every row of the grid, every cell of
      the row, a bump for each nonzero owner. */
  method UserCounts(grid: Grid<nat>) returns (es: seq<Entry>)
    ensures es == Tally(Flatten(grid))
  {
    es := [];
    var x := 0;
    while x < |grid|
      invariant 0 <= x <= |grid|
      invariant es == Tally(Flatten(grid[..x]))
    {
      var y := 0;
      assert Flatten(grid[..x]) + grid[x][..0] == Flatten(grid[..x]);
      while y < |grid[x]|
        invariant 0 <= y <= |grid[x]|
        invariant es == Tally(Flatten(grid[..x]) + grid[x][..y])
      {
        var prefix := Flatten(grid[..x]) + grid[x][..y];
        assert Flatten(grid[..x]) + grid[x][..y + 1] == prefix + [grid[x][y]];
        assert (prefix + [grid[x][y]])[..|prefix|] == prefix;
        if grid[x][y] != 0 {
          es := Bump(es, grid[x][y]);
        }
        y := y + 1;
      }
      assert grid[x][..|grid[x]|] == grid[x];
      FlattenPrefix(grid, x);
      x := x + 1;
    }
    assert grid[..|grid|] == grid;
  }

  function CountKey(e: Entry): int {
    e.count
  }

  /** `user_count_lb`: the entries sorted by non-increasing count. */
  function Leaderboard(es: seq<Entry>): seq<Entry> {
    SortDesc(es, CountKey)
  }

  /** The leaderboard of the final grid: a reordering of `user_counts`,
      sorted by non-increasing count, whose counts still add up to the
      number of owned cells, at most `final_w * final_h`. */
  lemma LeaderboardSpec(tiers: seq<Tier>, ps: seq<Placement>)
    requires |tiers| >= 1 && AllInCanvas(tiers, ps)
    ensures var cells := Flatten(UserGrid(tiers, ps));
            var lb := Leaderboard(Tally(cells));
            && SortedDesc(lb, CountKey)
            && multiset(lb) == multiset(Tally(cells))
            && Sum(Counts(lb)) == |cells| - Occurrences(cells, 0)
            && Sum(Counts(lb)) <= FinalTier(tiers).w * FinalTier(tiers).h
  {
    var cells := Flatten(UserGrid(tiers, ps));
    var t := Tally(cells);
    TallySpec(cells);
    SortDescCorrect(t, CountKey);
    SortSum(t);
    FlattenLength(UserGrid(tiers, ps), FinalTier(tiers).w, FinalTier(tiers).h);
  }

  /** Inserting an entry adds its count to the total. */
  lemma {:induction false} InsertSum(e: Entry, s: seq<Entry>)
    ensures Sum(Counts(InsertDesc(e, s, CountKey))) == e.count + Sum(Counts(s))
    decreases |s|
  {
    var r := InsertDesc(e, s, CountKey);
    if |s| == 0 {
      assert r == [e] + s;
      SumCountsCons(e, s);
    } else if CountKey(s[0]) >= CountKey(e) {
      var rest := InsertDesc(e, s[1..], CountKey);
      InsertDescHead(e, s, CountKey);
      InsertSum(e, s[1..]);
      SumCountsCons(s[0], rest);
      SumCountsCons(s[0], s[1..]);
      assert s == [s[0]] + s[1..];
    } else {
      InsertDescHead(e, s, CountKey);
      SumCountsCons(e, s);
    }
  }

  lemma SumCountsCons(a: Entry, s: seq<Entry>)
    ensures Sum(Counts([a] + s)) == a.count + Sum(Counts(s))
  {
    CountsHead([a] + s);
    assert ([a] + s)[1..] == s;
    SumCons(a.count, Counts(s));
  }

  /** Sorting keeps the total count. */
  lemma {:induction false} SortSum(s: seq<Entry>)
    ensures Sum(Counts(SortDesc(s, CountKey))) == Sum(Counts(s))
    decreases |s|
  {
    if |s| > 0 {
      var n := |s| - 1;
      SortSum(s[..n]);
      assert SortDesc(s, CountKey) == InsertDesc(s[n], SortDesc(s[..n], CountKey), CountKey);
      InsertSum(s[n], SortDesc(s[..n], CountKey));
      var cs := Counts(s);
      assert cs[..n] == Counts(s[..n]);
      assert Sum(cs) == Sum(cs[..n]) + s[n].count;
    }
  }
}
