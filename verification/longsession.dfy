/** src/modules/longsession.rs: splits every user's placements into
    sessions with no pause longer than `seconds`, keeps the sessions of more
    than `MIN_PIXELS` pixels, and lists them by pixel count, largest first.
    Moderation rows (`mod_action == 1`) are skipped. */
module Longsession {
  import opened Image
  import opened Reports

  const MIN_PIXELS: int := 50

  /** A row of the query: the Discord id, the creation time in seconds and
      `mod_action`. */
  datatype Placement = Placement(user: nat, ts: int, modAction: int)

  /** An entry of `active_sessions`: start, last placement time, pixels. */
  datatype Open = Open(start: int, last: int, pixels: int)

  /** An entry of `sessions`: user, start, pixels. */
  datatype Session = Session(user: nat, start: int, pixels: int)

  datatype State = State(active: map<nat, Open>, sessions: seq<Session>)

  /** One counted placement at time `t` against the user's current session
      (`or_insert_with` supplies `(t, t, 0)` for a user without one): a
      pause longer than `seconds` closes the session and opens `(t, t, 1)`;
      otherwise the session extends to `t` with one more pixel. Returns the
      closed session, if any, and the session now open. */
  function Advance(seconds: int, cur: Option<Open>, t: int): (r: (Option<Open>, Open))
    ensures r.1.last == t
  {
    var c := if cur.Some? then cur.value else Open(t, t, 0);
    if t - c.last > seconds then (Some(c), Open(t, t, 1))
    else (None, Open(c.start, t, c.pixels + 1))
  }

  /** The record pushed for a closed or remaining session: only one of more
      than `MIN_PIXELS` pixels. */
  function Keep(u: nat, c: Option<Open>): (r: seq<Session>)
    ensures |r| <= 1
    ensures forall i :: 0 <= i < |r| ==> r[i].user == u && r[i].pixels > MIN_PIXELS
  {
    if c.Some? && c.value.pixels > MIN_PIXELS then [Session(u, c.value.start, c.value.pixels)] else []
  }

  /** One iteration of the placement loop. */
  function Step(seconds: int, s: State, p: Placement): State {
    if p.modAction == 1 then s
    else
      var cur := if p.user in s.active then Some(s.active[p.user]) else None;
      var r := Advance(seconds, cur, p.ts);
      State(s.active[p.user := r.1], s.sessions + Keep(p.user, r.0))
  }

  /** The placement loop over a prefix of the rows. */
  function Run(seconds: int, ps: seq<Placement>): State
    decreases |ps|
  {
    if |ps| == 0 then State(map[], [])
    else Step(seconds, Run(seconds, ps[..|ps| - 1]), ps[|ps| - 1])
  }

  /** The times of `u`'s counted placements, in order. */
  function Times(ps: seq<Placement>, u: nat): (ts: seq<int>)
    ensures |ts| <= |ps|
    decreases |ps|
  {
    if |ps| == 0 then []
    else
      var p := ps[|ps| - 1];
      Times(ps[..|ps| - 1], u) + (if p.user == u && p.modAction != 1 then [p.ts] else [])
  }

  /** One user's sessions on their own: every session closed so far, and
      the one still open. */
  datatype UserState = UserState(closed: seq<Open>, open: Option<Open>)

  /** The session machine run on one user's times alone. */
  function UserRun(seconds: int, ts: seq<int>): (r: UserState)
    decreases |ts|
  {
    if |ts| == 0 then UserState([], None)
    else
      var prev := UserRun(seconds, ts[..|ts| - 1]);
      var a := Advance(seconds, prev.open, ts[|ts| - 1]);
      UserState(prev.closed + (if a.0.Some? then [a.0.value] else []), Some(a.1))
  }

  /** The records kept from a list of closed sessions. */
  function KeepAll(u: nat, cs: seq<Open>): seq<Session>
    decreases |cs|
  {
    if |cs| == 0 then [] else KeepAll(u, cs[..|cs| - 1]) + Keep(u, Some(cs[|cs| - 1]))
  }

  /** The records of user `u`, in order. */
  function OfUser(ss: seq<Session>, u: nat): seq<Session>
    decreases |ss|
  {
    if |ss| == 0 then []
    else OfUser(ss[..|ss| - 1], u) + (if ss[|ss| - 1].user == u then [ss[|ss| - 1]] else [])
  }

  lemma {:induction false} OfUserAppend(ss: seq<Session>, tt: seq<Session>, u: nat)
    ensures OfUser(ss + tt, u) == OfUser(ss, u) + OfUser(tt, u)
    decreases |tt|
  {
    if |tt| == 0 {
      assert ss + tt == ss;
    } else {
      var n := |tt| - 1;
      assert (ss + tt)[..|ss + tt| - 1] == ss + tt[..n];
      OfUserAppend(ss, tt[..n], u);
    }
  }

  lemma OfUserKeep(v: nat, c: Option<Open>, u: nat)
    ensures OfUser(Keep(v, c), u) == if v == u then Keep(v, c) else []
  {
    var k := Keep(v, c);
    if |k| == 1 {
      assert k[..0] == [];
    }
  }

  lemma KeepAllLast(u: nat, cs: seq<Open>, c: Open)
    ensures KeepAll(u, cs + [c]) == KeepAll(u, cs) + Keep(u, Some(c))
  {
    assert (cs + [c])[..|cs|] == cs;
  }

  /** A row that is not a counted placement of `u` leaves `u`'s records
      and session alone. */
  lemma StepOtherUser(seconds: int, s: State, p: Placement, u: nat)
    requires p.modAction == 1 || p.user != u
    ensures var s' := Step(seconds, s, p);
            && OfUser(s'.sessions, u) == OfUser(s.sessions, u)
            && (u in s'.active <==> u in s.active)
            && (u in s.active ==> s'.active[u] == s.active[u])
  {
    if p.modAction != 1 {
      var cur := if p.user in s.active then Some(s.active[p.user]) else None;
      var a := Advance(seconds, cur, p.ts);
      OfUserAppend(s.sessions, Keep(p.user, a.0), u);
      OfUserKeep(p.user, a.0, u);
    }
  }

  /** A counted placement of `u` advances `u`'s session and records what it
      closes. */
  lemma StepSameUser(seconds: int, s: State, p: Placement, u: nat)
    requires p.modAction != 1 && p.user == u
    ensures var a := Advance(seconds, if u in s.active then Some(s.active[u]) else None, p.ts);
            var s' := Step(seconds, s, p);
            && OfUser(s'.sessions, u) == OfUser(s.sessions, u) + Keep(u, a.0)
            && u in s'.active && s'.active[u] == a.1
  {
    var a := Advance(seconds, if u in s.active then Some(s.active[u]) else None, p.ts);
    OfUserAppend(s.sessions, Keep(u, a.0), u);
    OfUserKeep(u, a.0, u);
  }

  lemma UserRunLast(seconds: int, ts: seq<int>, t: int)
    ensures var prev := UserRun(seconds, ts);
            var a := Advance(seconds, prev.open, t);
            var r := UserRun(seconds, ts + [t]);
            && r.open == Some(a.1)
            && r.closed == prev.closed + (if a.0.Some? then [a.0.value] else [])
  {
    assert (ts + [t])[..|ts|] == ts;
  }

  lemma KeepAllAdvance(u: nat, cs: seq<Open>, c: Option<Open>)
    ensures KeepAll(u, cs + (if c.Some? then [c.value] else [])) == KeepAll(u, cs) + Keep(u, c)
  {
    if c.Some? {
      KeepAllLast(u, cs, c.value);
    } else {
      assert cs + [] == cs;
    }
  }

  /** Users do not interfere: the records and the open session of user `u`
      after the interleaved loop are those of `u`'s own times run alone. */
  lemma {:induction false} SessionsAreIndependent(seconds: int, ps: seq<Placement>, u: nat)
    ensures var s := Run(seconds, ps);
            var r := UserRun(seconds, Times(ps, u));
            && OfUser(s.sessions, u) == KeepAll(u, r.closed)
            && (u in s.active <==> r.open.Some?)
            && (u in s.active ==> s.active[u] == r.open.value)
    decreases |ps|
  {
    if |ps| > 0 {
      var n := |ps| - 1;
      var p := ps[n];
      var s0 := Run(seconds, ps[..n]);
      assert Run(seconds, ps) == Step(seconds, s0, p);
      SessionsAreIndependent(seconds, ps[..n], u);
      var ts := Times(ps[..n], u);
      if p.modAction == 1 || p.user != u {
        StepOtherUser(seconds, s0, p, u);
        assert Times(ps, u) == ts + [];
        assert ts + [] == ts;
      } else {
        StepSameUser(seconds, s0, p, u);
        assert Times(ps, u) == ts + [p.ts];
        UserRunLast(seconds, ts, p.ts);
        var prev := UserRun(seconds, ts);
        KeepAllAdvance(u, prev.closed, Advance(seconds, prev.open, p.ts).0);
      }
    }
  }

  /** The total pixel count of a list of sessions. */
  function PixelTotal(cs: seq<Open>): int
    decreases |cs|
  {
    if |cs| == 0 then 0 else PixelTotal(cs[..|cs| - 1]) + cs[|cs| - 1].pixels
  }

  lemma PixelTotalLast(cs: seq<Open>, c: Open)
    ensures PixelTotal(cs + [c]) == PixelTotal(cs) + c.pixels
  {
    assert (cs + [c])[..|cs|] == cs;
  }

  /** Every counted placement lands in exactly one session: the closed
      sessions and the open one hold as many pixels as the user placed. */
  lemma {:induction false} PixelsConserved(seconds: int, ts: seq<int>)
    ensures var r := UserRun(seconds, ts);
            && (r.open.Some? <==> |ts| > 0)
            && PixelTotal(r.closed) + (if r.open.Some? then r.open.value.pixels else 0) == |ts|
    decreases |ts|
  {
    if |ts| > 0 {
      var prev := UserRun(seconds, ts[..|ts| - 1]);
      PixelsConserved(seconds, ts[..|ts| - 1]);
      var a := Advance(seconds, prev.open, ts[|ts| - 1]);
      if a.0.Some? {
        PixelTotalLast(prev.closed, a.0.value);
      } else {
        assert prev.closed + [] == prev.closed;
      }
    }
  }

  /** The index where the last session starts: the last pause longer than
      `seconds`, or the first time. */
  function LastBreak(seconds: int, ts: seq<int>): (j: nat)
    requires |ts| > 0
    ensures j < |ts|
    ensures j > 0 ==> ts[j] - ts[j - 1] > seconds
    ensures forall i :: j < i < |ts| ==> ts[i] - ts[i - 1] <= seconds
    decreases |ts|
  {
    var n := |ts| - 1;
    if n == 0 then 0
    else if ts[n] - ts[n - 1] > seconds then n
    else LastBreak(seconds, ts[..n])
  }

  /** The open session is the longest tail of the user's times with no
      pause longer than `seconds`: it starts at the last break, ends at the
      last time, and counts the times in between. */
  lemma {:induction false} OpenSessionIsLastRun(seconds: int, ts: seq<int>)
    requires |ts| > 0
    ensures var j := LastBreak(seconds, ts);
            UserRun(seconds, ts).open == Some(Open(ts[j], ts[|ts| - 1], |ts| - j))
    decreases |ts|
  {
    var n := |ts| - 1;
    if n > 0 {
      OpenSessionIsLastRun(seconds, ts[..n]);
    }
  }

  /** With non-decreasing times the open session never ends before it
      starts. */
  lemma OpenSessionOrdered(seconds: int, ts: seq<int>)
    requires |ts| > 0
    requires forall i, j :: 0 <= i <= j < |ts| ==> ts[i] <= ts[j]
    ensures UserRun(seconds, ts).open.Some?
    ensures UserRun(seconds, ts).open.value.start <= UserRun(seconds, ts).open.value.last
  {
    OpenSessionIsLastRun(seconds, ts);
  }

  /** The records after a prefix of the loop all exceed `MIN_PIXELS`. */
  lemma {:induction false} RecordsAreLong(seconds: int, ps: seq<Placement>)
    ensures forall i :: 0 <= i < |Run(seconds, ps).sessions| ==> Run(seconds, ps).sessions[i].pixels > MIN_PIXELS
    decreases |ps|
  {
    if |ps| > 0 {
      RecordsAreLong(seconds, ps[..|ps| - 1]);
    }
  }

  /** `order` lists every key of `active` once: the iteration order of the
      `HashMap`, which the program does not fix. */
  ghost predicate Enumerates(order: seq<nat>, active: map<nat, Open>) {
    && (forall i, j :: 0 <= i < j < |order| ==> order[i] != order[j])
    && (forall u :: u in active <==> u in order)
  }

  /** The loop over the remaining sessions, in the order given. */
  function Flush(active: map<nat, Open>, order: seq<nat>): seq<Session>
    requires forall i :: 0 <= i < |order| ==> order[i] in active
    decreases |order|
  {
    if |order| == 0 then []
    else
      var u := order[|order| - 1];
      Flush(active, order[..|order| - 1]) + Keep(u, Some(active[u]))
  }

  lemma {:induction false} FlushOfUser(active: map<nat, Open>, order: seq<nat>, u: nat)
    requires forall i :: 0 <= i < |order| ==> order[i] in active
    requires forall i, j :: 0 <= i < j < |order| ==> order[i] != order[j]
    ensures OfUser(Flush(active, order), u) == if u in order then Keep(u, Some(active[u])) else []
    decreases |order|
  {
    if |order| > 0 {
      var n := |order| - 1;
      var v := order[n];
      var front := order[..n];
      DistinctLast(order);
      FlushOfUser(active, front, u);
      OfUserAppend(Flush(active, front), Keep(v, Some(active[v])), u);
      OfUserKeep(v, Some(active[v]), u);
      assert order == front + [v];
    }
  }

  /** Without repeats, the last element is not in the front, which has no
      repeats either. */
  lemma DistinctLast(order: seq<nat>)
    requires |order| > 0
    requires forall i, j :: 0 <= i < j < |order| ==> order[i] != order[j]
    ensures var front := order[..|order| - 1];
            && order[|order| - 1] !in front
            && (forall i, j :: 0 <= i < j < |front| ==> front[i] != front[j])
  {
  }

  lemma {:induction false} FlushIsLong(active: map<nat, Open>, order: seq<nat>)
    requires forall i :: 0 <= i < |order| ==> order[i] in active
    ensures forall i :: 0 <= i < |Flush(active, order)| ==> Flush(active, order)[i].pixels > MIN_PIXELS
    decreases |order|
  {
    if |order| > 0 {
      FlushIsLong(active, order[..|order| - 1]);
    }
  }

  function PixelsKey(s: Session): int {
    s.pixels
  }

  /** The report: recorded and remaining sessions, stably sorted by pixel
      count, largest first. */
  function Longsession(seconds: int, ps: seq<Placement>, order: seq<nat>): seq<Session>
    requires forall i :: 0 <= i < |order| ==> order[i] in Run(seconds, ps).active
  {
    var s := Run(seconds, ps);
    SortDesc(s.sessions + Flush(s.active, order), PixelsKey)
  }

  /** A record of user `u` occurs as often in a list as in its records of `u`. */
  lemma {:induction false} OfUserCount(ss: seq<Session>, u: nat, e: Session)
    requires e.user == u
    ensures multiset(ss)[e] == multiset(OfUser(ss, u))[e]
    decreases |ss|
  {
    if |ss| > 0 {
      var n := |ss| - 1;
      OfUserCount(ss[..n], u, e);
      assert ss == ss[..n] + [ss[n]];
    }
  }

  /** The report is sorted by pixels and lists only sessions of more than
      `MIN_PIXELS` pixels. */
  lemma LongsessionSorted(seconds: int, ps: seq<Placement>, order: seq<nat>)
    requires forall i :: 0 <= i < |order| ==> order[i] in Run(seconds, ps).active
    ensures var out := Longsession(seconds, ps, order);
            && SortedDesc(out, PixelsKey)
            && (forall i :: 0 <= i < |out| ==> out[i].pixels > MIN_PIXELS)
  {
    var s := Run(seconds, ps);
    var all := s.sessions + Flush(s.active, order);
    var out := Longsession(seconds, ps, order);
    SortDescCorrect(all, PixelsKey);
    RecordsAreLong(seconds, ps);
    FlushIsLong(s.active, order);
    forall i | 0 <= i < |out|
      ensures out[i].pixels > MIN_PIXELS
    {
      assert out[i] in multiset(all);
      assert out[i] in all;
    }
  }

  /** The report holds for each user exactly the long sessions of that
      user's own run: the closed ones and the one left open. */
  lemma LongsessionPerUser(seconds: int, ps: seq<Placement>, order: seq<nat>, u: nat, e: Session)
    requires Enumerates(order, Run(seconds, ps).active) && e.user == u
    ensures var r := UserRun(seconds, Times(ps, u));
            multiset(Longsession(seconds, ps, order))[e] == multiset(KeepAll(u, r.closed) + Keep(u, r.open))[e]
  {
    var s := Run(seconds, ps);
    var fl := Flush(s.active, order);
    var all := s.sessions + fl;
    SortDescCorrect(all, PixelsKey);
    var r := UserRun(seconds, Times(ps, u));
    SessionsAreIndependent(seconds, ps, u);
    FlushOfUser(s.active, order, u);
    OfUserCount(all, u, e);
    OfUserAppend(s.sessions, fl, u);
    assert OfUser(all, u) == KeepAll(u, r.closed) + Keep(u, r.open);
  }
}
