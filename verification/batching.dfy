/** The frame-batching clock that the three replay loops (timelapse.rs,
    virginmap.rs, agemap.rs) each carry: `frame_start_time` and
    `remaining_pixels`, both starting at 0. Whether a placement triggers a
    frame depends only on the timestamps seen so far, so the schedule is
    defined here once, over the sequence of timestamps, and each replay
    proves that its frames follow it. */
module Batching {

  /** `frame_start_time` and `remaining_pixels`. */
  datatype Clock = Clock(frameStart: int, remaining: int)

  /** `pixels_per_frame` and `min_seconds_per_frame`. */
  datatype Pacing = Pacing(pixelsPerFrame: int, minSeconds: int)

  const START := Clock(0, 0)

  /** The dual threshold, checked before the placement is applied. */
  predicate Fires(c: Clock, ts: int, p: Pacing) {
    c.remaining <= 0 && ts - c.frameStart >= p.minSeconds
  }

  /** One placement's effect on the clock: a reset when the frame fires,
      then the unconditional decrement. */
  function Tick(c: Clock, ts: int, p: Pacing): (c': Clock)
    ensures Fires(c, ts, p) ==> c' == Clock(ts, p.pixelsPerFrame - 1)
    ensures !Fires(c, ts, p) ==> c' == Clock(c.frameStart, c.remaining - 1)
  {
    var c1 := if Fires(c, ts, p) then Clock(ts, p.pixelsPerFrame) else c;
    c1.(remaining := c1.remaining - 1)
  }

  /** The test for the frame emitted after the loop. */
  predicate Trailing(c: Clock, p: Pacing) {
    c.remaining < p.pixelsPerFrame
  }

  /** The clock after the placements with timestamps `ts`. */
  function ClockAfter(ts: seq<int>, p: Pacing): Clock
    decreases |ts|
  {
    if |ts| == 0 then START else Tick(ClockAfter(ts[..|ts| - 1], p), ts[|ts| - 1], p)
  }

  /** Placement `i` emits a frame (of the state before it). */
  predicate FiresAt(ts: seq<int>, i: nat, p: Pacing)
    requires i < |ts|
  {
    Fires(ClockAfter(ts[..i], p), ts[i], p)
  }

  /** The number of frames emitted inside the loop. */
  function FireCount(ts: seq<int>, p: Pacing): nat
    decreases |ts|
  {
    if |ts| == 0 then 0
    else FireCount(ts[..|ts| - 1], p) + (if FiresAt(ts, |ts| - 1, p) then 1 else 0)
  }

  /** All frames of a run: the in-loop ones and the trailing one. */
  function FrameCount(ts: seq<int>, p: Pacing): nat {
    FireCount(ts, p) + (if Trailing(ClockAfter(ts, p), p) then 1 else 0)
  }

  lemma PrefixOfPrefix<T>(s: seq<T>, i: nat, k: nat)
    requires i <= k <= |s|
    ensures s[..k][..i] == s[..i]
  {
  }

  /** Whether placement `i` fires does not depend on later placements. */
  lemma FiresAtPrefix(ts: seq<int>, k: nat, i: nat, p: Pacing)
    requires i < k <= |ts|
    ensures FiresAt(ts[..k], i, p) == FiresAt(ts, i, p)
  {
    PrefixOfPrefix(ts, i, k);
  }

  /** The in-loop frame count grows by one exactly at firing placements. */
  lemma FireCountStep(ts: seq<int>, i: nat, p: Pacing)
    requires i < |ts|
    ensures FireCount(ts[..i + 1], p) == FireCount(ts[..i], p) + (if FiresAt(ts, i, p) then 1 else 0)
  {
    PrefixOfPrefix(ts, i, i + 1);
    FiresAtPrefix(ts, i + 1, i, p);
  }

  lemma {:induction false} FireCountAtMostLength(ts: seq<int>, p: Pacing)
    ensures FireCount(ts, p) <= |ts|
    decreases |ts|
  {
    if |ts| > 0 {
      FireCountAtMostLength(ts[..|ts| - 1], p);
    }
  }

  /** At most one frame per placement plus the trailing one. */
  lemma FrameCountBound(ts: seq<int>, p: Pacing)
    ensures FrameCount(ts, p) <= |ts| + 1
  {
    FireCountAtMostLength(ts, p);
  }

  /** Before the first frame the clock is still at `frame_start_time == 0`
      and `remaining_pixels` has fallen by one per placement; after a frame,
      `remaining_pixels` stays below `pixels_per_frame`. */
  lemma {:induction false} ClockShape(ts: seq<int>, p: Pacing)
    ensures FireCount(ts, p) == 0 ==> ClockAfter(ts, p) == Clock(0, -|ts|)
    ensures FireCount(ts, p) > 0 ==> ClockAfter(ts, p).remaining < p.pixelsPerFrame
    decreases |ts|
  {
    if |ts| > 0 {
      ClockShape(ts[..|ts| - 1], p);
    }
  }

  /** The trailing frame: always after at least one in-loop frame; with
      none, only if `pixels_per_frame > -len`, which covers the empty input
      whenever `pixels_per_frame >= 1`. */
  lemma TrailingFrame(ts: seq<int>, p: Pacing)
    ensures Trailing(ClockAfter(ts, p), p) <==> FireCount(ts, p) > 0 || p.pixelsPerFrame + |ts| > 0
  {
    ClockShape(ts, p);
  }

  /** The first frame fires at the first placement whose timestamp reaches
      `min_seconds_per_frame`, because the clock starts at time 0 with no
      pixel budget. */
  lemma FirstFrame(ts: seq<int>, i: nat, p: Pacing)
    requires i < |ts| && FireCount(ts[..i], p) == 0
    ensures FiresAt(ts, i, p) <==> ts[i] >= p.minSeconds
  {
    ClockShape(ts[..i], p);
  }

  /** Between a frame at placement `i` and the next one, the clock holds
      `frame_start_time == ts[i]` and the budget falls by one per placement. */
  lemma {:induction false} SinceFrame(ts: seq<int>, i: nat, k: nat, p: Pacing)
    requires i < k <= |ts| && FiresAt(ts, i, p)
    requires forall j :: i < j < k ==> !FiresAt(ts, j, p)
    ensures ClockAfter(ts[..k], p) == Clock(ts[i], p.pixelsPerFrame - (k - i))
    decreases k
  {
    PrefixOfPrefix(ts, k - 1, k);
    if k == i + 1 {
    } else {
      SinceFrame(ts, i, k - 1, p);
      assert !FiresAt(ts, k - 1, p);
    }
  }

  /** Consecutive frames are at least `pixels_per_frame` placements and at
      least `min_seconds_per_frame` seconds apart. */
  lemma FrameSpacing(ts: seq<int>, i: nat, j: nat, p: Pacing)
    requires i < j < |ts| && FiresAt(ts, i, p) && FiresAt(ts, j, p)
    requires forall k :: i < k < j ==> !FiresAt(ts, k, p)
    ensures j - i >= p.pixelsPerFrame
    ensures ts[j] - ts[i] >= p.minSeconds
  {
    SinceFrame(ts, i, j, p);
  }
}
