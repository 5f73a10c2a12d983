/** src/modules/maincontributors.rs: walks the users in the order of the
    grouped query (most pixels first), subtracting each user's count from a
    pixel budget, and lists users until the budget is used up. */
module Maincontributors {
  import opened Reports

  /** A row of the grouped query: the username and the user's count of
      non-moderation pixels. */
  datatype Contributor = Contributor(name: string, count: int)

  /** A printed line `{index:02}. {username}: {pixels} pixels.`, as its
      index and row. */
  datatype Line = Line(index: nat, who: Contributor)

  /** `pixel_cap`: `pixel_count * (percentage / 100)`, truncated toward
      zero by `as i64`, computed here on exact rationals. */
  function InitialCap(pixelCount: nat, percentage: int): (cap: int)
    ensures percentage >= 0 ==> cap == pixelCount * percentage / 100
    ensures percentage < 0 ==> cap == -(pixelCount * -percentage / 100)
  {
    var v := pixelCount as real * (percentage as real / 100.0);
    CapArithmetic(pixelCount, percentage);
    if v >= 0.0 then v.Floor else -((-v).Floor)
  }

  lemma CapArithmetic(n: nat, p: int)
    ensures n as real * (p as real / 100.0) == (n * p) as real / 100.0
    ensures p >= 0 ==> n * p >= 0
    ensures p < 0 ==> n * -p >= 0 && -(n as real * (p as real / 100.0)) == (n * -p) as real / 100.0
  {
  }

  /** The counts of the first `k` rows added up. */
  function Taken(users: seq<Contributor>, k: nat): int
    requires k <= |users|
  {
    if k == 0 then 0 else Taken(users, k - 1) + users[k - 1].count
  }

  /** The loop. Row `i` is printed with index `i + 1` once its count has
      been subtracted and the budget is still positive; the first row that
      brings the budget to zero or below ends the loop unprinted. */
  method Contributors(users: seq<Contributor>, cap: int) returns (lines: seq<Line>)
    ensures forall i :: 1 <= i <= |lines| && i <= |users| ==> Taken(users, i) < cap
    ensures |lines| <= |users|
    ensures |lines| < |users| ==> Taken(users, |lines| + 1) >= cap
    ensures forall i :: 0 <= i < |lines| && i < |users| ==> lines[i] == Line(i + 1, users[i])
  {
    lines := [];
    var budget := cap;
    var i := 0;
    var exhausted := false;
    while i < |users| && !exhausted
      invariant 0 <= i <= |users| && |lines| == i
      invariant !exhausted ==> budget == cap - Taken(users, i)
      invariant exhausted ==> i < |users| && Taken(users, i + 1) >= cap
      invariant forall j :: 0 <= j < i ==> lines[j] == Line(j + 1, users[j])
      invariant forall j :: 1 <= j <= i ==> Taken(users, j) < cap
      decreases |users| - i, !exhausted
    {
      budget := budget - users[i].count;
      if budget <= 0 {
        exhausted := true;
      } else {
        lines := lines + [Line(i + 1, users[i])];
        i := i + 1;
      }
    }
  }

  /** With positive counts the running total only grows, so the loop
      lists exactly the users whose running total, their own count
      included, stays below the budget. */
  lemma ListedIffBelowBudget(users: seq<Contributor>, cap: int, k: nat, i: nat)
    requires k <= |users| && i < |users|
    requires forall j :: 1 <= j <= k ==> Taken(users, j) < cap
    requires k < |users| ==> Taken(users, k + 1) >= cap
    requires forall j :: 0 <= j < |users| ==> users[j].count > 0
    ensures i < k <==> Taken(users, i + 1) < cap
  {
    if i >= k {
      TakenGrows(users, k + 1, i + 1);
    }
  }

  lemma {:induction false} TakenGrows(users: seq<Contributor>, a: nat, b: nat)
    requires a <= b <= |users|
    requires forall i :: 0 <= i < |users| ==> users[i].count > 0
    ensures Taken(users, a) <= Taken(users, b)
    ensures a < b ==> Taken(users, a) < Taken(users, b)
    decreases b - a
  {
    if a < b {
      TakenGrows(users, a, b - 1);
    }
  }
}
