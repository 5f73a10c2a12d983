/** Shared vocabulary of the report modules: they index final-tier matrices
    by raw placement coordinates (`x as u32` then `as usize`), and their
    properties are stated against the first or last placement at a cell. */
module Reports {
  import opened Image
  import opened Render
  import opened Canvas

  /** `(x as u32, y as u32)` indexes an existing cell of the final-tier
      matrix; any other row makes the report's `[x][y]` or `put_pixel` panic. */
  predicate InCanvas(tiers: seq<Tier>, x: int, y: int)
    requires |tiers| >= 1
  {
    AsU32(x) < FinalTier(tiers).w && AsU32(y) < FinalTier(tiers).h
  }

  /** The index of the last element satisfying `P`, or -1. */
  function LastWhere<T>(s: seq<T>, P: T -> bool): (j: int)
    ensures -1 <= j < |s|
    ensures j >= 0 ==> P(s[j])
    ensures forall i :: j < i < |s| ==> !P(s[i])
    decreases |s|
  {
    if |s| == 0 then -1
    else if P(s[|s| - 1]) then |s| - 1
    else LastWhere(s[..|s| - 1], P)
  }

  /** The index of the first element satisfying `P`, or -1. */
  function FirstWhere<T>(s: seq<T>, P: T -> bool): (j: int)
    ensures -1 <= j < |s|
    ensures j >= 0 ==> P(s[j])
    ensures forall i :: 0 <= i < |s| && (j < 0 || i < j) ==> !P(s[i])
    decreases |s|
  {
    if |s| == 0 then -1
    else if P(s[0]) then 0
    else
      var j := FirstWhere(s[1..], P);
      if j < 0 then -1 else j + 1
  }

  /** Appending an element moves the last match to it, or keeps the old one. */
  lemma LastWhereAppend<T>(s: seq<T>, t: T, P: T -> bool)
    ensures LastWhere(s + [t], P) == if P(t) then |s| else LastWhere(s, P)
  {
    assert (s + [t])[..|s|] == s;
  }

  /** Appending an element keeps an existing first match. */
  lemma {:induction false} FirstWhereAppend<T>(s: seq<T>, t: T, P: T -> bool)
    ensures FirstWhere(s + [t], P) == if FirstWhere(s, P) >= 0 then FirstWhere(s, P) else if P(t) then |s| else -1
    decreases |s|
  {
    if |s| > 0 {
      assert (s + [t])[1..] == s[1..] + [t];
      FirstWhereAppend(s[1..], t, P);
    }
  }

  /** The number of elements of `s` equal to `v`. */
  function Occurrences<T(==)>(s: seq<T>, v: T): (n: nat)
    ensures n <= |s|
    decreases |s|
  {
    if |s| == 0 then 0 else Occurrences(s[..|s| - 1], v) + (if s[|s| - 1] == v then 1 else 0)
  }

  /** The number of elements satisfying `P`. */
  function CountWhere<T>(s: seq<T>, P: T -> bool): (n: nat)
    ensures n <= |s|
    decreases |s|
  {
    if |s| == 0 then 0 else CountWhere(s[..|s| - 1], P) + (if P(s[|s| - 1]) then 1 else 0)
  }

  function Sum(s: seq<int>): int
    decreases |s|
  {
    if |s| == 0 then 0 else Sum(s[..|s| - 1]) + s[|s| - 1]
  }

  lemma {:induction false} SumAppend(s: seq<int>, t: seq<int>)
    ensures Sum(s + t) == Sum(s) + Sum(t)
    decreases |t|
  {
    if |t| > 0 {
      assert (s + t)[..|s + t| - 1] == s + t[..|t| - 1];
      SumAppend(s, t[..|t| - 1]);
    } else {
      assert s + t == s;
    }
  }

  /** Adding `d` to one element adds `d` to the sum. */
  lemma {:induction false} SumUpdate(s: seq<int>, i: nat, d: int)
    requires i < |s|
    ensures Sum(s[i := s[i] + d]) == Sum(s) + d
    decreases |s|
  {
    var n := |s| - 1;
    var t := s[i := s[i] + d];
    assert t[..n] == if i < n then s[..n][i := s[i] + d] else s[..n];
    if i < n {
      SumUpdate(s[..n], i, d);
    }
  }

  /** The cells of a grid, column after column: the order of the reports'
      `for row in grid { for cell in row { .. } }` loops. */
  function Flatten<T>(g: seq<seq<T>>): seq<T>
    decreases |g|
  {
    if |g| == 0 then [] else Flatten(g[..|g| - 1]) + g[|g| - 1]
  }

  lemma FlattenPrefix<T>(g: seq<seq<T>>, x: nat)
    requires x < |g|
    ensures Flatten(g[..x + 1]) == Flatten(g[..x]) + g[x]
  {
    assert g[..x + 1][..x] == g[..x];
  }

  lemma {:induction false} FlattenLength<T>(g: seq<seq<T>>, w: nat, h: nat)
    requires IsGrid(g, w, h)
    ensures |Flatten(g)| == w * h
    decreases w
  {
    if w > 0 {
      FlattenLength(g[..w - 1], w - 1, h);
    }
  }

  /** Sorted by non-increasing `key`. */
  predicate SortedDesc<T>(s: seq<T>, key: T -> int) {
    forall i, j :: 0 <= i < j < |s| ==> key(s[i]) >= key(s[j])
  }

  /** Insertion after every element whose key is at least `e`'s, so equal
      keys keep their input order. */
  function InsertDesc<T>(e: T, s: seq<T>, key: T -> int): (r: seq<T>)
    ensures |r| == |s| + 1
    ensures multiset(r) == multiset(s) + multiset{e}
    decreases |s|
  {
    if |s| == 0 then [e]
    else
      assert s == [s[0]] + s[1..];
      if key(s[0]) >= key(e) then [s[0]] + InsertDesc(e, s[1..], key)
      else [e] + s
  }

  lemma InsertDescHead<T>(e: T, s: seq<T>, key: T -> int)
    requires |s| > 0
    ensures InsertDesc(e, s, key) == if key(s[0]) >= key(e) then [s[0]] + InsertDesc(e, s[1..], key) else [e] + s
  {
  }

  lemma {:induction false} InsertDescSorted<T>(e: T, s: seq<T>, key: T -> int)
    requires SortedDesc(s, key)
    ensures SortedDesc(InsertDesc(e, s, key), key)
    ensures |s| > 0 && key(s[0]) >= key(e) ==> InsertDesc(e, s, key)[0] == s[0]
    decreases |s|
  {
    if |s| > 0 {
      InsertDescHead(e, s, key);
      if key(s[0]) >= key(e) {
        var rest := s[1..];
        InsertDescSorted(e, rest, key);
        var r := InsertDesc(e, rest, key);
        forall k | 0 <= k < |r|
          ensures key(s[0]) >= key(r[k])
        {
          InsertDescElement(e, rest, key, k);
          if r[k] != e {
            var m :| 0 <= m < |rest| && rest[m] == r[k];
            assert rest[m] == s[m + 1];
          }
        }
        SortedCons(s[0], r, key);
      } else {
        SortedCons(e, s, key);
      }
    }
  }

  /** Every element of an insertion is the inserted one or from the list. */
  lemma InsertDescElement<T>(e: T, s: seq<T>, key: T -> int, k: nat)
    requires k < |s| + 1
    ensures InsertDesc(e, s, key)[k] == e || exists m :: 0 <= m < |s| && s[m] == InsertDesc(e, s, key)[k]
  {
    var r := InsertDesc(e, s, key);
    assert r[k] in multiset(r);
    if r[k] != e {
      assert r[k] in multiset(s);
    }
  }

  lemma SortedCons<T>(a: T, r: seq<T>, key: T -> int)
    requires SortedDesc(r, key)
    requires forall k :: 0 <= k < |r| ==> key(a) >= key(r[k])
    ensures SortedDesc([a] + r, key)
  {
    var t := [a] + r;
    forall i, j | 0 <= i < j < |t|
      ensures key(t[i]) >= key(t[j])
    {
      assert t[j] == r[j - 1];
      if i > 0 {
        assert t[i] == r[i - 1];
      }
    }
  }

  /** The stable `sort_by(|a, b| key(b).cmp(key(a)))`, as an insertion sort. */
  function SortDesc<T>(s: seq<T>, key: T -> int): (r: seq<T>)
    ensures |r| == |s|
    decreases |s|
  {
    if |s| == 0 then [] else InsertDesc(s[|s| - 1], SortDesc(s[..|s| - 1], key), key)
  }

  /** The sorted list is ordered and holds exactly the input elements. */
  lemma {:induction false} SortDescCorrect<T>(s: seq<T>, key: T -> int)
    ensures SortedDesc(SortDesc(s, key), key)
    ensures multiset(SortDesc(s, key)) == multiset(s)
    decreases |s|
  {
    if |s| > 0 {
      var n := |s| - 1;
      SortDescCorrect(s[..n], key);
      InsertDescSorted(s[n], SortDesc(s[..n], key), key);
      MultisetLast(s);
    }
  }

  /** The elements of `s` whose key is `k`, in their order in `s`. */
  function WithKey<T>(s: seq<T>, key: T -> int, k: int): seq<T>
    decreases |s|
  {
    if |s| == 0 then [] else (if key(s[0]) == k then [s[0]] else []) + WithKey(s[1..], key, k)
  }

  lemma {:induction false} WithKeyAppend<T>(a: seq<T>, b: seq<T>, key: T -> int, k: int)
    ensures WithKey(a + b, key, k) == WithKey(a, key, k) + WithKey(b, key, k)
    decreases |a|
  {
    if |a| == 0 {
      assert a + b == b;
    } else {
      assert (a + b)[0] == a[0] && (a + b)[1..] == a[1..] + b;
      WithKeyAppend(a[1..], b, key, k);
    }
  }

  lemma {:induction false} WithKeyNone<T>(s: seq<T>, key: T -> int, k: int)
    requires forall i :: 0 <= i < |s| ==> key(s[i]) < k
    ensures WithKey(s, key, k) == []
    decreases |s|
  {
    if |s| > 0 {
      WithKeyNone(s[1..], key, k);
    }
  }

  /** Inserting into a sorted list puts `e` after every element of its key. */
  lemma {:induction false} InsertDescStable<T>(e: T, s: seq<T>, key: T -> int, k: int)
    requires SortedDesc(s, key)
    ensures WithKey(InsertDesc(e, s, key), key, k) == WithKey(s, key, k) + (if key(e) == k then [e] else [])
    decreases |s|
  {
    if |s| == 0 {
      assert [e][1..] == [];
    } else {
      InsertDescHead(e, s, key);
      if key(s[0]) >= key(e) {
        var r := InsertDesc(e, s[1..], key);
        assert SortedDesc(s[1..], key) by {
          forall i, j | 0 <= i < j < |s[1..]|
            ensures key(s[1..][i]) >= key(s[1..][j])
          {
            assert s[1..][i] == s[i + 1] && s[1..][j] == s[j + 1];
          }
        }
        InsertDescStable(e, s[1..], key, k);
        assert ([s[0]] + r)[1..] == r;
      } else {
        assert ([e] + s)[1..] == s;
        if key(e) == k {
          WithKeyNone(s, key, k);
        }
      }
    }
  }

  /** `sort_by` is stable: the elements of each key keep their input order. */
  lemma {:induction false} SortDescStable<T>(s: seq<T>, key: T -> int, k: int)
    ensures WithKey(SortDesc(s, key), key, k) == WithKey(s, key, k)
    decreases |s|
  {
    if |s| > 0 {
      var n := |s| - 1;
      var sorted := SortDesc(s[..n], key);
      calc {
        WithKey(SortDesc(s, key), key, k);
        WithKey(InsertDesc(s[n], sorted, key), key, k);
        { SortDescCorrect(s[..n], key);
          InsertDescStable(s[n], sorted, key, k); }
        WithKey(sorted, key, k) + (if key(s[n]) == k then [s[n]] else []);
        { SortDescStable(s[..n], key, k);
          WithKeySingle(s[n], key, k); }
        WithKey(s[..n], key, k) + WithKey([s[n]], key, k);
        { WithKeyAppend(s[..n], [s[n]], key, k); }
        WithKey(s[..n] + [s[n]], key, k);
        { assert s[..n] + [s[n]] == s; }
        WithKey(s, key, k);
      }
    }
  }

  lemma WithKeySingle<T>(e: T, key: T -> int, k: int)
    ensures WithKey([e], key, k) == if key(e) == k then [e] else []
  {
    assert [e][1..] == [];
  }

  lemma MultisetLast<T>(s: seq<T>)
    requires |s| > 0
    ensures multiset(s) == multiset(s[..|s| - 1]) + multiset{s[|s| - 1]}
  {
    assert s == s[..|s| - 1] + [s[|s| - 1]];
  }
}
