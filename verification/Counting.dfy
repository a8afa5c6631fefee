/** Counting occurrences in sequences, and the pigeonhole principle. */
module Counting {

  /** How often x occurs among the first n elements of t. */
  function Count(t: seq<nat>, x: nat, n: nat): (c: nat)
    requires n <= |t|
    ensures c <= n
  {
    if n == 0 then 0 else Count(t, x, n - 1) + (if t[n - 1] == x then 1 else 0)
  }

  ghost function Below(n: nat): (s: set<nat>)
    ensures |s| == n && forall k :: k in s <==> 0 <= k < n
  {
    if n == 0 then {} else Below(n - 1) + {n - 1}
  }

  ghost predicate Distinct(v: seq<nat>)
  {
    forall i, j :: 0 <= i < j < |v| ==> v[i] != v[j]
  }

  ghost predicate Covers(v: seq<nat>, n: nat)
  {
    && (forall i :: 0 <= i < |v| ==> v[i] < n)
    && (forall u: nat :: u < n ==> u in v)
  }

  ghost function Elements(v: seq<nat>): (s: set<nat>)
  {
    set i | 0 <= i < |v| :: v[i]
  }

  lemma {:induction false} DistinctSize(v: seq<nat>)
    requires Distinct(v)
    ensures |Elements(v)| == |v|
  {
    if v != [] {
      var w := v[..|v| - 1];
      DistinctSize(w);
      assert Elements(v) == Elements(w) + {v[|v| - 1]};
    }
  }

  lemma SubsetSameSize<T>(a: set<T>, b: set<T>)
    requires a <= b && |a| == |b|
    ensures a == b
  {
    assert |b - a| == |b| - |a|;
  }

  /** n distinct numbers below n are all the numbers below n. */
  lemma Pigeonhole(v: seq<nat>, n: nat)
    requires Distinct(v) && |v| == n && forall i :: 0 <= i < n ==> v[i] < n
    ensures Covers(v, n)
  {
    DistinctSize(v);
    SubsetSameSize(Elements(v), Below(n));
    forall u: nat | u < n
      ensures u in v
    {
      assert u in Below(n);
    }
  }

  /** Distinct numbers that cover everything below n are n in number. */
  lemma CoverSize(v: seq<nat>, n: nat)
    requires Distinct(v) && Covers(v, n)
    ensures |v| == n
  {
    DistinctSize(v);
    forall k | k in Below(n)
      ensures k in Elements(v)
    {
      assert k in v;
    }
    assert Elements(v) == Below(n);
  }

  ghost function Positions(t: seq<nat>, x: nat, n: nat): (s: set<nat>)
    requires n <= |t|
    ensures forall u :: u in s <==> 0 <= u < n && t[u] == x
  {
    set u | u in Below(n) && t[u] == x
  }

  lemma {:induction false} CountIsSize(t: seq<nat>, x: nat, n: nat)
    requires n <= |t|
    ensures Count(t, x, n) == |Positions(t, x, n)|
  {
    if n > 0 {
      hide Below;
      CountIsSize(t, x, n - 1);
      PositionsStep(t, x, n);
    }
  }

  lemma PositionsStep(t: seq<nat>, x: nat, n: nat)
    requires 0 < n <= |t|
    ensures Positions(t, x, n) == Positions(t, x, n - 1) + (if t[n - 1] == x then {n - 1} else {})
  {
    hide Below, Positions;
  }

  lemma {:induction false} BijectionSize(a: set<nat>, b: set<nat>, v: seq<nat>)
    requires forall r :: r in b ==> r < |v| && v[r] in a
    requires Distinct(v)
    requires forall u :: u in a ==> exists r :: r in b && r < |v| && v[r] == u
    ensures |a| == |b|
    decreases b
  {
    if r :| r in b {
      forall u | u in a - {v[r]}
        ensures exists q :: q in b - {r} && q < |v| && v[q] == u
      {
        var q :| q in b && q < |v| && v[q] == u;
      }
      forall q | q in b - {r}
        ensures q < |v| && v[q] in a - {v[r]}
      {
      }
      BijectionSize(a - {v[r]}, b - {r}, v);
    } else {
      assert a == {};
    }
  }

  /** Writing `laid` along distinct cells that cover the first n keeps every count. */
  lemma CountAlong(t: seq<nat>, v: seq<nat>, laid: seq<nat>, n: nat, x: nat)
    requires n <= |t| && |v| == |laid| && Distinct(v) && Covers(v, n)
    requires forall r :: 0 <= r < |v| ==> t[v[r]] == laid[r]
    ensures Count(t, x, n) == Count(laid, x, |laid|)
  {
    CountIsSize(t, x, n);
    CountIsSize(laid, x, |laid|);
    var a, b := Positions(t, x, n), Positions(laid, x, |laid|);
    forall u | u in a
      ensures exists r :: r in b && r < |v| && v[r] == u
    {
      assert u in v;
      var r :| 0 <= r < |v| && v[r] == u;
      assert r in b;
    }
    BijectionSize(a, b, v);
  }

  lemma {:induction false} CountConcat(a: seq<nat>, b: seq<nat>, x: nat, n: nat)
    requires n <= |b|
    ensures Count(a + b, x, |a| + n) == Count(a, x, |a|) + Count(b, x, n)
  {
    if n == 0 {
      CountPrefix(a + b, a, x, |a|);
    } else {
      CountConcat(a, b, x, n - 1);
      assert (a + b)[|a| + n - 1] == b[n - 1];
    }
  }

  lemma {:induction false} CountPrefix(s: seq<nat>, t: seq<nat>, x: nat, n: nat)
    requires n <= |s| && n <= |t| && forall i :: 0 <= i < n ==> s[i] == t[i]
    ensures Count(s, x, n) == Count(t, x, n)
  {
    if n > 0 {
      CountPrefix(s, t, x, n - 1);
    }
  }

  lemma {:induction false} CountMonotone(t: seq<nat>, x: nat, m: nat, n: nat)
    requires m <= n <= |t|
    ensures Count(t, x, m) <= Count(t, x, n)
    ensures m < n && t[m] == x ==> Count(t, x, m) < Count(t, x, n)
  {
    if m < n {
      CountMonotone(t, x, m, n - 1);
    }
  }

  lemma {:induction false} CountNone(t: seq<nat>, x: nat, m: nat, n: nat)
    requires m <= n <= |t| && forall i :: m <= i < n ==> t[i] != x
    ensures Count(t, x, n) == Count(t, x, m)
  {
    if m < n {
      CountNone(t, x, m, n - 1);
    }
  }

  lemma {:induction false} CountAll(t: seq<nat>, x: nat, m: nat, n: nat)
    requires m <= n <= |t| && forall i :: m <= i < n ==> t[i] == x
    ensures Count(t, x, n) == Count(t, x, m) + (n - m)
  {
    if m < n {
      CountAll(t, x, m, n - 1);
    }
  }

  /** The position of the occurrence that has k occurrences before it. */
  lemma {:induction false} NthOccurrence(t: seq<nat>, x: nat, k: nat, n: nat) returns (u: nat)
    requires n <= |t| && k < Count(t, x, n)
    ensures u < n && t[u] == x && Count(t, x, u) == k
  {
    if k < Count(t, x, n - 1) {
      u := NthOccurrence(t, x, k, n - 1);
    } else {
      u := n - 1;
    }
  }

  lemma {:induction false} CountAtLeast(t: seq<nat>, x: nat, v: seq<nat>, k: nat)
    requires k < |v| && (forall i :: 0 <= i < |v| ==> v[i] < |t| && t[v[i]] == x)
    requires forall i :: 0 < i < |v| ==> v[i - 1] < v[i]
    ensures Count(t, x, v[k]) >= k
  {
    if k > 0 {
      CountAtLeast(t, x, v, k - 1);
      CountMonotone(t, x, v[k - 1] + 1, v[k]);
    }
  }

  lemma {:induction false} CountAfter(t: seq<nat>, x: nat, v: seq<nat>, k: nat)
    requires k < |v| && (forall i :: 0 <= i < |v| ==> v[i] < |t| && t[v[i]] == x)
    requires forall i :: 0 < i < |v| ==> v[i - 1] < v[i]
    ensures Count(t, x, v[k]) + (|v| - k) <= Count(t, x, |t|)
    decreases |v| - k
  {
    if k < |v| - 1 {
      CountAfter(t, x, v, k + 1);
      CountMonotone(t, x, v[k] + 1, v[k + 1]);
    } else {
      CountMonotone(t, x, v[k] + 1, |t|);
    }
  }

  /** If these are all cells that hold x, the k-th of them has k before it. */
  lemma CountAt(t: seq<nat>, x: nat, v: seq<nat>, k: nat)
    requires k < |v| && (forall i :: 0 <= i < |v| ==> v[i] < |t| && t[v[i]] == x)
    requires forall i :: 0 < i < |v| ==> v[i - 1] < v[i]
    requires Count(t, x, |t|) == |v|
    ensures Count(t, x, v[k]) == k
  {
    CountAtLeast(t, x, v, k);
    CountAfter(t, x, v, k);
  }
}
