/** Huffman trees grown from two queues: completeness, order and optimality of the code lengths. */
module HufTree {
  import opened Bits
  import opened Kraft

  /** STARTNODE: nodes below it are leaves, the others have been made by merging. */
  const START := 256

  /** The nodes without a parent: leaves below `leaves`, and made nodes from `low` on. */
  datatype Queue = Queue(leaves: nat, low: nat)
  {
    predicate Has(hi: nat, p: nat) { p < leaves || low <= p < hi }

    predicate Fits(hi: nat) { leaves <= START <= low <= hi }
  }

  // ----- sums over the nodes in the queues -----

  function Total(f: seq<int>, lo: nat, hi: nat): int
    requires lo <= hi <= |f|
  {
    if lo == hi then 0 else Total(f, lo, hi - 1) + f[hi - 1]
  }

  /** The sum of f over the nodes without a parent, when the nodes below hi exist. */
  function Pending(f: seq<int>, q: Queue, hi: nat): int
    requires q.Fits(hi) && hi <= |f|
  {
    Total(f, 0, q.leaves) + Total(f, q.low, hi)
  }

  lemma {:induction false} TotalFront(f: seq<int>, lo: nat, hi: nat)
    requires lo < hi <= |f|
    ensures Total(f, lo, hi) == f[lo] + Total(f, lo + 1, hi)
  {
    if lo + 1 < hi {
      TotalFront(f, lo, hi - 1);
    }
  }

  lemma {:induction false} TotalUpdate(f: seq<int>, i: nat, v: int, lo: nat, hi: nat)
    requires lo <= hi <= |f| && i < |f|
    ensures Total(f[i := v], lo, hi) == Total(f, lo, hi) + (if lo <= i < hi then v - f[i] else 0)
  {
    if lo < hi {
      TotalUpdate(f, i, v, lo, hi - 1);
    }
  }

  lemma PendingUpdate(f: seq<int>, i: nat, v: int, q: Queue, hi: nat)
    requires q.Fits(hi) && hi <= |f| && i < |f|
    ensures Pending(f[i := v], q, hi) == Pending(f, q, hi) + (if q.Has(hi, i) then v - f[i] else 0)
  {
    TotalUpdate(f, i, v, 0, q.leaves);
    TotalUpdate(f, i, v, q.low, hi);
  }

  lemma {:induction false} TotalScale(f: seq<int>, g: seq<int>, d: int, lo: nat, hi: nat)
    requires lo <= hi <= |f| == |g| && forall i :: lo <= i < hi ==> f[i] == d * g[i]
    ensures Total(f, lo, hi) == d * Total(g, lo, hi)
  {
    if lo < hi {
      TotalScale(f, g, d, lo, hi - 1);
      Spread(d, Total(g, lo, hi - 1), g[hi - 1]);
    }
  }

  lemma {:induction false} TotalSame(f: seq<int>, g: seq<int>, lo: nat, hi: nat)
    requires lo <= hi <= |f| && hi <= |g| && forall i :: lo <= i < hi ==> f[i] == g[i]
    ensures Total(f, lo, hi) == Total(g, lo, hi)
  {
    if lo < hi {
      TotalSame(f, g, lo, hi - 1);
    }
  }

  lemma {:induction false} TotalNonNegative(f: seq<int>, lo: nat, hi: nat)
    requires lo <= hi <= |f| && forall i :: lo <= i < hi ==> f[i] >= 0
    ensures Total(f, lo, hi) >= 0
  {
    if lo < hi {
      TotalNonNegative(f, lo, hi - 1);
    }
  }

  lemma PendingNonNegative(f: seq<int>, q: Queue, hi: nat)
    requires q.Fits(hi) && hi <= |f| && forall i: nat :: q.Has(hi, i) ==> f[i] >= 0
    ensures Pending(f, q, hi) >= 0
  {
    forall i | 0 <= i < q.leaves
      ensures f[i] >= 0
    {
      assert q.Has(hi, i);
    }
    forall i | q.low <= i < hi
      ensures f[i] >= 0
    {
      assert q.Has(hi, i);
    }
    TotalNonNegative(f, 0, q.leaves);
    TotalNonNegative(f, q.low, hi);
  }

  // ----- choosing the smaller end of the two queues -----

  predicate LeafFirst(w: seq<nat>, q: Queue, hi: nat)
    requires q.Fits(hi) && hi <= |w|
  {
    q.leaves > 0 && (q.low == hi || w[q.leaves - 1] < w[q.low])
  }

  function Pick(w: seq<nat>, q: Queue, hi: nat): nat
    requires q.Fits(hi) && hi <= |w|
  {
    if LeafFirst(w, q, hi) then q.leaves - 1 else q.low
  }

  function Without(w: seq<nat>, q: Queue, hi: nat): Queue
    requires q.Fits(hi) && hi <= |w|
  {
    if LeafFirst(w, q, hi) then q.(leaves := q.leaves - 1) else q.(low := q.low + 1)
  }

  ghost predicate NonEmpty(q: Queue, hi: nat)
  {
    q.Fits(hi) && (q.leaves > 0 || q.low < hi)
  }

  /** Both queues have their smallest node in front. */
  ghost predicate Sorted(w: seq<nat>, q: Queue, hi: nat)
    requires q.Fits(hi) && hi <= |w|
  {
    && (forall i, j :: 0 <= i < j < q.leaves ==> w[i] >= w[j])
    && (forall i, j :: q.low <= i < j < hi ==> w[i] <= w[j])
  }

  lemma PickTakes(w: seq<nat>, q: Queue, hi: nat)
    requires NonEmpty(q, hi) && hi <= |w|
    ensures q.Has(hi, Pick(w, q, hi)) && Without(w, q, hi).Fits(hi)
    ensures forall p: nat :: q.Has(hi, p) <==> (Without(w, q, hi).Has(hi, p) || p == Pick(w, q, hi))
    ensures !Without(w, q, hi).Has(hi, Pick(w, q, hi))
    ensures var r := Without(w, q, hi); r.leaves - r.low == q.leaves - q.low - 1 && q.low <= r.low
  {
  }

  lemma PickSum(f: seq<int>, w: seq<nat>, q: Queue, hi: nat)
    requires NonEmpty(q, hi) && hi <= |w| && hi <= |f|
    ensures Without(w, q, hi).Fits(hi)
    ensures Pending(f, q, hi) == Pending(f, Without(w, q, hi), hi) + f[Pick(w, q, hi)]
  {
    if q.low < hi {
      TotalFront(f, q.low, hi);
    }
  }

  lemma PickSmallest(w: seq<nat>, q: Queue, hi: nat)
    requires NonEmpty(q, hi) && hi <= |w| && Sorted(w, q, hi)
    ensures q.Has(hi, Pick(w, q, hi)) && Without(w, q, hi).Fits(hi) && Sorted(w, Without(w, q, hi), hi)
    ensures forall p: nat :: q.Has(hi, p) ==> w[Pick(w, q, hi)] <= w[p]
  {
  }

  // ----- lengths for the nodes in the queues -----

  ghost function Products(w: seq<nat>, L: seq<nat>): (f: seq<int>)
    requires |w| == |L|
  {
    seq(|w|, i requires 0 <= i < |w| => w[i] * L[i])
  }

  ghost function Shares(L: seq<nat>, scale: nat): (f: seq<int>)
  {
    seq(|L|, i requires 0 <= i < |L| => Share(scale, L[i]))
  }

  /** The weighted length of the nodes in the queues. */
  ghost function Cost(w: seq<nat>, L: seq<nat>, q: Queue, hi: nat): int
    requires |w| == |L| && q.Fits(hi) && hi <= |w|
  {
    Pending(Products(w, L), q, hi)
  }

  ghost function Space(L: seq<nat>, scale: nat, q: Queue, hi: nat): int
    requires q.Fits(hi) && hi <= |L|
  {
    Pending(Shares(L, scale), q, hi)
  }

  /** Lengths that a prefix code for the nodes in the queues can have. */
  ghost predicate Fitting(L: seq<nat>, scale: nat, q: Queue, hi: nat)
  {
    && q.Fits(hi) && hi <= |L|
    && (forall p: nat :: q.Has(hi, p) ==> L[p] <= scale)
    && Space(L, scale, q, hi) <= Pow2(scale)
  }

  lemma CostUpdate(w: seq<nat>, L: seq<nat>, q: Queue, hi: nat, p: nat, v: nat)
    requires |w| == |L| && q.Fits(hi) && hi <= |w| && q.Has(hi, p)
    ensures Cost(w, L[p := v], q, hi) == Cost(w, L, q, hi) + w[p] * v - w[p] * L[p]
  {
    hide Pending;
    PendingUpdate(Products(w, L), p, w[p] * v, q, hi);
    assert Products(w, L[p := v]) == Products(w, L)[p := w[p] * v];
  }

  lemma SpaceUpdate(L: seq<nat>, scale: nat, q: Queue, hi: nat, p: nat, v: nat)
    requires q.Fits(hi) && hi <= |L| && q.Has(hi, p)
    ensures Space(L[p := v], scale, q, hi) == Space(L, scale, q, hi) + Share(scale, v) - Share(scale, L[p])
  {
    hide Pending;
    PendingUpdate(Shares(L, scale), p, Share(scale, v), q, hi);
    assert Shares(L[p := v], scale) == Shares(L, scale)[p := Share(scale, v)];
  }

  /** Giving the lighter node x the longer code of m does not cost more. */
  lemma Swap(w: seq<nat>, L: seq<nat>, scale: nat, q: Queue, hi: nat, x: nat, m: nat) returns (K: seq<nat>)
    requires |w| == |L| && Fitting(L, scale, q, hi) && q.Has(hi, x) && q.Has(hi, m)
    requires w[x] <= w[m] && L[x] <= L[m]
    ensures K == L[x := L[m]][m := L[x]]
    ensures Fitting(K, scale, q, hi) && Cost(w, K, q, hi) <= Cost(w, L, q, hi)
  {
    hide Cost, Space, Pow2, Share;
    K := L[x := L[m]][m := L[x]];
    CostUpdate(w, L, q, hi, x, L[m]);
    CostUpdate(w, L[x := L[m]], q, hi, m, L[x]);
    SpaceUpdate(L, scale, q, hi, x, L[m]);
    SpaceUpdate(L[x := L[m]], scale, q, hi, m, L[x]);
    Rearrange(w[x], w[m], L[x], L[m]);
  }

  lemma Rearrange(a: int, b: int, s: int, t: int)
    requires a <= b && s <= t
    ensures a * t + b * s <= a * s + b * t
  {
    assert (b - a) * (t - s) >= 0;
    assert (b - a) * (t - s) == b * t - b * s - a * t + a * s;
  }

  /** The longest of the lengths in the queues, leaving out x. */
  lemma Longest(L: seq<nat>, q: Queue, hi: nat, x: nat, y: nat) returns (m: nat)
    requires q.Fits(hi) && hi <= |L| && q.Has(hi, y) && y != x
    ensures q.Has(hi, m) && m != x
    ensures forall p: nat :: q.Has(hi, p) && p != x ==> L[p] <= L[m]
  {
    m := y;
    var k := 0;
    while k < hi
      invariant 0 <= k <= hi && q.Has(hi, m) && m != x
      invariant forall p: nat :: q.Has(hi, p) && p != x && p < k ==> L[p] <= L[m]
    {
      if q.Has(hi, k) && k != x && L[m] < L[k] {
        m := k;
      }
      k := k + 1;
    }
  }

  /** When all the other lengths are at most `top`, the room they and a longer x take leaves room for x at `top`. */
  lemma Shorten(w: seq<nat>, L: seq<nat>, scale: nat, q: Queue, hi: nat, x: nat, top: nat)
    requires |w| == |L| && Fitting(L, scale, q, hi) && q.Has(hi, x) && top < L[x]
    requires forall p: nat :: q.Has(hi, p) && p != x ==> L[p] <= top
    ensures Fitting(L[x := top], scale, q, hi) && Cost(w, L[x := top], q, hi) <= Cost(w, L, q, hi)
  {
    hide Cost, Pending, Pow2, Space;
    CostUpdate(w, L, q, hi, x, top);
    MulMono(top, L[x], w[x]);
    SpaceUpdate(L, scale, q, hi, x, top);
    var z := OthersSpace(L, scale, q, hi, x, top);
    RoomForOneMore(z, top, scale, Pow2(scale - L[x]));
  }

  lemma RoomForOneMore(z: int, top: nat, scale: nat, own: int)
    requires top <= scale && own > 0 && z * Pow2(scale - top) + own <= Pow2(scale)
    ensures z * Pow2(scale - top) + Pow2(scale - top) <= Pow2(scale)
  {
    Pow2Add(top, scale - top);
    hide Pow2;
    RoundUp(z, Pow2(top), Pow2(scale - top), own);
  }

  lemma RoundUp(z: int, size: int, unit: nat, own: int)
    requires own > 0 && z * unit + own <= size * unit
    ensures z * unit + unit <= size * unit
  {
    if z >= size {
      MulMono(size, z, unit);
    } else {
      MulMono(z + 1, size, unit);
      MulNext(z, unit);
    }
  }

  /** The space of the others is a multiple of the space of one code of length `top`. */
  lemma OthersSpace(L: seq<nat>, scale: nat, q: Queue, hi: nat, x: nat, top: nat) returns (z: int)
    requires q.Fits(hi) && hi <= |L| && q.Has(hi, x) && L[x] <= scale && top <= scale
    requires forall p: nat :: q.Has(hi, p) && p != x ==> L[p] <= top
    ensures Space(L, scale, q, hi) == z * Pow2(scale - top) + Pow2(scale - L[x])
  {
    var unit := Pow2(scale - top);
    var f := Shares(L, scale)[x := 0];
    var g := Shares(L, top)[x := 0];
    PendingUpdate(Shares(L, scale), x, 0, q, hi);
    forall p: nat | q.Has(hi, p)
      ensures f[p] == unit * g[p]
    {
      if p != x {
        Pow2Add(scale - top, top - L[p]);
      }
    }
    hide Pow2;
    ScalePending(f, g, unit, q, hi);
    z := Pending(g, q, hi);
    MulCommutes(unit, z);
  }

  lemma ScalePending(f: seq<int>, g: seq<int>, d: int, q: Queue, hi: nat)
    requires q.Fits(hi) && hi <= |f| == |g| && forall p: nat :: q.Has(hi, p) ==> f[p] == d * g[p]
    ensures Pending(f, q, hi) == d * Pending(g, q, hi)
  {
    forall p | 0 <= p < q.leaves
      ensures f[p] == d * g[p]
    {
      assert q.Has(hi, p);
    }
    forall p | q.low <= p < hi
      ensures f[p] == d * g[p]
    {
      assert q.Has(hi, p);
    }
    TotalScale(f, g, d, 0, q.leaves);
    TotalScale(f, g, d, q.low, hi);
    Spread(d, Total(g, 0, q.leaves), Total(g, q.low, hi));
  }

  /** Two nodes do not both fit with codes of length 0. */
  lemma NotBothEmpty(L: seq<nat>, scale: nat, q: Queue, hi: nat, x: nat, y: nat)
    requires Fitting(L, scale, q, hi) && q.Has(hi, x) && q.Has(hi, y) && x != y
    ensures L[x] != 0 || L[y] != 0
  {
    if L[x] == 0 && L[y] == 0 {
      var f := Shares(L, scale);
      PendingUpdate(f, x, 0, q, hi);
      PendingUpdate(f[x := 0], y, 0, q, hi);
      PendingNonNegative(f[x := 0][y := 0], q, hi);
    }
  }

  /** Codes for the two lightest nodes x and y can be made equally long, and no shorter than the others, at no cost. */
  lemma Exchange(w: seq<nat>, L: seq<nat>, scale: nat, q: Queue, hi: nat, x: nat, y: nat) returns (K: seq<nat>)
    requires |w| == |L| && Fitting(L, scale, q, hi) && q.Has(hi, x) && q.Has(hi, y) && x != y
    requires w[x] <= w[y] && forall p: nat :: q.Has(hi, p) && p != x && p != y ==> w[y] <= w[p]
    ensures |K| == |L| && Fitting(K, scale, q, hi) && Cost(w, K, q, hi) <= Cost(w, L, q, hi)
    ensures K[x] == K[y] >= 1
  {
    hide Cost, Space, Pow2, Pending;
    var far := hi;
    var m := Longest(L, q, hi, far, x);
    K := Swap(w, L, scale, q, hi, x, m);
    m := Longest(K, q, hi, x, y);
    K := Swap(w, K, scale, q, hi, y, m);
    if K[y] < K[x] {
      Shorten(w, K, scale, q, hi, x, K[y]);
      K := K[x := K[y]];
    }
    NotBothEmpty(K, scale, q, hi, x, y);
  }

  // ----- growing the tree -----

  /** Node hi has been made from the two smallest nodes without a parent. */
  ghost predicate Merged(w: seq<nat>, parent: seq<nat>, q: Queue, r: Queue, hi: nat)
  {
    && hi < |w| && hi < |parent| && NonEmpty(q, hi)
    && var x, rest := Pick(w, q, hi), Without(w, q, hi);
    && NonEmpty(rest, hi)
    && var y := Pick(w, rest, hi);
    && r == Without(w, rest, hi)
    && w[hi] == w[x] + w[y] && parent[x] == hi && parent[y] == hi
  }

  /** n leaves, descending, merged |qs| - 1 times; qs[t] holds the queues after t merges. */
  ghost predicate Growing(w: seq<nat>, parent: seq<nat>, qs: seq<Queue>, n: nat)
  {
    && 2 <= n <= START && 1 <= |qs| <= n && |w| == |parent| == START + n - 1
    && qs[0] == Queue(n, START)
    && (forall i, j :: 0 <= i < j < n ==> w[i] >= w[j])
    && (forall t :: 0 <= t < |qs| - 1 ==> Merged(w, parent, qs[t], qs[t + 1], START + t))
  }

  ghost predicate Grown(w: seq<nat>, parent: seq<nat>, qs: seq<Queue>, n: nat)
  {
    Growing(w, parent, qs, n) && |qs| == n
  }

  /** What holds of the queues after t merges. */
  ghost predicate Stage(w: seq<nat>, q: Queue, n: nat, t: nat)
  {
    && q.Fits(START + t) && START + t <= |w|
    && Sorted(w, q, START + t)
    && q.leaves + (START + t - q.low) == n - t
    && (t > 0 ==> q.low < START + t && forall p: nat :: q.Has(START + t, p) ==> w[START + t - 1] <= 2 * w[p])
  }

  lemma {:induction false} Stages(w: seq<nat>, parent: seq<nat>, qs: seq<Queue>, n: nat, t: nat)
    requires Growing(w, parent, qs, n) && t < |qs|
    ensures Stage(w, qs[t], n, t)
  {
    if t > 0 {
      Stages(w, parent, qs, n, t - 1);
      assert Merged(w, parent, qs[t - 1], qs[t], START + (t - 1));
      NextStage(w, parent, qs[t - 1], qs[t], n, t - 1);
    }
  }

  lemma NextStage(w: seq<nat>, parent: seq<nat>, q: Queue, r: Queue, n: nat, t: nat)
    requires Merged(w, parent, q, r, START + t) && Stage(w, q, n, t) && t + 1 < n
    ensures Stage(w, r, n, t + 1)
  {
    hide Pick, Without;
    var hi := START + t;
    PickSmallest(w, q, hi);
    PickTakes(w, q, hi);
    var rest := Without(w, q, hi);
    PickSmallest(w, rest, hi);
    PickTakes(w, rest, hi);
  }

  /** The two nodes a merge takes, and what is left: the rest and the node made. */
  lemma MergeSum(f: seq<int>, w: seq<nat>, parent: seq<nat>, q: Queue, r: Queue, hi: nat, x: nat, y: nat)
    requires Merged(w, parent, q, r, hi) && hi < |f|
    requires x == Pick(w, q, hi) && y == Pick(w, Without(w, q, hi), hi)
    ensures r.Fits(hi) && r.Fits(hi + 1) && Pending(f, q, hi) == Pending(f, r, hi + 1) - f[hi] + f[x] + f[y]
  {
    PickSum(f, w, q, hi);
    PickSum(f, w, Without(w, q, hi), hi);
  }

  lemma MergeHas(w: seq<nat>, parent: seq<nat>, q: Queue, r: Queue, hi: nat, x: nat, y: nat)
    requires Merged(w, parent, q, r, hi) && Sorted(w, q, hi)
    requires x == Pick(w, q, hi) && y == Pick(w, Without(w, q, hi), hi)
    ensures q.Has(hi, x) && q.Has(hi, y) && x != y && x < hi && y < hi && r.Fits(hi + 1)
    ensures forall p: nat :: r.Has(hi + 1, p) <==> (p == hi || (q.Has(hi, p) && p != x && p != y))
    ensures w[x] <= w[y] && forall p: nat :: q.Has(hi, p) && p != x && p != y ==> w[y] <= w[p]
  {
    PickSmallest(w, q, hi);
    PickTakes(w, q, hi);
    var rest := Without(w, q, hi);
    PickSmallest(w, rest, hi);
    PickTakes(w, rest, hi);
    assert r == Without(w, rest, hi);
    forall p: nat
      ensures r.Has(hi + 1, p) <==> (p == hi || (q.Has(hi, p) && p != x && p != y))
    {
      assert q.Has(hi, p) <==> (rest.Has(hi, p) || p == x);
      assert rest.Has(hi, p) <==> (r.Has(hi, p) || p == y);
    }
  }

  /** Lengths for the nodes before a merge give lengths for those after it, and save the weight merged. */
  lemma MergeLengths(w: seq<nat>, parent: seq<nat>, q: Queue, r: Queue, hi: nat, L: seq<nat>, scale: nat)
    returns (K: seq<nat>)
    requires Merged(w, parent, q, r, hi) && Sorted(w, q, hi)
    requires |w| == |L| && Fitting(L, scale, q, hi)
    ensures |K| == |L| && Fitting(K, scale, r, hi + 1)
    ensures Cost(w, L, q, hi) >= Cost(w, K, r, hi + 1) + w[hi]
  {
    var x, y := Pick(w, q, hi), Pick(w, Without(w, q, hi), hi);
    MergeHas(w, parent, q, r, hi, x, y);
    assert w[hi] == w[x] + w[y];
    hide Merged, Sorted, Pending, Pow2;
    var M := Exchange(w, L, scale, q, hi, x, y);
    K := M[hi := M[x] - 1];
    MergeSum(Products(w, K), w, parent, q, r, hi, x, y);
    MergeSum(Shares(K, scale), w, parent, q, r, hi, x, y);
    SamePending(Products(w, M), Products(w, K), q, hi);
    SamePending(Shares(M, scale), Shares(K, scale), q, hi);
    TwiceHalf(scale - K[hi]);
    SavedWeight(w[x], w[y], K[hi]);
  }

  lemma SavedWeight(a: int, b: int, len: int)
    ensures a * (len + 1) + b * (len + 1) - (a + b) * len == a + b
  {
  }

  lemma SamePending(f: seq<int>, g: seq<int>, q: Queue, hi: nat)
    requires q.Fits(hi) && hi <= |f| == |g| && forall i :: 0 <= i < hi ==> f[i] == g[i]
    ensures Pending(f, q, hi) == Pending(g, q, hi)
  {
    TotalSame(f, g, 0, q.leaves);
    TotalSame(f, g, q.low, hi);
  }

  /** No lengths for the nodes without a parent cost less than the weight still to be merged. */
  lemma {:induction false} LowerBound(w: seq<nat>, parent: seq<nat>, qs: seq<Queue>, n: nat, t: nat, L: seq<nat>,
                                      scale: nat)
    requires Grown(w, parent, qs, n) && t < n && |L| == |w| && Fitting(L, scale, qs[t], START + t)
    ensures Cost(w, L, qs[t], START + t) >= Total(w, START + t, START + n - 1)
    decreases n - t
  {
    hide Space, Pending, Merged;
    if t + 1 < n {
      Stages(w, parent, qs, n, t);
      assert Merged(w, parent, qs[t], qs[t + 1], START + t);
      hide Cost, Fitting, Sorted;
      var K := MergeLengths(w, parent, qs[t], qs[t + 1], START + t, L, scale);
      LowerBound(w, parent, qs, n, t + 1, K, scale);
      TotalFront(w, START + t, START + n - 1);
    } else {
      PendingNonNegative(Products(w, L), qs[t], START + t);
    }
  }

  // ----- the order in which nodes get their parents -----

  /** What one merge takes off the ends of the two queues. */
  lemma MergeTakes(w: seq<nat>, parent: seq<nat>, q: Queue, r: Queue, hi: nat)
    requires Merged(w, parent, q, r, hi)
    ensures r.leaves <= q.leaves && q.low <= r.low <= hi
    ensures forall i :: r.leaves <= i < q.leaves ==> parent[i] == hi
    ensures forall v :: q.low <= v < r.low ==> parent[v] == hi
  {
  }

  lemma {:induction false} QueuesShrink(w: seq<nat>, parent: seq<nat>, qs: seq<Queue>, n: nat, s: nat, t: nat)
    requires Growing(w, parent, qs, n) && s <= t < |qs|
    ensures qs[t].leaves <= qs[s].leaves && qs[s].low <= qs[t].low
    decreases t
  {
    hide Merged;
    if s < t {
      QueuesShrink(w, parent, qs, n, s, t - 1);
      assert Merged(w, parent, qs[t - 1], qs[t], START + (t - 1));
      MergeTakes(w, parent, qs[t - 1], qs[t], START + (t - 1));
    }
  }

  /** In the end only the root is left. */
  lemma LastStage(w: seq<nat>, parent: seq<nat>, qs: seq<Queue>, n: nat)
    requires Grown(w, parent, qs, n)
    ensures qs[n - 1] == Queue(0, START + n - 2)
  {
    Stages(w, parent, qs, n, n - 1);
  }

  /** The merge that takes leaf i. */
  lemma {:induction false} LeafTaken(w: seq<nat>, parent: seq<nat>, qs: seq<Queue>, n: nat, i: nat, last: nat)
    returns (t: nat)
    requires Grown(w, parent, qs, n) && last < n && qs[last].leaves <= i < n
    ensures t < last && qs[t + 1].leaves <= i < qs[t].leaves && parent[i] == START + t
  {
    hide Merged;
    if i < qs[last - 1].leaves {
      t := last - 1;
      assert Merged(w, parent, qs[t], qs[t + 1], START + t);
      MergeTakes(w, parent, qs[t], qs[t + 1], START + t);
    } else {
      t := LeafTaken(w, parent, qs, n, i, last - 1);
    }
  }

  /** The merge that takes a node made before. */
  lemma {:induction false} NodeTaken(w: seq<nat>, parent: seq<nat>, qs: seq<Queue>, n: nat, v: nat, last: nat)
    returns (t: nat)
    requires Grown(w, parent, qs, n) && last < n && START <= v < qs[last].low
    ensures t < last && qs[t].low <= v < qs[t + 1].low && parent[v] == START + t && v < START + t
  {
    hide Merged;
    if qs[last - 1].low <= v {
      t := last - 1;
      assert Merged(w, parent, qs[t], qs[t + 1], START + t);
      MergeTakes(w, parent, qs[t], qs[t + 1], START + t);
    } else {
      t := NodeTaken(w, parent, qs, n, v, last - 1);
    }
  }

  lemma LeafParents(w: seq<nat>, parent: seq<nat>, qs: seq<Queue>, n: nat, i: nat, j: nat)
    requires Grown(w, parent, qs, n) && i <= j < n
    ensures START <= parent[j] <= parent[i] < START + n - 1
  {
    hide Merged;
    LastStage(w, parent, qs, n);
    var s := LeafTaken(w, parent, qs, n, i, n - 1);
    var t := LeafTaken(w, parent, qs, n, j, n - 1);
    if s < t {
      QueuesShrink(w, parent, qs, n, s + 1, t);
    }
  }

  lemma NodeParents(w: seq<nat>, parent: seq<nat>, qs: seq<Queue>, n: nat, u: nat, v: nat)
    requires Grown(w, parent, qs, n) && START <= u <= v < START + n - 2
    ensures u < parent[u] <= parent[v] < START + n - 1 && v < parent[v]
  {
    hide Merged;
    LastStage(w, parent, qs, n);
    var s := NodeTaken(w, parent, qs, n, u, n - 1);
    var t := NodeTaken(w, parent, qs, n, v, n - 1);
    if t < s {
      QueuesShrink(w, parent, qs, n, t + 1, s);
    }
  }

  // ----- depths -----

  /** d gives every node its distance from the root, the node made last. */
  ghost predicate Depths(parent: seq<nat>, d: seq<nat>, n: nat)
  {
    && 2 <= n <= START && |d| == |parent| == START + n - 1
    && d[START + n - 2] == 0
    && (forall p :: (0 <= p < n || START <= p < START + n - 2) ==> parent[p] < |d| && d[p] == d[parent[p]] + 1)
  }

  lemma {:induction false} NodeDepths(w: seq<nat>, parent: seq<nat>, qs: seq<Queue>, n: nat, d: seq<nat>, u: nat,
                                      v: nat)
    requires Grown(w, parent, qs, n) && Depths(parent, d, n) && START <= u <= v < START + n - 1
    ensures d[v] <= d[u] <= START + n - 2 - u
    decreases START + n - u
  {
    hide Grown;
    if u < START + n - 2 {
      NodeParents(w, parent, qs, n, u, u);
      if v < START + n - 2 {
        NodeParents(w, parent, qs, n, u, v);
        NodeDepths(w, parent, qs, n, d, parent[u], parent[v]);
      } else {
        NodeDepths(w, parent, qs, n, d, parent[u], parent[u]);
      }
    }
  }

  /** Heavier leaves are no deeper, and no leaf is deeper than n - 1. */
  lemma LeafDepths(w: seq<nat>, parent: seq<nat>, qs: seq<Queue>, n: nat, d: seq<nat>, i: nat, j: nat)
    requires Grown(w, parent, qs, n) && Depths(parent, d, n) && i <= j < n
    ensures 1 <= d[i] <= d[j] <= n - 1
  {
    hide Grown;
    LeafParents(w, parent, qs, n, i, j);
    NodeDepths(w, parent, qs, n, d, parent[j], parent[i]);
  }

  /** The depths of the nodes without a parent fill the space exactly and cost the weight still to be merged. */
  lemma {:induction false} DepthSums(w: seq<nat>, parent: seq<nat>, qs: seq<Queue>, n: nat, t: nat, d: seq<nat>)
    requires Grown(w, parent, qs, n) && Depths(parent, d, n) && t < n
    ensures qs[t].Fits(START + t)
    ensures Space(d, n, qs[t], START + t) == Pow2(n)
    ensures Cost(w, d, qs[t], START + t) == Total(w, START + t, START + n - 1)
    decreases n - t
  {
    hide Pending, Merged, Pow2;
    Stages(w, parent, qs, n, t);
    if t + 1 < n {
      DepthSums(w, parent, qs, n, t + 1, d);
      assert Merged(w, parent, qs[t], qs[t + 1], START + t);
      hide Space, Cost;
      MergeDepths(w, parent, qs, n, t, d);
      TotalFront(w, START + t, START + n - 1);
    } else {
      LastStage(w, parent, qs, n);
      RootSums(w, d, n);
    }
  }

  lemma RootSums(w: seq<nat>, d: seq<nat>, n: nat)
    requires n >= 2 && |w| == |d| == START + n - 1 && d[START + n - 2] == 0
    ensures Space(d, n, Queue(0, START + n - 2), START + n - 1) == Pow2(n)
    ensures Cost(w, d, Queue(0, START + n - 2), START + n - 1) == 0
  {
    TotalOne(Shares(d, n), START + n - 2);
    TotalOne(Products(w, d), START + n - 2);
  }

  lemma TotalOne(f: seq<int>, p: nat)
    requires p < |f|
    ensures Total(f, p, p + 1) == f[p] && Total(f, 0, 0) == 0
  {
  }

  lemma MergeDepths(w: seq<nat>, parent: seq<nat>, qs: seq<Queue>, n: nat, t: nat, d: seq<nat>)
    requires Grown(w, parent, qs, n) && Depths(parent, d, n) && t + 1 < n
    requires Stage(w, qs[t], n, t) && Merged(w, parent, qs[t], qs[t + 1], START + t)
    ensures qs[t + 1].Fits(START + t + 1)
    ensures Space(d, n, qs[t], START + t) == Space(d, n, qs[t + 1], START + t + 1)
    ensures Cost(w, d, qs[t], START + t) == Cost(w, d, qs[t + 1], START + t + 1) + w[START + t]
  {
    hide Pending, Pow2;
    var q, r, hi := qs[t], qs[t + 1], START + t;
    var x, y := Pick(w, q, hi), Pick(w, Without(w, q, hi), hi);
    MergeHas(w, parent, q, r, hi, x, y);
    MergeSum(Shares(d, n), w, parent, q, r, hi, x, y);
    MergeSum(Products(w, d), w, parent, q, r, hi, x, y);
    assert q.leaves <= n by {
      QueuesShrink(w, parent, qs, n, 0, t);
    }
    assert d[x] == d[hi] + 1 && d[y] == d[hi] + 1;
    assert w[hi] == w[x] + w[y];
    NodeDepths(w, parent, qs, n, d, hi, hi);
    hide *;
    ShareHalves(d, n, x, y, hi);
    ProductsAt(w, d, x);
    ProductsAt(w, d, y);
    ProductsAt(w, d, hi);
    SavedWeight(w[x], w[y], d[hi]);
  }

  lemma ShareHalves(d: seq<nat>, scale: nat, x: nat, y: nat, hi: nat)
    requires x < |d| && y < |d| && hi < |d| && d[x] == d[y] == d[hi] + 1 <= scale
    ensures Shares(d, scale)[x] + Shares(d, scale)[y] == Shares(d, scale)[hi]
  {
  }

  lemma ProductsAt(w: seq<nat>, d: seq<nat>, p: nat)
    requires p < |w| == |d|
    ensures Products(w, d)[p] == w[p] * d[p]
  {
  }

  // ----- the lengths of the leaves -----

  lemma {:induction false} LeafSpace(L: seq<nat>, n: nat, scale: nat)
    requires n <= |L|
    ensures Total(Shares(L, scale), 0, n) == Sum(L[..n], scale)
  {
    hide Share;
    if n > 0 {
      LeafSpace(L, n - 1, scale);
      assert L[..n][..n - 1] == L[..n - 1];
    }
  }

  lemma {:induction false} LeafCost(w: seq<nat>, L: seq<nat>, n: nat)
    requires n <= |L| == |w|
    ensures Total(Products(w, L), 0, n) == Weighted(w[..n], L[..n])
  {
    if n > 0 {
      LeafCost(w, L, n - 1);
      assert L[..n][..n - 1] == L[..n - 1] && w[..n][..n - 1] == w[..n - 1];
    }
  }

  lemma FirstQueue(w: seq<nat>, L: seq<nat>, n: nat, scale: nat)
    requires n <= START <= |w| == |L|
    ensures Cost(w, L, Queue(n, START), START) == Weighted(w[..n], L[..n])
    ensures Space(L, scale, Queue(n, START), START) == Sum(L[..n], scale)
  {
    hide Share;
    LeafSpace(L, n, scale);
    LeafCost(w, L, n);
    assert Total(Shares(L, scale), START, START) == 0 == Total(Products(w, L), START, START);
  }

  /** The depths of the leaves are the lengths of a complete prefix code, shorter for heavier leaves. */
  lemma TreeIsComplete(w: seq<nat>, parent: seq<nat>, qs: seq<Queue>, n: nat, d: seq<nat>)
    requires Grown(w, parent, qs, n) && Depths(parent, d, n)
    ensures CompleteCode(d[..n], d[n - 1])
  {
    DepthSums(w, parent, qs, n, 0, d);
    FirstQueue(w, d, n, n);
    forall i, j | 0 <= i <= j < n
      ensures 1 <= d[i] <= d[j] <= n - 1
    {
      LeafDepths(w, parent, qs, n, d, i, j);
    }
    var largest := d[n - 1];
    var b := d[..n];
    assert Ascending(b);
    assert forall i :: 0 <= i < |b| ==> 1 <= b[i] <= largest;
    SumScale(b, n - largest, largest);
    Pow2Add(n - largest, largest);
    assert Sum(b, n) == Pow2(n);
    CancelFactor(Pow2(n - largest), Sum(b, largest), Pow2(largest));
  }

  lemma CancelFactor(a: int, x: int, y: int)
    requires a > 0 && a * x == a * y
    ensures x == y
  {
    Spread(a, x - y, y);
    MulCommutes(a, x - y);
    MulAtLeast(x - y, a);
  }

  /** No prefix code for the leaves takes fewer bits than the depths do. */
  lemma TreeIsOptimal(w: seq<nat>, parent: seq<nat>, qs: seq<Queue>, n: nat, d: seq<nat>, lengths: seq<nat>, scale: nat)
    requires Grown(w, parent, qs, n) && Depths(parent, d, n)
    requires |lengths| == n && (forall i :: 0 <= i < n ==> lengths[i] <= scale) && Sum(lengths, scale) <= Pow2(scale)
    ensures Weighted(w[..n], d[..n]) <= Weighted(w[..n], lengths)
  {
    var L: seq<nat> := lengths + d[n..];
    assert L[..n] == lengths;
    DepthSums(w, parent, qs, n, 0, d);
    FirstQueue(w, d, n, n);
    FirstQueue(w, L, n, scale);
    hide Cost, Space, Pending;
    LowerBound(w, parent, qs, n, 0, L, scale);
  }

  // ----- growing the tree step by step -----

  /** A merge on the spot: the next node gets its weight, the two nodes get their parent. */
  lemma GrowStep(w: seq<nat>, parent: seq<nat>, qs: seq<Queue>, n: nat, q: Queue, x: nat, y: nat, w1: seq<nat>,
                 parent1: seq<nat>)
    requires Growing(w, parent, qs, n) && |qs| < n && q == qs[|qs| - 1]
    requires NextMerge(w, q, START + |qs| - 1, x, y)
    requires w1 == w[START + |qs| - 1 := w[x] + w[y]]
    requires x < |parent| && y < |parent| && parent1 == parent[x := START + |qs| - 1][y := START + |qs| - 1]
    ensures Growing(w1, parent1, qs + [AfterMerge(w, q, START + |qs| - 1)], n)
  {
    var hi := START + |qs| - 1;
    var r := AfterMerge(w, q, hi);
    NewMerge(w, parent, q, hi, x, y);
    var qs1 := qs + [r];
    forall t | 0 <= t < |qs|
      ensures Merged(w1, parent1, qs1[t], qs1[t + 1], START + t)
    {
      if t < |qs| - 1 {
        MergeKept(w, parent, qs, n, t, q, x, y, w1, parent1);
      }
    }
    hide Merged, Pick, Without;
  }

  /** x and y are the nodes to merge next. */
  ghost predicate NextMerge(w: seq<nat>, q: Queue, hi: nat, x: nat, y: nat)
  {
    && hi < |w| && NonEmpty(q, hi) && NonEmpty(Without(w, q, hi), hi)
    && x == Pick(w, q, hi) && y == Pick(w, Without(w, q, hi), hi)
  }

  ghost function AfterMerge(w: seq<nat>, q: Queue, hi: nat): Queue
    requires hi < |w| && NonEmpty(q, hi) && NonEmpty(Without(w, q, hi), hi)
  {
    Without(w, Without(w, q, hi), hi)
  }

  lemma MergeKept(w: seq<nat>, parent: seq<nat>, qs: seq<Queue>, n: nat, t: nat, q: Queue, x: nat, y: nat, w1: seq<nat>,
                  parent1: seq<nat>)
    requires Growing(w, parent, qs, n) && t + 1 < |qs| < n && q == qs[|qs| - 1]
    requires NextMerge(w, q, START + |qs| - 1, x, y)
    requires w1 == w[START + |qs| - 1 := w[x] + w[y]]
    requires x < |parent| && y < |parent| && parent1 == parent[x := START + |qs| - 1][y := START + |qs| - 1]
    ensures Merged(w1, parent1, qs[t], qs[t + 1], START + t)
  {
    hide Merged, Growing, NextMerge, Pick, Without, Stage, Sorted;
    GrowingMerged(w, parent, qs, n, t);
    QueuesShrink(w, parent, qs, n, t + 1, |qs| - 1);
    NewMerge(w, parent, q, START + |qs| - 1, x, y);
    MergedFrame(w, parent, w1, parent1, qs[t], qs[t + 1], START + t, q);
  }

  lemma GrowingMerged(w: seq<nat>, parent: seq<nat>, qs: seq<Queue>, n: nat, t: nat)
    requires Growing(w, parent, qs, n) && t + 1 < |qs|
    ensures Merged(w, parent, qs[t], qs[t + 1], START + t) && |w| == |parent|
  {
  }

  lemma NewMerge(w: seq<nat>, parent: seq<nat>, q: Queue, hi: nat, x: nat, y: nat)
    requires NextMerge(w, q, hi, x, y) && |w| == |parent|
    ensures q.Has(hi, x) && q.Has(hi, y) && x < hi && y < hi
    ensures x < q.leaves || q.low <= x
    ensures y < q.leaves || q.low <= y
    ensures Merged(w[hi := w[x] + w[y]], parent[x := hi][y := hi], q, AfterMerge(w, q, hi), hi)
  {
  }

  lemma MergedFrame(w: seq<nat>, parent: seq<nat>, w1: seq<nat>, parent1: seq<nat>, q: Queue, r: Queue, hi: nat,
                    now: Queue)
    requires Merged(w, parent, q, r, hi) && |w1| == |w| && |parent1| == |parent|
    requires forall i :: 0 <= i <= hi ==> w1[i] == w[i]
    requires now.leaves <= r.leaves && r.low <= now.low
    requires forall i :: now.leaves <= i < now.low && i < |parent| ==> parent1[i] == parent[i]
    ensures Merged(w1, parent1, q, r, hi)
  {
  }

  lemma GrownSize(w: seq<nat>, parent: seq<nat>, qs: seq<Queue>, n: nat)
    requires Grown(w, parent, qs, n)
    ensures 2 <= n <= START && |w| == |parent| == START + n - 1
  {
  }
}
