/** How deep a Huffman tree can get: every level takes a Fibonacci number of occurrences. */
module HufDepth {
  import opened Bits
  import opened HufTree

  /** The largest sum of counts in a block, and the depth it limits the tree to. */
  const BLOCK_SUM := 0x2_0000
  const BLOCK_DEPTH := 24

  function Fibonacci(k: nat): nat
  {
    if k < 2 then k else Fibonacci(k - 1) + Fibonacci(k - 2)
  }

  lemma {:induction false} FibonacciMonotone(k: nat, m: nat)
    requires k <= m
    ensures Fibonacci(k) <= Fibonacci(m)
  {
    if k < m {
      FibonacciMonotone(k, m - 1);
    }
  }

  // ----- a node is no heavier than its parent's sibling -----

  /** The merge that takes node g. */
  lemma Taken(w: seq<nat>, parent: seq<nat>, qs: seq<Queue>, n: nat, g: nat) returns (s: nat)
    requires Grown(w, parent, qs, n) && (g < n || START <= g < START + n - 2)
    ensures s < n - 1 && parent[g] == START + s
    ensures qs[s].Has(START + s, g) && !qs[s + 1].Has(START + s + 1, g)
  {
    hide Merged;
    LastStage(w, parent, qs, n);
    if g < n {
      s := LeafTaken(w, parent, qs, n, g, n - 1);
    } else {
      s := NodeTaken(w, parent, qs, n, g, n - 1);
    }
    Stages(w, parent, qs, n, s + 1);
  }

  /** The two nodes of a merge. */
  lemma Pair(w: seq<nat>, parent: seq<nat>, qs: seq<Queue>, n: nat, s: nat) returns (x: nat, y: nat)
    requires Grown(w, parent, qs, n) && s < n - 1
    ensures START + s < |w| && x < START + s && y < START + s && w[START + s] == w[x] + w[y] && w[x] <= w[y]
    ensures qs[s].Has(START + s, x) && qs[s].Has(START + s, y) && x != y
    ensures var q, r, hi, next := qs[s], qs[s + 1], START + s, START + s + 1;
            && (forall p: nat :: r.Has(next, p) <==> p == hi || (q.Has(hi, p) && p != x && p != y))
            && (forall p: nat :: q.Has(hi, p) && p != x && p != y ==> p < |w| && w[y] <= w[p])
    ensures qs[s].Fits(START + s) && Sorted(w, qs[s], START + s)
  {
    Stages(w, parent, qs, n, s);
    assert Merged(w, parent, qs[s], qs[s + 1], START + s);
    x := Pick(w, qs[s], START + s);
    y := Pick(w, Without(w, qs[s], START + s), START + s);
    MergeHas(w, parent, qs[s], qs[s + 1], START + s, x, y);
  }

  /** The sibling of c weighs as much as a child g of c at least: it was there when g was taken, or made after c. */
  lemma SiblingOutweighs(w: seq<nat>, parent: seq<nat>, qs: seq<Queue>, n: nat, g: nat)
    requires Grown(w, parent, qs, n) && (g < n || START <= g < START + n - 2)
    requires g < |parent| && START <= parent[g] < START + n - 2
    ensures |w| == |parent| && parent[g] < |parent| && parent[parent[g]] < |w|
    ensures w[parent[parent[g]]] >= w[parent[g]] + w[g]
  {
    hide Growing, Sorted;
    GrownSize(w, parent, qs, n);
    var s := Taken(w, parent, qs, n, g);
    var c := parent[g];
    var t := Taken(w, parent, qs, n, c);
    var x, y := Pair(w, parent, qs, n, s);
    assert w[c] >= w[g] && (g == x || g == y);
    NodeParents(w, parent, qs, n, c, c);
    var a, b := Pair(w, parent, qs, n, t);
    var o := if c == a then b else a;
    QueuesShrink(w, parent, qs, n, s + 1, t);
    if o <= c || o < qs[t].leaves {
      assert qs[s + 1].Has(START + s + 1, o);
    } else {
      LaterIsHeavier(w, qs[t], START + t, c, o);
    }
  }

  lemma LaterIsHeavier(w: seq<nat>, q: Queue, hi: nat, c: nat, o: nat)
    requires q.Fits(hi) && hi <= |w| && Sorted(w, q, hi) && q.low <= c < o < hi
    ensures w[c] <= w[o]
  {
  }

  // ----- the weight of the root -----

  /** Merging keeps the weight of the nodes without a parent. */
  lemma {:induction false} WeightKept(w: seq<nat>, parent: seq<nat>, qs: seq<Queue>, n: nat, t: nat)
    requires Grown(w, parent, qs, n) && t < n
    ensures START + t <= |w| && qs[t].Fits(START + t) && Pending(w, qs[t], START + t) == Total(w, 0, n)
  {
    hide Pending, Merged;
    Stages(w, parent, qs, n, t);
    if t == 0 {
      AllLeaves(w, n);
    } else {
      WeightKept(w, parent, qs, n, t - 1);
      Stages(w, parent, qs, n, t - 1);
      assert Merged(w, parent, qs[t - 1], qs[t], START + (t - 1));
      OneMerge(w, parent, qs[t - 1], qs[t], START + (t - 1));
    }
  }

  lemma AllLeaves(w: seq<nat>, n: nat)
    requires n <= START <= |w|
    ensures Pending(w, Queue(n, START), START) == Total(w, 0, n)
  {
    assert Total(w, START, START) == 0;
  }

  lemma OneMerge(w: seq<nat>, parent: seq<nat>, q: Queue, r: Queue, hi: nat)
    requires Merged(w, parent, q, r, hi)
    ensures r.Fits(hi + 1) && Pending(w, r, hi + 1) == Pending(w, q, hi)
  {
    hide Pending;
    MergeSum(w, w, parent, q, r, hi, Pick(w, q, hi), Pick(w, Without(w, q, hi), hi));
  }

  lemma RootWeighs(w: seq<nat>, parent: seq<nat>, qs: seq<Queue>, n: nat)
    requires Grown(w, parent, qs, n)
    ensures START + n - 2 < |w| && w[START + n - 2] == Total(w, 0, n)
  {
    LastStage(w, parent, qs, n);
    WeightKept(w, parent, qs, n, n - 1);
    assert Total(w, START + n - 2, START + n - 1) == Total(w, START + n - 2, START + n - 2) + w[START + n - 2];
  }

  // ----- the depth -----

  /** Above a node g and its parent the weights grow at least like the Fibonacci numbers. */
  lemma {:induction false} WeightsGrow(w: seq<nat>, parent: seq<nat>, qs: seq<Queue>, n: nat, d: seq<nat>, g: nat)
    requires Grown(w, parent, qs, n) && Depths(parent, d, n) && (g < n || START <= g < START + n - 2)
    ensures |w| == |d| == START + n - 1 && parent[g] < |d|
    ensures var k := d[parent[g]];
            w[START + n - 2] >= Fibonacci(k + 1) * w[parent[g]] + Fibonacci(k) * w[g]
    decreases d[g]
  {
    hide Growing, Fibonacci;
    GrownSize(w, parent, qs, n);
    var s := Taken(w, parent, qs, n, g);
    var c := parent[g];
    var k := d[c];
    if c == START + n - 2 {
      FirstFibonacci();
    } else {
      WeightsGrow(w, parent, qs, n, d, c);
      SiblingOutweighs(w, parent, qs, n, g);
      NextFibonacci(k);
      OneMore(Fibonacci(k - 1), Fibonacci(k), w[g], w[c], w[parent[c]], w[START + n - 2]);
    }
  }

  lemma FirstFibonacci()
    ensures Fibonacci(0) == 0 && Fibonacci(1) == 1
  {
  }

  lemma NextFibonacci(k: nat)
    ensures k >= 1 ==> Fibonacci(k + 1) == Fibonacci(k) + Fibonacci(k - 1)
  {
  }

  lemma OneMore(f0: nat, f1: nat, g: nat, c: nat, p: nat, root: nat)
    requires p >= c + g && root >= f1 * p + f0 * c
    ensures root >= (f1 + f0) * c + f1 * g
  {
    hide *;
    MulMono(c + g, p, f1);
    assert f1 * (c + g) == f1 * c + f1 * g;
    assert (f1 + f0) * c == f1 * c + f0 * c;
  }

  /** A tree of depth k over leaves that all occur weighs at least the Fibonacci number of k + 2. */
  lemma DepthNeedsWeight(w: seq<nat>, parent: seq<nat>, qs: seq<Queue>, n: nat, d: seq<nat>)
    requires Grown(w, parent, qs, n) && Depths(parent, d, n) && |w| > n - 1 && w[n - 1] > 0
    ensures n - 1 < |d| && Fibonacci(d[n - 1] + 2) <= Total(w, 0, n)
  {
    hide Fibonacci;
    FirstMerge(w, parent, qs, n);
    RootWeighs(w, parent, qs, n);
    WeightsGrow(w, parent, qs, n, d, n - 1);
    var k := d[START];
    NextFibonacci(k + 1);
    NextFibonacci(k + 2);
    MulMono(2, w[START], Fibonacci(k + 1));
    MulMono(1, w[n - 1], Fibonacci(k));
  }

  /** The first merge takes the last two leaves. */
  lemma FirstMerge(w: seq<nat>, parent: seq<nat>, qs: seq<Queue>, n: nat)
    requires Grown(w, parent, qs, n) && |w| > n - 1 && w[n - 1] > 0
    ensures |w| == |parent| > START && parent[n - 1] == START && w[START] >= 2
  {
    assert Merged(w, parent, qs[0], qs[1], START + 0);
  }

  /** In one block no symbol is deeper than 24. */
  lemma DepthInBlock(depth: nat, sum: nat)
    requires Fibonacci(depth + 2) <= sum <= BLOCK_SUM
    ensures depth <= BLOCK_DEPTH
  {
    hide Fibonacci;
    if depth > BLOCK_DEPTH {
      FibonacciMonotone(BLOCK_DEPTH + 3, depth + 2);
      FibonacciOf27();
    }
  }

  lemma FibonacciOf27()
    ensures Fibonacci(27) == 196418
  {
    assert Fibonacci(9) == 34 && Fibonacci(10) == 55;
    assert Fibonacci(12) == 144 && Fibonacci(13) == 233;
    assert Fibonacci(15) == 610 && Fibonacci(16) == 987;
    assert Fibonacci(18) == 2584 && Fibonacci(19) == 4181;
    assert Fibonacci(21) == 10946 && Fibonacci(22) == 17711;
    assert Fibonacci(24) == 46368 && Fibonacci(25) == 75025;
  }
}
