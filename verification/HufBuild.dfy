/** HUF_buildTree: grows the Huffman tree of a sorted node array and measures the depth of its leaves. */
module HufBuild {
  import opened Bits
  import opened Kraft
  import opened PrefixCode
  import opened HufNodes
  import opened HufTree
  import HufDepth
  import opened Histogram

  /** The count of nodes not made yet. */
  const NOT_MADE := 0x4000_0000
  /** The count in front of the leaves. */
  const BARRIER := 0x8000_0000

  ghost function CountSum(counts: seq<nat>): nat
  {
    SumTo(counts, |counts|)
  }

  lemma {:induction false} LeafSum(w: seq<nat>, n: nat)
    requires n <= |w|
    ensures Total(w, 0, n) == CountSum(w[..n])
  {
    if n > 0 {
      LeafSum(w, n - 1);
      SumSame(w[..n], w[..n - 1], n - 1);
    }
  }

  /** The tree after t merges: the made nodes weigh as much as the leaves below them, so less than NOT_MADE. */
  ghost predicate Midway(w: seq<nat>, parent: seq<nat>, qs: seq<Queue>, n: nat, t: nat)
  {
    && Growing(w, parent, qs, n) && |qs| == t + 1
    && qs[t].Fits(START + t)
    && Pending(w, qs[t], START + t) == Total(w, 0, n) < NOT_MADE
    && (forall i :: START + t <= i < |w| ==> w[i] == NOT_MADE)
  }

  lemma HeavierThanPart(w: seq<nat>, q: Queue, hi: nat, p: nat)
    requires q.Fits(hi) && hi <= |w| && q.Has(hi, p)
    ensures w[p] <= Pending(w, q, hi)
  {
    PendingUpdate(w, p, 0, q, hi);
    var rest: seq<int> := w[p := 0];
    PendingNonNegative(rest, q, hi);
  }

  /** What the comparison of the two queue ends in the source chooses. */
  predicate TakeLeaf(w: seq<nat>, lowS: int, lowN: nat)
    requires lowS < |w| && lowN < |w| && -1 <= lowS
  {
    (if lowS >= 0 then w[lowS] else BARRIER) < w[lowN]
  }

  /** The sentinels make the plain comparison choose from the queues as if their ends were known. */
  lemma SentinelsChoose(w: seq<nat>, q: Queue, hi: nat)
    requires NonEmpty(q, hi) && hi < |w| && w[hi] == NOT_MADE && Pending(w, q, hi) < NOT_MADE
    ensures q.low < |w| && q.leaves - 1 < |w|
    ensures TakeLeaf(w, q.leaves - 1, q.low) == LeafFirst(w, q, hi)
  {
    if q.leaves > 0 {
      HeavierThanPart(w, q, hi, q.leaves - 1);
    }
    if q.low < hi {
      HeavierThanPart(w, q, hi, q.low);
    }
  }

  /** The two queues always have two nodes to merge, and the plain comparisons find the smallest. */
  lemma NextPicks(w: seq<nat>, parent: seq<nat>, qs: seq<Queue>, n: nat, t: nat)
    requires Midway(w, parent, qs, n, t) && t + 1 < n
    ensures var q, hi := qs[t], START + t;
            && NonEmpty(q, hi) && q.Fits(hi) && hi < |w| && q.low < |w| && q.leaves - 1 < |w|
            && TakeLeaf(w, q.leaves - 1, q.low) == LeafFirst(w, q, hi)
            && var rest := Without(w, q, hi);
            && NonEmpty(rest, hi) && rest.Fits(hi) && rest.low < |w| && rest.leaves - 1 < |w|
            && TakeLeaf(w, rest.leaves - 1, rest.low) == LeafFirst(w, rest, hi)
  {
    var q, hi := qs[t], START + t;
    Stages(w, parent, qs, n, t);
    hide Pending, Growing;
    SentinelsChoose(w, q, hi);
    PickSum(w, w, q, hi);
    SentinelsChoose(w, Without(w, q, hi), hi);
  }

  lemma MidwayStep(w: seq<nat>, parent: seq<nat>, qs: seq<Queue>, n: nat, t: nat, x: nat, y: nat, w1: seq<nat>,
                   parent1: seq<nat>)
    requires Midway(w, parent, qs, n, t) && t + 1 < n
    requires NextMerge(w, qs[t], START + t, x, y)
    requires w1 == w[START + t := w[x] + w[y]]
    requires x < |parent| && y < |parent| && parent1 == parent[x := START + t][y := START + t]
    ensures Midway(w1, parent1, qs + [AfterMerge(w, qs[t], START + t)], n, t + 1)
  {
    var q, hi := qs[t], START + t;
    var r := AfterMerge(w, q, hi);
    GrowStep(w, parent, qs, n, q, x, y, w1, parent1);
    NewMerge(w, parent, q, hi, x, y);
    hide Growing, Pending;
    MergeSum(w1, w1, parent1, q, r, hi, x, y);
    SamePending(w, w1, q, hi);
    TotalSame(w, w1, 0, n);
  }

  /** The weights before the first merge. */
  ghost function Unmade(nodes: seq<Node>, n: nat): (w: seq<nat>)
    requires START <= |nodes| && n >= 2
    ensures |w| == START + n - 1
    ensures forall i :: 0 <= i < |w| ==> w[i] == if i < START then nodes[i].count else NOT_MADE
  {
    Counts(nodes, START) + seq(n - 1, i => NOT_MADE)
  }

  /** The nodes hold the weights and the parents. */
  ghost predicate Holds(nodes: seq<Node>, w: seq<nat>, parent: seq<nat>)
  {
    |w| == |parent| <= |nodes| && Counts(nodes, |w|) == w && Parents(nodes, |w|) == parent
  }

  /** Of the leaves only the parents have changed, and of those only the first n. */
  ghost predicate LeavesKept(nodes: seq<Node>, before: seq<Node>, n: nat)
  {
    && n <= START <= |nodes| == |before|
    && (forall i :: 0 <= i < n ==> nodes[i] == before[i].(parent := nodes[i].parent))
    && (forall i :: n <= i < START ==> nodes[i] == before[i])
  }

  lemma BeforeFirst(nodes: seq<Node>, n: nat)
    requires |nodes| == 2 * START - 1 && 2 <= n <= START
    requires forall i, j :: 0 <= i < j < n ==> nodes[i].count >= nodes[j].count
    requires CountSum(Counts(nodes, n)) < NOT_MADE
    ensures var w, parent := Unmade(nodes, n), Parents(nodes, START + n - 1);
            && Midway(w, parent, [Queue(n, START)], n, 0)
            && NextMerge(w, Queue(n, START), START, n - 1, n - 2)
            && AfterMerge(w, Queue(n, START), START) == Queue(n - 2, START)
  {
    var w := Unmade(nodes, n);
    LeafSum(w, n);
    assert w[..n] == Counts(nodes, n);
  }

  /** The first merge, of the last two leaves, and the counts of the nodes that are still to be made. */
  method MergeFirst(huffNode: array<Node>, n: nat)
    returns (ghost qs: seq<Queue>, ghost w: seq<nat>, ghost parent: seq<nat>)
    requires huffNode.Length == 2 * START - 1 && 2 <= n <= START
    requires forall i, j :: 0 <= i < j < n ==> huffNode[i].count >= huffNode[j].count
    requires CountSum(Counts(huffNode[..], n)) < NOT_MADE
    modifies huffNode
    ensures Midway(w, parent, qs, n, 1) && qs[1] == Queue(n - 2, START)
    ensures Holds(huffNode[..], w, parent) && LeavesKept(huffNode[..], old(huffNode[..]), n)
  {
    ghost var w0, parent0 := Unmade(huffNode[..], n), Parents(huffNode[..], START + n - 1);
    BeforeFirst(huffNode[..], n);
    w := w0[START := w0[n - 1] + w0[n - 2]];
    parent := parent0[n - 1 := START][n - 2 := START];
    qs := [Queue(n, START)] + [Queue(n - 2, START)];
    hide Midway, NextMerge, AfterMerge, CountSum;
    MidwayStep(w0, parent0, [Queue(n, START)], n, 0, n - 1, n - 2, w, parent);
    hide LeavesKept, Holds;
    ghost var before := huffNode[..];
    var lowS, nodeNb := n - 1, START;
    var nodeRoot := nodeNb + lowS - 1;
    huffNode[nodeNb] := huffNode[nodeNb].(count := huffNode[lowS].count + huffNode[lowS - 1].count);
    huffNode[lowS] := huffNode[lowS].(parent := nodeNb);
    huffNode[lowS - 1] := huffNode[lowS - 1].(parent := nodeNb);
    forall k | nodeNb < k <= nodeRoot {
      huffNode[k] := huffNode[k].(count := NOT_MADE);
    }
    FirstHolds(huffNode[..], before, n);
  }

  lemma FirstHolds(nodes: seq<Node>, before: seq<Node>, n: nat)
    requires |nodes| == |before| == 2 * START - 1 && 2 <= n <= START
    requires nodes[START].count == before[n - 1].count + before[n - 2].count
    requires nodes[START].parent == before[START].parent
    requires nodes[n - 1] == before[n - 1].(parent := START) && nodes[n - 2] == before[n - 2].(parent := START)
    requires forall k :: START < k < START + n - 1 ==> nodes[k] == before[k].(count := NOT_MADE)
    requires forall k :: 0 <= k < START && k != n - 1 && k != n - 2 ==> nodes[k] == before[k]
    ensures LeavesKept(nodes, before, n)
    ensures var w0, parent0 := Unmade(before, n), Parents(before, START + n - 1);
            Holds(nodes, w0[START := w0[n - 1] + w0[n - 2]], parent0[n - 1 := START][n - 2 := START])
  {
  }

  /** Takes the leaf in front if it is lighter than the made node in front, and else the made node. */
  method TakeSmaller(huffNode: array<Node>, lowS: int, lowN: nat, ghost w: seq<nat>, ghost q: Queue, ghost hi: nat)
    returns (k: nat, lowS1: int, lowN1: nat)
    requires |w| <= huffNode.Length && Counts(huffNode[..], |w|) == w && q.Fits(hi) && hi <= |w|
    requires lowS == q.leaves - 1 < |w| && lowN == q.low < |w|
    requires TakeLeaf(w, lowS, lowN) == LeafFirst(w, q, hi)
    ensures -1 <= lowS1 && Without(w, q, hi) == Queue(lowS1 + 1, lowN1)
    ensures k == Pick(w, q, hi)
  {
    assert huffNode[lowN].count == Counts(huffNode[..], |w|)[lowN];
    assert lowS >= 0 ==> huffNode[lowS].count == Counts(huffNode[..], |w|)[lowS];
    if (if lowS >= 0 then huffNode[lowS].count else BARRIER) < huffNode[lowN].count {
      return lowS, lowS - 1, lowN;
    } else {
      return lowN, lowS, lowN + 1;
    }
  }

  /** Makes node nodeNb the parent of n1 and n2. */
  method Join(huffNode: array<Node>, nodeNb: nat, n1: nat, n2: nat, ghost w: seq<nat>, ghost parent: seq<nat>,
              ghost n: nat, ghost before: seq<Node>)
    requires Holds(huffNode[..], w, parent) && LeavesKept(huffNode[..], before, n)
    requires START <= nodeNb < |w| && n1 < nodeNb && n2 < nodeNb && (n1 < n || START <= n1) && (n2 < n || START <= n2)
    modifies huffNode
    ensures LeavesKept(huffNode[..], before, n)
    ensures Holds(huffNode[..], w[nodeNb := w[n1] + w[n2]], parent[n1 := nodeNb][n2 := nodeNb])
  {
    assert forall k :: 0 <= k < |w| ==> huffNode[k].count == Counts(huffNode[..], |w|)[k] == w[k];
    assert forall k :: 0 <= k < |w| ==> huffNode[k].parent == Parents(huffNode[..], |w|)[k] == parent[k];
    huffNode[nodeNb] := huffNode[nodeNb].(count := huffNode[n1].count + huffNode[n2].count);
    huffNode[n1] := huffNode[n1].(parent := nodeNb);
    huffNode[n2] := huffNode[n2].(parent := nodeNb);
  }

  /** The nodes of a merge are leaves in use or nodes made before. */
  lemma PickedNodes(w: seq<nat>, parent: seq<nat>, qs: seq<Queue>, n: nat, t: nat, x: nat, y: nat)
    requires Midway(w, parent, qs, n, t) && NextMerge(w, qs[t], START + t, x, y)
    ensures (x < n || START <= x) && (y < n || START <= y) && x < START + t && y < START + t && |w| == |parent|
  {
    hide Pending, Merged;
    QueuesShrink(w, parent, qs, n, 0, t);
    NewMerge(w, parent, qs[t], START + t, x, y);
  }

  lemma MergeOnce(w: seq<nat>, parent: seq<nat>, qs: seq<Queue>, n: nat, t: nat, x: nat, y: nat)
    requires Midway(w, parent, qs, n, t) && START + t < |w| == START + n - 1 && |qs| == t + 1
    requires qs[t].Fits(START + t) && Without(w, qs[t], START + t).Fits(START + t)
    requires x == Pick(w, qs[t], START + t) && y == Pick(w, Without(w, qs[t], START + t), START + t)
    ensures (x < n || START <= x) && (y < n || START <= y) && x < START + t && y < START + t && |w| == |parent|
    ensures Midway(w[START + t := w[x] + w[y]], parent[x := START + t][y := START + t],
                   qs + [Without(w, Without(w, qs[t], START + t), START + t)], n, t + 1)
  {
    NextPicks(w, parent, qs, n, t);
    hide Midway;
    assert NextMerge(w, qs[t], START + t, x, y);
    PickedNodes(w, parent, qs, n, t, x, y);
    MidwayStep(w, parent, qs, n, t, x, y, w[START + t := w[x] + w[y]], parent[x := START + t][y := START + t]);
  }

  /** One round of the loop that makes parents. */
  method MergeNext(huffNode: array<Node>, nodeNb: nat, lowS: int, lowN: nat, ghost qs: seq<Queue>, ghost w: seq<nat>,
                   ghost parent: seq<nat>, ghost n: nat, ghost before: seq<Node>)
    returns (lowS1: int, lowN1: nat, ghost qs1: seq<Queue>, ghost w1: seq<nat>, ghost parent1: seq<nat>)
    requires START < nodeNb < START + n - 1 && Midway(w, parent, qs, n, nodeNb - START)
    requires lowS >= -1 && qs[nodeNb - START] == Queue(lowS + 1, lowN)
    requires Holds(huffNode[..], w, parent) && LeavesKept(huffNode[..], before, n)
    modifies huffNode
    ensures Midway(w1, parent1, qs1, n, nodeNb + 1 - START)
    ensures lowS1 >= -1 && qs1[nodeNb + 1 - START] == Queue(lowS1 + 1, lowN1)
    ensures Holds(huffNode[..], w1, parent1) && LeavesKept(huffNode[..], before, n)
  {
    ghost var t := nodeNb - START;
    ghost var q := qs[t];
    MidwaySize(w, parent, qs, n, t);
    NextPicks(w, parent, qs, n, t);
    HoldsCounts(huffNode[..], w, parent);
    hide *;
    var n1, n2;
    n1, lowS1, lowN1 := TakeSmaller(huffNode, lowS, lowN, w, q, nodeNb);
    n2, lowS1, lowN1 := TakeSmaller(huffNode, lowS1, lowN1, w, Without(w, q, nodeNb), nodeNb);
    MergeOnce(w, parent, qs, n, t, n1, n2);
    Join(huffNode, nodeNb, n1, n2, w, parent, n, before);
    w1, parent1 := w[nodeNb := w[n1] + w[n2]], parent[n1 := nodeNb][n2 := nodeNb];
    qs1 := qs + [Queue(lowS1 + 1, lowN1)];
  }

  /** Merges the smallest nodes until there is one tree. */
  method Grow(huffNode: array<Node>, n: nat) returns (ghost qs: seq<Queue>, ghost w: seq<nat>, ghost parent: seq<nat>)
    requires huffNode.Length == 2 * START - 1 && 2 <= n <= START
    requires forall i, j :: 0 <= i < j < n ==> huffNode[i].count >= huffNode[j].count
    requires CountSum(Counts(huffNode[..], n)) < NOT_MADE
    modifies huffNode
    ensures Grown(w, parent, qs, n)
    ensures Holds(huffNode[..], w, parent) && LeavesKept(huffNode[..], old(huffNode[..]), n)
  {
    hide Midway, Holds, LeavesKept, CountSum;
    qs, w, parent := MergeFirst(huffNode, n);
    var lowS: int, lowN: nat, nodeNb := n - 3, START, START + 1;
    var nodeRoot := START + n - 2;
    MidwaySize(w, parent, qs, n, 1);
    while nodeNb <= nodeRoot
      invariant START < nodeNb <= nodeRoot + 1 && |qs| == nodeNb - START + 1
      invariant Midway(w, parent, qs, n, nodeNb - START)
      invariant -1 <= lowS && qs[nodeNb - START] == Queue(lowS + 1, lowN)
      invariant Holds(huffNode[..], w, parent) && LeavesKept(huffNode[..], old(huffNode[..]), n)
    {
      lowS, lowN, qs, w, parent := MergeNext(huffNode, nodeNb, lowS, lowN, qs, w, parent, n, old(huffNode[..]));
      nodeNb := nodeNb + 1;
      MidwaySize(w, parent, qs, n, nodeNb - START);
    }
    MidwaySize(w, parent, qs, n, n - 1);
  }

  lemma MidwaySize(w: seq<nat>, parent: seq<nat>, qs: seq<Queue>, n: nat, t: nat)
    requires Midway(w, parent, qs, n, t)
    ensures |qs| == t + 1 && |w| == |parent| == START + n - 1 && Growing(w, parent, qs, n)
  {
  }

  lemma HoldsCounts(nodes: seq<Node>, w: seq<nat>, parent: seq<nat>)
    requires Holds(nodes, w, parent)
    ensures |w| == |parent| <= |nodes| && Counts(nodes, |w|) == w
  {
  }

  // ----- depths -----

  /** Node i is one deeper than its parent, a node made later, up to hi. */
  ghost predicate Below(huffNode: array<Node>, parent: seq<nat>, i: nat, hi: nat)
    reads huffNode
  {
    && i < |parent| && START <= parent[i] <= hi < huffNode.Length && i < parent[i] && i < huffNode.Length
    && huffNode[i].nbBits == huffNode[parent[i]].nbBits + 1
  }

  /** Distributes the depths from the root down over the nodes made. */
  method MeasureNodes(huffNode: array<Node>, nodeRoot: nat, ghost parent: seq<nat>)
    requires huffNode.Length == 2 * START - 1 && START <= nodeRoot < huffNode.Length && nodeRoot + 1 == |parent|
    requires forall i :: START <= i < nodeRoot ==> huffNode[i].parent == parent[i] && i < parent[i] <= nodeRoot
    modifies huffNode
    ensures huffNode[nodeRoot].nbBits == 0
    ensures forall i :: START <= i < nodeRoot ==> Below(huffNode, parent, i, nodeRoot)
    ensures forall i :: 0 <= i < START ==> huffNode[i] == old(huffNode[i])
  {
    huffNode[nodeRoot] := huffNode[nodeRoot].(nbBits := 0);
    var k := nodeRoot - 1;
    while k >= START
      invariant START - 1 <= k < nodeRoot
      invariant forall i :: 0 <= i <= k ==> huffNode[i] == old(huffNode[i])
      invariant huffNode[nodeRoot].nbBits == 0
      invariant forall i :: k < i < nodeRoot ==> Below(huffNode, parent, i, nodeRoot)
    {
      label before:
      huffNode[k] := huffNode[k].(nbBits := huffNode[huffNode[k].parent].nbBits + 1);
      forall i | k < i < nodeRoot
        ensures Below(huffNode, parent, i, nodeRoot)
      {
        assert old@before(Below(huffNode, parent, i, nodeRoot));
      }
      k := k - 1;
    }
  }

  /** The leaves in use are one deeper than their parents. */
  method MeasureLeaves(huffNode: array<Node>, n: nat, nodeRoot: nat, ghost parent: seq<nat>)
    requires huffNode.Length == 2 * START - 1 && n <= START <= nodeRoot < huffNode.Length && nodeRoot + 1 == |parent|
    requires forall i :: 0 <= i < n ==> huffNode[i].parent == parent[i] && START <= parent[i] <= nodeRoot
    modifies huffNode
    ensures forall i :: 0 <= i < n ==> Below(huffNode, parent, i, nodeRoot)
    ensures forall i :: 0 <= i < n ==> huffNode[i] == old(huffNode[i]).(nbBits := huffNode[i].nbBits)
    ensures forall i :: n <= i < huffNode.Length ==> huffNode[i] == old(huffNode[i])
  {
    for k := 0 to n
      invariant forall i :: k <= i < huffNode.Length ==> huffNode[i] == old(huffNode[i])
      invariant forall i :: 0 <= i < k ==> huffNode[i] == old(huffNode[i]).(nbBits := huffNode[i].nbBits)
      invariant forall i :: 0 <= i < k ==> Below(huffNode, parent, i, nodeRoot)
    {
      label before:
      huffNode[k] := huffNode[k].(nbBits := huffNode[huffNode[k].parent].nbBits + 1);
      forall i | 0 <= i < k
        ensures Below(huffNode, parent, i, nodeRoot)
      {
        assert old@before(Below(huffNode, parent, i, nodeRoot));
      }
    }
  }

  /** The nodes now hold their depths. */
  method Measure(huffNode: array<Node>, n: nat, ghost qs: seq<Queue>, ghost w: seq<nat>, ghost parent: seq<nat>)
    requires huffNode.Length == 2 * START - 1 && Grown(w, parent, qs, n) && Holds(huffNode[..], w, parent)
    modifies huffNode
    ensures Depths(parent, Lengths(huffNode[..], START + n - 1), n)
    ensures forall i :: 0 <= i < n ==> huffNode[i] == old(huffNode[i]).(nbBits := huffNode[i].nbBits)
    ensures forall i :: n <= i < START ==> huffNode[i] == old(huffNode[i])
  {
    var nodeRoot := START + n - 2;
    TreeParents(huffNode[..], w, parent, qs, n);
    hide Grown, Holds, Depths;
    MeasureNodes(huffNode, nodeRoot, parent);
    label nodes:
    MeasureLeaves(huffNode, n, nodeRoot, parent);
    forall i | START <= i < nodeRoot
      ensures Below(huffNode, parent, i, nodeRoot)
    {
      assert old@nodes(Below(huffNode, parent, i, nodeRoot));
    }
    MeasuredDepths(huffNode, parent, n, nodeRoot);
  }

  lemma TreeParents(nodes: seq<Node>, w: seq<nat>, parent: seq<nat>, qs: seq<Queue>, n: nat)
    requires Grown(w, parent, qs, n) && Holds(nodes, w, parent)
    ensures 2 <= n <= START && |parent| == START + n - 1 <= |nodes|
    ensures forall i :: 0 <= i < |parent| ==> nodes[i].parent == parent[i]
    ensures forall i :: START <= i < START + n - 2 ==> i < parent[i] < START + n - 1
    ensures forall i :: 0 <= i < n ==> START <= parent[i] < START + n - 1
  {
    GrownSize(w, parent, qs, n);
    hide Grown;
    assert forall i :: 0 <= i < |parent| ==> nodes[i].parent == Parents(nodes, |w|)[i];
    forall i | START <= i < START + n - 2
      ensures i < parent[i] < START + n - 1
    {
      NodeParents(w, parent, qs, n, i, i);
    }
    forall i | 0 <= i < n
      ensures START <= parent[i] < START + n - 1
    {
      LeafParents(w, parent, qs, n, i, i);
    }
  }

  lemma MeasuredDepths(huffNode: array<Node>, parent: seq<nat>, n: nat, root: nat)
    requires 2 <= n <= START && huffNode.Length == 2 * START - 1 && |parent| == START + n - 1 && root == START + n - 2
    requires huffNode[root].nbBits == 0
    requires forall i :: 0 <= i < n ==> Below(huffNode, parent, i, root)
    requires forall i :: START <= i < root ==> Below(huffNode, parent, i, root)
    ensures Depths(parent, Lengths(huffNode[..], START + n - 1), n)
  {
    var d := Lengths(huffNode[..], START + n - 1);
    forall p | 0 <= p < n || START <= p < root
      ensures parent[p] < |d| && d[p] == d[parent[p]] + 1
    {
      assert Below(huffNode, parent, p, root);
    }
  }

  /** The tree gives the counts an optimal code. */
  lemma TreeGivesOptimal(w: seq<nat>, parent: seq<nat>, qs: seq<Queue>, n: nat, d: seq<nat>)
    requires Grown(w, parent, qs, n) && Depths(parent, d, n)
    ensures |w| == |d| == START + n - 1 && Optimal(w[..n], d[..n])
  {
    GrownSize(w, parent, qs, n);
    hide Grown;
    forall L: seq<nat>, scale: nat |
      |L| == n && (forall i :: 0 <= i < |L| ==> L[i] <= scale) && Sum(L, scale) <= Pow2(scale)
      ensures Weighted(w[..n], d[..n]) <= Weighted(w[..n], L)
    {
      TreeIsOptimal(w, parent, qs, n, d, L, scale);
    }
    OptimalByKraft(w[..n], d[..n]);
  }

  ghost predicate Descending(nodes: seq<Node>, size: nat)
  {
    size <= |nodes| && forall i, j :: 0 <= i < j < size ==> nodes[i].count >= nodes[j].count
  }

  /** The last symbol that occurs. */
  method LastNonNull(huffNode: array<Node>, maxSymbolValue: nat) returns (nonNullRank: nat)
    requires 1 <= maxSymbolValue < huffNode.Length && Descending(huffNode[..], maxSymbolValue + 1)
    requires huffNode[1].count > 0
    ensures 1 <= nonNullRank <= maxSymbolValue
    ensures forall i :: 0 <= i <= maxSymbolValue ==> (i <= nonNullRank <==> huffNode[i].count > 0)
  {
    nonNullRank := maxSymbolValue;
    while huffNode[nonNullRank].count == 0
      invariant 1 <= nonNullRank <= maxSymbolValue
      invariant forall i :: nonNullRank < i <= maxSymbolValue ==> huffNode[i].count == 0
      decreases nonNullRank
    {
      nonNullRank := nonNullRank - 1;
    }
    assert forall i :: 0 <= i <= nonNullRank ==> huffNode[i].count >= huffNode[nonNullRank].count;
  }

  /** Merging and measuring: the depths of the first n leaves are an optimal complete code. */
  method GrowAndMeasure(huffNode: array<Node>, n: nat)
    requires huffNode.Length == 2 * START - 1 && 2 <= n <= START
    requires Descending(huffNode[..], n) && CountSum(Counts(huffNode[..], n)) < NOT_MADE
    modifies huffNode
    ensures CompleteCode(Lengths(huffNode[..], n), huffNode[n - 1].nbBits)
    ensures Optimal(Counts(old(huffNode[..]), n), Lengths(huffNode[..], n))
    ensures old(huffNode[n - 1].count) > 0 ==>
              HufDepth.Fibonacci(huffNode[n - 1].nbBits + 2) <= CountSum(Counts(old(huffNode[..]), n))
    ensures forall i :: 0 <= i < n ==>
              huffNode[i] == old(huffNode[i]).(parent := huffNode[i].parent, nbBits := huffNode[i].nbBits)
    ensures forall i :: n <= i < START ==> huffNode[i] == old(huffNode[i])
  {
    ghost var before := huffNode[..];
    ghost var qs, w, parent := Grow(huffNode, n);
    hide CompleteCode, Optimal, Depths, Grown, CountSum, Descending, HufDepth.Fibonacci;
    ghost var middle := huffNode[..];
    Measure(huffNode, n, qs, w, parent);
    ghost var d := Lengths(huffNode[..], START + n - 1);
    TreeIsComplete(w, parent, qs, n, d);
    TreeGivesOptimal(w, parent, qs, n, d);
    assert d[..n] == Lengths(huffNode[..], n);
    LeafCounts(middle, before, w, parent, n);
    if before[n - 1].count > 0 {
      LeafSum(w, n);
      HufDepth.DepthNeedsWeight(w, parent, qs, n, d);
    }
  }

  lemma LeafCounts(nodes: seq<Node>, before: seq<Node>, w: seq<nat>, parent: seq<nat>, n: nat)
    requires Holds(nodes, w, parent) && LeavesKept(nodes, before, n) && n <= |w|
    ensures w[..n] == Counts(before, n)
  {
    assert w == Counts(nodes, |w|);
  }

  /**
    HUF_buildTree: on counts in descending order, at least two of them not zero, the lengths of the
    symbols that occur make a complete code, ascending, that no prefix code improves on.
   */
  method BuildTree(huffNode: array<Node>, maxSymbolValue: nat) returns (nonNullRank: nat)
    requires huffNode.Length == 2 * START - 1 && 1 <= maxSymbolValue < START && huffNode[1].count > 0
    requires Descending(huffNode[..], maxSymbolValue + 1)
    requires CountSum(Counts(huffNode[..], maxSymbolValue + 1)) < NOT_MADE
    modifies huffNode
    ensures 1 <= nonNullRank <= maxSymbolValue
    ensures forall i :: 0 <= i <= maxSymbolValue ==> (i <= nonNullRank <==> old(huffNode[i].count) > 0)
    ensures CompleteCode(Lengths(huffNode[..], nonNullRank + 1), huffNode[nonNullRank].nbBits)
    ensures Optimal(Counts(old(huffNode[..]), nonNullRank + 1), Lengths(huffNode[..], nonNullRank + 1))
    ensures HufDepth.Fibonacci(huffNode[nonNullRank].nbBits + 2) <=
              CountSum(Counts(old(huffNode[..]), maxSymbolValue + 1))
    ensures forall i :: 0 <= i <= nonNullRank ==>
              huffNode[i] == old(huffNode[i]).(parent := huffNode[i].parent, nbBits := huffNode[i].nbBits)
    ensures forall i :: nonNullRank < i < START ==> huffNode[i] == old(huffNode[i])
  {
    nonNullRank := LastNonNull(huffNode, maxSymbolValue);
    FewerCounts(huffNode[..], nonNullRank + 1, maxSymbolValue + 1);
    hide CompleteCode, Optimal, CountSum, Descending, HufDepth.Fibonacci;
    GrowAndMeasure(huffNode, nonNullRank + 1);
  }

  lemma FewerCounts(nodes: seq<Node>, n: nat, size: nat)
    requires n <= size && Descending(nodes, size)
    ensures Descending(nodes, n) && CountSum(Counts(nodes, n)) <= CountSum(Counts(nodes, size))
  {
    CountSumPrefix(Counts(nodes, size), n);
    assert Counts(nodes, size)[..n] == Counts(nodes, n);
  }

  lemma CountSumPrefix(counts: seq<nat>, n: nat)
    requires n <= |counts|
    ensures CountSum(counts[..n]) <= CountSum(counts)
  {
    SumSame(counts[..n], counts, n);
    SumMonotone(counts, n, |counts|);
  }
}
