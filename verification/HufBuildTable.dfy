/** HUF_buildCTable_wksp: from a histogram to the table of an optimal or length-limited canonical code. */
module HufBuildTable {
  import opened Bits
  import opened Wrappers
  import opened Counting
  import opened Kraft
  import opened Histogram
  import opened HufNodes
  import opened HufContainer
  import opened HufCodes
  import opened HufTable
  import HufArrange
  import HufBuild
  import HufDepth
  import HufHeight
  import HufSort
  import HufTree
  import PrefixCode

  const TABLELOG_DEFAULT := 11
  const SYMBOLVALUE_MAX := 255

  /** HUF_cardinality: how many symbols occur. */
  function Cardinality(count: seq<nat>): int
  {
    |count| - Count(count, 0, |count|)
  }

  ghost function LengthOf(nodes: seq<Node>, size: nat, s: nat): nat
    requires size <= |nodes|
  {
    if i :| 0 <= i < size && nodes[i].symbol == s then nodes[i].nbBits else 0
  }

  ghost function LensOf(nodes: seq<Node>, size: nat): (lens: seq<nat>)
    requires size <= |nodes|
    ensures |lens| == size && forall s :: 0 <= s < size ==> lens[s] == LengthOf(nodes, size, s)
  {
    seq(size, s requires 0 <= s < size => LengthOf(nodes, size, s))
  }

  lemma LensAssigned(nodes: seq<Node>, size: nat)
    requires size <= |nodes| && forall i :: 0 <= i < size ==> nodes[i].symbol < size
    requires forall i, j :: 0 <= i < j < size ==> nodes[i].symbol != nodes[j].symbol
    ensures Assigns(nodes, LensOf(nodes, size))
  {
    var lens := LensOf(nodes, size);
    forall i | 0 <= i < size
      ensures lens[nodes[i].symbol] == nodes[i].nbBits
    {
      var s := nodes[i].symbol;
      assert lens[s] == LengthOf(nodes, size, s);
    }
  }

  // ----- what the sorted nodes say about the histogram -----

  /** The sum of the counts met along v. */
  ghost function SumAlong(count: seq<nat>, v: seq<nat>): nat
    requires forall r :: 0 <= r < |v| ==> v[r] < |count|
  {
    if v == [] then 0 else SumAlong(count, v[..|v| - 1]) + count[v[|v| - 1]]
  }

  lemma {:induction false} SumAlongCut(count: seq<nat>, v: seq<nat>, r: nat)
    requires r < |v| && forall q :: 0 <= q < |v| ==> v[q] < |count|
    ensures SumAlong(count, v) == SumAlong(count, v[..r] + v[r + 1..]) + count[v[r]]
  {
    var m := |v| - 1;
    if r == m {
      assert v[..r] + v[r + 1..] == v[..m];
    } else {
      var front := v[..m];
      SumAlongCut(count, front, r);
      assert v[..r] + v[r + 1..] == (front[..r] + front[r + 1..]) + [v[m]];
      assert (v[..r] + v[r + 1..])[..m - 1] == front[..r] + front[r + 1..];
    }
  }

  lemma {:induction false} SumAlongAll(count: seq<nat>, v: seq<nat>, n: nat)
    requires n <= |count| && |v| == n && Distinct(v) && Covers(v, n)
    ensures SumAlong(count, v) == HufBuild.CountSum(count[..n])
  {
    hide Distinct, Counting.Covers;
    if n > 0 {
      var r := PositionOfLast(v, n);
      var w := v[..r] + v[r + 1..];
      SumAlongCut(count, v, r);
      StillCovers(v, r, n);
      SumAlongAll(count, w, n - 1);
      SumSame(count[..n], count[..n - 1], n - 1);
    }
  }

  lemma PositionOfLast(v: seq<nat>, n: nat) returns (r: nat)
    requires n > 0 && |v| == n && Covers(v, n)
    ensures r < |v| && v[r] == n - 1 && forall q :: 0 <= q < |v| ==> v[q] < n
  {
    assert n - 1 in v;
    r :| 0 <= r < |v| && v[r] == n - 1;
  }

  lemma StillCovers(v: seq<nat>, r: nat, n: nat)
    requires n > 0 && |v| == n && Distinct(v) && Covers(v, n) && r < n && v[r] == n - 1
    ensures var w := v[..r] + v[r + 1..]; Distinct(w) && Covers(w, n - 1)
  {
    var w := v[..r] + v[r + 1..];
    forall q | 0 <= q < |w|
      ensures w[q] < n - 1
    {
      assert w[q] == v[if q < r then q else q + 1];
    }
    assert Distinct(w);
    Pigeonhole(w, n - 1);
  }

  lemma {:induction false} CountsAlong(nodes: seq<Node>, count: seq<nat>, n: nat)
    requires HufSort.Listed(nodes, count) && n <= |count|
    ensures HufBuild.CountSum(Counts(nodes, n)) == SumAlong(count, Symbols(nodes, n))
  {
    if n > 0 {
      CountsAlong(nodes, count, n - 1);
      SumSame(Counts(nodes, n), Counts(nodes, n - 1), n - 1);
      assert Symbols(nodes, n)[..n - 1] == Symbols(nodes, n - 1);
    }
  }

  /** The nodes weigh as much as the histogram. */
  lemma SameSum(nodes: seq<Node>, count: seq<nat>)
    requires HufSort.Listed(nodes, count)
    ensures HufBuild.CountSum(Counts(nodes, |count|)) == HufBuild.CountSum(count)
  {
    var v := Symbols(nodes, |count|);
    Pigeonhole(v, |count|);
    CountsAlong(nodes, count, |count|);
    SumAlongAll(count, v, |count|);
    assert count[..|count|] == count;
  }

  /** As many nodes as symbols have a count of k. */
  lemma SameZeros(nodes: seq<Node>, count: seq<nat>, k: nat)
    requires HufSort.Listed(nodes, count)
    ensures Count(count, k, |count|) == Count(Counts(nodes, |count|), k, |count|)
  {
    var v := Symbols(nodes, |count|);
    Pigeonhole(v, |count|);
    CountAlong(count, v, Counts(nodes, |count|), |count|, k);
  }

  /** In descending order the symbols that occur come first. */
  lemma OccurringFirst(nodes: seq<Node>, count: seq<nat>, n: nat)
    requires HufSort.Listed(nodes, count) && n <= |count|
    requires forall i :: n <= i < |count| ==> nodes[i].count == 0
    ensures Cardinality(count) <= n
    ensures (forall i :: 0 <= i < n ==> nodes[i].count > 0) ==> Cardinality(count) == n
  {
    var w := Counts(nodes, |count|);
    SameZeros(nodes, count, 0);
    CountAll(w, 0, n, |count|);
    if forall i :: 0 <= i < n ==> nodes[i].count > 0 {
      CountNone(w, 0, 0, n);
    }
  }

  /** With two symbols that occur, the second node has a count. */
  lemma SecondOccurs(nodes: seq<Node>, count: seq<nat>)
    requires HufSort.Listed(nodes, count) && HufArrange.Sorted(nodes, 0, |count|) && Cardinality(count) >= 2
    ensures |count| >= 2 && nodes[1].count > 0
  {
    if |count| >= 2 && nodes[1].count == 0 {
      assert forall i :: 1 <= i < |count| ==> nodes[1].count >= nodes[i].count;
      OccurringFirst(nodes, count, 1);
    }
  }

  lemma EachBelowSum(count: seq<nat>, s: nat)
    requires s < |count|
    ensures count[s] <= HufBuild.CountSum(count)
  {
    SumMonotone(count, s, |count|);
  }

  // ----- the nodes after the tree and the height limit -----

  /** The nodes are the symbols in descending order of count, and the first `used` have lengths. */
  ghost predicate Finished(nodes: seq<Node>, count: seq<nat>, used: nat, tableLog: nat)
  {
    && 0 < used <= |count| <= |nodes|
    && (forall i :: 0 <= i < |count| ==> nodes[i].symbol < |count| && nodes[i].count == count[nodes[i].symbol])
    && (forall i, j :: 0 <= i < j < |count| ==> nodes[i].symbol != nodes[j].symbol)
    && (forall i, j :: 0 <= i < j < |count| ==> nodes[i].count >= nodes[j].count)
    && (forall i :: 0 <= i < |count| ==> (nodes[i].count > 0 <==> i < used))
    && (forall i :: used <= i < |count| ==> nodes[i].nbBits == 0)
    && CompleteCode(Lengths(nodes, used), tableLog)
  }

  /** A symbol has a code exactly if it occurs, and a rarer symbol never has a shorter one. */
  ghost predicate FitsCounts(lens: seq<nat>, count: seq<nat>)
  {
    && |lens| == |count|
    && (forall s :: 0 <= s < |count| ==> (lens[s] > 0 <==> count[s] > 0))
    && (forall s, t :: 0 <= s < |count| && 0 <= t < |count| && count[s] > count[t] > 0 ==> lens[s] <= lens[t])
  }

  lemma NodeOf(nodes: seq<Node>, count: seq<nat>, used: nat, tableLog: nat, lens: seq<nat>, s: nat) returns (i: nat)
    requires Finished(nodes, count, used, tableLog) && Assigns(nodes, lens) && |lens| == |count| && s < |count|
    ensures i < |count| && nodes[i].symbol == s && nodes[i].nbBits == lens[s] && nodes[i].count == count[s]
    ensures i < used ==> Lengths(nodes, used)[i] == lens[s]
  {
    hide CompleteCode;
    var v := Symbols(nodes, |count|);
    Pigeonhole(v, |count|);
    assert s in v;
    i :| 0 <= i < |v| && v[i] == s;
  }

  lemma LongestSymbol(nodes: seq<Node>, count: seq<nat>, used: nat, tableLog: nat, lens: seq<nat>) returns (s: nat)
    requires Finished(nodes, count, used, tableLog) && Assigns(nodes, lens) && |lens| == |count|
    ensures s < |lens| && lens[s] == tableLog
  {
    s := nodes[used - 1].symbol;
    assert Lengths(nodes, used)[used - 1] == tableLog;
  }

  lemma FinishedFits(nodes: seq<Node>, count: seq<nat>, used: nat, tableLog: nat, lens: seq<nat>)
    requires Finished(nodes, count, used, tableLog) && Assigns(nodes, lens) && |lens| == |count|
    ensures FitsCounts(lens, count)
  {
    var b := Lengths(nodes, used);
    assert Ascending(b) && forall i :: 0 <= i < |b| ==> 1 <= b[i];
    forall s | 0 <= s < |count|
      ensures lens[s] > 0 <==> count[s] > 0
    {
      var i := NodeOf(nodes, count, used, tableLog, lens, s);
    }
    forall s, t | 0 <= s < |count| && 0 <= t < |count| && count[s] > count[t] > 0
      ensures lens[s] <= lens[t]
    {
      var i := NodeOf(nodes, count, used, tableLog, lens, s);
      var j := NodeOf(nodes, count, used, tableLog, lens, t);
    }
  }

  /**
    The numbers of the depth limiter fit 32-bit integers if no symbol is deeper than the symbols of one block can
    get.
   */
  lemma PeakInBlock(peak: nat, depth: nat, sum: nat)
    requires peak <= Pow2(depth) && HufDepth.Fibonacci(depth + 2) <= sum
    ensures sum <= HufDepth.BLOCK_SUM ==> peak <= 0x100_0000
  {
    hide Pow2, HufDepth.Fibonacci;
    if sum <= HufDepth.BLOCK_SUM {
      HufDepth.DepthInBlock(depth, sum);
      Pow2Mono(depth, HufDepth.BLOCK_DEPTH);
      Pow2Values();
    }
  }

  // ----- from nodes to symbols -----

  /** The bits of each symbol. */
  ghost function Products(count: seq<nat>, x: seq<nat>): (p: seq<nat>)
    requires |count| == |x|
    ensures |p| == |x| && forall s :: 0 <= s < |p| ==> p[s] == count[s] * x[s]
  {
    seq(|x|, s requires 0 <= s < |x| => count[s] * x[s])
  }

  ghost function Picked(x: seq<nat>, v: seq<nat>, n: nat): (y: seq<nat>)
    requires n <= |v| && forall r :: 0 <= r < |v| ==> v[r] < |x|
    ensures |y| == n && forall r :: 0 <= r < n ==> y[r] == x[v[r]]
  {
    seq(n, r requires 0 <= r < n => x[v[r]])
  }

  lemma {:induction false} WeightedSum(count: seq<nat>, x: seq<nat>)
    requires |count| == |x|
    ensures Weighted(count, x) == HufBuild.CountSum(Products(count, x))
  {
    if x != [] {
      var n := |x| - 1;
      WeightedSum(count[..n], x[..n]);
      SumSame(Products(count, x), Products(count[..n], x[..n]), n);
    }
  }

  lemma {:induction false} WeightedAlong(count: seq<nat>, x: seq<nat>, v: seq<nat>, n: nat)
    requires |count| == |x| && n <= |v| && forall r :: 0 <= r < |v| ==> v[r] < |x|
    ensures SumAlong(Products(count, x), v[..n]) == Weighted(Picked(count, v, n), Picked(x, v, n))
  {
    if n > 0 {
      WeightedAlong(count, x, v, n - 1);
      assert v[..n][..n - 1] == v[..n - 1];
      assert Picked(count, v, n)[..n - 1] == Picked(count, v, n - 1) && Picked(x, v, n)[..n - 1] == Picked(x, v, n - 1);
    }
  }

  /** Symbols without a count weigh nothing. */
  lemma {:induction false} WeightedUsed(count: seq<nat>, x: seq<nat>, used: nat)
    requires used <= |count| == |x| && forall i :: used <= i < |count| ==> count[i] == 0
    ensures Weighted(count, x) == Weighted(count[..used], x[..used])
    decreases |x|
  {
    if used < |x| {
      var n := |x| - 1;
      WeightedUsed(count[..n], x[..n], used);
      assert count[..n][..used] == count[..used] && x[..n][..used] == x[..used];
    } else {
      assert count[..used] == count && x[..used] == x;
    }
  }

  /** The weight over the symbols is that over the nodes in use. */
  lemma WeightOfNodes(nodes: seq<Node>, count: seq<nat>, used: nat, tableLog: nat, x: seq<nat>)
    requires Finished(nodes, count, used, tableLog) && |x| == |count|
    ensures var v := Symbols(nodes, |count|);
            && (forall r :: 0 <= r < |v| ==> v[r] < |x|)
            && Weighted(count, x) == Weighted(Counts(nodes, used), Picked(x, v, used))
  {
    hide CompleteCode, Weighted, HufBuild.CountSum;
    var v, n := Symbols(nodes, |count|), |count|;
    Pigeonhole(v, n);
    WeightedSum(count, x);
    SumAlongAll(Products(count, x), v, n);
    assert Products(count, x)[..n] == Products(count, x) && v[..n] == v;
    WeightedAlong(count, x, v, n);
    WeightedUsed(Picked(count, v, n), Picked(x, v, n), used);
    assert Picked(count, v, n)[..used] == Counts(nodes, used) && Picked(x, v, n)[..used] == Picked(x, v, used);
  }

  /** Lengths that are optimal for the nodes in use are so for the symbols. */
  lemma OptimalForSymbols(nodes: seq<Node>, count: seq<nat>, used: nat, tableLog: nat, lens: seq<nat>)
    requires Finished(nodes, count, used, tableLog) && Assigns(nodes, lens) && |lens| == |count|
    requires PrefixCode.Optimal(Counts(nodes, used), Lengths(nodes, used))
    ensures PrefixCode.Optimal(count, lens)
  {
    hide CompleteCode, Weighted;
    var v := Symbols(nodes, |count|);
    WeightOfNodes(nodes, count, used, tableLog, lens);
    assert Picked(lens, v, used) == Lengths(nodes, used);
    forall codes: seq<seq<bool>> | |codes| == |count| && PrefixCode.PrefixFree(codes)
      ensures Weighted(count, lens) <= Weighted(count, PrefixCode.LengthsOf(codes))
    {
      WeightOfNodes(nodes, count, used, tableLog, PrefixCode.LengthsOf(codes));
      var some := seq(used, i requires 0 <= i < used => codes[v[i]]);
      PickedFree(codes, v, some);
      assert Picked(PrefixCode.LengthsOf(codes), v, used) == PrefixCode.LengthsOf(some);
    }
  }

  /** Different codes of a prefix code are one. */
  lemma PickedFree(codes: seq<seq<bool>>, v: seq<nat>, some: seq<seq<bool>>)
    requires PrefixCode.PrefixFree(codes) && |some| <= |v| && Distinct(v)
    requires forall i :: 0 <= i < |some| ==> v[i] < |codes| && some[i] == codes[v[i]]
    ensures PrefixCode.PrefixFree(some)
  {
    forall i, j | 0 <= i < j < |some|
      ensures PrefixCode.Apart(some[i], some[j])
    {
      var lo, hi := Min(v[i], v[j]), Max(v[i], v[j]);
      assert PrefixCode.Apart(codes[lo], codes[hi]);
    }
  }

  /**
    Sorting, growing the tree and limiting its height; for the counts of one block the limiter needs 25 bits at
    most.
   */
  method FinishNodes(huffNode: array<Node>, count: seq<nat>, maxNbBits: nat)
    returns (nonNullRank: nat, tableLog: nat, ghost peak: nat)
    requires huffNode.Length == 2 * HufTree.START - 1 && |count| <= HufTree.START
    requires forall i :: 0 <= i < huffNode.Length ==> huffNode[i] == Node(0, 0, 0, 0)
    requires 1 <= maxNbBits <= TABLELOG_MAX && 2 <= Cardinality(count) <= Pow2(maxNbBits)
    requires HufBuild.CountSum(count) < HufBuild.NOT_MADE
    modifies huffNode
    ensures tableLog <= maxNbBits && Finished(huffNode[..], count, nonNullRank + 1, tableLog)
    ensures tableLog < maxNbBits ==> PrefixCode.Optimal(Counts(huffNode[..], nonNullRank + 1),
                                                        Lengths(huffNode[..], nonNullRank + 1))
    ensures HufBuild.CountSum(count) <= HufDepth.BLOCK_SUM ==> peak <= 0x100_0000
  {
    hide Kraft.Sum, Pow2, CompleteCode, PrefixCode.Optimal, HufBuild.CountSum, Cardinality, Relabelled,
      HufDepth.Fibonacci;
    forall s | 0 <= s < |count|
      ensures count[s] < 0x1_0000_0000
    {
      EachBelowSum(count, s);
    }
    var rankPosition := new HufSort.RankPos[HufSort.RANK_POSITION_TABLE_SIZE];
    HufSort.Sort(huffNode, count, rankPosition);
    ghost var sorted := huffNode[..];
    SecondOccurs(sorted, count);
    SameSum(sorted, count);
    nonNullRank := HufBuild.BuildTree(huffNode, |count| - 1);
    ghost var grown := huffNode[..];
    OccurringFirst(sorted, count, nonNullRank + 1);
    LargestPositive(grown, nonNullRank + 1, huffNode[nonNullRank].nbBits);
    SameCounts(grown, sorted, nonNullRank + 1);
    tableLog, peak := HufHeight.SetMaxHeight(huffNode, nonNullRank, maxNbBits);
    PeakInBlock(peak, grown[nonNullRank].nbBits, HufBuild.CountSum(count));
    NodesFinished(huffNode[..], grown, sorted, count, nonNullRank + 1, tableLog);
  }

  lemma SameCounts(a: seq<Node>, b: seq<Node>, n: nat)
    requires n <= |a| && n <= |b| && forall i :: 0 <= i < n ==> a[i].count == b[i].count
    ensures Counts(a, n) == Counts(b, n)
  {
  }

  lemma LargestPositive(nodes: seq<Node>, size: nat, largest: nat)
    requires size <= |nodes| && CompleteCode(Lengths(nodes, size), largest)
    ensures largest >= 1
  {
  }

  lemma NodesFinished(nodes: seq<Node>, grown: seq<Node>, sorted: seq<Node>, count: seq<nat>, used: nat, tableLog: nat)
    requires HufSort.Listed(sorted, count) && HufArrange.Sorted(sorted, 0, |count|)
    requires 0 < used <= |count| <= HufTree.START <= |sorted| == |grown| == |nodes|
    requires forall i :: 0 <= i < |count| ==> (i < used <==> sorted[i].count > 0)
    requires forall i :: 0 <= i < used ==> grown[i] == sorted[i].(parent := grown[i].parent, nbBits := grown[i].nbBits)
    requires forall i :: used <= i < HufTree.START ==> grown[i] == sorted[i]
    requires Relabelled(nodes, grown, Lengths(nodes, used)) && CompleteCode(Lengths(nodes, used), tableLog)
    ensures Finished(nodes, count, used, tableLog)
  {
    hide CompleteCode;
    forall i | 0 <= i < |count|
      ensures nodes[i].symbol == sorted[i].symbol && nodes[i].count == sorted[i].count
      ensures used <= i ==> nodes[i].nbBits == 0
    {
    }
  }

  /** The lengths of the symbols, and a symbol of the greatest length. */
  lemma LensFound(nodes: seq<Node>, count: seq<nat>, used: nat, tableLog: nat) returns (lens: seq<nat>, longest: nat)
    requires Finished(nodes, count, used, tableLog)
    ensures Assigns(nodes, lens) && |lens| == |count| && FitsCounts(lens, count)
    ensures longest < |lens| && lens[longest] == tableLog && tableLog >= 1 && used <= |count| <= |nodes|
    ensures CompleteCode(Lengths(nodes, used), tableLog)
    ensures forall i :: used <= i < |lens| ==> nodes[i].nbBits == 0
    ensures PrefixCode.Optimal(Counts(nodes, used), Lengths(nodes, used)) ==> PrefixCode.Optimal(count, lens)
  {
    hide CompleteCode, FitsCounts, PrefixCode.Optimal;
    lens := LensOf(nodes, |count|);
    LensAssigned(nodes, |count|);
    longest := LongestSymbol(nodes, count, used, tableLog, lens);
    LargestPositive(nodes, used, tableLog);
    FinishedFits(nodes, count, used, tableLog, lens);
    if PrefixCode.Optimal(Counts(nodes, used), Lengths(nodes, used)) {
      OptimalForSymbols(nodes, count, used, tableLog, lens);
    }
  }

  /**
    HUF_buildCTable_wksp on a histogram with at least two symbols and no more than maxNbBits can tell apart:
    the table of a complete canonical code of at most maxNbBits bits for exactly the symbols that occur.
   */
  method BuildCTable(ct: array<nat>, count: seq<nat>, maxNbBits: nat)
    returns (r: Result<nat>, ghost lens: seq<nat>, ghost longest: nat)
    requires ct.Length > SYMBOLVALUE_MAX && maxNbBits <= TABLELOG_MAX && count != []
    requires 2 <= Cardinality(count) <= Pow2(if maxNbBits == 0 then TABLELOG_DEFAULT else maxNbBits)
    requires HufBuild.CountSum(count) < HufBuild.NOT_MADE
    modifies ct
    ensures r.Err? <==> |count| - 1 > SYMBOLVALUE_MAX
    ensures r.Err? ==> r.error == MaxSymbolValueTooLarge && ct[..] == old(ct[..])
    ensures r.Ok? ==> 1 <= r.value <= (if maxNbBits == 0 then TABLELOG_DEFAULT else maxNbBits)
    ensures r.Ok? ==> Complete(lens, r.value) && IsTable(ct[..], lens, r.value) && FitsCounts(lens, count)
    ensures r.Ok? ==> longest < |lens| && lens[longest] == r.value
    ensures r.Ok? && r.value < (if maxNbBits == 0 then TABLELOG_DEFAULT else maxNbBits) ==>
              |lens| == |count| && PrefixCode.Optimal(count, lens)
  {
    hide Kraft.Sum, Pow2, CompleteCode, HufBuild.CountSum, Cardinality, FitsCounts, IsTable, Complete,
      PrefixCode.Optimal, Finished, Assigns;
    var target := if maxNbBits == 0 then TABLELOG_DEFAULT else maxNbBits;
    lens, longest := [], 0;
    if |count| - 1 > SYMBOLVALUE_MAX {
      return Err(MaxSymbolValueTooLarge), lens, longest;
    }
    var huffNode := new Node[2 * HufTree.START - 1](i => Node(0, 0, 0, 0));
    var nonNullRank, tableLog, peak := FinishNodes(huffNode, count, target);
    ghost var nodes := huffNode[..];
    lens, longest := LensFound(nodes, count, nonNullRank + 1, tableLog);
    BuildCTableFromTree(ct, huffNode, nonNullRank, |count| - 1, tableLog, lens);
    r := Ok(tableLog);
  }
}
