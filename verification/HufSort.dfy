/** HUF_sort: a bucket sort by count, with large counts bucketed by their logarithm and sorted within the bucket. */
module HufSort {
  import opened Bits
  import opened Counting
  import opened HufNodes
  import opened HufArrange

  const RANK_POSITION_TABLE_SIZE := 192
  const LOG_BUCKETS_BEGIN := 158
  const DISTINCT_COUNT_CUTOFF := 165

  datatype RankPos = RankPos(base: nat, curr: nat)

  /** HUF_getIndex. */
  function Index(count: nat): (k: nat)
  {
    if count < DISTINCT_COUNT_CUTOFF then count else HighBit(count) + LOG_BUCKETS_BEGIN
  }

  /** Buckets are ordered like the counts in them, and the distinct ones hold one count each. */
  lemma IndexMonotone(a: nat, b: nat)
    requires a <= b < 0x1_0000_0000
    ensures Index(a) <= Index(b) < RANK_POSITION_TABLE_SIZE - 2
    ensures Index(a) == Index(b) < DISTINCT_COUNT_CUTOFF ==> a == b
  {
    Pow2Values();
    if b >= DISTINCT_COUNT_CUTOFF {
      if HighBit(b) > 31 {
        Pow2Mono(32, HighBit(b));
      }
      if HighBit(b) < 7 {
        Pow2Mono(HighBit(b), 6);
      }
      if a >= DISTINCT_COUNT_CUTOFF && HighBit(a) > HighBit(b) {
        Pow2Strict(HighBit(b), HighBit(a));
      }
    }
  }

  ghost function Indices(count: seq<nat>): (idx: seq<nat>)
    ensures |idx| == |count| && forall s :: 0 <= s < |idx| ==> idx[s] == Index(count[s])
  {
    seq(|count|, s requires 0 <= s < |count| => Index(count[s]))
  }

  /** How many of the first n symbols are in bucket k or above. */
  ghost function AtLeast(idx: seq<nat>, k: nat, n: nat): (c: nat)
    requires n <= |idx|
    ensures c <= n
  {
    if n == 0 then 0 else AtLeast(idx, k, n - 1) + (if idx[n - 1] >= k then 1 else 0)
  }

  lemma {:induction false} AtLeastStep(idx: seq<nat>, k: nat, n: nat)
    requires n <= |idx|
    ensures AtLeast(idx, k, n) == AtLeast(idx, k + 1, n) + Count(idx, k, n)
  {
    if n > 0 {
      AtLeastStep(idx, k, n - 1);
    }
  }

  lemma {:induction false} AtLeastMonotone(idx: seq<nat>, k: nat, m: nat, n: nat)
    requires n <= |idx| && k <= m
    ensures AtLeast(idx, m, n) <= AtLeast(idx, k, n)
  {
    if n > 0 {
      AtLeastMonotone(idx, k, m, n - 1);
    }
  }

  lemma {:induction false} AtLeastNone(idx: seq<nat>, k: nat, n: nat)
    requires n <= |idx| && forall s :: 0 <= s < n ==> idx[s] < k
    ensures AtLeast(idx, k, n) == 0
  {
    if n > 0 {
      AtLeastNone(idx, k, n - 1);
    }
  }

  /** Where symbol s goes: after all higher buckets and the earlier symbols of its own bucket. */
  ghost function Place(idx: seq<nat>, s: nat): nat
    requires s < |idx|
  {
    AtLeast(idx, idx[s] + 1, |idx|) + Count(idx, idx[s], s)
  }

  /** Symbol s lands inside its bucket. */
  lemma PlaceInBucket(idx: seq<nat>, s: nat)
    requires s < |idx|
    ensures AtLeast(idx, idx[s] + 1, |idx|) <= Place(idx, s) < AtLeast(idx, idx[s], |idx|) <= |idx|
  {
    AtLeastStep(idx, idx[s], |idx|);
    CountMonotone(idx, idx[s], s, |idx|);
  }

  lemma PlaceInjective(idx: seq<nat>, s: nat, t: nat)
    requires s < t < |idx|
    ensures Place(idx, s) != Place(idx, t)
  {
    PlaceInBucket(idx, s);
    PlaceInBucket(idx, t);
    CountMonotone(idx, idx[s], s, t);
    if idx[s] < idx[t] {
      AtLeastMonotone(idx, idx[s] + 1, idx[t], |idx|);
    } else if idx[t] < idx[s] {
      AtLeastMonotone(idx, idx[t] + 1, idx[s], |idx|);
    }
  }

  ghost function Places(idx: seq<nat>): (v: seq<nat>)
    ensures |v| == |idx| && forall s :: 0 <= s < |v| ==> v[s] == Place(idx, s)
  {
    seq(|idx|, s requires 0 <= s < |idx| => Place(idx, s))
  }

  /** Every position gets a symbol. */
  lemma PlacesCover(idx: seq<nat>)
    ensures Covers(Places(idx), |idx|) && Distinct(Places(idx))
  {
    var v := Places(idx);
    forall s, t | 0 <= s < t < |v|
      ensures v[s] != v[t]
    {
      PlaceInjective(idx, s, t);
    }
    forall s | 0 <= s < |v|
      ensures v[s] < |idx|
    {
      PlaceInBucket(idx, s);
    }
    Pigeonhole(v, |idx|);
  }

  // ----- what the node array holds -----

  /** The first |count| nodes are the symbols, each once, with its count, and nothing else set. */
  ghost predicate Listed(nodes: seq<Node>, count: seq<nat>)
  {
    && |count| <= |nodes|
    && (forall i :: 0 <= i < |count| ==>
          nodes[i].symbol < |count| && nodes[i] == Node(count[nodes[i].symbol], 0, nodes[i].symbol, 0))
    && (forall i, j :: 0 <= i < j < |count| ==> nodes[i].symbol != nodes[j].symbol)
  }

  /** A node of bucket k lies between the bounds of the bucket. */
  ghost predicate InBucket(idx: seq<nat>, k: nat, i: nat)
  {
    AtLeast(idx, k + 1, |idx|) <= i < AtLeast(idx, k, |idx|)
  }

  ghost predicate Bucketed(nodes: seq<Node>, idx: seq<nat>)
  {
    |idx| <= |nodes| && forall i :: 0 <= i < |idx| ==> InBucket(idx, Index(nodes[i].count), i)
  }

  ghost predicate InPlace(nodes: seq<Node>, count: seq<nat>, idx: seq<nat>, s: nat)
  {
    && s < |count| == |idx|
    && Place(idx, s) < |nodes| && nodes[Place(idx, s)] == Node(count[s], 0, s, 0)
  }

  /** The first m symbols are in their places. */
  ghost predicate Placed(nodes: seq<Node>, count: seq<nat>, idx: seq<nat>, m: nat)
  {
    && |idx| == |count| <= |nodes| && m <= |count|
    && (forall s :: 0 <= s < m ==> InPlace(nodes, count, idx, s))
  }

  lemma SymbolOfPlace(idx: seq<nat>, i: nat) returns (s: nat)
    requires i < |idx|
    ensures s < |idx| && Place(idx, s) == i
  {
    hide AtLeast, Count, Place;
    PlacesCover(idx);
    var v := Places(idx);
    assert i in v;
    s :| 0 <= s < |v| && v[s] == i;
  }

  /** The symbol whose place is i. */
  lemma SymbolAt(nodes: seq<Node>, count: seq<nat>, idx: seq<nat>, i: nat) returns (s: nat)
    requires idx == Indices(count) && Placed(nodes, count, idx, |count|) && i < |count|
    ensures s < |count| && Place(idx, s) == i && nodes[i] == Node(count[s], 0, s, 0)
    ensures InBucket(idx, Index(nodes[i].count), i)
  {
    hide AtLeast, Count, Place;
    s := SymbolOfPlace(idx, i);
    assert InPlace(nodes, count, idx, s);
    PlaceInBucket(idx, s);
  }

  /** When all symbols are in their places, they are listed bucket by bucket. */
  lemma PlacedAll(nodes: seq<Node>, count: seq<nat>, idx: seq<nat>)
    requires idx == Indices(count) && Placed(nodes, count, idx, |count|)
    ensures Listed(nodes, count) && Bucketed(nodes, idx)
  {
    hide Placed, Place, InBucket, Index;
    PlacedSize(nodes, count, idx);
    forall i | 0 <= i < |count|
      ensures nodes[i].symbol < |count| && nodes[i] == Node(count[nodes[i].symbol], 0, nodes[i].symbol, 0)
      ensures InBucket(idx, Index(nodes[i].count), i)
    {
      var s := SymbolAt(nodes, count, idx, i);
    }
    forall i, j | 0 <= i < j < |count|
      ensures nodes[i].symbol != nodes[j].symbol
    {
      var s := SymbolAt(nodes, count, idx, i);
      var t := SymbolAt(nodes, count, idx, j);
    }
  }

  lemma PlacedSize(nodes: seq<Node>, count: seq<nat>, idx: seq<nat>)
    requires Placed(nodes, count, idx, |count|)
    ensures |idx| == |count| <= |nodes|
  {
  }

  /** One bucket position belongs to one bucket only. */
  lemma OneBucket(idx: seq<nat>, k: nat, m: nat, i: nat, j: nat)
    requires InBucket(idx, k, i) && InBucket(idx, m, j) && i <= j
    ensures m <= k
  {
    if k < m {
      AtLeastMonotone(idx, k + 1, m, |idx|);
    }
  }

  // ----- the loops -----

  ghost predicate Bases(rank: seq<RankPos>, idx: seq<nat>)
  {
    && |rank| == RANK_POSITION_TABLE_SIZE
    && (forall k :: 0 <= k < |rank| ==> rank[k].base == AtLeast(idx, k, |idx|))
  }

  /** curr of the bucket above k counts the symbols of bucket k placed so far. */
  ghost predicate Currs(rank: seq<RankPos>, idx: seq<nat>, m: nat)
  {
    && |rank| == RANK_POSITION_TABLE_SIZE && m <= |idx|
    && (forall k :: 0 <= k < |rank| - 1 ==> rank[k + 1].curr == AtLeast(idx, k + 1, |idx|) + Count(idx, k, m))
  }

  /** Where the buckets begin. */
  method FindBases(count: seq<nat>, rankPosition: array<RankPos>, ghost idx: seq<nat>)
    requires rankPosition.Length == RANK_POSITION_TABLE_SIZE && idx == Indices(count)
    requires forall s :: 0 <= s < |count| ==> count[s] < 0x1_0000_0000
    modifies rankPosition
    ensures Bases(rankPosition[..], idx) && Currs(rankPosition[..], idx, 0)
  {
    forall s | 0 <= s < |count|
      ensures idx[s] < RANK_POSITION_TABLE_SIZE - 2
    {
      IndexMonotone(count[s], count[s]);
    }
    forall k | 0 <= k < rankPosition.Length {
      rankPosition[k] := RankPos(0, 0);
    }
    for n := 0 to |count|
      invariant forall k :: 0 <= k < rankPosition.Length ==> rankPosition[k] == RankPos(Count(idx, k, n), 0)
    {
      var lowerRank := Index(count[n]);
      rankPosition[lowerRank] := rankPosition[lowerRank].(base := rankPosition[lowerRank].base + 1);
    }
    var n := RANK_POSITION_TABLE_SIZE - 1;
    AtLeastNone(idx, n, |idx|);
    CountNone(idx, n, 0, |idx|);
    while n > 0
      invariant 0 <= n <= RANK_POSITION_TABLE_SIZE - 1
      invariant forall k :: 0 <= k < n ==> rankPosition[k] == RankPos(Count(idx, k, |idx|), 0)
      invariant forall k :: n <= k < rankPosition.Length ==>
                  rankPosition[k] == RankPos(AtLeast(idx, k, |idx|), AtLeast(idx, k, |idx|))
    {
      AtLeastStep(idx, n - 1, |idx|);
      rankPosition[n - 1] := rankPosition[n - 1].(base := rankPosition[n - 1].base + rankPosition[n].base);
      rankPosition[n - 1] := rankPosition[n - 1].(curr := rankPosition[n - 1].base);
      n := n - 1;
    }
  }

  /** Puts every symbol into its bucket. */
  method PlaceSymbols(huffNode: array<Node>, count: seq<nat>, rankPosition: array<RankPos>, ghost idx: seq<nat>)
    requires |count| <= huffNode.Length && idx == Indices(count)
    requires forall s :: 0 <= s < |count| ==> count[s] < 0x1_0000_0000
    requires forall i :: 0 <= i < huffNode.Length ==> huffNode[i] == Node(0, 0, 0, 0)
    requires Bases(rankPosition[..], idx) && Currs(rankPosition[..], idx, 0)
    modifies huffNode, rankPosition
    ensures Listed(huffNode[..], count) && Bucketed(huffNode[..], idx)
    ensures forall i :: |count| <= i < huffNode.Length ==> huffNode[i] == Node(0, 0, 0, 0)
    ensures Bases(rankPosition[..], idx) && Currs(rankPosition[..], idx, |idx|)
  {
    hide Place, Index, Count, AtLeast;
    for n := 0 to |count|
      invariant Placed(huffNode[..], count, idx, n)
      invariant Bases(rankPosition[..], idx) && Currs(rankPosition[..], idx, n)
      invariant forall i :: 0 <= i < huffNode.Length ==> huffNode[i].parent == 0 && huffNode[i].nbBits == 0
      invariant forall i :: |count| <= i < huffNode.Length ==> huffNode[i] == Node(0, 0, 0, 0)
    {
      var c := count[n];
      var r := Index(c) + 1;
      IndexMonotone(c, c);
      var pos := rankPosition[r].curr;
      CurrIsPlace(rankPosition[..], idx, n);
      CurrStep(rankPosition[..], idx, n);
      ghost var now := huffNode[..];
      PlacedStep(now, count, idx, n);
      rankPosition[r] := rankPosition[r].(curr := rankPosition[r].curr + 1);
      huffNode[pos] := huffNode[pos].(count := c);
      huffNode[pos] := huffNode[pos].(symbol := n);
      assert huffNode[..] == now[pos := Node(c, 0, n, 0)];
    }
    PlacedAll(huffNode[..], count, idx);
  }

  lemma CurrIsPlace(rank: seq<RankPos>, idx: seq<nat>, n: nat)
    requires Currs(rank, idx, n) && n < |idx| && idx[n] < RANK_POSITION_TABLE_SIZE - 2
    ensures rank[idx[n] + 1].curr == Place(idx, n) < |idx|
  {
    PlaceInBucket(idx, n);
  }

  lemma CurrStep(rank: seq<RankPos>, idx: seq<nat>, n: nat)
    requires Currs(rank, idx, n) && Bases(rank, idx) && n < |idx| && idx[n] < RANK_POSITION_TABLE_SIZE - 2
    ensures var r := idx[n] + 1;
            var after := rank[r := rank[r].(curr := rank[r].curr + 1)];
            Currs(after, idx, n + 1) && Bases(after, idx)
  {
    var r, m := idx[n] + 1, n + 1;
    var after := rank[r := rank[r].(curr := rank[r].curr + 1)];
    hide AtLeast;
    forall k | 0 <= k < |after| - 1
      ensures after[k + 1].curr == AtLeast(idx, k + 1, |idx|) + Count(idx, k, m)
    {
      assert rank[k + 1].curr == AtLeast(idx, k + 1, |idx|) + Count(idx, k, n);
    }
    assert forall k :: 0 <= k < |after| ==> after[k].base == rank[k].base;
  }

  lemma PlacedStep(nodes: seq<Node>, count: seq<nat>, idx: seq<nat>, n: nat)
    requires idx == Indices(count) && Placed(nodes, count, idx, n) && n < |count| && Place(idx, n) < |idx|
    ensures Placed(nodes[Place(idx, n) := Node(count[n], 0, n, 0)], count, idx, n + 1)
  {
    hide AtLeast, Count, Place;
    var after := nodes[Place(idx, n) := Node(count[n], 0, n, 0)];
    forall s | 0 <= s < n
      ensures InPlace(after, count, idx, s)
    {
      PlaceInjective(idx, s, n);
      assert InPlace(nodes, count, idx, s);
    }
    assert InPlace(after, count, idx, n);
  }

  // ----- sorting the buckets -----

  lemma Twice(s: seq<Node>, i: nat, j: nat)
    requires i < j < |s| && s[i] == s[j]
    ensures multiset(s)[s[i]] >= 2
  {
    assert s == s[..i] + [s[i]] + s[i + 1..j] + [s[j]] + s[j + 1..];
    assert multiset(s) ==
      multiset(s[..i]) + multiset([s[i]]) + multiset(s[i + 1..j]) + multiset([s[j]]) + multiset(s[j + 1..]);
  }

  lemma {:induction false} Once(s: seq<Node>, x: Node)
    requires forall i, j :: 0 <= i < j < |s| ==> s[i] != s[j]
    ensures multiset(s)[x] <= 1
  {
    if s != [] {
      var m := |s| - 1;
      Once(s[..m], x);
      assert s == s[..m] + [s[m]];
      if x == s[m] {
        assert x !in s[..m];
        assert x !in multiset(s[..m]);
      }
    }
  }

  /** The listed nodes stay listed when they change places. */
  lemma ListedKept(after: seq<Node>, before: seq<Node>, count: seq<nat>, lo: nat, hi: nat)
    requires Listed(before, count) && Rearranged(after, before, lo, hi) && hi <= |count|
    ensures Listed(after, count)
  {
    var N := |count|;
    forall i | 0 <= i < N
      ensures after[i] in before[..N]
    {
      if lo <= i < hi {
        FromRange(after, before, lo, hi, i);
      } else {
        assert after[i] == before[i];
      }
    }
    SamePrefix(after, before, lo, hi, N);
    forall i, j | 0 <= i < j < N
      ensures after[i].symbol != after[j].symbol
    {
      if after[i].symbol == after[j].symbol {
        assert after[i] == after[j];
        Twice(after[..N], i, j);
        Once(before[..N], after[i]);
        assert false;
      }
    }
  }

  lemma SamePrefix(after: seq<Node>, before: seq<Node>, lo: nat, hi: nat, n: nat)
    requires Rearranged(after, before, lo, hi) && hi <= n <= |before|
    ensures multiset(after[..n]) == multiset(before[..n])
  {
    assert after == [] + after[..n] + after[n..];
    assert before == [] + before[..n] + after[n..];
    CancelAround([], after[..n], after[n..], before[..n]);
  }

  /** Nodes change places within one bucket only, so they stay in their buckets. */
  lemma BucketedKept(after: seq<Node>, before: seq<Node>, idx: seq<nat>, k: nat)
    requires Bucketed(before, idx)
    requires Rearranged(after, before, AtLeast(idx, k + 1, |idx|), AtLeast(idx, k, |idx|))
    ensures Bucketed(after, idx)
    ensures forall i :: 0 <= i < |idx| ==> Index(after[i].count) == Index(before[i].count)
  {
    var lo, hi := AtLeast(idx, k + 1, |idx|), AtLeast(idx, k, |idx|);
    hide AtLeast, Index;
    forall i | 0 <= i < |idx|
      ensures Index(after[i].count) == Index(before[i].count)
    {
      assert InBucket(idx, Index(before[i].count), i);
      if lo <= i < hi {
        FromRange(after, before, lo, hi, i);
        var j :| lo <= j < hi && after[i] == before[j];
        assert InBucket(idx, Index(before[j].count), j);
        assert InBucket(idx, k, i) && InBucket(idx, k, j);
        SameBucket(idx, k, Index(before[i].count), i);
        SameBucket(idx, k, Index(before[j].count), j);
      }
    }
  }

  lemma SameBucket(idx: seq<nat>, k: nat, m: nat, i: nat)
    requires InBucket(idx, k, i) && InBucket(idx, m, i)
    ensures k == m
  {
    OneBucket(idx, k, m, i, i);
    OneBucket(idx, m, k, i, i);
  }

  /** Nodes of the same bucket below k are in descending order. */
  ghost predicate SortedBelow(nodes: seq<Node>, size: nat, k: nat)
  {
    size <= |nodes| && forall i, j :: 0 <= i < j < size && Index(nodes[i].count) == Index(nodes[j].count) < k ==>
                         nodes[i].count >= nodes[j].count
  }

  lemma DistinctSorted(nodes: seq<Node>, count: seq<nat>)
    requires Listed(nodes, count) && forall s :: 0 <= s < |count| ==> count[s] < 0x1_0000_0000
    ensures SortedBelow(nodes, |count|, DISTINCT_COUNT_CUTOFF)
  {
    forall i, j | 0 <= i < j < |count| && Index(nodes[i].count) == Index(nodes[j].count) < DISTINCT_COUNT_CUTOFF
      ensures nodes[i].count >= nodes[j].count
    {
      IndexMonotone(Min(nodes[i].count, nodes[j].count), Max(nodes[i].count, nodes[j].count));
    }
  }

  lemma BucketSorted(after: seq<Node>, before: seq<Node>, idx: seq<nat>, k: nat)
    requires Bucketed(before, idx) && SortedBelow(before, |idx|, k)
    requires Rearranged(after, before, AtLeast(idx, k + 1, |idx|), AtLeast(idx, k, |idx|))
    requires HufArrange.Sorted(after, AtLeast(idx, k + 1, |idx|), AtLeast(idx, k, |idx|))
    ensures SortedBelow(after, |idx|, k + 1)
  {
    BucketedKept(after, before, idx, k);
    hide AtLeast, Index;
    forall i, j | 0 <= i < j < |idx| && Index(after[i].count) == Index(after[j].count) < k + 1
      ensures after[i].count >= after[j].count
    {
      var m := Index(after[i].count);
      assert InBucket(idx, m, i) && InBucket(idx, m, j);
      if m < k {
        NotInBucket(idx, m, k, i);
        NotInBucket(idx, m, k, j);
      }
    }
  }

  lemma NotInBucket(idx: seq<nat>, m: nat, k: nat, i: nat)
    requires InBucket(idx, m, i) && m < k
    ensures !InBucket(idx, k, i)
  {
    if InBucket(idx, k, i) {
      OneBucket(idx, m, k, i, i);
    }
  }

  lemma AllDescending(nodes: seq<Node>, count: seq<nat>, idx: seq<nat>)
    requires Listed(nodes, count) && forall s :: 0 <= s < |count| ==> count[s] < 0x1_0000_0000
    requires |idx| == |count| && Bucketed(nodes, idx) && SortedBelow(nodes, |count|, RANK_POSITION_TABLE_SIZE - 2)
    ensures HufArrange.Sorted(nodes, 0, |count|)
  {
    hide InBucket;
    forall i, j | 0 <= i < j < |count|
      ensures nodes[i].count >= nodes[j].count
    {
      var a, b := nodes[i].count, nodes[j].count;
      assert InBucket(idx, Index(a), i) && InBucket(idx, Index(b), j);
      OneBucket(idx, Index(a), Index(b), i, j);
      IndexMonotone(Min(a, b), Max(a, b));
      IndexMonotone(a, a);
    }
  }

  /** The bounds of bucket k as the sorted part of the array sees them. */
  lemma BucketBounds(rank: seq<RankPos>, idx: seq<nat>, k: nat)
    requires Bases(rank, idx) && Currs(rank, idx, |idx|) && k + 1 < |rank|
    ensures rank[k + 1].base == AtLeast(idx, k + 1, |idx|)
    ensures rank[k + 1].curr == AtLeast(idx, k, |idx|)
    ensures rank[k + 1].base <= rank[k + 1].curr <= |idx|
  {
    AtLeastStep(idx, k, |idx|);
  }

  lemma ShortSorted(nodes: seq<Node>, lo: nat, hi: nat)
    requires lo <= hi <= |nodes| && hi <= lo + 1
    ensures HufArrange.Sorted(nodes, lo, hi) && Rearranged(nodes, nodes, lo, hi)
  {
  }

  /** What holds when the buckets below k are sorted. */
  ghost predicate SortedSoFar(nodes: seq<Node>, count: seq<nat>, idx: seq<nat>, k: nat)
  {
    && |idx| == |count| <= |nodes| && Listed(nodes, count) && Bucketed(nodes, idx) && SortedBelow(nodes, |idx|, k)
  }

  lemma BucketDone(after: seq<Node>, before: seq<Node>, count: seq<nat>, idx: seq<nat>, k: nat)
    requires SortedSoFar(before, count, idx, k)
    requires Rearranged(after, before, AtLeast(idx, k + 1, |idx|), AtLeast(idx, k, |idx|))
    requires HufArrange.Sorted(after, AtLeast(idx, k + 1, |idx|), AtLeast(idx, k, |idx|))
    ensures SortedSoFar(after, count, idx, k + 1)
    ensures forall i :: |count| <= i < |after| ==> after[i] == before[i]
  {
    hide Listed, Bucketed, SortedBelow, HufArrange.Sorted, AtLeast;
    BucketedKept(after, before, idx, k);
    ListedKept(after, before, count, AtLeast(idx, k + 1, |idx|), AtLeast(idx, k, |idx|));
    BucketSorted(after, before, idx, k);
  }

  /** Sorts bucket k, at positions lo to hi - 1. */
  method SortBucket(huffNode: array<Node>, lo: nat, hi: nat, ghost count: seq<nat>, ghost idx: seq<nat>, ghost k: nat)
    requires SortedSoFar(huffNode[..], count, idx, k)
    requires lo == AtLeast(idx, k + 1, |idx|) && hi == AtLeast(idx, k, |idx|) && lo <= hi <= huffNode.Length
    modifies huffNode
    ensures SortedSoFar(huffNode[..], count, idx, k + 1)
    ensures forall i :: |count| <= i < huffNode.Length ==> huffNode[i] == old(huffNode[i])
  {
    hide SortedSoFar, AtLeast, Rearranged, HufArrange.Sorted;
    ghost var before := huffNode[..];
    if hi - lo > 1 {
      SimpleQuickSort(huffNode, lo, hi - 1);
    } else {
      ShortSorted(before, lo, hi);
    }
    BucketDone(huffNode[..], before, count, idx, k);
    assert forall i :: |count| <= i < huffNode.Length ==> huffNode[..][i] == before[i];
  }

  /** Sorts every bucket that can hold different counts. */
  method SortBuckets(huffNode: array<Node>, count: seq<nat>, rankPosition: array<RankPos>, ghost idx: seq<nat>)
    requires |count| <= huffNode.Length && idx == Indices(count)
    requires forall s :: 0 <= s < |count| ==> count[s] < 0x1_0000_0000
    requires Listed(huffNode[..], count) && Bucketed(huffNode[..], idx)
    requires Bases(rankPosition[..], idx) && Currs(rankPosition[..], idx, |idx|)
    modifies huffNode
    ensures Listed(huffNode[..], count) && HufArrange.Sorted(huffNode[..], 0, |count|)
    ensures forall i :: |count| <= i < huffNode.Length ==> huffNode[i] == old(huffNode[i])
  {
    ghost var rank := rankPosition[..];
    DistinctSorted(huffNode[..], count);
    LowerSorted(huffNode[..], |count|, DISTINCT_COUNT_CUTOFF - 1);
    assert |rank| == RANK_POSITION_TABLE_SIZE;
    var n := DISTINCT_COUNT_CUTOFF;
    assert SortedSoFar(huffNode[..], count, idx, n - 1);
    hide SortedSoFar, Bases, Currs, AtLeast;
    while n < RANK_POSITION_TABLE_SIZE - 1
      invariant DISTINCT_COUNT_CUTOFF <= n <= RANK_POSITION_TABLE_SIZE - 1
      invariant SortedSoFar(huffNode[..], count, idx, n - 1)
      invariant forall i :: |count| <= i < huffNode.Length ==> huffNode[i] == old(huffNode[i])
    {
      BucketBounds(rank, idx, n - 1);
      var bucketSize := rankPosition[n].curr - rankPosition[n].base;
      var bucketStartIdx := rankPosition[n].base;
      SortBucket(huffNode, bucketStartIdx, bucketStartIdx + bucketSize, count, idx, n - 1);
      n := n + 1;
    }
    SortedAll(huffNode[..], count, idx);
  }

  lemma SortedAll(nodes: seq<Node>, count: seq<nat>, idx: seq<nat>)
    requires SortedSoFar(nodes, count, idx, RANK_POSITION_TABLE_SIZE - 2)
    requires forall s :: 0 <= s < |count| ==> count[s] < 0x1_0000_0000
    ensures Listed(nodes, count) && HufArrange.Sorted(nodes, 0, |count|)
  {
    AllDescending(nodes, count, idx);
  }

  lemma LowerSorted(nodes: seq<Node>, size: nat, k: nat)
    requires SortedBelow(nodes, size, k + 1)
    ensures SortedBelow(nodes, size, k)
  {
  }

  /**
    HUF_sort: the symbols in descending order of count, each of them once. The node array comes in cleared.
   */
  method Sort(huffNode: array<Node>, count: seq<nat>, rankPosition: array<RankPos>)
    requires |count| <= huffNode.Length && rankPosition.Length == RANK_POSITION_TABLE_SIZE
    requires forall s :: 0 <= s < |count| ==> count[s] < 0x1_0000_0000
    requires forall i :: 0 <= i < huffNode.Length ==> huffNode[i] == Node(0, 0, 0, 0)
    modifies huffNode, rankPosition
    ensures Listed(huffNode[..], count) && HufArrange.Sorted(huffNode[..], 0, |count|)
    ensures forall i :: |count| <= i < huffNode.Length ==> huffNode[i] == Node(0, 0, 0, 0)
  {
    ghost var idx := Indices(count);
    FindBases(count, rankPosition, idx);
    PlaceSymbols(huffNode, count, rankPosition, idx);
    SortBuckets(huffNode, count, rankPosition, idx);
  }
}
