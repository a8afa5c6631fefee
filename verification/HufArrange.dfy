/** The insertion sort and the quicksort that order nodes by descending count. */
module HufArrange {
  import opened HufNodes

  /** Positions outside [lo, hi) are as before, and the nodes inside are the same ones in some order. */
  ghost predicate Rearranged(after: seq<Node>, before: seq<Node>, lo: nat, hi: nat)
  {
    && lo <= hi <= |before| == |after|
    && multiset(after) == multiset(before)
    && (forall k :: 0 <= k < lo || hi <= k < |before| ==> after[k] == before[k])
  }

  ghost predicate Sorted(nodes: seq<Node>, lo: nat, hi: nat)
  {
    hi <= |nodes| && forall i, j :: lo <= i < j < hi ==> nodes[i].count >= nodes[j].count
  }

  lemma CancelAround(a: seq<Node>, b: seq<Node>, c: seq<Node>, d: seq<Node>)
    requires multiset(a + b + c) == multiset(a + d + c)
    ensures multiset(b) == multiset(d)
  {
    assert multiset(a + b + c) == multiset(a) + multiset(b) + multiset(c);
    assert multiset(a + d + c) == multiset(a) + multiset(d) + multiset(c);
    forall e
      ensures multiset(b)[e] == multiset(d)[e]
    {
      assert multiset(a + b + c)[e] == multiset(a)[e] + multiset(b)[e] + multiset(c)[e];
      assert multiset(a + d + c)[e] == multiset(a)[e] + multiset(d)[e] + multiset(c)[e];
    }
  }

  /** Every node in the range comes from the range. */
  lemma FromRange(after: seq<Node>, before: seq<Node>, lo: nat, hi: nat, i: nat)
    requires Rearranged(after, before, lo, hi) && lo <= i < hi
    ensures exists j :: lo <= j < hi && after[i] == before[j]
  {
    assert after == after[..lo] + after[lo..hi] + after[hi..];
    assert before == after[..lo] + before[lo..hi] + after[hi..];
    CancelAround(after[..lo], after[lo..hi], after[hi..], before[lo..hi]);
    assert after[lo..hi][i - lo] in multiset(after[lo..hi]);
    assert after[i] in before[lo..hi];
  }

  lemma SwapRearranges(s: seq<Node>, a: nat, b: nat, lo: nat, hi: nat)
    requires lo <= a < hi && lo <= b < hi <= |s|
    ensures Rearranged(s[a := s[b]][b := s[a]], s, lo, hi)
  {
  }

  lemma NotRearranged(s: seq<Node>, lo: nat, hi: nat)
    requires lo <= hi <= |s|
    ensures Rearranged(s, s, lo, hi)
  {
  }

  lemma RearrangeAgain(after: seq<Node>, middle: seq<Node>, before: seq<Node>, lo: nat, hi: nat, low: nat, high: nat)
    requires Rearranged(after, middle, low, high) && Rearranged(middle, before, lo, hi) && lo <= low && high <= hi
    ensures Rearranged(after, before, lo, hi)
  {
  }

  /** HUF_insertionSort of the nodes low..high. */
  method InsertionSort(huffNode: array<Node>, low: nat, high: int)
    requires low <= high + 1 <= huffNode.Length
    modifies huffNode
    ensures Sorted(huffNode[..], low, high + 1)
    ensures Rearranged(huffNode[..], old(huffNode[..]), low, high + 1)
  {
    ghost var before := huffNode[..];
    var i := low + 1;
    while i <= high
      invariant low + 1 <= i && (i <= high + 1 || i == low + 1)
      invariant Sorted(huffNode[..], low, if i <= high then i else high + 1)
      invariant Rearranged(huffNode[..], before, low, high + 1)
      decreases high - i
    {
      InsertOne(huffNode, low, i);
      i := i + 1;
    }
  }

  /** s with the element at i moved down to p. */
  ghost function Moved(s: seq<Node>, p: nat, i: nat): seq<Node>
    requires p <= i < |s|
  {
    s[..p] + [s[i]] + s[p..i] + s[i + 1..]
  }

  lemma IsMoved(after: seq<Node>, s: seq<Node>, p: nat, i: nat)
    requires |after| == |s| && p <= i < |s| && after[p] == s[i]
    requires forall k :: 0 <= k < p || i < k < |s| ==> after[k] == s[k]
    requires forall k :: p < k <= i ==> after[k] == s[k - 1]
    ensures after == Moved(s, p, i)
  {
    assert after[..p] == s[..p] && after[i + 1..] == s[i + 1..];
    assert after[p + 1..i + 1] == s[p..i];
    assert after == after[..p] + [after[p]] + after[p + 1..i + 1] + after[i + 1..];
  }

  lemma MovedRearranges(s: seq<Node>, low: nat, p: nat, i: nat)
    requires low <= p <= i < |s|
    ensures Rearranged(Moved(s, p, i), s, low, i + 1)
  {
    var a, b, x, c := s[..p], s[p..i], [s[i]], s[i + 1..];
    assert s == a + b + x + c;
    assert multiset(a + b + x + c) == multiset(a) + multiset(b) + multiset(x) + multiset(c);
    assert multiset(a + x + b + c) == multiset(a) + multiset(x) + multiset(b) + multiset(c);
  }

  lemma MovedSorts(s: seq<Node>, low: nat, p: nat, i: nat)
    requires low <= p <= i < |s| && Sorted(s, low, i)
    requires forall k :: p <= k < i ==> s[k].count < s[i].count
    requires p > low ==> s[p - 1].count >= s[i].count
    ensures Sorted(Moved(s, p, i), low, i + 1)
  {
  }

  /** Moves the nodes with smaller counts than the one at i up by one, and finds its new place. */
  method ShiftUp(huffNode: array<Node>, low: nat, i: nat) returns (p: nat)
    requires low < i < huffNode.Length
    modifies huffNode
    ensures low <= p <= i && (p > low ==> old(huffNode[p - 1].count) >= old(huffNode[i].count))
    ensures forall k :: p <= k < i ==> old(huffNode[k].count) < old(huffNode[i].count)
    ensures forall k :: 0 <= k < p || i < k < huffNode.Length ==> huffNode[k] == old(huffNode[k])
    ensures forall k :: p < k <= i ==> huffNode[k] == old(huffNode[k - 1])
  {
    var key := huffNode[i];
    p := i;
    while p > low && huffNode[p - 1].count < key.count
      invariant low <= p <= i
      invariant forall k :: p <= k < i ==> old(huffNode[k].count) < key.count
      invariant forall k :: 0 <= k < p || i < k < huffNode.Length ==> huffNode[k] == old(huffNode[k])
      invariant forall k :: p < k <= i ==> huffNode[k] == old(huffNode[k - 1])
    {
      huffNode[p] := huffNode[p - 1];
      p := p - 1;
    }
  }

  /** One round of the insertion sort: the node at i moves down to its place. */
  method InsertOne(huffNode: array<Node>, low: nat, i: nat)
    requires low < i < huffNode.Length && Sorted(huffNode[..], low, i)
    modifies huffNode
    ensures Sorted(huffNode[..], low, i + 1)
    ensures Rearranged(huffNode[..], old(huffNode[..]), low, i + 1)
  {
    hide *;
    ghost var before := huffNode[..];
    var key := huffNode[i];
    var p := ShiftUp(huffNode, low, i);
    huffNode[p] := key;
    IsMoved(huffNode[..], before, p, i);
    MovedRearranges(before, low, p, i);
    MovedSorts(before, low, p, i);
  }

  // ----- quicksort -----

  /** HUF_swapNodes. */
  method SwapNodes(huffNode: array<Node>, a: nat, b: nat, ghost before: seq<Node>, ghost lo: nat, ghost hi: nat)
    requires lo <= a < hi && lo <= b < hi <= huffNode.Length && Rearranged(huffNode[..], before, lo, hi)
    modifies huffNode
    ensures huffNode[a] == old(huffNode[b]) && huffNode[b] == old(huffNode[a])
    ensures forall k :: 0 <= k < huffNode.Length && k != a && k != b ==> huffNode[k] == old(huffNode[k])
    ensures Rearranged(huffNode[..], before, lo, hi)
  {
    ghost var now := huffNode[..];
    SwapRearranges(now, a, b, lo, hi);
    huffNode[a], huffNode[b] := huffNode[b], huffNode[a];
    assert huffNode[..] == now[a := now[b]][b := now[a]];
    RearrangeAgain(huffNode[..], now, before, lo, hi, lo, hi);
  }

  /** HUF_quickSortPartition: the last node is the pivot. */
  method Partition(huffNode: array<Node>, low: nat, high: nat) returns (p: nat)
    requires low <= high < huffNode.Length
    modifies huffNode
    ensures low <= p <= high
    ensures forall k :: low <= k < p ==> huffNode[k].count > huffNode[p].count
    ensures forall k :: p < k <= high ==> huffNode[k].count <= huffNode[p].count
    ensures Rearranged(huffNode[..], old(huffNode[..]), low, high + 1)
  {
    hide Rearranged;
    ghost var before := huffNode[..];
    var pivot := huffNode[high].count;
    var i: int := low - 1;
    NotRearranged(before, low, high + 1);
    var j := low;
    while j < high
      invariant low <= j <= high && low - 1 <= i < j
      invariant huffNode[high].count == pivot
      invariant forall k :: low <= k <= i ==> huffNode[k].count > pivot
      invariant forall k :: i < k < j ==> huffNode[k].count <= pivot
      invariant Rearranged(huffNode[..], before, low, high + 1)
    {
      if huffNode[j].count > pivot {
        i := i + 1;
        SwapNodes(huffNode, i, j, before, low, high + 1);
      }
      j := j + 1;
    }
    SwapNodes(huffNode, i + 1, high, before, low, high + 1);
    return i + 1;
  }

  /** Nodes of [lo, hi) in the right order, except those that both lie in low..high. */
  ghost predicate SortedAround(nodes: seq<Node>, lo: nat, hi: nat, low: int, high: int)
  {
    && hi <= |nodes|
    && (forall i, j :: lo <= i < j < hi && (i < low || high < j) ==> nodes[i].count >= nodes[j].count)
  }

  /** Rearranging and sorting one side of a pivot at p. */
  lemma SideSorted(after: seq<Node>, before: seq<Node>, lo: nat, hi: nat, low: nat, high: int, p: nat, left: bool)
    requires SortedAround(before, lo, hi, low, high) && lo <= low <= p <= high < hi
    requires forall k :: low <= k < p ==> before[k].count > before[p].count
    requires forall k :: p < k <= high ==> before[k].count <= before[p].count
    requires var a, b := if left then low else p + 1, if left then p else high + 1;
             Rearranged(after, before, a, b) && Sorted(after, a, b)
    ensures left ==> SortedAround(after, lo, hi, p + 1, high)
    ensures !left ==> SortedAround(after, lo, hi, low, p - 1)
  {
    var a, b := if left then low else p + 1, if left then p else high + 1;
    forall i, j | lo <= i < j < hi && (if left then i < p + 1 || high < j else i < low || p - 1 < j)
      ensures after[i].count >= after[j].count
    {
      if a <= i < j < b {
      } else {
        var i0, j0 := i, j;
        if a <= i < b {
          FromRange(after, before, a, b, i);
          i0 :| a <= i0 < b && after[i] == before[i0];
        }
        if a <= j < b {
          FromRange(after, before, a, b, j);
          j0 :| a <= j0 < b && after[j] == before[j0];
        }
        assert after[i] == before[i0] && after[j] == before[j0];
      }
    }
  }

  const INSERTION_SORT_THRESHOLD := 8

  /** HUF_simpleQuickSort of the nodes low0..high0. */
  method SimpleQuickSort(huffNode: array<Node>, low0: nat, high0: int)
    requires low0 <= high0 + 1 <= huffNode.Length
    modifies huffNode
    ensures Sorted(huffNode[..], low0, high0 + 1)
    ensures Rearranged(huffNode[..], old(huffNode[..]), low0, high0 + 1)
    decreases high0 - low0
  {
    hide *;
    if high0 - low0 < INSERTION_SORT_THRESHOLD {
      InsertionSort(huffNode, low0, high0);
      return;
    }
    ghost var before := huffNode[..];
    var low: nat, high: int := low0, high0;
    SortingStarts(before, low0, high0);
    while low < high
      invariant low0 <= low <= high + 1 && high <= high0
      invariant Sorting(huffNode[..], before, low0, high0 + 1, low, high)
      decreases high - low
    {
      ghost var now := huffNode[..];
      var idx := Partition(huffNode, low, high);
      PartitionStep(huffNode[..], now, before, low0, high0 + 1, low, high);
      now := huffNode[..];
      if idx - low < high - idx {
        SimpleQuickSort(huffNode, low, idx - 1);
        SideStep(huffNode[..], now, before, low0, high0 + 1, low, high, idx, true);
        low := idx + 1;
      } else {
        SimpleQuickSort(huffNode, idx + 1, high);
        SideStep(huffNode[..], now, before, low0, high0 + 1, low, high, idx, false);
        high := idx - 1;
      }
    }
    AllSorted(huffNode[..], before, low0, high0 + 1, low, high);
  }

  /** Between two rounds of the quicksort. */
  ghost predicate Sorting(nodes: seq<Node>, before: seq<Node>, lo: nat, hi: nat, low: int, high: int)
  {
    SortedAround(nodes, lo, hi, low, high) && Rearranged(nodes, before, lo, hi)
  }

  lemma PartitionStep(after: seq<Node>, now: seq<Node>, before: seq<Node>, lo: nat, hi: nat, low: nat, high: int)
    requires Sorting(now, before, lo, hi, low, high) && lo <= low <= high < hi && Rearranged(after, now, low, high + 1)
    ensures Sorting(after, before, lo, hi, low, high)
  {
    hide SortedAround, Rearranged;
    AroundKept(after, now, lo, hi, low, high);
    RearrangeAgain(after, now, before, lo, hi, low, high + 1);
  }

  lemma SideStep(after: seq<Node>, now: seq<Node>, before: seq<Node>, lo: nat, hi: nat, low: nat, high: int, p: nat,
                 left: bool)
    requires Sorting(now, before, lo, hi, low, high) && lo <= low <= p <= high < hi <= |now|
    requires forall k :: low <= k < p ==> now[k].count > now[p].count
    requires forall k :: p < k <= high ==> now[k].count <= now[p].count
    requires var a, b := if left then low else p + 1, if left then p else high + 1;
             Rearranged(after, now, a, b) && Sorted(after, a, b)
    ensures if left then Sorting(after, before, lo, hi, p + 1, high) else Sorting(after, before, lo, hi, low, p - 1)
  {
    hide SortedAround, Rearranged, Sorted;
    SideSorted(after, now, lo, hi, low, high, p, left);
    RearrangeAgain(after, now, before, lo, hi, if left then low else p + 1, if left then p else high + 1);
  }

  lemma SortingStarts(nodes: seq<Node>, lo: nat, high: int)
    requires lo <= high + 1 <= |nodes|
    ensures Sorting(nodes, nodes, lo, high + 1, lo, high)
  {
  }

  lemma AllSorted(nodes: seq<Node>, before: seq<Node>, lo: nat, hi: nat, low: nat, high: int)
    requires Sorting(nodes, before, lo, hi, low, high) && low >= high
    ensures Sorted(nodes, lo, hi) && Rearranged(nodes, before, lo, hi)
  {
  }

  /** Rearranging what lies in low..high does not touch the order of the others. */
  lemma AroundKept(after: seq<Node>, before: seq<Node>, lo: nat, hi: nat, low: nat, high: int)
    requires SortedAround(before, lo, hi, low, high) && lo <= low <= high < hi
    requires Rearranged(after, before, low, high + 1)
    ensures SortedAround(after, lo, hi, low, high)
  {
    forall i, j | lo <= i < j < hi && (i < low || high < j)
      ensures after[i].count >= after[j].count
    {
      var i0, j0 := i, j;
      if low <= i <= high {
        FromRange(after, before, low, high + 1, i);
        i0 :| low <= i0 <= high && after[i] == before[i0];
      }
      if low <= j <= high {
        FromRange(after, before, low, high + 1, j);
        j0 :| low <= j0 <= high && after[j] == before[j0];
      }
      assert after[i] == before[i0] && after[j] == before[j0];
    }
  }
}
