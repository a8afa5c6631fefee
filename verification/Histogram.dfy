/** Symbol counts (compress/hist.c) and their sums. */
module Histogram {
  import opened Bits
  import opened Counting

  ghost function SumTo(count: seq<nat>, n: nat): nat
    requires n <= |count|
  {
    if n == 0 then 0 else SumTo(count, n - 1) + count[n - 1]
  }

  lemma {:induction false} SumMonotone(count: seq<nat>, m: nat, n: nat)
    requires m <= n <= |count|
    ensures SumTo(count, m) <= SumTo(count, n)
    ensures m < n ==> SumTo(count, m) + count[m] <= SumTo(count, n)
  {
    if m < n {
      SumMonotone(count, m, n - 1);
    }
  }

  lemma {:induction false} SumSame(a: seq<nat>, b: seq<nat>, n: nat)
    requires n <= |a| && n <= |b| && forall k :: 0 <= k < n ==> a[k] == b[k]
    ensures SumTo(a, n) == SumTo(b, n)
  {
    if n > 0 {
      SumSame(a, b, n - 1);
    }
  }

  ghost function CountsOf(w: seq<nat>, symbols: nat): (count: seq<nat>)
    ensures |count| == symbols && forall s :: 0 <= s < symbols ==> count[s] == Count(w, s, |w|)
  {
    seq(symbols, s requires 0 <= s < symbols => Count(w, s, |w|))
  }

  /** The counts of all symbols add up to the length. */
  lemma {:induction false} CountsSum(w: seq<nat>, symbols: nat)
    requires forall i :: 0 <= i < |w| ==> w[i] < symbols
    ensures SumTo(CountsOf(w, symbols), symbols) == |w|
  {
    if w == [] {
      SumZero(CountsOf(w, symbols), symbols);
    } else {
      var front, x := w[..|w| - 1], w[|w| - 1];
      CountsSum(front, symbols);
      forall s | 0 <= s < symbols
        ensures CountsOf(w, symbols)[s] == CountsOf(front, symbols)[s] + if s == x then 1 else 0
      {
        CountPrefix(w, front, s, |front|);
      }
      SumPlusOne(CountsOf(front, symbols), CountsOf(w, symbols), x, symbols);
    }
  }

  lemma {:induction false} SumZero(count: seq<nat>, n: nat)
    requires n <= |count| && forall k :: 0 <= k < n ==> count[k] == 0
    ensures SumTo(count, n) == 0
  {
    if n > 0 {
      SumZero(count, n - 1);
    }
  }

  lemma {:induction false} SumPlusOne(a: seq<nat>, b: seq<nat>, x: nat, n: nat)
    requires n <= |a| == |b| && forall s :: 0 <= s < n ==> b[s] == a[s] + if s == x then 1 else 0
    ensures SumTo(b, n) == SumTo(a, n) + if x < n then 1 else 0
  {
    if n > 0 {
      SumPlusOne(a, b, x, n - 1);
    }
  }

  lemma {:induction false} SumOthers(count: seq<nat>, s: nat, n: nat)
    requires s < n <= |count| && forall t :: 0 <= t < n && t != s ==> count[t] == 0
    ensures SumTo(count, n) == count[s]
  {
    if s == n - 1 {
      SumZero(count, s);
    } else {
      SumOthers(count, s, n - 1);
    }
  }

  /**
    HIST_count_simple: how often each symbol occurs, the greatest symbol, and how often the most frequent one
    occurs.
   */
  method CountSimple(w: seq<byte>, count: array<nat>) returns (maxSymbolValue: nat, maxCount: nat)
    requires w != [] && count.Length > 0 && forall i :: 0 <= i < |w| ==> w[i] < count.Length
    modifies count
    ensures maxSymbolValue < count.Length && forall i :: 0 <= i < |w| ==> w[i] <= maxSymbolValue
    ensures count[..maxSymbolValue + 1] == CountsOf(w, maxSymbolValue + 1) && count[maxSymbolValue] > 0
    ensures forall s :: 0 <= s <= maxSymbolValue ==> count[s] <= maxCount
    ensures exists s :: 0 <= s <= maxSymbolValue && count[s] == maxCount
  {
    forall k | 0 <= k < count.Length {
      count[k] := 0;
    }
    for n := 0 to |w|
      invariant forall k :: 0 <= k < count.Length ==> count[k] == Count(w, k, n)
    {
      count[w[n]] := count[w[n]] + 1;
    }
    CountMonotone(w, w[0], 0, |w|);
    maxSymbolValue := count.Length - 1;
    while count[maxSymbolValue] == 0
      invariant w[0] <= maxSymbolValue < count.Length
      invariant forall k :: maxSymbolValue < k < count.Length ==> count[k] == 0
      decreases maxSymbolValue
    {
      maxSymbolValue := maxSymbolValue - 1;
    }
    forall i | 0 <= i < |w|
      ensures w[i] <= maxSymbolValue
    {
      CountMonotone(w, w[i], i, |w|);
    }
    maxCount := 0;
    ghost var largest := 0;
    for s := 0 to maxSymbolValue + 1
      invariant forall k :: 0 <= k < s ==> count[k] <= maxCount
      invariant if s == 0 then largest == maxCount == 0 else 0 <= largest < s && count[largest] == maxCount
    {
      if count[s] > maxCount {
        maxCount, largest := count[s], s;
      }
    }
  }
}
