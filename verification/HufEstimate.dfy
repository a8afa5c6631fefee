/** HUF_estimateCompressedSize: the size of a block in some code, from the histogram alone. */
module HufEstimate {
  import opened Bits
  import opened Counting
  import opened Histogram
  import opened HufContainer
  import opened HufEncoder
  import opened HufCodes
  import opened HufTable
  import opened HufWriteTable

  /** The bits of the first n symbols, from their counts. */
  function CountedBits(lens: seq<nat>, count: seq<nat>, n: nat): nat
    requires n <= |lens| && n <= |count|
  {
    if n == 0 then 0 else CountedBits(lens, count, n - 1) + lens[n - 1] * count[n - 1]
  }

  /** The bits of the first n occurrences. */
  function ListedBits(lens: seq<nat>, src: seq<nat>, n: nat): nat
    requires n <= |src| && forall i :: 0 <= i < |src| ==> src[i] < |lens|
  {
    if n == 0 then 0 else ListedBits(lens, src, n - 1) + lens[src[n - 1]]
  }

  lemma {:induction false} ListedFront(lens: seq<nat>, src: seq<nat>, n: nat)
    requires 0 < n <= |src| && forall i :: 0 <= i < |src| ==> src[i] < |lens|
    ensures ListedBits(lens, src, n) == lens[src[0]] + ListedBits(lens, src[1..], n - 1)
  {
    if n > 1 {
      ListedFront(lens, src, n - 1);
      assert src[1..][n - 2] == src[n - 1];
    } else {
      assert ListedBits(lens, src, 0) == 0;
    }
  }

  lemma {:induction false} StreamLength(lens: seq<nat>, tableLog: nat, src: seq<byte>)
    requires Complete(lens, tableLog) && Encodable(src, CodesOf(lens, tableLog))
    ensures forall i :: 0 <= i < |src| ==> src[i] < |lens|
    ensures |HufBits(CodesOf(lens, tableLog), src)| == ListedBits(lens, src, |src|)
  {
    hide Used, CodeOf, ListedBits;
    var codes := CodesOf(lens, tableLog);
    if src == [] {
      NothingListed(lens);
    } else {
      StreamLength(lens, tableLog, src[1..]);
      ListedFront(lens, src, |src|);
      CodeLength(lens, tableLog, src[0]);
    }
  }

  lemma NothingListed(lens: seq<nat>)
    ensures ListedBits(lens, [], 0) == 0
  {
  }

  lemma CodeLength(lens: seq<nat>, tableLog: nat, s: nat)
    requires Complete(lens, tableLog) && s < |lens|
    ensures |CodeOf(lens, tableLog, s).Stream()| == lens[s]
  {
    hide Used, StartValue;
  }

  /** Each symbol counted as often as it occurs among the first n. */
  lemma {:induction false} CountedIsListed(lens: seq<nat>, src: seq<nat>, n: nat)
    requires n <= |src| && forall i :: 0 <= i < |src| ==> src[i] < |lens|
    ensures CountedBits(lens, CountsTo(src, n, |lens|), |lens|) == ListedBits(lens, src, n)
  {
    if n == 0 {
      NothingCounted(lens, CountsTo(src, 0, |lens|), |lens|);
    } else {
      CountedIsListed(lens, src, n - 1);
      OneMoreCounted(lens, CountsTo(src, n - 1, |lens|), CountsTo(src, n, |lens|), src[n - 1], |lens|);
    }
  }

  ghost function CountsTo(src: seq<nat>, n: nat, symbols: nat): (count: seq<nat>)
    requires n <= |src|
    ensures |count| == symbols && forall s :: 0 <= s < symbols ==> count[s] == Count(src, s, n)
  {
    seq(symbols, s requires 0 <= s < symbols => Count(src, s, n))
  }

  lemma {:induction false} NothingCounted(lens: seq<nat>, count: seq<nat>, n: nat)
    requires n <= |lens| && n <= |count| && forall s :: 0 <= s < |count| ==> count[s] == 0
    ensures CountedBits(lens, count, n) == 0
  {
    if n > 0 {
      NothingCounted(lens, count, n - 1);
    }
  }

  lemma {:induction false} OneMoreCounted(lens: seq<nat>, a: seq<nat>, b: seq<nat>, x: nat, n: nat)
    requires n <= |lens| && n <= |a| && n <= |b|
    requires forall s :: 0 <= s < n ==> b[s] == a[s] + if s == x then 1 else 0
    ensures CountedBits(lens, b, n) == CountedBits(lens, a, n) + if x < n then lens[x] else 0
  {
    if n > 0 {
      OneMoreCounted(lens, a, b, x, n - 1);
      MulNext(a[n - 1], lens[n - 1]);
      MulCommutes(lens[n - 1], a[n - 1]);
      MulCommutes(lens[n - 1], b[n - 1]);
    }
  }

  lemma {:induction false} NoneAbove(lens: seq<nat>, a: seq<nat>, b: seq<nat>, m: nat, n: nat)
    requires m <= n <= |lens| && n <= |a| && m <= |b|
    requires (forall s :: 0 <= s < m ==> a[s] == b[s]) && forall s :: m <= s < n ==> a[s] == 0
    ensures CountedBits(lens, a, n) == CountedBits(lens, b, m)
    decreases n
  {
    if m < n {
      NoneAbove(lens, a, b, m, n - 1);
    } else if n > 0 {
      NoneAbove(lens, a, b, m - 1, n - 1);
    }
  }

  /** The estimate is the size of the stream, but for the end mark. */
  lemma EstimateIsSize(lens: seq<nat>, tableLog: nat, src: seq<byte>, symbols: nat)
    requires Complete(lens, tableLog) && Encodable(src, CodesOf(lens, tableLog))
    requires symbols <= |lens| && forall i :: 0 <= i < |src| ==> src[i] < symbols
    ensures CountedBits(lens, CountsOf(src, symbols), symbols) == |HufBits(CodesOf(lens, tableLog), src)|
  {
    hide Complete, Encodable, CountedBits, HufBits;
    StreamLength(lens, tableLog, src);
    CountedIsListed(lens, src, |src|);
    forall s: nat | symbols <= s
      ensures Count(src, s, |src|) == 0
    {
      CountNone(src, s, 0, |src|);
    }
    NoneAbove(lens, CountsTo(src, |src|, |lens|), CountsOf(src, symbols), symbols, |lens|);
  }

  method EstimateCompressedSize(elts: array<nat>, tableLog: nat, count: seq<nat>, ghost lens: seq<nat>,
                                ghost src: seq<byte>) returns (size: nat)
    requires Complete(lens, tableLog) && IsTable(elts[..], lens, tableLog) && Encodable(src, CodesOf(lens, tableLog))
    requires |count| <= |lens| <= elts.Length && forall i :: 0 <= i < |src| ==> src[i] < |count|
    requires count == CountsOf(src, |count|)
    ensures size == |HufBits(CodesOf(lens, tableLog), src)| / 8
  {
    hide Complete, Encodable, HufBits, Elt, CodeOf, Low, Counting.Count;
    var nbBits := 0;
    for s := 0 to |count|
      invariant nbBits == CountedBits(lens, count, s)
    {
      EltLength(lens, tableLog, s);
      assert elts[s] == elts[..][s] == Elt(CodeOf(lens, tableLog, s));
      nbBits := nbBits + Low(elts[s], 8) * count[s];
    }
    EstimateIsSize(lens, tableLog, src, |count|);
    size := Shr(nbBits, 3);
    ShrIsDiv(nbBits, 3);
    Pow2Values();
  }
}
