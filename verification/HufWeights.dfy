/** Huffman weights (section 4.2.1 of RFC 8878): code lengths as a header describes them. */
module HufWeights {
  import opened Bits
  import opened Counting
  import opened FseTables
  import opened FseDecompress
  import opened HufContainer
  import opened HufCodes

  const FSE_MAX_HEADER_LOG := 6

  /** The weight of a code length. */
  function WeightOf(len: nat, tableLog: nat): nat
    requires len <= tableLog
  {
    if len == 0 then 0 else tableLog + 1 - len
  }

  ghost function Weights(lens: seq<nat>, tableLog: nat): (w: seq<nat>)
    requires forall s :: 0 <= s < |lens| ==> lens[s] <= tableLog
    ensures |w| == |lens| && forall s :: 0 <= s < |w| ==> w[s] == WeightOf(lens[s], tableLog)
  {
    seq(|lens|, s requires 0 <= s < |lens| => WeightOf(lens[s], tableLog))
  }

  /** The code lengths that weights stand for: the same conversion. */
  ghost function LensOfWeights(w: seq<nat>, tableLog: nat): (lens: seq<nat>)
    requires forall s :: 0 <= s < |w| ==> w[s] <= tableLog
    ensures |lens| == |w| && forall s :: 0 <= s < |lens| ==> lens[s] == WeightOf(w[s], tableLog)
  {
    Weights(w, tableLog)
  }

  lemma WeightsTwice(lens: seq<nat>, tableLog: nat)
    requires forall s :: 0 <= s < |lens| ==> lens[s] <= tableLog
    ensures LensOfWeights(Weights(lens, tableLog), tableLog) == lens
  {
  }

  /** The table entries that a weight stands for: none for weight 0, and twice as many for each weight more. */
  function Half(w: nat): nat
  {
    if w == 0 then 0 else Pow2(w - 1)
  }

  /** The table entries the first m weights take. */
  function WeightSum(w: seq<nat>, m: nat): nat
    requires m <= |w|
  {
    if m == 0 then 0 else WeightSum(w, m - 1) + Half(w[m - 1])
  }

  lemma {:induction false} WeightSumPrefix(a: seq<nat>, b: seq<nat>, m: nat)
    requires m <= |a| && m <= |b| && forall i :: 0 <= i < m ==> a[i] == b[i]
    ensures WeightSum(a, m) == WeightSum(b, m)
  {
    if m > 0 {
      WeightSumPrefix(a, b, m - 1);
    }
  }

  lemma {:induction false} WeightSumMonotone(w: seq<nat>, i: nat, m: nat)
    requires i < m <= |w|
    ensures Half(w[i]) <= WeightSum(w, m)
  {
    if i < m - 1 {
      WeightSumMonotone(w, i, m - 1);
    }
  }

  /** The entries of weights are those of the lengths they stand for. */
  lemma {:induction false} SameEntries(w: seq<nat>, tableLog: nat, m: nat)
    requires m <= |w| && forall s :: 0 <= s < |w| ==> w[s] <= tableLog
    ensures Used(LensOfWeights(w, tableLog), tableLog, m) == WeightSum(w, m)
  {
    if m > 0 {
      SameEntries(w, tableLog, m - 1);
    }
  }

  /** The number of odd terms in the sum is even exactly when the sum is. */
  lemma {:induction false} OnesParity(w: seq<nat>, m: nat)
    requires m <= |w|
    ensures (WeightSum(w, m) - Count(w, 1, m)) % 2 == 0 && WeightSum(w, m) >= Count(w, 1, m)
  {
    if m > 0 {
      OnesParity(w, m - 1);
    }
  }

  /** Weights that add up to a whole table, the last of them in use, with some code of the greatest length. */
  ghost predicate WholeTable(w: seq<nat>, tableLog: nat)
  {
    && 1 <= tableLog <= TABLELOG_MAX && |w| >= 2
    && (forall s :: 0 <= s < |w| ==> w[s] <= tableLog)
    && w[|w| - 1] > 0
    && WeightSum(w, |w|) == Pow2(tableLog)
    && Count(w, 1, |w|) >= 1
  }

  /** The header's view of a complete code. */
  lemma CompleteWeights(lens: seq<nat>, tableLog: nat, s: nat)
    requires Complete(lens, tableLog) && |lens| >= 2 && lens[|lens| - 1] > 0
    requires s < |lens| && lens[s] == tableLog
    ensures WholeTable(Weights(lens, tableLog), tableLog)
  {
    var w := Weights(lens, tableLog);
    WeightsTwice(lens, tableLog);
    SameEntries(w, tableLog, |w|);
    CountMonotone(w, 1, s, |w|);
  }

  lemma WholeIsComplete(w: seq<nat>, tableLog: nat)
    requires WholeTable(w, tableLog)
    ensures Complete(LensOfWeights(w, tableLog), tableLog)
  {
    SameEntries(w, tableLog, |w|);
  }

  // ----- the two forms of a description -----

  /** The distribution and the encoding table of weights compressed with FSE. */
  datatype Coding = Coding(norm: seq<int>, tableLog: nat, ct: CTable, t: seq<nat>)

  /** The n-th of the 4-bit weights that follow the first byte. */
  function Nibble(s: seq<byte>, n: nat): nat
    requires 1 + n / 2 < |s|
  {
    if n % 2 == 0 then s[1 + n / 2] / 16 else s[1 + n / 2] % 16
  }

  ghost predicate Nibbles(s: seq<byte>, w: seq<nat>)
  {
    && 1 + (|w| + 1) / 2 <= |s|
    && (forall n :: 0 <= n < |w| ==> Nibble(s, n) == w[n])
  }

  /** s starts with a description of the weights w; the weight after them is not written. */
  ghost predicate Describes(s: seq<byte>, w: seq<byte>, c: Coding)
  {
    && |s| >= 1
    && if s[0] < 128 then
         1 + s[0] <= |s| && c.tableLog <= FSE_MAX_HEADER_LOG
           && IsBlock(s[1..1 + s[0]], c.norm, c.tableLog, c.ct, c.t, w)
       else
         |w| == s[0] - 127 && Nibbles(s, w)
  }

  /** The size of the description that s starts with. */
  function DescriptionSize(s: seq<byte>): nat
    requires |s| >= 1
  {
    1 + if s[0] < 128 then s[0] else (s[0] - 127 + 1) / 2
  }
}
