/** HUF_readStats and HUF_readCTable: the description of a Huffman table back to weights, lengths and codes. */
module HufReadTable {
  import opened Bits
  import opened Wrappers
  import opened Counting
  import opened FseDecompress
  import opened HufContainer
  import opened HufCodes
  import opened HufTable
  import opened HufWeights

  /** HUF_SYMBOLVALUE_MAX + 1, the room for weights. */
  const HW_SIZE := 256

  datatype Stats = Stats(size: nat, nbSymbols: nat, tableLog: nat)

  /** The weights that are written out, in either form. */
  method ReadWeights(huffWeight: array<byte>, src: seq<byte>, ghost w: seq<byte>, ghost c: Coding)
    returns (r: Result<nat>)
    requires huffWeight.Length == HW_SIZE
    modifies huffWeight
    ensures r.Ok? ==> r.value < HW_SIZE && |src| >= 1 && DescriptionSize(src) <= |src|
    ensures Describes(src, w, c) && |w| < HW_SIZE ==> r == Ok(|w|) && huffWeight[..|w|] == w
  {
    hide IsBlock;
    if |src| == 0 {
      return Err(SrcSizeWrong);
    }
    var iSize: nat := src[0];
    if iSize >= 128 {
      var oSize := iSize - 127;
      iSize := (oSize + 1) / 2;
      if iSize + 1 > |src| {
        return Err(SrcSizeWrong);
      }
      if oSize >= HW_SIZE {
        return Err(Corruption);
      }
      ReadNibbles(huffWeight, src, oSize);
      return Ok(oSize);
    } else {
      if iSize + 1 > |src| {
        return Err(SrcSizeWrong);
      }
      r := DecompressWksp(huffWeight, HW_SIZE - 1, src[1..1 + iSize], FSE_MAX_HEADER_LOG, c.norm, c.tableLog, c.ct, c.t,
                          w);
    }
  }

  /** Two weights per byte, the first in the high half. */
  method ReadNibbles(huffWeight: array<byte>, src: seq<byte>, oSize: nat)
    requires huffWeight.Length == HW_SIZE && oSize < HW_SIZE && 1 + (oSize + 1) / 2 <= |src|
    modifies huffWeight
    ensures forall k :: 0 <= k < oSize ==> huffWeight[k] as int == Nibble(src, k)
  {
    var n := 0;
    while n < oSize
      invariant n <= oSize + 1 && n % 2 == 0
      invariant forall k :: 0 <= k < n && k < oSize ==> huffWeight[k] as int == Nibble(src, k)
    {
      huffWeight[n] := src[1 + n / 2] / 16;
      huffWeight[n + 1] := src[1 + n / 2] % 16;
      n := n + 2;
    }
  }

  /** Counts the weights and adds up their table entries; weights above the limit are refused. */
  method CollectStats(huffWeight: array<byte>, rankStats: array<nat>, oSize: nat) returns (ok: bool, weightTotal: nat)
    requires oSize < huffWeight.Length && rankStats.Length == TABLELOG_MAX + 1
    modifies rankStats
    ensures ok <==> forall i :: 0 <= i < oSize ==> huffWeight[i] <= TABLELOG_MAX
    ensures ok ==> weightTotal == WeightSum(huffWeight[..oSize], oSize)
    ensures ok ==> forall k :: 0 <= k <= TABLELOG_MAX ==> rankStats[k] == Count(huffWeight[..oSize], k, oSize)
  {
    forall k | 0 <= k < rankStats.Length {
      rankStats[k] := 0;
    }
    ghost var w: seq<nat> := huffWeight[..oSize];
    weightTotal := 0;
    for n := 0 to oSize
      invariant forall i :: 0 <= i < n ==> huffWeight[i] <= TABLELOG_MAX
      invariant weightTotal == WeightSum(w, n)
      invariant forall k :: 0 <= k <= TABLELOG_MAX ==> rankStats[k] == Count(w, k, n)
    {
      if huffWeight[n] > TABLELOG_MAX {
        return false, 0;
      }
      rankStats[huffWeight[n]] := rankStats[huffWeight[n]] + 1;
      weightTotal := weightTotal + Half(huffWeight[n]);
    }
    return true, weightTotal;
  }

  /** The last weight makes the sum a power of two. */
  lemma LastWeight(w: seq<nat>, total: nat, tableLog: nat, rest: nat, last: nat)
    requires total == WeightSum(w, |w|) > 0 && tableLog == HighBit(total) + 1
    requires rest + total == Pow2(tableLog) && rest > 0 && rest == Pow2(HighBit(rest)) && last == HighBit(rest) + 1
    ensures var all := w + [last];
            && (forall i :: 0 <= i < |all| ==> all[i] <= tableLog)
            && WeightSum(all, |all|) == Pow2(tableLog) && |all| >= 2
  {
    hide *;
    var all := w + [last];
    TwiceHalf(tableLog);
    SumWithLast(w, last, total);
    HalfOf(last);
    forall i | 0 <= i < |w|
      ensures w[i] <= tableLog
    {
      WeightBelow(w, i, total, tableLog);
    }
    if last > tableLog {
      Pow2Mono(tableLog, last - 1);
    }
  }

  lemma HalfOf(last: nat)
    ensures last > 0 ==> Half(last) == Pow2(last - 1)
  {
  }

  lemma SumWithLast(w: seq<nat>, last: nat, total: nat)
    requires total == WeightSum(w, |w|)
    ensures WeightSum(w + [last], |w| + 1) == total + Half(last)
    ensures total > 0 ==> |w| >= 1
  {
    WeightSumPrefix(w + [last], w, |w|);
  }

  lemma WeightBelow(w: seq<nat>, i: nat, total: nat, tableLog: nat)
    requires i < |w| && total == WeightSum(w, |w|) < Pow2(tableLog)
    ensures w[i] <= tableLog
  {
    hide WeightSum;
    WeightSumMonotone(w, i, |w|);
    if w[i] > tableLog {
      Pow2Mono(tableLog, w[i] - 1);
    }
  }

  lemma CountLast(w: seq<nat>, last: nat, k: nat)
    ensures Count(w + [last], k, |w| + 1) == Count(w, k, |w|) + if last == k then 1 else 0
  {
    CountPrefix(w + [last], w, k, |w|);
  }

  /** From the written weights of a whole table the reader recovers its table log and its last weight. */
  lemma Recovers(w: seq<nat>, last: nat, tableLog: nat)
    requires WholeTable(w + [last], tableLog)
    ensures var total := WeightSum(w, |w|);
            && 0 < total < Pow2(tableLog) && HighBit(total) + 1 == tableLog
            && var rest := Pow2(tableLog) - total;
            && rest == Pow2(HighBit(rest)) && last == HighBit(rest) + 1
    ensures var ones := Count(w + [last], 1, |w| + 1); ones >= 2 && ones % 2 == 0
    ensures forall i :: 0 <= i < |w| ==> w[i] <= TABLELOG_MAX
  {
    hide HighBit, Count;
    var all := w + [last];
    assert all[|all| - 1] == last;
    assert forall i :: 0 <= i < |w| ==> w[i] == all[i];
    WeightSumPrefix(all, w, |w|);
    var total := WeightSum(w, |w|);
    assert total + Pow2(last - 1) == Pow2(tableLog);
    Pow2Mono(last - 1, tableLog - 1);
    HighBitUnique(total, tableLog - 1);
    HighBitUnique(Pow2(last - 1), last - 1);
    OnesParity(all, |all|);
    TwiceHalf(tableLog);
    EvenCount(Count(all, 1, |all|), Pow2(tableLog - 1), WeightSum(all, |all|));
  }

  lemma EvenCount(ones: nat, half: nat, sum: nat)
    requires sum == 2 * half && (sum - ones) % 2 == 0 && ones >= 1
    ensures ones % 2 == 0 && ones >= 2
  {
  }

  /** The statistics of a description. */
  ghost predicate Reads(r: Result<Stats>, huffWeight: seq<byte>, src: seq<byte>, w: seq<byte>, tableLog: nat)
    requires |src| >= 1
  {
    r == Ok(Stats(DescriptionSize(src), |w|, tableLog)) && w <= huffWeight
  }

  /**
    HUF_readStats. Whatever it accepts are the weights of a complete code, and it accepts every description of one.
   */
  method ReadStats(huffWeight: array<byte>, rankStats: array<nat>, src: seq<byte>, ghost w: seq<byte>, ghost last: byte,
                   ghost c: Coding, ghost log: nat) returns (r: Result<Stats>)
    requires huffWeight.Length == HW_SIZE && rankStats.Length == TABLELOG_MAX + 1
    modifies huffWeight, rankStats
    ensures r.Ok? ==> r.value.size <= |src| && 2 <= r.value.nbSymbols <= HW_SIZE
    ensures r.Ok? ==> WholeTable(huffWeight[..r.value.nbSymbols], r.value.tableLog)
    ensures r.Ok? ==> forall k :: 0 <= k <= TABLELOG_MAX ==>
                        rankStats[k] == Count(huffWeight[..r.value.nbSymbols], k, r.value.nbSymbols)
    ensures Describes(src, w, c) && WholeTable(w + [last], log) && |w| < HW_SIZE ==>
              Reads(r, huffWeight[..], src, w + [last], log)
  {
    hide HighBit, Count, WeightSum, Pow2, Describes;
    ghost var expected := Describes(src, w, c) && WholeTable(w + [last], log) && |w| < HW_SIZE;
    if expected {
      Recovers(w, last, log);
    }
    var written := ReadWeights(huffWeight, src, w, c);
    if written.Err? {
      return Err(written.error);
    }
    var oSize := written.value;
    var ok, weightTotal := CollectStats(huffWeight, rankStats, oSize);
    if !ok {
      return Err(Corruption);
    }
    ghost var read: seq<nat> := huffWeight[..oSize];
    if weightTotal == 0 {
      return Err(Corruption);
    }
    var tableLog := HighBit(weightTotal) + 1;
    if tableLog > TABLELOG_MAX {
      return Err(Corruption);
    }
    var total := Pow2(tableLog);
    TwiceHalf(tableLog);
    var rest := total - weightTotal;
    var verif := Pow2(HighBit(rest));
    var lastWeight := HighBit(rest) + 1;
    if verif != rest {
      return Err(Corruption);
    }
    LastWeight(read, weightTotal, tableLog, rest, lastWeight);
    forall k
      ensures Count(read + [lastWeight], k, oSize + 1) == Count(read, k, oSize) + if lastWeight == k then 1 else 0
    {
      CountLast(read, lastWeight, k);
    }
    assert lastWeight <= tableLog by {
      assert (read + [lastWeight])[oSize] == lastWeight;
    }
    huffWeight[oSize] := lastWeight;
    assert huffWeight[..oSize + 1] == read + [lastWeight];
    rankStats[lastWeight] := rankStats[lastWeight] + 1;
    if rankStats[1] < 2 || rankStats[1] % 2 == 1 {
      return Err(Corruption);
    }
    r := Ok(Stats(DescriptionSize(src), oSize + 1, tableLog));
  }

  /** What HUF_readCTable reports: the bytes read, the table header, and whether some symbol has no code. */
  datatype TableInfo = TableInfo(size: nat, tableLog: nat, maxSymbolValue: nat, hasZeroWeights: bool)

  /** Lengths from weights, and how many symbols have each length. */
  method FillLengths(ct: array<nat>, huffWeight: array<byte>, nbSymbols: nat, tableLog: nat, nbPerRank: array<nat>,
                     ghost lens: seq<nat>)
    requires nbSymbols <= ct.Length && nbSymbols <= huffWeight.Length && ct != nbPerRank
    requires nbPerRank.Length == TABLELOG_MAX + 2 && forall k :: 0 <= k < nbPerRank.Length ==> nbPerRank[k] == 0
    requires tableLog <= TABLELOG_MAX && forall i :: 0 <= i < nbSymbols ==> huffWeight[i] <= tableLog
    requires |lens| == nbSymbols && forall i :: 0 <= i < nbSymbols ==> lens[i] == WeightOf(huffWeight[i], tableLog)
    modifies ct, nbPerRank
    ensures forall s :: 0 <= s < nbSymbols ==> ct[s] == lens[s]
    ensures forall k :: 0 <= k < nbPerRank.Length ==> nbPerRank[k] == Count(lens, k, nbSymbols)
  {
    for n := 0 to nbSymbols
      invariant forall s :: 0 <= s < n ==> ct[s] == lens[s]
      invariant forall k :: 0 <= k < nbPerRank.Length ==> nbPerRank[k] == 0
    {
      var w: nat := huffWeight[n];
      ct[n] := if w != 0 then tableLog + 1 - w else 0;
    }
    for n := 0 to nbSymbols
      invariant forall s :: 0 <= s < nbSymbols ==> ct[s] == lens[s]
      invariant forall k :: 0 <= k < nbPerRank.Length ==> nbPerRank[k] == Count(lens, k, n)
    {
      nbPerRank[ct[n]] := nbPerRank[ct[n]] + 1;
    }
  }

  /**
    HUF_readCTable: whatever it accepts becomes the table of a complete canonical code, and the description of
    a whole table gives that table's lengths back.
   */
  method ReadCTable(ct: array<nat>, maxSymbolValue: nat, src: seq<byte>, ghost w: seq<byte>, ghost last: byte,
                    ghost c: Coding, ghost log: nat) returns (r: Result<TableInfo>, ghost lens: seq<nat>)
    requires ct.Length >= HW_SIZE
    modifies ct
    ensures r.Ok? ==>
              r.value.size <= |src| && r.value.maxSymbolValue <= maxSymbolValue && |lens| == r.value.maxSymbolValue + 1
    ensures r.Ok? ==> Complete(lens, r.value.tableLog) && IsTable(ct[..], lens, r.value.tableLog)
    ensures r.Ok? ==> (r.value.hasZeroWeights <==> exists s :: 0 <= s < |lens| && lens[s] == 0)
    ensures Describes(src, w, c) && WholeTable(w + [last], log) && |w| < HW_SIZE ==>
              if |w| > maxSymbolValue then r == Err(MaxSymbolValueTooSmall)
              else
                && r.Ok? && r.value.size == DescriptionSize(src) && r.value.tableLog == log
                && lens == LensOfWeights(w + [last], log)
  {
    hide Used, Count, WeightSum, Pow2, Describes, IsTable, Elt, CodeOf, StartValue, IsBlock;
    lens := [];
    var huffWeight := new byte[HW_SIZE];
    var rankVal := new nat[TABLELOG_MAX + 1];
    var stats := ReadStats(huffWeight, rankVal, src, w, last, c, log);
    if stats.Err? {
      return Err(stats.error), lens;
    }
    var Stats(size, nbSymbols, tableLog) := stats.value;
    var hasZeroWeights := rankVal[0] > 0;
    if tableLog > TABLELOG_MAX {
      return Err(TableLogTooLarge), lens;
    }
    if nbSymbols > maxSymbolValue + 1 {
      return Err(MaxSymbolValueTooSmall), lens;
    }
    ghost var weights: seq<nat> := huffWeight[..nbSymbols];
    WholeIsComplete(weights, tableLog);
    lens := LensOfWeights(weights, tableLog);
    var nbPerRank := new nat[TABLELOG_MAX + 2](i => 0);
    var valPerRank := new nat[TABLELOG_MAX + 2](i => 0);
    FillLengths(ct, huffWeight, nbSymbols, tableLog, nbPerRank, lens);
    FirstValues(nbPerRank, valPerRank, tableLog, lens);
    AssignValues(ct, valPerRank, tableLog, lens, nbSymbols);
    ZeroCounted(weights, lens, tableLog);
    r := Ok(TableInfo(size, tableLog, nbSymbols - 1, hasZeroWeights));
  }

  lemma ZeroCounted(w: seq<nat>, lens: seq<nat>, tableLog: nat)
    requires (forall s :: 0 <= s < |w| ==> w[s] <= tableLog) && lens == LensOfWeights(w, tableLog)
    ensures Count(w, 0, |w|) > 0 <==> exists s :: 0 <= s < |lens| && lens[s] == 0
  {
    if s :| 0 <= s < |lens| && lens[s] == 0 {
      assert w[s] == 0;
      CountMonotone(w, 0, s, |w|);
    } else {
      forall s | 0 <= s < |w|
        ensures w[s] != 0
      {
        assert lens[s] != 0;
      }
      CountNone(w, 0, 0, |w|);
    }
  }
}
