/** HUF_writeCTable_wksp: the description of a Huffman table, compressed with FSE or as 4-bit weights. */
module HufWriteTable {
  import opened Bits
  import opened Wrappers
  import opened Counting
  import opened Bitstream
  import opened BitWriter
  import opened FseSpread
  import opened FseTables
  import opened FseStep
  import opened FsePayload
  import opened FseNormalize
  import opened Histogram
  import opened FseDecompress
  import opened NCountFormat
  import opened NCountWriter
  import opened HufContainer
  import opened HufCodes
  import opened HufTable
  import opened HufWeights

  /** FSE_optimalTableLog_internal; the subtraction wraps around in 32 bits. */
  function OptimalTableLog(maxTableLog: nat, srcSize: nat, maxSymbolValue: nat, minus: nat): (tableLog: nat)
    requires srcSize > 1 && maxSymbolValue > 0
    ensures MIN_TABLELOG <= tableLog <= MAX_TABLELOG
  {
    var h := HighBit(srcSize - 1);
    var maxBitsSrc := if h >= minus then h - minus else h - minus + 0x1_0000_0000;
    var wanted := if maxTableLog == 0 then DEFAULT_TABLELOG else maxTableLog;
    var reduced := if 0 <= maxBitsSrc < wanted then maxBitsSrc else wanted;
    var raised := Max(reduced, MinTableLog(srcSize, maxSymbolValue));
    Min(Max(raised, MIN_TABLELOG), MAX_TABLELOG)
  }

  /**
    The table log is the one wanted, unless the source is short: then it is the greatest with 2^(log + minus) below the
    size of the source. It is raised to the minimum for the source and for all tables.
   */
  lemma LogChosen(maxTableLog: nat, srcSize: nat, maxSymbolValue: nat, minus: nat)
    requires srcSize > 1 && maxSymbolValue > 0 && minus <= 2 && maxTableLog <= MAX_TABLELOG
    ensures var t := OptimalTableLog(maxTableLog, srcSize, maxSymbolValue, minus);
            var wanted := if maxTableLog == 0 then DEFAULT_TABLELOG else maxTableLog;
            var least := Max(MIN_TABLELOG, MinTableLog(srcSize, maxSymbolValue));
            && t >= Min(least, MAX_TABLELOG)
            && (t > least ==> t <= wanted && (srcSize > Pow2(minus) ==> srcSize > Pow2(t + minus)))
            && (t < Min(wanted, MAX_TABLELOG) ==> Pow2(minus) < srcSize <= Pow2(t + 1 + minus))
  {
    hide Pow2, HighBit, MinTableLog;
    var t := OptimalTableLog(maxTableLog, srcSize, maxSymbolValue, minus);
    HighBitMeans(srcSize - 1, minus);
    HighBitMeans(srcSize - 1, t + minus);
    HighBitMeans(srcSize - 1, t + 1 + minus);
  }

  /** Weights never need more than the reader's table log. */
  lemma HeaderLog(srcSize: nat, maxSymbolValue: nat)
    requires srcSize > 1 && 0 < maxSymbolValue <= TABLELOG_MAX
    ensures var tableLog := OptimalTableLog(FSE_MAX_HEADER_LOG, srcSize, maxSymbolValue, 2);
            MIN_TABLELOG <= tableLog <= FSE_MAX_HEADER_LOG && tableLog >= MinTableLog(srcSize, maxSymbolValue)
  {
    Pow2Values();
    if HighBit(maxSymbolValue) > 3 {
      Pow2Mono(4, HighBit(maxSymbolValue));
    }
  }

  // ----- FSE-compressed weights -----

  /** With two symbols that occur, none of them takes the whole table. */
  lemma NoneTakesAll(norm: seq<int>, count: seq<nat>, tableLog: nat, total: nat)
    requires |norm| == |count| && Start(norm, |norm|) == Pow2(tableLog) && total == SumTo(count, |count|)
    requires forall s :: 0 <= s < |norm| ==> (norm[s] == 0 <==> count[s] == 0)
    requires forall s :: 0 <= s < |norm| ==> count[s] != total
    ensures forall s :: 0 <= s < |norm| ==> Abs(norm[s]) < Pow2(tableLog)
  {
    hide Pow2, Start, SumTo;
    forall s | 0 <= s < |norm|
      ensures Abs(norm[s]) < Pow2(tableLog)
    {
      if forall t :: 0 <= t < |count| && t != s ==> count[t] == 0 {
        SumOthers(count, s, |count|);
      }
      var t :| 0 <= t < |count| && t != s && count[t] != 0;
      var lo, hi := Min(s, t), Max(s, t);
      StartZero(norm);
      StartMonotone(norm, 0, lo);
      StartMonotone(norm, lo, hi);
      StartMonotone(norm, hi, |norm|);
    }
  }

  /** What normalizing the weights' histogram gives can code the weights. */
  lemma WeightsCodable(norm: seq<int>, tableLog: nat, w: seq<byte>, symbols: nat, threshold: nat)
    requires |w| > 2 && 0 < symbols <= 256 && forall i :: 0 <= i < |w| ==> w[i] < symbols
    requires Normalized(norm, CountsOf(w, symbols), tableLog, false, threshold)
    requires Count(w, symbols - 1, |w|) > 0 && forall s :: 0 <= s < symbols ==> Count(w, s, |w|) < |w|
    ensures Codable(norm, tableLog, w)
  {
    var count := CountsOf(w, symbols);
    CountsSum(w, symbols);
    NoneTakesAll(norm, count, tableLog, |w|);
    hide Pow2, Start;
    forall k | 0 <= k < |w|
      ensures norm[w[k]] != 0
    {
      CountMonotone(w, w[k], k, |w|);
    }
    assert count[symbols - 1] > 0;
  }

  /** The result of compressing weights: 0 and 1 mean that it is not worth it; anything larger is a block. */
  ghost predicate Compressed(r: Result<nat>, dst: seq<byte>, w: seq<byte>, c: Coding)
  {
    r.Ok? && r.value > 1 ==>
      r.value <= |dst| && c.tableLog <= FSE_MAX_HEADER_LOG && IsBlock(dst[..r.value], c.norm, c.tableLog, c.ct, c.t, w)
  }

  ghost predicate OneWeight(w: seq<byte>)
  {
    exists s: nat :: s <= TABLELOG_MAX && Count(w, s, |w|) == |w|
  }

  ghost predicate EachOnce(w: seq<byte>)
  {
    forall s: nat :: s <= TABLELOG_MAX ==> Count(w, s, |w|) <= 1
  }

  /** The table log for the weights. */
  function WeightLog(n: nat, greatest: nat): (tableLog: nat)
    requires n > 1 && greatest > 0
    ensures MIN_TABLELOG <= tableLog <= MAX_TABLELOG
  {
    OptimalTableLog(FSE_MAX_HEADER_LOG, n, greatest, 2)
  }

  /** The size of the payload in this room, or 0 if it does not fit. */
  ghost function PayloadSize(ct: CTable, w: seq<byte>, room: nat): (size: nat)
    requires AllEncodable(ct, w)
    ensures size <= room
  {
    if |w| <= 2 || room <= REGISTER_BYTES then 0 else ClosedSize(|Payload(ct, w)|, room)
  }

  /**
    The size of a block of weights: header and payload; 0 if the payload does not fit, an error if the header does not.
   */
  ghost predicate BlockSize(r: Result<nat>, w: seq<byte>, tableLog: nat, room: nat, c: Coding)
    requires MIN_TABLELOG <= tableLog <= MAX_TABLELOG
  {
    && ValidNorm(c.norm, tableLog)
    && if r.Err? then r == Err(DstSizeTooSmall) && room < |Header(c.norm, tableLog)| / 8 + 2
       else
         && Built(c.ct, c.norm, tableLog, c.t) && AllEncodable(c.ct, w)
         && var h := |Pack(Header(c.norm, tableLog))|;
         && h <= room
         && r.value == if PayloadSize(c.ct, w, room - h) == 0 then 0 else h + PayloadSize(c.ct, w, room - h)
  }

  /** What compressing weights of several kinds gives: a block in normalized shares, unless normalizing fails. */
  ghost predicate CountedSize(r: Result<nat>, w: seq<byte>, greatest: nat, room: nat, c: Coding)
    requires |w| > 1 && 0 < greatest
  {
    var tableLog, counts := WeightLog(|w|, greatest), CountsOf(w, greatest + 1);
    || (r.Err? && Shared(c.norm, false, counts, |w|, tableLog, 1))
    || (Shared(c.norm, true, counts, |w|, tableLog, 1) && BlockSize(r, w, tableLog, room, c))
  }

  /** The greatest of the weights. */
  ghost predicate IsGreatest(w: seq<byte>, greatest: nat)
  {
    (forall i :: 0 <= i < |w| ==> w[i] <= greatest) && exists i :: 0 <= i < |w| && w[i] == greatest
  }

  /** What HUF_compressWeights returns. */
  ghost predicate WeightsSize(r: Result<nat>, w: seq<byte>, room: nat, c: Coding)
  {
    if |w| <= 1 then r == Ok(0)
    else if OneWeight(w) then r == Ok(1)
    else if EachOnce(w) then r == Ok(0)
    else exists greatest: nat :: 0 < greatest && IsGreatest(w, greatest) && CountedSize(r, w, greatest, room, c)
  }

  /** HUF_compressWeights. */
  method CompressWeights(dst: array<byte>, start: nat, dstSize: nat, w: seq<byte>)
    returns (r: Result<nat>, ghost c: Coding)
    requires start + dstSize <= dst.Length && |w| < 256 && forall i :: 0 <= i < |w| ==> w[i] <= TABLELOG_MAX
    modifies dst
    ensures Compressed(r, dst[start..start + dstSize], w, c) && WeightsSize(r, w, dstSize, c)
    ensures forall k :: 0 <= k < start || start + dstSize <= k < dst.Length ==> dst[k] == old(dst[k])
  {
    hide Pow2, Start, Header, Seal, Payload, Pack, Normalized, IsSpread, IsCTable, IsHistogram, Sufficient,
      CountedSize, OneWeight, EachOnce, IsGreatest, Counting.Count;
    c := Coding([], 0, CTable(0, 0, [], []), []);
    if |w| <= 1 {
      return Ok(0), c;
    }
    var count := new nat[TABLELOG_MAX + 1];
    var maxSymbolValue, maxCount := CountSimple(w, count);
    CountedMeans(w, count[..maxSymbolValue + 1], maxSymbolValue, maxCount);
    if maxCount == |w| {
      return Ok(1), c;
    }
    if maxCount == 1 {
      return Ok(0), c;
    }
    SeveralWeights(w, maxSymbolValue, maxCount);
    r, c := CompressCounted(dst, start, dstSize, w, count[..maxSymbolValue + 1], maxSymbolValue);
  }

  /** What the histogram of the weights says. */
  lemma CountedMeans(w: seq<byte>, count: seq<nat>, greatest: nat, maxCount: nat)
    requires |w| > 1 && forall i :: 0 <= i < |w| ==> w[i] <= greatest
    requires greatest <= TABLELOG_MAX && count == CountsOf(w, greatest + 1) && count[greatest] > 0
    requires forall s :: 0 <= s <= greatest ==> count[s] <= maxCount
    requires exists s :: 0 <= s <= greatest && count[s] == maxCount
    ensures OneWeight(w) <==> maxCount == |w|
    ensures maxCount <= |w| && (EachOnce(w) <==> maxCount == 1)
    ensures IsGreatest(w, greatest)
  {
    hide Counting.Count;
    var s :| 0 <= s <= greatest && count[s] == maxCount;
    forall t: nat | greatest < t
      ensures Count(w, t, |w|) == 0
    {
      CountNone(w, t, 0, |w|);
    }
    if forall i :: 0 <= i < |w| ==> w[i] != greatest {
      CountNone(w, greatest, 0, |w|);
    }
  }

  lemma SeveralWeights(w: seq<nat>, maxSymbolValue: nat, maxCount: nat)
    requires w != [] && forall i :: 0 <= i < |w| ==> w[i] <= maxSymbolValue
    requires maxCount < |w| && forall s :: 0 <= s <= maxSymbolValue ==> Count(w, s, |w|) <= maxCount
    ensures maxSymbolValue > 0
  {
    if maxSymbolValue == 0 {
      CountAll(w, 0, 0, |w|);
    }
  }

  /** Compressing weights of which at least two differ. */
  method CompressCounted(dst: array<byte>, start: nat, dstSize: nat, w: seq<byte>, count: seq<nat>, maxSymbolValue: nat)
    returns (r: Result<nat>, ghost c: Coding)
    requires start + dstSize <= dst.Length && |w| > 1
    requires 0 < maxSymbolValue <= TABLELOG_MAX && forall i :: 0 <= i < |w| ==> w[i] <= maxSymbolValue
    requires |w| <= 0x4000_0000 && count == CountsOf(w, maxSymbolValue + 1) && count[maxSymbolValue] > 0
    requires forall s :: 0 <= s <= maxSymbolValue ==> count[s] < |w|
    modifies dst
    ensures Compressed(r, dst[start..start + dstSize], w, c) && CountedSize(r, w, maxSymbolValue, dstSize, c)
    ensures forall k :: 0 <= k < start || start + dstSize <= k < dst.Length ==> dst[k] == old(dst[k])
  {
    hide Pow2, Start, Header, Seal, Payload, Pack, Normalized, IsSpread, IsCTable, Sufficient, SumTo, OptimalTableLog,
      MinTableLog, ValidNorm, Block, Encodable, Counting.Count, LowThreshold, Shared, PayloadSize, BlockSize,
      Built;
    c := Coding([], 0, CTable(0, 0, [], []), []);
    HeaderLog(|w|, maxSymbolValue);
    CountsSum(w, maxSymbolValue + 1);
    var tableLog := OptimalTableLog(FSE_MAX_HEADER_LOG, |w|, maxSymbolValue, 2);
    var norm := new int[TABLELOG_MAX + 1];
    var normalized := NormalizeCount(norm, tableLog, count, |w|, false);
    SufficientHeader(|w|, maxSymbolValue, tableLog);
    c := Coding(norm[..maxSymbolValue + 1], 0, CTable(0, 0, [], []), []);
    if normalized.Err? {
      return normalized, c;
    }
    var shares := norm[..maxSymbolValue + 1];
    NormalizedValid(shares, count, tableLog, LowThreshold(|w|, tableLog));
    var hSize := WriteNCount(dst, start, dstSize, shares, tableLog);
    if hSize.Err? {
      NoRoomForHeader(w, tableLog, dstSize, c);
      return hSize, c;
    }
    ghost var header := dst[start..start + hSize.value];
    var ct, t := BuildCTable(shares, tableLog);
    c := Coding(shares, tableLog, ct, t);
    BuiltFrom(ct, shares, tableLog, t);
    WeightsEncodable(shares, tableLog, w, ct, t, maxSymbolValue, LowThreshold(|w|, tableLog));
    var cSize := FsePayload.Compress(dst, start + hSize.value, dstSize - hSize.value, w, ct);
    BlockSizeMeans(w, tableLog, dstSize, c, hSize.value, cSize);
    if cSize == 0 {
      return Ok(0), c;
    }
    assert dst[start..start + hSize.value] == header;
    ghost var all := dst[start..start + dstSize];
    SubSlice(dst, start, dstSize, 0, hSize.value);
    SubSlice(dst, start, dstSize, hSize.value, hSize.value + cSize);
    BlockWritten(all, shares, tableLog, w, ct, t, maxSymbolValue, LowThreshold(|w|, tableLog), hSize.value, cSize);
    r := Ok(hSize.value + cSize);
  }

  lemma SufficientHeader(total: nat, greatest: nat, tableLog: nat)
    requires total > 1 && greatest > 0 && tableLog >= MinTableLog(total, greatest)
    ensures Sufficient(tableLog, total, greatest + 1)
  {
    hide MinTableLog;
  }

  lemma NoRoomForHeader(w: seq<byte>, tableLog: nat, room: nat, c: Coding)
    requires ValidNorm(c.norm, tableLog) && room < |Header(c.norm, tableLog)| / 8 + 2
    ensures BlockSize(Err(DstSizeTooSmall), w, tableLog, room, c)
  {
    hide Header;
  }

  lemma BlockSizeMeans(w: seq<byte>, tableLog: nat, room: nat, c: Coding, h: nat, size: nat)
    requires ValidNorm(c.norm, tableLog) && Built(c.ct, c.norm, tableLog, c.t) && AllEncodable(c.ct, w)
    requires h == |Pack(Header(c.norm, tableLog))| <= room
    requires size == if |w| <= 2 || room - h <= REGISTER_BYTES then 0 else ClosedSize(|Payload(c.ct, w)|, room - h)
    ensures size <= room - h && BlockSize(Ok(if size == 0 then 0 else h + size), w, tableLog, room, c)
  {
    hide ClosedSize, Payload, Header, Pack, Built, AllEncodable;
    assert size == PayloadSize(c.ct, w, room - h);
  }

  lemma BuiltFrom(ct: CTable, norm: seq<int>, tableLog: nat, t: seq<nat>)
    requires ValidNorm(norm, tableLog) && IsSpread(norm, tableLog, t) && IsCTable(ct, norm, tableLog, t)
    ensures Built(ct, norm, tableLog, t)
  {
    hide ValidNorm, IsSpread, IsCTable;
  }

  lemma SubSlice(m: array<byte>, start: nat, size: nat, i: nat, j: nat)
    requires i <= j <= size && start + size <= m.Length
    ensures m[start..start + size][i..j] == m[start + i..start + j]
  {
    var a, b := m[start..start + size][i..j], m[start + i..start + j];
    forall k | 0 <= k < j - i
      ensures a[k] == b[k]
    {
      assert a[k] == m[start..start + size][i + k];
    }
    assert a == b;
  }

  lemma NormalizedValid(norm: seq<int>, count: seq<nat>, tableLog: nat, threshold: nat)
    requires Normalized(norm, count, tableLog, false, threshold) && |count| <= 256
    ensures ValidNorm(norm, tableLog) && |norm| == |count| && forall k :: 0 <= k < |norm| ==> norm[k] >= -1
    ensures Start(norm, |norm|) == Pow2(tableLog)
  {
    hide Pow2, Start;
  }

  lemma WeightsEncodable(norm: seq<int>, tableLog: nat, w: seq<byte>, ct: CTable, t: seq<nat>, maxSymbolValue: nat,
                         threshold: nat)
    requires ValidNorm(norm, tableLog) && IsSpread(norm, tableLog, t) && IsCTable(ct, norm, tableLog, t)
    requires maxSymbolValue < 256 && forall i :: 0 <= i < |w| ==> w[i] <= maxSymbolValue
    requires Normalized(norm, CountsOf(w, maxSymbolValue + 1), tableLog, false, threshold)
    ensures AllEncodable(ct, w)
  {
    hide Pow2, Start, IsSpread, IsCTable, Encodable;
    assert Built(ct, norm, tableLog, t);
    forall k | 0 <= k < |w|
      ensures Encodable(ct, w[k])
    {
      CountMonotone(w, w[k], k, |w|);
      BuiltEncodable(ct, norm, tableLog, t, w[k]);
    }
  }

  /** The header and the payload in place are a block. */
  lemma BlockWritten(s: seq<byte>, norm: seq<int>, tableLog: nat, w: seq<byte>, ct: CTable, t: seq<nat>,
                     maxSymbolValue: nat, threshold: nat, hSize: nat, cSize: nat)
    requires ValidNorm(norm, tableLog) && IsSpread(norm, tableLog, t) && IsCTable(ct, norm, tableLog, t)
    requires |w| > 2 && maxSymbolValue < 256 && forall i :: 0 <= i < |w| ==> w[i] <= maxSymbolValue
    requires Normalized(norm, CountsOf(w, maxSymbolValue + 1), tableLog, false, threshold)
    requires Count(w, maxSymbolValue, |w|) > 0 && forall s :: 0 <= s <= maxSymbolValue ==> Count(w, s, |w|) < |w|
    requires AllEncodable(ct, w) && hSize + cSize <= |s|
    requires s[..hSize] == Pack(Header(norm, tableLog)) && s[hSize..hSize + cSize] == Seal(Payload(ct, w))
    ensures IsBlock(s[..hSize + cSize], norm, tableLog, ct, t, w)
  {
    hide Pow2, Start, Header, Seal, Payload, Pack, Normalized, IsSpread, IsCTable, Counting.Count, AllEncodable,
      ValidNorm, Codable;
    WeightsCodable(norm, tableLog, w, maxSymbolValue + 1, threshold);
    assert s[..hSize + cSize] == s[..hSize] + s[hSize..hSize + cSize];
  }

  // ----- the description -----

  /** The 4-bit weights, two to a byte. */
  method WriteNibbles(dst: array<byte>, start: nat, w: seq<byte>)
    requires start + (|w| + 1) / 2 <= dst.Length && forall i :: 0 <= i < |w| ==> w[i] < 16
    modifies dst
    ensures forall n :: 0 <= n < |w| ==>
              w[n] as int == if n % 2 == 0 then dst[start + n / 2] / 16 else dst[start + n / 2] % 16
    ensures forall k :: 0 <= k < start || start + (|w| + 1) / 2 <= k < dst.Length ==> dst[k] == old(dst[k])
  {
    var n := 0;
    while n < |w|
      invariant 0 <= n <= |w| + 1 && n % 2 == 0
      invariant forall i :: 0 <= i < n && i < |w| ==>
                  w[i] as int == if i % 2 == 0 then dst[start + i / 2] / 16 else dst[start + i / 2] % 16
      invariant forall k :: 0 <= k < start || start + n / 2 <= k < dst.Length ==> dst[k] == old(dst[k])
    {
      var next: byte := if n + 1 < |w| then w[n + 1] else 0;
      dst[start + n / 2] := w[n] * 16 + next;
      n := n + 2;
    }
  }

  /** The weights of all symbols but the last, by the conversion table. */
  method ConvertWeights(ct: array<nat>, maxSymbolValue: nat, huffLog: nat, ghost lens: seq<nat>) returns (w: seq<byte>)
    requires |lens| == maxSymbolValue + 1 && Complete(lens, huffLog) && IsTable(ct[..], lens, huffLog)
    ensures |w| == maxSymbolValue && w == Weights(lens, huffLog)[..maxSymbolValue]
    ensures forall i :: 0 <= i < |w| ==> w[i] <= TABLELOG_MAX
  {
    hide Elt, CodeOf, BitOr, Used, Low;
    var bitsToWeight := new byte[TABLELOG_MAX + 1];
    bitsToWeight[0] := 0;
    for n := 1 to huffLog + 1
      invariant forall k :: 0 <= k < n ==> bitsToWeight[k] as int == WeightOf(k, huffLog)
    {
      bitsToWeight[n] := huffLog + 1 - n;
    }
    w := [];
    for n := 0 to maxSymbolValue
      invariant forall k :: 0 <= k <= huffLog ==> bitsToWeight[k] as int == WeightOf(k, huffLog)
      invariant |w| == n && forall k :: 0 <= k < n ==> w[k] as int == WeightOf(lens[k], huffLog)
    {
      EltLength(lens, huffLog, n);
      assert ct[..][n] == Elt(CodeOf(lens, huffLog, n));
      w := w + [bitsToWeight[Low(ct[n], 8)]];
    }
  }

  /** HUF_getNbBits. */
  lemma EltLength(lens: seq<nat>, tableLog: nat, s: nat)
    requires Complete(lens, tableLog) && s < |lens|
    ensures lens[s] <= tableLog <= TABLELOG_MAX && Low(Elt(CodeOf(lens, tableLog, s)), 8) == lens[s]
  {
    hide Elt, Low, Used, Counting.Count, StartValue;
    ValidCodes(lens, tableLog, s);
    EltParts(CodeOf(lens, tableLog, s));
  }

  lemma ValidCodes(lens: seq<nat>, tableLog: nat, s: nat)
    requires Complete(lens, tableLog) && s < |lens|
    ensures lens[s] <= tableLog && CodeOf(lens, tableLog, s).Valid()
  {
    if lens[s] > 0 {
      CodePosition(lens, tableLog, s);
    }
  }

  /** What a successful writer leaves behind: a description of the weights, and nothing after it. */
  ghost predicate Written(r: Result<nat>, dst: seq<byte>, w: seq<byte>, c: Coding)
  {
    r.Ok? ==> 1 <= r.value <= |dst| && Describes(dst[..r.value], w, c) && DescriptionSize(dst[..r.value]) == r.value
  }

  lemma CompressedDescribes(s: seq<byte>, w: seq<byte>, c: Coding, hSize: nat)
    requires 1 < hSize < 128 && hSize + 1 <= |s| && s[0] as int == hSize
    requires c.tableLog <= FSE_MAX_HEADER_LOG && IsBlock(s[1..][..hSize], c.norm, c.tableLog, c.ct, c.t, w)
    ensures Written(Ok(hSize + 1), s, w, c)
  {
    hide IsBlock;
    assert s[..hSize + 1][1..1 + hSize] == s[1..][..hSize];
  }

  lemma NibblesDescribe(s: seq<byte>, w: seq<byte>, c: Coding)
    requires 1 <= |w| <= 128 && 1 + (|w| + 1) / 2 <= |s| && s[0] as int == 127 + |w|
    requires forall n :: 0 <= n < |w| ==> w[n] as int == if n % 2 == 0 then s[1 + n / 2] / 16 else s[1 + n / 2] % 16
    ensures Written(Ok((|w| + 1) / 2 + 1), s, w, c)
  {
    hide IsBlock;
    var d := s[..(|w| + 1) / 2 + 1];
    forall n | 0 <= n < |w|
      ensures Nibble(d, n) == w[n]
    {
      assert 1 + n / 2 < |d| && d[1 + n / 2] == s[1 + n / 2];
    }
  }

  /** A complete code has two symbols at least. */
  lemma TwoSymbols(lens: seq<nat>, tableLog: nat)
    requires Complete(lens, tableLog)
    ensures |lens| >= 2
  {
    hide Pow2;
    if |lens| <= 1 {
      assert Used(lens, tableLog, 0) == 0;
      if |lens| == 1 && lens[0] > 0 {
        Pow2Strict(tableLog - lens[0], tableLog);
      }
    }
  }

  /**
    The size of a description of n weights, with what compressing them gave: the compressed form if it is less than half
    a byte per weight, otherwise half a byte each for up to 128 weights.
   */
  predicate DescribedBy(r: Result<nat>, compressed: Result<nat>, n: nat, room: nat)
  {
    if room < 1 then r == Err(DstSizeTooSmall)
    else if compressed.Err? then r == compressed
    else if 1 < compressed.value < n / 2 then r == Ok(compressed.value + 1)
    else if n > 128 then r == Err(Generic)
    else if (n + 1) / 2 + 1 > room then r == Err(DstSizeTooSmall)
    else r == Ok((n + 1) / 2 + 1)
  }

  /** What HUF_writeCTable_wksp returns for these weights. */
  ghost predicate TableSize(r: Result<nat>, w: seq<byte>, room: nat, c: Coding)
  {
    exists compressed: Result<nat> ::
      DescribedBy(r, compressed, |w|, room) && (room >= 1 ==> WeightsSize(compressed, w, room - 1, c))
  }

  /** A description takes half a byte per weight and one at most. */
  lemma HalfByteEach(r: Result<nat>, w: seq<byte>, room: nat, c: Coding)
    requires TableSize(r, w, room, c) && r.Ok? && |w| <= 255
    ensures 1 <= r.value <= (|w| + 1) / 2 + 1 && r.value <= 129
  {
    hide WeightsSize;
  }

  /**
    HUF_writeCTable_wksp: on success the description of the weights of all symbols but the last is in place.
   */
  method WriteCTable(dst: array<byte>, start: nat, maxDstSize: nat, ct: array<nat>, maxSymbolValue: nat, huffLog: nat,
                     ghost lens: seq<nat>) returns (r: Result<nat>, ghost w: seq<byte>, ghost c: Coding)
    requires start + maxDstSize <= dst.Length && |lens| == maxSymbolValue + 1
    requires Complete(lens, huffLog) && IsTable(ct[..], lens, huffLog)
    modifies dst
    ensures maxSymbolValue > 255 ==> r == Err(MaxSymbolValueTooLarge)
    ensures maxSymbolValue <= 255 ==> |w| == maxSymbolValue && w == Weights(lens, huffLog)[..maxSymbolValue]
    ensures maxSymbolValue <= 255 ==> TableSize(r, w, maxDstSize, c)
    ensures Written(r, dst[start..start + maxDstSize], w, c)
    ensures forall k :: 0 <= k < start || start + maxDstSize <= k < dst.Length ==> dst[k] == old(dst[k])
  {
    hide IsTable, IsBlock, Describes, Used, WeightsSize;
    TwoSymbols(lens, huffLog);
    c, w := Coding([], 0, CTable(0, 0, [], []), []), [];
    if maxSymbolValue > 255 {
      return Err(MaxSymbolValueTooLarge), w, c;
    }
    var huffWeight := ConvertWeights(ct, maxSymbolValue, huffLog, lens);
    w := huffWeight;
    if maxDstSize < 1 {
      assert DescribedBy(Err(DstSizeTooSmall), Ok(0), |w|, maxDstSize);
      return Err(DstSizeTooSmall), w, c;
    }
    var hSize;
    hSize, c := CompressWeights(dst, start + 1, maxDstSize - 1, huffWeight);
    assert forall r' :: DescribedBy(r', hSize, |w|, maxDstSize) ==> TableSize(r', w, maxDstSize, c);
    if hSize.Err? {
      return hSize, w, c;
    }
    if hSize.value > 1 && hSize.value < maxSymbolValue / 2 {
      ghost var body := dst[start + 1..start + maxDstSize];
      dst[start] := hSize.value;
      assert dst[start..start + maxDstSize][1..] == body;
      CompressedDescribes(dst[start..start + maxDstSize], w, c, hSize.value);
      return Ok(hSize.value + 1), w, c;
    }
    if maxSymbolValue > 256 - 128 {
      return Err(Generic), w, c;
    }
    if (maxSymbolValue + 1) / 2 + 1 > maxDstSize {
      return Err(DstSizeTooSmall), w, c;
    }
    dst[start] := 128 + (maxSymbolValue - 1);
    WriteNibbles(dst, start + 1, huffWeight);
    ghost var s := dst[start..start + maxDstSize];
    assert s[0] as int == 127 + |w|;
    assert forall n :: 0 <= n < |w| ==> s[1 + n / 2] == dst[start + 1 + n / 2];
    NibblesDescribe(s, w, c);
    return Ok((maxSymbolValue + 1) / 2 + 1), w, c;
  }
}
