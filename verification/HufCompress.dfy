/** HUF_compress1X_repeat and HUF_compress4X_repeat: a block coded with a new table or with the one carried over. */
module HufCompress {
  import opened Bits
  import opened Wrappers
  import opened Bitstream
  import opened BitWriter
  import opened Counting
  import opened Histogram
  import opened HufContainer
  import opened HufEncoder
  import opened HufCodes
  import opened HufTable
  import opened HufBuildTable
  import opened HufStreams
  import opened HufWeights
  import opened HufWriteTable
  import opened HufEstimate
  import FseNormalize
  import HufBuild
  import HufDepth
  import HufHeader
  import PrefixCode

  const BLOCKSIZE_MAX := HufDepth.BLOCK_SUM
  const SAMPLE_SIZE := 4096
  const SAMPLE_RATIO := 10

  /** HUF_repeat: whether the table carried over can be used, must be checked, or is known to fit. */
  datatype Repeat = RepeatNone | RepeatCheck | RepeatValid

  // ----- the table carried from block to block -----

  ghost predicate IsCode(elts: seq<nat>, tableLog: nat, maxSymbolValue: nat, lens: seq<nat>)
  {
    && |lens| == maxSymbolValue + 1 <= 256 && |lens| <= |elts|
    && Complete(lens, tableLog) && IsTable(elts, lens, tableLog)
  }

  /** Every byte of the block has a code. */
  ghost predicate Covers(lens: seq<nat>, src: seq<byte>)
  {
    forall i :: 0 <= i < |src| ==> src[i] < |lens| && lens[src[i]] > 0
  }

  /** All 256 bytes have codes. */
  ghost predicate CoversAll(lens: seq<nat>)
  {
    |lens| == 256 && forall s :: 0 <= s < 256 ==> lens[s] > 0
  }

  /** ZSTD_hufCTables_t: a Huffman table with its header, and what is known about its use for the next block. */
  class HufTables {
    const elts: array<nat>
    var tableLog: nat
    var maxSymbolValue: nat
    var repeatMode: Repeat
    ghost var lens: seq<nat>

    /** The table is that of the complete code `lens`, and covers what `repeat` says. */
    ghost predicate Usable(repeat: Repeat)
      reads this, elts
    {
      && elts.Length == 256
      && (repeat.RepeatNone? || IsCode(elts[..], tableLog, maxSymbolValue, lens))
      && (repeat.RepeatValid? ==> CoversAll(lens))
    }

    ghost predicate Valid()
      reads this, elts
    {
      Usable(repeatMode)
    }

    /** No table yet. */
    constructor ()
      ensures Valid() && repeatMode == RepeatNone && fresh(elts)
    {
      elts := new nat[256];
      tableLog, maxSymbolValue, repeatMode, lens := 0, 0, RepeatNone, [];
    }

    ghost predicate SameTable(that: HufTables)
      reads this, elts, that, that.elts
    {
      elts[..] == that.elts[..] && tableLog == that.tableLog && maxSymbolValue == that.maxSymbolValue
        && lens == that.lens
    }

    /** The memcpy of a new table onto this one. */
    method SetTable(ct: array<nat>, newLog: nat, newMax: nat, ghost newLens: seq<nat>)
      requires elts.Length == ct.Length && elts != ct
      modifies `tableLog, `maxSymbolValue, `lens, elts
      ensures elts[..] == ct[..] && tableLog == newLog && maxSymbolValue == newMax && lens == newLens
    {
      forall k | 0 <= k < elts.Length {
        elts[k] := ct[k];
      }
      tableLog, maxSymbolValue, lens := newLog, newMax, newLens;
      assert elts[..] == ct[..];
    }

    /** The memcpy of one table with its repeat mode onto another. */
    method CopyFrom(that: HufTables)
      requires elts.Length == that.elts.Length && elts != that.elts
      modifies this, elts
      ensures SameTable(that) && repeatMode == that.repeatMode
    {
      forall k | 0 <= k < elts.Length {
        elts[k] := that.elts[k];
      }
      tableLog, maxSymbolValue, repeatMode, lens := that.tableLog, that.maxSymbolValue, that.repeatMode, that.lens;
      assert elts[..] == that.elts[..];
    }
  }

  // ----- the streams of a block -----

  /** s is what the encoder writes for src, with stream sizes that fit into the jump table. */
  ghost predicate IsStreams(s: seq<byte>, codes: seq<Code>, src: seq<byte>, fourStreams: bool)
  {
    && Encodable(src, codes)
    && if !fourStreams then s == OneStream(codes, src)
       else
         && |src| >= 12 && s == FourStreams(codes, src)
         && var k := SegmentSize(|src|);
         && |OneStream(codes, src[..k])| < 0x1_0000 && |OneStream(codes, src[k..2 * k])| < 0x1_0000
         && |OneStream(codes, src[2 * k..3 * k])| < 0x1_0000
  }

  /** The streams of a block in the canonical code of these lengths. */
  ghost predicate Coded(s: seq<byte>, lens: seq<nat>, tableLog: nat, src: seq<byte>, fourStreams: bool)
  {
    Complete(lens, tableLog) && Covers(lens, src) && IsStreams(s, CodesOf(lens, tableLog), src, fourStreams)
  }

  function DecodeStreams(lens: seq<nat>, tableLog: nat, s: seq<byte>, n: nat, fourStreams: bool): Result<seq<nat>>
  {
    if fourStreams then DecodeFour(lens, tableLog, s, n) else DecodeStream(lens, tableLog, s, n)
  }

  lemma CodedDecodes(s: seq<byte>, lens: seq<nat>, tableLog: nat, src: seq<byte>, fourStreams: bool)
    requires Coded(s, lens, tableLog, src, fourStreams)
    ensures DecodeStreams(lens, tableLog, s, |src|, fourStreams) == Ok(src)
  {
    hide Used, CodesOf, OneStream, FourStreams, DecodeFour, DecodeStream, Encodable, Covers;
    var codes := CodesOf(lens, tableLog);
    if fourStreams {
      FourStreamsDecode(lens, tableLog, codes, src);
    } else {
      OneStreamDecodes(lens, tableLog, codes, src);
    }
  }

  /** What the encoder needs of a table. */
  lemma CodeEncodes(elts: seq<nat>, tableLog: nat, maxSymbolValue: nat, lens: seq<nat>, src: seq<byte>)
    requires IsCode(elts, tableLog, maxSymbolValue, lens) && Covers(lens, src)
    ensures Complete(lens, tableLog) && |lens| == maxSymbolValue + 1 <= |elts|
    ensures Table(elts[..|lens|], CodesOf(lens, tableLog), tableLog) && Encodable(src, CodesOf(lens, tableLog))
  {
    hide Used, StartValue, Counting.Count, Elt;
    forall s | 0 <= s < |lens|
      ensures CodeOf(lens, tableLog, s).Valid()
    {
      ValidCodes(lens, tableLog, s);
    }
  }

  /** Every symbol takes a bit. */
  lemma {:induction false} ManyBits(codes: seq<Code>, src: seq<byte>)
    requires Encodable(src, codes)
    ensures |HufBits(codes, src)| >= |src|
  {
    if src != [] {
      ManyBits(codes, src[1..]);
    }
  }

  /** Eight symbols never fit into one byte. */
  lemma StreamsSize(s: seq<byte>, codes: seq<Code>, src: seq<byte>, fourStreams: bool)
    requires IsStreams(s, codes, src, fourStreams)
    ensures |s| >= 1 && (|src| >= 8 ==> |s| >= 2)
  {
    hide HufBits, Encodable;
    if !fourStreams {
      ManyBits(codes, src);
    }
  }

  /** The streams for src. */
  ghost function StreamsOf(codes: seq<Code>, src: seq<byte>, fourStreams: bool): seq<byte>
    requires Encodable(src, codes) && (fourStreams ==> |src| >= 12)
  {
    if fourStreams then FourStreams(codes, src) else OneStream(codes, src)
  }

  /** After a header, the streams fit into the room that is left, and both together save two bytes at least. */
  ghost predicate Pays(codes: seq<Code>, src: seq<byte>, fourStreams: bool, header: nat, room: int)
  {
    && Encodable(src, codes) && (fourStreams ==> |src| >= 12)
    && (if fourStreams then FourFit(codes, src, room) else StreamFits(codes, src, room))
    && header + |StreamsOf(codes, src, fourStreams)| + 1 < |src|
  }

  /** HUF_compressCTable_internal: the streams after what is already there, unless that does not pay. */
  method CompressCTable(dst: array<byte>, start: nat, op: nat, oend: nat, src: seq<byte>, fourStreams: bool,
                        elts: seq<nat>, tableLog: nat, ghost codes: seq<Code>) returns (size: nat)
    requires start <= op <= oend <= dst.Length && src != [] && Table(elts, codes, tableLog) && Encodable(src, codes)
    modifies dst
    ensures size > 0 <==> Pays(codes, src, fourStreams, op - start, oend - op)
    ensures size > 0 ==> op - start < size < |src| - 1 && start + size <= oend
    ensures size > 0 ==> size == op - start + |StreamsOf(codes, src, fourStreams)|
    ensures size > 0 ==> IsStreams(dst[op..start + size], codes, src, fourStreams)
    ensures forall k :: 0 <= k < op || oend <= k < dst.Length ==> dst[k] == old(dst[k])
  {
    hide Table, HufBits, Encodable, FourStreams, Seal, ClosedSize, FourFit, StreamFits;
    var cSize;
    if fourStreams {
      cSize := Compress4X(dst, op, oend - op, src, elts, tableLog, codes);
    } else {
      SegmentSizes(codes, src, oend - op);
      cSize := Compress1X(dst, op, oend - op, src, elts, tableLog, codes);
    }
    if cSize == 0 {
      return 0;
    }
    if op + cSize - start >= |src| - 1 {
      return 0;
    }
    return op + cSize - start;
  }

  /** The streams in the code of a table, from op on. */
  method CompressWith(dst: array<byte>, start: nat, op: nat, oend: nat, src: seq<byte>, fourStreams: bool,
                      elts: array<nat>, tableLog: nat, maxSymbolValue: nat, ghost lens: seq<nat>) returns (size: nat)
    requires start <= op <= oend <= dst.Length && src != []
    requires IsCode(elts[..], tableLog, maxSymbolValue, lens) && Covers(lens, src)
    modifies dst
    ensures size > 0 <==> Pays(CodesOf(lens, tableLog), src, fourStreams, op - start, oend - op)
    ensures size > 0 ==> size == op - start + |StreamsOf(CodesOf(lens, tableLog), src, fourStreams)|
    ensures size > 0 ==> op - start < size < |src| - 1 && start + size <= oend
    ensures size > 0 ==> Coded(dst[op..start + size], lens, tableLog, src, fourStreams)
    ensures size == 1 ==> |src| < 8
    ensures forall k :: 0 <= k < op || oend <= k < dst.Length ==> dst[k] == old(dst[k])
  {
    hide Table, Encodable, IsStreams, Used, IsTable, Covers, Pays;
    CodeEncodes(elts[..], tableLog, maxSymbolValue, lens, src);
    ghost var codes := CodesOf(lens, tableLog);
    assert elts[..maxSymbolValue + 1] == elts[..][..|lens|];
    size := CompressCTable(dst, start, op, oend, src, fourStreams, elts[..maxSymbolValue + 1], tableLog, codes);
    if size > 0 {
      StreamsSize(dst[op..start + size], codes, src, fourStreams);
    }
  }

  // ----- checking and choosing -----

  /** HUF_validateCTable: whether the table has a code for every symbol that occurs. */
  method ValidateCTable(elts: array<nat>, tableLog: nat, tableMax: nat, count: array<nat>, maxSymbolValue: nat,
                        ghost lens: seq<nat>, ghost src: seq<byte>) returns (ok: bool)
    requires IsCode(elts[..], tableLog, tableMax, lens) && maxSymbolValue < count.Length
    requires forall i :: 0 <= i < |src| ==> src[i] <= maxSymbolValue
    requires count[..maxSymbolValue + 1] == CountsOf(src, maxSymbolValue + 1)
    requires count[maxSymbolValue] > 0
    ensures ok <==> Covers(lens, src)
  {
    hide Complete, Elt, CodeOf, Counting.Count, Low;
    if tableMax < maxSymbolValue {
      ghost var i := Occurs(src, maxSymbolValue, maxSymbolValue);
      return false;
    }
    var bad := false;
    for s := 0 to maxSymbolValue + 1
      invariant bad <==> exists t :: 0 <= t < s && CountsOf(src, maxSymbolValue + 1)[t] != 0 && lens[t] == 0
    {
      EltLength(lens, tableLog, s);
      assert elts[s] == elts[..][s] == Elt(CodeOf(lens, tableLog, s));
      assert count[s] == count[..maxSymbolValue + 1][s];
      bad := bad || (count[s] != 0 && Low(elts[s], 8) == 0);
    }
    CoversCounted(lens, src, maxSymbolValue);
    return !bad;
  }

  /** A symbol with a count occurs. */
  lemma Occurs(src: seq<byte>, maxSymbolValue: nat, s: nat) returns (i: nat)
    requires s <= maxSymbolValue && CountsOf(src, maxSymbolValue + 1)[s] != 0
    ensures i < |src| && src[i] as nat == s
  {
    if forall k :: 0 <= k < |src| ==> src[k] as nat != s {
      CountNone(src, s, 0, |src|);
    }
    i :| 0 <= i < |src| && src[i] as nat == s;
  }

  /** A code covers a block exactly if no symbol with a count is without a code. */
  lemma CoversCounted(lens: seq<nat>, src: seq<byte>, maxSymbolValue: nat)
    requires maxSymbolValue < |lens| && forall i :: 0 <= i < |src| ==> src[i] <= maxSymbolValue
    ensures Covers(lens, src) <==>
              !exists t :: 0 <= t <= maxSymbolValue && CountsOf(src, maxSymbolValue + 1)[t] != 0 && lens[t] == 0
  {
    var count := CountsOf(src, maxSymbolValue + 1);
    if Covers(lens, src) {
      if t :| 0 <= t <= maxSymbolValue && count[t] != 0 && lens[t] == 0 {
        var i := Occurs(src, maxSymbolValue, t);
      }
    }
    forall i | 0 <= i < |src|
      ensures count[src[i]] != 0
    {
      CountMonotone(src, src[i], i, |src|);
    }
  }

  /** No byte occurs more often than in a 128th of the block and four times. */
  ghost predicate Flat(src: seq<byte>)
  {
    forall s: nat :: s < 256 ==> Count(src, s, |src|) <= |src| / 128 + 4
  }

  /** Neither do any two bytes, one in the first and one in the last 4096 bytes. */
  ghost predicate SampledFlat(src: seq<byte>)
  {
    && |src| >= SAMPLE_SIZE * SAMPLE_RATIO
    && var head, tail := src[..SAMPLE_SIZE], src[|src| - SAMPLE_SIZE..];
    forall s: nat, t: nat :: s < 256 && t < 256 ==>
      Count(head, s, |head|) + Count(tail, t, |tail|) <= 2 * SAMPLE_SIZE / 128 + 4
  }

  /** The largest count bounds those of all symbols. */
  lemma LargestBounds(w: seq<byte>, count: seq<nat>, greatest: nat, largest: nat)
    requires greatest < 256 && forall i :: 0 <= i < |w| ==> w[i] <= greatest
    requires count == CountsOf(w, greatest + 1) && forall s :: 0 <= s <= greatest ==> count[s] <= largest
    ensures forall s: nat :: Count(w, s, |w|) <= largest
  {
    hide Counting.Count;
    forall s: nat
      ensures Count(w, s, |w|) <= largest
    {
      if s > greatest {
        CountNone(w, s, 0, |w|);
      } else {
        assert count[s] == Count(w, s, |w|);
      }
    }
  }

  /** The sampling of both ends of a block that is suspected to be incompressible. */
  method LooksIncompressible(src: seq<byte>, suspected: bool) returns (giveUp: bool)
    ensures giveUp <==> suspected && SampledFlat(src)
  {
    hide Counting.Count;
    if !suspected || |src| < SAMPLE_SIZE * SAMPLE_RATIO {
      return false;
    }
    var count := new nat[256];
    var head, tail := src[..SAMPLE_SIZE], src[|src| - SAMPLE_SIZE..];
    var maxBegin, largestBegin := CountSimple(head, count);
    LargestBounds(head, count[..maxBegin + 1], maxBegin, largestBegin);
    ghost var s :| 0 <= s <= maxBegin && Count(head, s, |head|) == largestBegin;
    var maxEnd, largestEnd := CountSimple(tail, count);
    LargestBounds(tail, count[..maxEnd + 1], maxEnd, largestEnd);
    ghost var t :| 0 <= t <= maxEnd && Count(tail, t, |tail|) == largestEnd;
    return largestBegin + largestEnd <= 2 * SAMPLE_SIZE / 128 + 4;
  }

  /** HUF_minTableLog. */
  function MinHuffLog(cardinality: nat): nat
    requires cardinality > 0
  {
    HighBit(cardinality) + 1
  }

  /** HUF_optimalTableLog; `probed` stands for the depth that the search over all depths prefers, if it prefers any. */
  function OptimalHuffLog(srcSize: nat, maxSymbolValue: nat, cardinality: nat, optimalDepth: bool, probed: nat): nat
    requires srcSize > 1 && maxSymbolValue > 0 && cardinality > 0
  {
    if !optimalDepth then OptimalTableLog(TABLELOG_DEFAULT, srcSize, maxSymbolValue, 1)
    else if MinHuffLog(cardinality) <= probed <= TABLELOG_DEFAULT then probed
    else TABLELOG_DEFAULT
  }

  /** The number of symbols among the first n that occur, against their counts. */
  lemma {:induction false} SymbolsOccurring(count: seq<nat>, n: nat)
    requires n <= |count|
    ensures n - Count(count, 0, n) <= SumTo(count, n)
    ensures n - Count(count, 0, n) == 0 ==> SumTo(count, n) == 0
    ensures n - Count(count, 0, n) == 1 ==> exists s :: 0 <= s < n && count[s] == SumTo(count, n)
  {
    if n > 0 {
      SymbolsOccurring(count, n - 1);
    }
  }

  /** Whatever the search prefers, the table log has room for all symbols, and there are two of them at least. */
  lemma HuffLogSuffices(count: seq<nat>, srcSize: nat, optimalDepth: bool, probed: nat)
    requires 0 < |count| <= 256 && SumTo(count, |count|) == srcSize > 1
    requires forall s :: 0 <= s < |count| ==> count[s] < srcSize
    ensures |count| >= 2 && 2 <= Cardinality(count) <= |count|
    ensures var huffLog := OptimalHuffLog(srcSize, |count| - 1, Cardinality(count), optimalDepth, probed);
            1 <= huffLog <= TABLELOG_DEFAULT && Cardinality(count) <= Pow2(huffLog)
  {
    hide Pow2, HighBit, SumTo, Counting.Count;
    SymbolsOccurring(count, |count|);
    Pow2Values();
    var cardinality := Cardinality(count);
    var huffLog := OptimalHuffLog(srcSize, |count| - 1, cardinality, optimalDepth, probed);
    HighBitBelow(|count| - 1, 7);
    if !optimalDepth {
      FseNormalize.MinTableLogMeans(srcSize, |count|, huffLog);
    } else if MinHuffLog(cardinality) <= probed <= TABLELOG_DEFAULT {
      Pow2Mono(MinHuffLog(cardinality), probed);
    }
  }

  lemma HighBitBelow(x: nat, h: nat)
    requires x > 0 && x < Pow2(h + 1)
    ensures HighBit(x) <= h && x < Pow2(HighBit(x) + 1)
  {
    if HighBit(x) > h {
      Pow2Mono(h + 1, HighBit(x));
    }
  }

  // ----- compressing a block -----

  /** A table description as it was written: its size, the written weights, the one left out, and their FSE coding. */
  datatype Description = Description(size: nat, w: seq<byte>, last: byte, coding: Coding)

  /**
    What a block became: nothing, one byte, streams in the table carried over, or streams in a table described
    before them.
   */
  datatype Outcome = GaveUp | SingleByte | OldTable | NewTable(description: Description)

  /** s starts with a description of the code with these lengths. */
  ghost predicate Announces(s: seq<byte>, d: Description, lens: seq<nat>, tableLog: nat)
  {
    && d.size <= |s| && |s| >= 1 && |d.w| < 256 && Describes(s, d.w, d.coding) && DescriptionSize(s) == d.size
    && WholeTable(d.w + [d.last], tableLog) && LensOfWeights(d.w + [d.last], tableLog) == lens
  }

  /** s says what src is, to a reader who has the code `lens` or is told it. */
  ghost predicate Transmits(s: seq<byte>, o: Outcome, lens: seq<nat>, tableLog: nat, src: seq<byte>, fourStreams: bool)
  {
    match o
    case GaveUp => false
    case SingleByte => |s| == 1 && forall i :: 0 <= i < |src| ==> src[i] == s[0]
    case OldTable => Coded(s, lens, tableLog, src, fourStreams)
    case NewTable(d) => Announces(s, d, lens, tableLog) && Coded(s[d.size..], lens, tableLog, src, fourStreams)
  }

  /** What may be returned, along with what `repeat` has become. */
  ghost predicate Reports(size: Result<nat>, repeat: Repeat, o: Outcome, src: seq<byte>)
  {
    && (o.GaveUp? <==> size.Err? || size.value == 0)
    && (o.SingleByte? ==> size == Ok(1))
    && (o.OldTable? ==> !repeat.RepeatNone? && size.value < |src| - 1 && (size.value == 1 ==> |src| < 8))
    && (o.NewTable? ==> repeat.RepeatNone? && 1 < size.value < |src| - 1)
  }

  // ----- what decides -----

  /** A new code for a block, the weights that describe it, and what writing them gave. */
  datatype Attempt = Attempt(lens: seq<nat>, tableLog: nat, w: seq<byte>, hSize: Result<nat>, coding: Coding)

  /** How the greatest length is chosen: by a search that prefers `probed`, or from the size of the block. */
  datatype Depth = Depth(optimal: bool, probed: nat)

  /**
    A complete code for exactly the bytes that occur, frequent ones no longer than rare ones, within the limit chosen,
    and optimal if it stays below that.
   */
  ghost predicate CodeFor(lens: seq<nat>, tableLog: nat, src: seq<byte>, depth: Depth)
  {
    && |src| > 1 && 2 <= |lens| <= 256 && lens[|lens| - 1] > 0 && Complete(lens, tableLog) && Covers(lens, src)
    && var count := CountsOf(src, |lens|);
    && FitsCounts(lens, count) && Cardinality(count) > 0
    && var limit := OptimalHuffLog(|src|, |lens| - 1, Cardinality(count), depth.optimal, depth.probed);
    tableLog <= limit && (tableLog < limit ==> PrefixCode.Optimal(count, lens))
  }

  /** A code for the block with its description. */
  ghost predicate IsAttempt(a: Attempt, src: seq<byte>, room: nat, depth: Depth)
  {
    && CodeFor(a.lens, a.tableLog, src, depth)
    && a.w == Weights(a.lens, a.tableLog)[..|a.lens| - 1] && TableSize(a.hSize, a.w, room, a.coding)
  }

  /** The table carried over has all the codes. */
  ghost predicate OldUsable(repeat: Repeat, lens: seq<nat>, src: seq<byte>)
  {
    repeat.RepeatValid? || (repeat.RepeatCheck? && Covers(lens, src))
  }

  /** With the table carried over: streams if that pays. */
  ghost predicate ByOld(o: Outcome, n: nat, lens: seq<nat>, tableLog: nat, src: seq<byte>, fourStreams: bool, room: nat)
  {
    && Complete(lens, tableLog)
    && if Pays(CodesOf(lens, tableLog), src, fourStreams, 0, room) then
         o.OldTable? && n == |StreamsOf(CodesOf(lens, tableLog), src, fourStreams)|
       else o.GaveUp? && n == 0
  }

  /** With a new table: its description and streams, if the description is short enough and that pays. */
  ghost predicate ByNew(o: Outcome, n: nat, a: Attempt, src: seq<byte>, fourStreams: bool, room: nat)
    requires a.hSize.Ok?
  {
    var h := a.hSize.value;
    && Complete(a.lens, a.tableLog)
    && if h + 12 < |src| && Pays(CodesOf(a.lens, a.tableLog), src, fourStreams, h, room - h) then
         && o.NewTable? && o.description.size == h
         && n == h + |StreamsOf(CodesOf(a.lens, a.tableLog), src, fourStreams)|
       else o.GaveUp? && n == 0
  }

  /** The old code takes no more whole bytes than the new one with its description, or that is too long. */
  ghost predicate OldIsBetter(a: Attempt, lens: seq<nat>, tableLog: nat, src: seq<byte>)
    requires a.hSize.Ok?
  {
    var h := a.hSize.value;
    || h + 12 >= |src|
    || (&& Complete(lens, tableLog) && Complete(a.lens, a.tableLog)
        && Encodable(src, CodesOf(lens, tableLog)) && Encodable(src, CodesOf(a.lens, a.tableLog))
        && |HufBits(CodesOf(lens, tableLog), src)| / 8 <= h + |HufBits(CodesOf(a.lens, a.tableLog), src)| / 8)
  }

  /** With a new code at hand: the old one if it can be used and is no worse. */
  ghost predicate ByAttempt(o: Outcome, n: nat, a: Attempt, usable: bool, lens: seq<nat>, tableLog: nat,
                            src: seq<byte>, fourStreams: bool, room: nat)
  {
    if a.hSize.Err? then o.GaveUp? && n == 0
    else if usable && OldIsBetter(a, lens, tableLog, src) then ByOld(o, n, lens, tableLog, src, fourStreams, room)
    else ByNew(o, n, a, src, fourStreams, room)
  }

  /** What a block becomes that is neither flat nor all equal. */
  ghost predicate ByHistogram(o: Outcome, n: nat, src: seq<byte>, room: nat, fourStreams: bool, preferRepeat: bool,
                              depth: Depth, repeat: Repeat, lens: seq<nat>, tableLog: nat)
  {
    if preferRepeat && OldUsable(repeat, lens, src) then ByOld(o, n, lens, tableLog, src, fourStreams, room)
    else exists a :: IsAttempt(a, src, room, depth)
                     && ByAttempt(o, n, a, OldUsable(repeat, lens, src), lens, tableLog, src, fourStreams, room)
  }

  ghost predicate Identical(src: seq<byte>)
  {
    src != [] && forall i :: 0 <= i < |src| ==> src[i] == src[0]
  }

  /** What a block becomes, and its size, or 0; `lens` is the code of the table carried over. */
  ghost predicate Decided(o: Outcome, n: nat, src: seq<byte>, room: nat, fourStreams: bool, preferRepeat: bool,
                          suspected: bool, depth: Depth, repeat: Repeat, lens: seq<nat>, tableLog: nat)
  {
    if src == [] || room == 0 || |src| > BLOCKSIZE_MAX then o.GaveUp? && n == 0
    else if preferRepeat && repeat.RepeatValid? then ByOld(o, n, lens, tableLog, src, fourStreams, room)
    else if suspected && SampledFlat(src) then o.GaveUp? && n == 0
    else if Identical(src) then o.SingleByte? && n == 1
    else if Flat(src) then o.GaveUp? && n == 0
    else ByHistogram(o, n, src, room, fourStreams, preferRepeat, depth, repeat, lens, tableLog)
  }

  /**
    A block is given up only if it is empty, too long or without room; flat, in the samples or as a whole; or if streams
    do not pay, in the table carried over or in a new one, or the new table has no description or too long a one.
   */
  lemma GivenUpFor(o: Outcome, n: nat, src: seq<byte>, room: nat, fourStreams: bool, preferRepeat: bool,
                   suspected: bool, depth: Depth, repeat: Repeat, lens: seq<nat>, tableLog: nat)
    requires Decided(o, n, src, room, fourStreams, preferRepeat, suspected, depth, repeat, lens, tableLog) && o.GaveUp?
    ensures || src == [] || room == 0 || |src| > BLOCKSIZE_MAX || (suspected && SampledFlat(src)) || Flat(src)
            || (OldUsable(repeat, lens, src) && Complete(lens, tableLog)
                && !Pays(CodesOf(lens, tableLog), src, fourStreams, 0, room))
            || (exists a :: IsAttempt(a, src, room, depth)
                            && (a.hSize.Err? || a.hSize.value + 12 >= |src|
                                || !Pays(CodesOf(a.lens, a.tableLog), src, fourStreams, a.hSize.value,
                                         room - a.hSize.value)))
  {
    hide IsAttempt, Pays, Flat, SampledFlat, Complete, Covers;
    if !(src == [] || room == 0 || |src| > BLOCKSIZE_MAX || (suspected && SampledFlat(src)) || Flat(src))
       && !(preferRepeat && OldUsable(repeat, lens, src)) {
      var a :| IsAttempt(a, src, room, depth)
               && ByAttempt(o, n, a, OldUsable(repeat, lens, src), lens, tableLog, src, fourStreams, room);
    }
  }

  lemma WrittenPart(s: seq<byte>, hSize: nat, w: seq<byte>, c: Coding)
    requires Written(Ok(hSize), s, w, c)
    ensures 1 <= hSize <= |s| && Written(Ok(hSize), s[..hSize], w, c)
  {
    hide Describes, DescriptionSize;
    assert s[..hSize][..hSize] == s[..hSize];
  }

  lemma Announced(s: seq<byte>, rest: seq<byte>, w: seq<byte>, c: Coding, lens: seq<nat>, tableLog: nat, longest: nat)
    returns (d: Description)
    requires Written(Ok(|s|), s, w, c) && |w| < 256
    requires Complete(lens, tableLog) && |lens| >= 2 && lens[|lens| - 1] > 0 && longest < |lens|
    requires lens[longest] == tableLog
    requires w == Weights(lens, tableLog)[..|lens| - 1]
    ensures d.size == |s| && Announces(s + rest, d, lens, tableLog)
  {
    hide Describes, WholeTable, Used, DescriptionSize;
    assert s[..|s|] == s;
    HufHeader.DescribesMore(s, rest, w, c);
    var last := HufHeader.ImpliedWeight(lens, tableLog, w, longest);
    d := Description(|s|, w, last, c);
  }

  function SizeOf(size: Result<nat>): nat
  {
    if size.Ok? then size.value else 0
  }

  lemma AttemptMade(a: Attempt, src: seq<byte>, room: nat, depth: Depth)
    requires CodeFor(a.lens, a.tableLog, src, depth) && |a.lens| >= 1 && Complete(a.lens, a.tableLog)
    requires a.w == Weights(a.lens, a.tableLog)[..|a.lens| - 1] && TableSize(a.hSize, a.w, room, a.coding)
    ensures IsAttempt(a, src, room, depth)
  {
    hide CodeFor, Complete, TableSize;
  }

  /** Whether to keep the old table, by the estimated sizes. */
  method OldBetter(src: seq<byte>, ct: array<nat>, huffLog: nat, count: seq<nat>, huf: HufTables, hSize: nat,
                   ghost a: Attempt) returns (better: bool)
    requires a.hSize == Ok(hSize) && a.tableLog == huffLog
    requires |a.lens| == |count| > 0 && count == CountsOf(src, |count|)
    requires IsCode(ct[..], huffLog, |count| - 1, a.lens) && Covers(a.lens, src)
    requires IsCode(huf.elts[..], huf.tableLog, huf.maxSymbolValue, huf.lens) && Covers(huf.lens, src)
    requires forall i :: 0 <= i < |src| ==> src[i] < |count|
    requires count[|count| - 1] > 0
    ensures better <==> OldIsBetter(a, huf.lens, huf.tableLog, src)
  {
    hide Complete, IsTable, HufBits, CodesOf, Counting.Count;
    CodeEncodes(ct[..], huffLog, |count| - 1, a.lens, src);
    CodeEncodes(huf.elts[..], huf.tableLog, huf.maxSymbolValue, huf.lens, src);
    ghost var i := Occurs(src, |count| - 1, |count| - 1);
    var oldSize := EstimateCompressedSize(huf.elts, huf.tableLog, count, huf.lens, src);
    var newSize := EstimateCompressedSize(ct, huffLog, count, a.lens, src);
    return oldSize <= hSize + newSize || hSize + 12 >= |src|;
  }

  /** Streams in the table carried over. */
  method WithOldTable(dst: array<byte>, start: nat, dstSize: nat, src: seq<byte>, fourStreams: bool, huf: HufTables)
    returns (size: Result<nat>, ghost o: Outcome)
    requires start + dstSize <= dst.Length && src != []
    requires IsCode(huf.elts[..], huf.tableLog, huf.maxSymbolValue, huf.lens) && Covers(huf.lens, src)
    modifies dst
    ensures size.Ok? && ByOld(o, size.value, huf.lens, huf.tableLog, src, fourStreams, dstSize)
    ensures size.value < |src| - 1 || size.value == 0
    ensures size.value == 1 ==> |src| < 8
    ensures o.GaveUp? <==> size.value == 0
    ensures o.OldTable? ==> size.value <= dstSize
                            && Coded(dst[start..start + size.value], huf.lens, huf.tableLog, src, fourStreams)
    ensures o.GaveUp? || o.OldTable?
    ensures forall k :: 0 <= k < start || start + dstSize <= k < dst.Length ==> dst[k] == old(dst[k])
  {
    hide Complete, IsTable, Coded, Pays, StreamsOf, CodesOf, Covers;
    var cSize := CompressWith(dst, start, start, start + dstSize, src, fourStreams, huf.elts, huf.tableLog,
                              huf.maxSymbolValue, huf.lens);
    return Ok(cSize), if cSize == 0 then GaveUp else OldTable;
  }

  /** The part that writes the new table, decides between it and the old one, and encodes. */
  method CompressWithNew(dst: array<byte>, start: nat, dstSize: nat, src: seq<byte>, fourStreams: bool, ct: array<nat>,
                         huffLog: nat, maxSymbolValue: nat, count: seq<nat>, huf: HufTables, repeat: Repeat,
                         ghost lens: seq<nat>, ghost longest: nat, ghost depth: Depth)
    returns (size: Result<nat>, repeat': Repeat, ghost o: Outcome, ghost a: Attempt)
    requires start + dstSize <= dst.Length && src != [] && ct != huf.elts && ct.Length == 256
    requires IsCode(ct[..], huffLog, maxSymbolValue, lens) && Covers(lens, src)
    requires lens[maxSymbolValue] > 0 && longest < |lens| && lens[longest] == huffLog
    requires huf.Usable(repeat) && (!repeat.RepeatNone? ==> Covers(huf.lens, src))
    requires FitsCounts(lens, count) && count == CountsOf(src, |count|) && maxSymbolValue < 256
    requires CodeFor(lens, huffLog, src, depth)
    requires forall i :: 0 <= i < |src| ==> src[i] <= maxSymbolValue
    modifies dst, huf`tableLog, huf`maxSymbolValue, huf`lens, huf.elts
    ensures IsAttempt(a, src, dstSize, depth)
    ensures ByAttempt(o, SizeOf(size), a, !repeat.RepeatNone?, old(huf.lens), old(huf.tableLog), src, fourStreams,
                      dstSize)
    ensures Reports(size, repeat', o, src) && huf.Usable(repeat') && (repeat' == repeat || repeat'.RepeatNone?)
    ensures !o.GaveUp? ==> size.value <= dstSize
                           && Transmits(dst[start..start + size.value], o, huf.lens, huf.tableLog, src, fourStreams)
    ensures o.NewTable? ==> IsCode(huf.elts[..], huf.tableLog, huf.maxSymbolValue, huf.lens)
    ensures o.SingleByte? || o.OldTable? ==> unchanged(huf) && unchanged(huf.elts)
    ensures forall k :: 0 <= k < start || start + dstSize <= k < dst.Length ==> dst[k] == old(dst[k])
  {
    hide Complete, IsTable, Covers, Coded, Announces, Weights, Written, TableSize, Pays, StreamsOf, CodesOf,
      OldIsBetter, CodeFor;
    o, repeat' := GaveUp, repeat;
    TwoSymbols(lens, huffLog);
    ghost var w, c;
    size, w, c := WriteCTable(dst, start, dstSize, ct, maxSymbolValue, huffLog, lens);
    a := Attempt(lens, huffLog, w, size, c);
    AttemptMade(a, src, dstSize, depth);
    if size.Err? {
      return;
    }
    var hSize := size.value;
    if !repeat.RepeatNone? {
      var better := OldBetter(src, ct, huffLog, count, huf, hSize, a);
      if better {
        size, o := WithOldTable(dst, start, dstSize, src, fourStreams, huf);
        return;
      }
    }
    if hSize + 12 >= |src| {
      return Ok(0), repeat, GaveUp, a;
    }
    WrittenPart(dst[start..start + dstSize], hSize, w, c);
    ghost var description := dst[start..start + dstSize][..hSize];
    huf.SetTable(ct, huffLog, maxSymbolValue, lens);
    var cSize := CompressWith(dst, start, start + hSize, start + dstSize, src, fourStreams, ct, huffLog, maxSymbolValue,
                              lens);
    if cSize == 0 {
      return Ok(0), RepeatNone, GaveUp, a;
    }
    ghost var streams := dst[start + hSize..start + cSize];
    assert dst[start..start + cSize] == description + streams;
    ghost var d := Announced(description, streams, w, c, lens, huffLog, longest);
    size, repeat', o := Ok(cSize), RepeatNone, NewTable(d);
  }

  /** A single symbol that takes the whole histogram. */
  lemma AllTheSame(src: seq<byte>, maxSymbolValue: nat, s: nat)
    requires src != [] && s <= maxSymbolValue && CountsOf(src, maxSymbolValue + 1)[s] == |src|
    ensures forall i :: 0 <= i < |src| ==> src[i] as nat == s == src[0]
  {
    forall i | 0 <= i < |src|
      ensures src[i] as nat == s
    {
      if src[i] as nat != s {
        CountSkips(src, s, i, |src|);
      }
    }
  }

  lemma {:induction false} CountSkips(t: seq<nat>, x: nat, i: nat, n: nat)
    requires i < n <= |t| && t[i] != x
    ensures Count(t, x, n) < n
  {
    if i < n - 1 {
      CountSkips(t, x, i, n - 1);
    }
  }

  /** What a new table is built from: the histogram of a block in which no symbol stands alone. */
  lemma HistogramReady(src: seq<byte>, maxSymbolValue: nat, optimalDepth: bool, probed: nat)
    requires 1 < |src| <= BLOCKSIZE_MAX && maxSymbolValue < 256
    requires forall i :: 0 <= i < |src| ==> src[i] <= maxSymbolValue
    requires var counts := CountsOf(src, maxSymbolValue + 1); forall s :: 0 <= s <= maxSymbolValue ==> counts[s] < |src|
    ensures var count := CountsOf(src, maxSymbolValue + 1);
            && maxSymbolValue >= 1 && 2 <= Cardinality(count)
            && var huffLog := OptimalHuffLog(|src|, maxSymbolValue, Cardinality(count), optimalDepth, probed);
            && 1 <= huffLog <= TABLELOG_DEFAULT && Cardinality(count) <= Pow2(huffLog)
            && HufBuild.CountSum(count) < HufBuild.NOT_MADE
  {
    hide Cardinality, OptimalHuffLog;
    CountsSum(src, maxSymbolValue + 1);
    HuffLogSuffices(CountsOf(src, maxSymbolValue + 1), |src|, optimalDepth, probed);
  }

  /** A code for exactly the symbols of the histogram covers the block. */
  lemma FitsCovers(lens: seq<nat>, src: seq<byte>, maxSymbolValue: nat)
    requires maxSymbolValue < 256 && forall i :: 0 <= i < |src| ==> src[i] <= maxSymbolValue
    requires FitsCounts(lens, CountsOf(src, maxSymbolValue + 1))
    requires CountsOf(src, maxSymbolValue + 1)[maxSymbolValue] > 0
    ensures Covers(lens, src) && |lens| == maxSymbolValue + 1 && lens[maxSymbolValue] > 0
  {
    forall i | 0 <= i < |src|
      ensures lens[src[i]] > 0
    {
      CountMonotone(src, src[i], i, |src|);
    }
  }

  /** A new table for a block in which no symbol stands alone. */
  method BuildFor(src: seq<byte>, count: seq<nat>, maxSymbolValue: nat, optimalDepth: bool, probed: nat)
    returns (ct: array<nat>, huffLog: nat, ghost lens: seq<nat>, ghost longest: nat)
    requires 1 < |src| <= BLOCKSIZE_MAX && maxSymbolValue < 256
    requires forall i :: 0 <= i < |src| ==> src[i] <= maxSymbolValue
    requires count == CountsOf(src, maxSymbolValue + 1) && count[maxSymbolValue] > 0
    requires forall s :: 0 <= s <= maxSymbolValue ==> count[s] < |src|
    ensures fresh(ct) && ct.Length == 256 && IsCode(ct[..], huffLog, maxSymbolValue, lens) && Covers(lens, src)
    ensures FitsCounts(lens, count) && CodeFor(lens, huffLog, src, Depth(optimalDepth, probed))
    ensures lens[maxSymbolValue] > 0 && longest < |lens| && lens[longest] == huffLog
  {
    hide Complete, IsTable, Pow2, Cardinality, FitsCounts, HufBuild.CountSum, OptimalHuffLog, Counting.Count,
      PrefixCode.Optimal;
    HistogramReady(src, maxSymbolValue, optimalDepth, probed);
    var target := OptimalHuffLog(|src|, maxSymbolValue, Cardinality(count), optimalDepth, probed);
    ct := new nat[256];
    var maxBits;
    maxBits, lens, longest := BuildCTable(ct, count, target);
    FitsCovers(lens, src, maxSymbolValue);
    huffLog := maxBits.value;
  }

  /** What the histogram of a block says. */
  lemma HistogramMeans(src: seq<byte>, count: seq<nat>, greatest: nat, largest: nat)
    requires src != [] && greatest < 256 && forall i :: 0 <= i < |src| ==> src[i] <= greatest
    requires count == CountsOf(src, greatest + 1)
    requires forall s :: 0 <= s <= greatest ==> count[s] <= largest
    requires exists s :: 0 <= s <= greatest && count[s] == largest
    ensures Identical(src) <==> largest == |src|
    ensures Flat(src) <==> largest <= |src| / 128 + 4
  {
    hide Counting.Count;
    var s :| 0 <= s <= greatest && count[s] == largest;
    LargestBounds(src, count, greatest, largest);
    assert Count(src, s, |src|) == largest;
    if largest == |src| {
      AllTheSame(src, greatest, s);
    }
    if Identical(src) {
      CountAll(src, src[0], 0, |src|);
      assert Count(src, src[0], |src|) <= largest;
      CountStarts(src, src[0]);
    }
  }

  lemma CountStarts(src: seq<nat>, x: nat)
    ensures Count(src, x, 0) == 0
  {
  }

  lemma AllCovered(lens: seq<nat>, src: seq<byte>)
    requires CoversAll(lens)
    ensures Covers(lens, src)
  {
  }

  /** The part of HUF_compress_internal behind the histogram: the choice of the table, and the streams. */
  method CompressHistogram(dst: array<byte>, start: nat, dstSize: nat, src: seq<byte>, fourStreams: bool,
                           preferRepeat: bool, optimalDepth: bool, probedLog: nat, count: array<nat>,
                           maxSymbolValue: nat, huf: HufTables, repeat: Repeat)
    returns (size: Result<nat>, repeat': Repeat, ghost o: Outcome)
    requires start + dstSize <= dst.Length && huf.Usable(repeat) && huf.elts != count
    requires 1 < |src| <= BLOCKSIZE_MAX && maxSymbolValue < 256 == count.Length
    requires forall i :: 0 <= i < |src| ==> src[i] <= maxSymbolValue
    requires count[..maxSymbolValue + 1] == CountsOf(src, maxSymbolValue + 1) && count[maxSymbolValue] > 0
    requires forall s :: 0 <= s <= maxSymbolValue ==> count[s] < |src|
    modifies dst, huf`tableLog, huf`maxSymbolValue, huf`lens, huf.elts
    ensures ByHistogram(o, SizeOf(size), src, dstSize, fourStreams, preferRepeat, Depth(optimalDepth, probedLog),
                        repeat, old(huf.lens), old(huf.tableLog))
    ensures Reports(size, repeat', o, src) && huf.Usable(repeat') && (repeat' == repeat || repeat'.RepeatNone?)
    ensures !o.GaveUp? ==> size.value <= dstSize
                           && Transmits(dst[start..start + size.value], o, huf.lens, huf.tableLog, src, fourStreams)
    ensures o.NewTable? ==> IsCode(huf.elts[..], huf.tableLog, huf.maxSymbolValue, huf.lens)
    ensures o.SingleByte? || o.OldTable? ==> unchanged(huf) && unchanged(huf.elts)
    ensures forall k :: 0 <= k < start || start + dstSize <= k < dst.Length ==> dst[k] == old(dst[k])
  {
    hide Complete, IsTable, Coded, Announces, Pow2, Cardinality, Counting.Count, Pays, StreamsOf, CodesOf, IsAttempt,
      ByAttempt, FitsCounts, IsCode, CoversAll, ByOld, CodeFor;
    repeat' := repeat;
    var histogram := count[..maxSymbolValue + 1];
    if repeat.RepeatCheck? {
      var ok := ValidateCTable(huf.elts, huf.tableLog, huf.maxSymbolValue, count, maxSymbolValue, huf.lens, src);
      if !ok {
        repeat' := RepeatNone;
      }
    }
    if repeat'.RepeatValid? {
      AllCovered(huf.lens, src);
    }
    if preferRepeat && !repeat'.RepeatNone? {
      size, o := WithOldTable(dst, start, dstSize, src, fourStreams, huf);
      return;
    }
    var ct, huffLog, lens, longest := BuildFor(src, histogram, maxSymbolValue, optimalDepth, probedLog);
    ghost var a;
    size, repeat', o, a := CompressWithNew(dst, start, dstSize, src, fourStreams, ct, huffLog, maxSymbolValue,
                                           histogram, huf, repeat', lens, longest,
                                           Depth(optimalDepth, probedLog));
  }

  /**
    HUF_compress_internal, as the literals coder calls it: a block becomes one byte if all its bytes are equal,
    streams in the table carried over if that has all the codes, or the description of a new table and streams,
    unless it does not pay. The table carried over is replaced exactly by a new table that is in use. `probedLog`
    stands for the depth that the search over all depths prefers.
   */
  method CompressInternal(dst: array<byte>, start: nat, dstSize: nat, src: seq<byte>, fourStreams: bool,
                          preferRepeat: bool, optimalDepth: bool, suspectUncompressible: bool, probedLog: nat,
                          huf: HufTables, repeat: Repeat) returns (size: Result<nat>, repeat': Repeat, ghost o: Outcome)
    requires start + dstSize <= dst.Length && huf.Usable(repeat)
    modifies dst, huf`tableLog, huf`maxSymbolValue, huf`lens, huf.elts
    ensures Decided(o, SizeOf(size), src, dstSize, fourStreams, preferRepeat, suspectUncompressible,
                    Depth(optimalDepth, probedLog), repeat, old(huf.lens), old(huf.tableLog))
    ensures Reports(size, repeat', o, src) && huf.Usable(repeat') && (repeat' == repeat || repeat'.RepeatNone?)
    ensures !o.GaveUp? ==> size.value <= dstSize
                           && Transmits(dst[start..start + size.value], o, huf.lens, huf.tableLog, src, fourStreams)
    ensures o.NewTable? ==> IsCode(huf.elts[..], huf.tableLog, huf.maxSymbolValue, huf.lens)
    ensures o.SingleByte? || o.OldTable? ==> unchanged(huf) && unchanged(huf.elts)
    ensures forall k :: 0 <= k < start || start + dstSize <= k < dst.Length ==> dst[k] == old(dst[k])
  {
    hide Complete, IsTable, Coded, Announces, Pow2, Cardinality, Counting.Count, Pays, StreamsOf, CodesOf, Flat,
      SampledFlat, ByHistogram, FitsCounts, Identical, IsCode, CoversAll, ByOld;
    o, repeat' := GaveUp, repeat;
    if |src| == 0 || dstSize == 0 {
      return Ok(0), repeat, GaveUp;
    }
    if |src| > BLOCKSIZE_MAX {
      return Err(SrcSizeWrong), repeat, GaveUp;
    }
    if preferRepeat && repeat.RepeatValid? {
      AllCovered(huf.lens, src);
      size, o := WithOldTable(dst, start, dstSize, src, fourStreams, huf);
      return;
    }
    var giveUp := LooksIncompressible(src, suspectUncompressible);
    if giveUp {
      return Ok(0), repeat, GaveUp;
    }
    var count := new nat[256];
    var maxSymbolValue, largest := CountSimple(src, count);
    var histogram := count[..maxSymbolValue + 1];
    assert forall s :: 0 <= s <= maxSymbolValue ==> histogram[s] <= largest;
    HistogramMeans(src, histogram, maxSymbolValue, largest);
    if largest == |src| {
      ghost var s :| 0 <= s <= maxSymbolValue && count[s] == largest;
      AllTheSame(src, maxSymbolValue, s);
      dst[start] := src[0];
      return Ok(1), repeat, SingleByte;
    }
    if largest <= |src| / 128 + 4 {
      return Ok(0), repeat, GaveUp;
    }
    size, repeat', o := CompressHistogram(dst, start, dstSize, src, fourStreams, preferRepeat, optimalDepth, probedLog,
                                          count, maxSymbolValue, huf, repeat);
  }
}
