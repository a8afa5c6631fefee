/** FSE_writeNCount_generic with its bounds checks (writeIsSafe == 0). */
module NCountWriter {
  import opened Bits
  import opened Wrappers
  import opened Bitstream
  import opened BitWriter
  import opened FseSpread
  import opened NCountFormat

  /** `written` is what has been produced: whole bytes from `start` to `out`, the rest in the register. */
  ghost predicate Staged(dst: seq<byte>, start: nat, out: nat, bitStream: nat, bitCount: nat, written: seq<bool>)
  {
    && start <= out <= |dst| && |written| == 8 * (out - start) + bitCount
    && BytesToBits(dst[start..out]) == written[..8 * (out - start)]
    && bitStream == Value(written[8 * (out - start)..])
  }

  /** Adding a field above the bits in the register stages it. */
  lemma StageField(dst: seq<byte>, start: nat, out: nat, bitStream: nat, bitCount: nat, written: seq<bool>, v: nat,
                   n: nat)
    requires Staged(dst, start, out, bitStream, bitCount, written) && v < Pow2(n)
    ensures Staged(dst, start, out, bitStream + Shl(v, bitCount), bitCount + n, written + BitsOf(v, n))
  {
    hide *;
    StageIntro(dst, start, out, bitStream, bitCount, written);
    var k := 8 * (out - start);
    var pending := written[k..];
    AppendKeeps(written, k, BitsOf(v, n));
    ValueConcat(pending, BitsOf(v, n));
    ValueOfBits(v, n);
    LowSmall(v, n);
    ShlIsMul(v, bitCount);
    MulCommutes(v, Pow2(bitCount));
    StageElim(dst, start, out, bitStream + Shl(v, bitCount), bitCount + n, written + BitsOf(v, n));
  }

  lemma StageIntro(dst: seq<byte>, start: nat, out: nat, bitStream: nat, bitCount: nat, written: seq<bool>)
    requires Staged(dst, start, out, bitStream, bitCount, written)
    ensures start <= out <= |dst| && |written| == 8 * (out - start) + bitCount
    ensures BytesToBits(dst[start..out]) == written[..8 * (out - start)]
    ensures bitStream == Value(written[8 * (out - start)..])
  {
  }

  lemma StageElim(dst: seq<byte>, start: nat, out: nat, bitStream: nat, bitCount: nat, written: seq<bool>)
    requires start <= out <= |dst| && |written| == 8 * (out - start) + bitCount
    requires BytesToBits(dst[start..out]) == written[..8 * (out - start)]
    requires bitStream == Value(written[8 * (out - start)..])
    ensures Staged(dst, start, out, bitStream, bitCount, written)
  {
  }

  /** The register never holds more than 32 bits' worth. */
  lemma StageFits(dst: seq<byte>, start: nat, out: nat, bitStream: nat, bitCount: nat, written: seq<bool>)
    requires Staged(dst, start, out, bitStream, bitCount, written) && bitCount <= 32
    ensures bitStream < Pow2(32)
  {
    hide Pow2, Value, BytesToBits;
    ValueBound(written[8 * (out - start)..]);
    Pow2Mono(bitCount, 32);
  }

  /** The bounds-checked two-byte flush that the writer repeats. */
  method Spill(dst: array<byte>, start: nat, out: nat, oend: nat, bitStream: nat, ghost bitCount: nat,
               ghost written: seq<bool>) returns (ok: bool, out': nat, bitStream': nat)
    requires Staged(dst[..], start, out, bitStream, bitCount, written) && bitCount >= 16
    requires oend <= dst.Length
    modifies dst
    ensures ok <==> out + 2 <= oend
    ensures ok ==> out' == out + 2 && Staged(dst[..], start, out', bitStream', bitCount - 16, written)
    ensures forall k :: 0 <= k < start || oend <= k < dst.Length ==> dst[k] == old(dst[k])
  {
    hide Value, BytesToBits, Shr;
    out', bitStream' := out, bitStream;
    if out > oend - 2 {
      return false, out, bitStream;
    }
    ghost var before := dst[start..out];
    dst[out] := bitStream % 256;
    dst[out + 1] := bitStream / 256 % 256;
    out' := out + 2;
    bitStream' := Shr(bitStream, 16);
    ghost var k := 8 * (out - start);
    SpilledPair(written[k..], dst[out], dst[out + 1]);
    assert dst[start..out'] == before + [dst[out], dst[out + 1]];
    BytesToBitsConcat(before, [dst[out], dst[out + 1]]);
    assert written[..k] + written[k..][..16] == written[..k + 16];
    assert written[k..][16..] == written[k + 16..];
    ok := true;
  }

  lemma TwoBytes(v: nat)
    ensures BytesOf(v, 2) == [v % 256, v / 256 % 256]
  {
  }

  lemma SpilledPair(pending: seq<bool>, lo: byte, hi: byte)
    requires |pending| >= 16 && lo == Value(pending) % 256 && hi == Value(pending) / 256 % 256
    ensures BytesToBits([lo, hi]) == pending[..16]
    ensures Value(pending[16..]) == Shr(Value(pending), 16)
  {
    hide *;
    var v := Value(pending);
    TwoBytes(v);
    ValueSplit(pending, 16);
    BytesOfBits(v, 2);
    BitsOfLow(v, 16, 16);
    BitsOfValue(pending[..16]);
  }

  /** The last, possibly partial, bytes: what was staged is now packed. */
  lemma StagedPack(dst: seq<byte>, start: nat, out: nat, bitStream: nat, bitCount: nat, written: seq<bool>,
                   last: seq<byte>)
    requires Staged(dst, start, out, bitStream, bitCount, written) && bitCount <= 16
    requires |last| == 2 && last[0] == bitStream % 256 && last[1] == bitStream / 256 % 256
    ensures (bitCount + 7) / 8 <= 2 && Pack(written) == dst[start..out] + last[..(bitCount + 7) / 8]
  {
    hide Value, BytesToBits, Pack;
    var k, front := 8 * (out - start), dst[start..out];
    var pending := written[k..];
    var n := (bitCount + 7) / 8;
    var z := Zeros(16 - bitCount);
    PackedPair(pending, last[0], last[1], n);
    assert last == [last[0], last[1]];
    assert written == written[..k] + pending;
    PaddedFront(written, front, last[..n], pending, n);
  }

  lemma PackedPair(pending: seq<bool>, lo: byte, hi: byte, n: nat)
    requires lo == Value(pending) % 256 && hi == Value(pending) / 256 % 256
    requires n <= 2 && 8 * n < |pending| + 8 && |pending| <= 8 * n
    ensures BytesToBits([lo, hi][..n]) == pending + Zeros(8 * n - |pending|)
  {
    hide *;
    var v := Value(pending);
    TwoBytes(v);
    var z := Zeros(16 - |pending|);
    ZeroExtend(pending, 16);
    BytesOfBits(v, 2);
    BytesToBitsCut([lo, hi], n);
    CutPadding(pending, z, 8 * n);
    assert z[..8 * n - |pending|] == Zeros(8 * n - |pending|);
  }

  lemma CutPadding<T>(a: seq<T>, z: seq<T>, k: nat)
    requires |a| <= k <= |a| + |z|
    ensures (a + z)[..k] == a + z[..k - |a|]
  {
  }

  lemma PaddedFront(written: seq<bool>, front: seq<byte>, last: seq<byte>, pending: seq<bool>, n: nat)
    requires |last| == n && 8 * n < |pending| + 8 && |pending| <= 8 * n
    requires BytesToBits(last) == pending + Zeros(8 * n - |pending|)
    requires written == BytesToBits(front) + pending
    ensures Pack(written) == front + last
  {
    hide *;
    var z := Zeros(8 * n - |pending|);
    BytesToBitsConcat(front, last);
    assert BytesToBits(front) + (pending + z) == written + z;
    PackBits(written);
    PaddingIs(|written|, 8 * n - |pending|, |front| + n);
    BytesToBitsInjective(front + last, Pack(written));
  }

  // ----- the writer -----

  /** What is still to be written completes the header. */
  ghost predicate Writing(norm: seq<int>, tableLog: nat, s: nat, remaining: int, previousIs0: bool, written: seq<bool>)
  {
    && tableLog >= MIN_TABLELOG && (forall k :: 0 <= k < |norm| ==> norm[k] >= -1)
    && written + Body(norm, s, remaining, previousIs0) == Header(norm, tableLog)
  }

  lemma WritingStart(norm: seq<int>, tableLog: nat)
    requires tableLog >= MIN_TABLELOG && forall k :: 0 <= k < |norm| ==> norm[k] >= -1
    ensures Writing(norm, tableLog, 0, Pow2(tableLog) + 1, false, BitsOf(tableLog - MIN_TABLELOG, 4))
  {
  }

  lemma WritingCount(norm: seq<int>, tableLog: nat, s: nat, remaining: int, written: seq<bool>)
    requires Writing(norm, tableLog, s, remaining, false, written) && s < |norm| && remaining > 1
    ensures Writing(norm, tableLog, s + 1, remaining - Abs(norm[s]), norm[s] == 0,
                    written + CountBits(norm[s] + 1, remaining))
  {
    hide Header, CountBits;
    var rest := Body(norm, s + 1, remaining - Abs(norm[s]), norm[s] == 0);
    assert (written + CountBits(norm[s] + 1, remaining)) + rest == written + (CountBits(norm[s] + 1, remaining) + rest);
  }

  lemma WritingRun(norm: seq<int>, tableLog: nat, s: nat, remaining: int, written: seq<bool>)
    requires Writing(norm, tableLog, s, remaining, true, written) && s < |norm| && remaining > 1
    requires NextNonZero(norm, s) < |norm|
    ensures var z := NextNonZero(norm, s);
            Writing(norm, tableLog, z, remaining, false, written + RunBits(z - s))
  {
    hide Header, RunBits, NextNonZero;
    var z := NextNonZero(norm, s);
    var rest := Body(norm, z, remaining, false);
    assert (written + RunBits(z - s)) + rest == written + (RunBits(z - s) + rest);
  }

  /** The count field the writer computes is the field of the format. */
  lemma FieldOf(value: nat, remaining: nat)
    requires remaining >= 2 && value <= remaining
    ensures var t, max := Threshold(remaining), ShortBound(remaining);
            var v := if value >= t then value + max else value;
            var n := if v < max then HighBit(remaining) else HighBit(remaining) + 1;
            CountBits(value, remaining) == BitsOf(v, n) && v < Pow2(n)
  {
    assert Pow2(HighBit(remaining) + 1) == 2 * Threshold(remaining);
  }

  lemma ThresholdHalves(remaining: nat, t: nat, nbBits: nat)
    requires 0 < remaining < t == Pow2(nbBits)
    ensures nbBits > 0 && t / 2 == Pow2(nbBits - 1) && t == 2 * (t / 2)
  {
  }

  /** The run of zeros that ends before symbol z: groups of 24, then of 3, then the rest. */
  method WriteRun(dst: array<byte>, start: nat, out: nat, oend: nat, bitStream: nat, bitCount: nat, run: nat,
                  ghost written: seq<bool>) returns (ok: bool, out': nat, bitStream': nat, bitCount': nat)
    requires Staged(dst[..], start, out, bitStream, bitCount, written) && bitCount <= 16
    requires start <= dst.Length && oend <= dst.Length
    modifies dst
    ensures ok ==> Staged(dst[..], start, out', bitStream', bitCount', written + RunBits(run)) && bitCount' <= 16
    ensures !ok ==> oend < start + 2 + |written + RunBits(run)| / 8
    ensures forall k :: 0 <= k < start || oend <= k < dst.Length ==> dst[k] == old(dst[k])
  {
    hide Staged, RunBits, BitsOf, Pow2, Shl;
    out', bitStream', bitCount', ok := out, bitStream, bitCount, true;
    var todo := run;
    ghost var w := written;
    assert w + RunBits(todo) == written + RunBits(run);
    while todo >= 24
      invariant 0 <= todo && bitCount' <= 16
      invariant Staged(dst[..], start, out', bitStream', bitCount', w)
      invariant w + RunBits(todo) == written + RunBits(run)
      invariant forall k :: 0 <= k < start || oend <= k < dst.Length ==> dst[k] == old(dst[k])
    {
      RunGroup(w, todo, 8);
      SixteenOnes();
      StageField(dst[..], start, out', bitStream', bitCount', w, 0xFFFF, 16);
      w := w + Ones(16);
      todo := todo - 24;
      StageIntro(dst[..], start, out', bitStream' + Shl(0xFFFF, bitCount'), bitCount' + 16, w);
      ok, out', bitStream' := Spill(dst, start, out', oend, bitStream' + Shl(0xFFFF, bitCount'), bitCount' + 16, w);
      if !ok {
        return;
      }
    }
    ghost var groups := 0;
    while todo >= 3
      invariant 0 <= todo && bitCount' <= 16 + 2 * groups && todo + 3 * groups < 24
      invariant Staged(dst[..], start, out', bitStream', bitCount', w)
      invariant w + RunBits(todo) == written + RunBits(run)
      invariant forall k :: 0 <= k < start || oend <= k < dst.Length ==> dst[k] == old(dst[k])
    {
      RunGroup(w, todo, 1);
      TwoOnes();
      StageField(dst[..], start, out', bitStream', bitCount', w, 3, 2);
      w := w + Ones(2);
      bitStream', bitCount', todo := bitStream' + Shl(3, bitCount'), bitCount' + 2, todo - 3;
      groups := groups + 1;
    }
    RunEnd(todo);
    StageField(dst[..], start, out', bitStream', bitCount', w, todo, 2);
    w := w + BitsOf(todo, 2);
    bitStream', bitCount' := bitStream' + Shl(todo, bitCount'), bitCount' + 2;
    assert bitCount' <= 32;
    StageFits(dst[..], start, out', bitStream', bitCount', w);
    if bitCount' > 16 {
      StageIntro(dst[..], start, out', bitStream', bitCount', w);
      ok, out', bitStream' := Spill(dst, start, out', oend, bitStream', bitCount', w);
      bitCount' := bitCount' - 16;
    }
  }

  lemma RunGroup(w: seq<bool>, n: nat, k: nat)
    requires 3 * k <= n
    ensures w + RunBits(n) == (w + Ones(2 * k)) + RunBits(n - 3 * k)
  {
    hide RunBits, Ones;
    RunSplit(n, k);
    assert w + (Ones(2 * k) + RunBits(n - 3 * k)) == (w + Ones(2 * k)) + RunBits(n - 3 * k);
  }

  lemma RunEnd(n: nat)
    requires n < 3
    ensures RunBits(n) == BitsOf(n, 2) && n < Pow2(2)
  {
    Pow2Values();
  }

  lemma SixteenOnes()
    ensures BitsOf(0xFFFF, 16) == Ones(16) && 0xFFFF < Pow2(16)
  {
    Pow2Values();
    AllOnes(16);
  }

  lemma TwoOnes()
    ensures BitsOf(3, 2) == Ones(2) && 3 < Pow2(2)
  {
    Pow2Values();
    AllOnes(2);
  }

  lemma {:induction false} AllOnes(n: nat)
    ensures BitsOf(Pow2(n) - 1, n) == Ones(n)
  {
    if n > 0 {
      assert (Pow2(n) - 1) / 2 == Pow2(n - 1) - 1;
      AllOnes(n - 1);
    }
  }

  /** One count: the field, then the new width for what is left. */
  method WriteCount(bitStream: nat, bitCount: nat, normalized: int, remaining: int, threshold: nat, nbBits: nat,
                    ghost dst: seq<byte>, ghost start: nat, ghost out: nat, ghost written: seq<bool>)
    returns (bitStream': nat, bitCount': nat, remaining': int)
    requires Staged(dst, start, out, bitStream, bitCount, written) && normalized >= -1 && remaining >= 2
    requires threshold == Threshold(remaining) && nbBits == HighBit(remaining) + 1
    ensures remaining' == remaining - Abs(normalized)
    ensures remaining' >= 1 ==>
              && Staged(dst, start, out, bitStream', bitCount', written + CountBits(normalized + 1, remaining))
              && bitCount' <= bitCount + nbBits
  {
    hide Staged, CountBits, BitsOf, Pow2, Shl, HighBit, Threshold;
    var max := 2 * threshold - 1 - remaining;
    var count := normalized;
    remaining' := remaining - (if count < 0 then -count else count);
    count := count + 1;
    if count >= threshold {
      count := count + max;
    }
    bitStream' := bitStream + Shl(count, bitCount);
    bitCount' := bitCount + nbBits;
    if count < max {
      bitCount' := bitCount' - 1;
    }
    if remaining' >= 1 {
      FieldOf(normalized + 1, remaining);
      StageField(dst, start, out, bitStream, bitCount, written, count, if count < max then nbBits - 1 else nbBits);
    }
  }

  lemma WritingLength(norm: seq<int>, tableLog: nat, s: nat, remaining: int, previousIs0: bool, written: seq<bool>)
    requires Writing(norm, tableLog, s, remaining, previousIs0, written)
    ensures |written| <= |Header(norm, tableLog)|
  {
    hide Body, Header;
  }

  /** The loop stops at remaining == 1: for a valid distribution nothing is missing then. */
  lemma WritingDone(norm: seq<int>, tableLog: nat, s: nat, remaining: int, previousIs0: bool, written: seq<bool>)
    requires Writing(norm, tableLog, s, remaining, previousIs0, written)
    requires s >= |norm| || remaining <= 1
    ensures written == Header(norm, tableLog)
  {
    hide Header;
  }

  /** Only zeros are left, but points are: the distribution does not sum to the table size. */
  lemma PointsLeft(norm: seq<int>, tableLog: nat, s: nat, remaining: int)
    requires s <= |norm| && remaining == Pow2(tableLog) + 1 - Start(norm, s)
    requires forall k :: s <= k < |norm| ==> norm[k] == 0
    ensures Start(norm, |norm|) == Pow2(tableLog) + 1 - remaining
    decreases |norm| - s
  {
    if s < |norm| {
      PointsLeft(norm, tableLog, s + 1, remaining);
    }
  }

  lemma Overspent(norm: seq<int>, s: nat)
    requires s <= |norm|
    ensures Start(norm, s) <= Start(norm, |norm|)
    decreases |norm| - s
  {
    if s < |norm| {
      Overspent(norm, s + 1);
    }
  }

  lemma StagedNothing(dst: seq<byte>, start: nat, tableLog: nat)
    requires start <= |dst| && MIN_TABLELOG <= tableLog < MIN_TABLELOG + 16
    ensures Staged(dst, start, start, tableLog - MIN_TABLELOG, 4, BitsOf(tableLog - MIN_TABLELOG, 4))
  {
    hide Value, BytesToBits, BitsOf, Pow2;
    ValueOfBits(tableLog - MIN_TABLELOG, 4);
    Pow2Values();
    LowSmall(tableLog - MIN_TABLELOG, 4);
    assert dst[start..start] == [];
    NoBits();
  }

  lemma NoBits()
    ensures BytesToBits([]) == []
  {
  }

  /**
    FSE_writeNCount_generic: for a valid distribution, either the packed header is in place or the
    buffer has fewer than two bytes to spare.
   */
  method WriteNCount(dst: array<byte>, start: nat, bufferSize: nat, norm: seq<int>, tableLog: nat)
    returns (r: Result<nat>)
    requires start + bufferSize <= dst.Length && |norm| > 0
    requires MIN_TABLELOG <= tableLog <= MAX_TABLELOG && forall k :: 0 <= k < |norm| ==> norm[k] >= -1
    modifies dst
    ensures r.Ok? ==>
              && start + r.value <= dst.Length
              && dst[start..start + r.value] == Pack(Header(norm, tableLog)) && r.value <= bufferSize
    ensures r.Err? && Start(norm, |norm|) == Pow2(tableLog) ==>
              r.error == DstSizeTooSmall && bufferSize < |Header(norm, tableLog)| / 8 + 2
    ensures forall k :: 0 <= k < start || start + bufferSize <= k < dst.Length ==> dst[k] == old(dst[k])
  {
    hide Staged, Writing, Header, Body, BitsOf, Pow2, HighBit, Threshold, Start, CountBits, RunBits, Pack;
    var oend, tableSize := start + bufferSize, Pow2(tableLog);
    var out: nat, bitStream: nat, bitCount: nat, symbol := start, tableLog - MIN_TABLELOG, 4, 0;
    var remaining: int, threshold: nat, nbBits: nat := tableSize + 1, tableSize, tableLog + 1;
    var previousIs0 := false;
    ghost var written := BitsOf(tableLog - MIN_TABLELOG, 4);
    StagedNothing(dst[..], start, tableLog);
    WritingStart(norm, tableLog);
    InitialThreshold(tableLog);
    StartZero(norm);
    while symbol < |norm| && remaining > 1
      invariant symbol <= |norm| && remaining >= 1 && bitCount <= 16
      invariant remaining == tableSize + 1 - Start(norm, symbol)
      invariant nbBits <= 13 && threshold == Threshold(remaining) && nbBits == HighBit(remaining) + 1
      invariant Staged(dst[..], start, out, bitStream, bitCount, written)
      invariant Writing(norm, tableLog, symbol, remaining, previousIs0, written)
      invariant forall k :: 0 <= k < start || oend <= k < dst.Length ==> dst[k] == old(dst[k])
      decreases |norm| - symbol
    {
      if previousIs0 {
        var run := symbol;
        while symbol < |norm| && norm[symbol] == 0
          invariant run <= symbol <= |norm| && forall k :: run <= k < symbol ==> norm[k] == 0
        {
          symbol := symbol + 1;
        }
        NextNonZeroIs(norm, run, symbol);
        StartOverZeros(norm, run, symbol);
        if symbol == |norm| {
          break;
        }
        WritingRun(norm, tableLog, run, remaining, written);
        WritingLength(norm, tableLog, symbol, remaining, false, written + RunBits(symbol - run));
        var ok;
        ok, out, bitStream, bitCount := WriteRun(dst, start, out, oend, bitStream, bitCount, symbol - run, written);
        if !ok {
          return Err(DstSizeTooSmall);
        }
        written := written + RunBits(symbol - run);
      }
      WritingCount(norm, tableLog, symbol, remaining, written);
      StartStep(norm, symbol);
      ghost var before := remaining;
      bitStream, bitCount, remaining :=
        WriteCount(bitStream, bitCount, norm[symbol], remaining, threshold, nbBits, dst[..], start, out, written);
      previousIs0 := norm[symbol] == 0;
      symbol := symbol + 1;
      if remaining < 1 {
        Overspent(norm, symbol);
        return Err(Generic);
      }
      written := written + CountBits(norm[symbol - 1] + 1, before);
      ThresholdForm(before);
      threshold, nbBits := Shrink(remaining, threshold, nbBits);
      if bitCount > 16 {
        WritingLength(norm, tableLog, symbol, remaining, previousIs0, written);
        StageIntro(dst[..], start, out, bitStream, bitCount, written);
        var ok;
        ok, out, bitStream := Spill(dst, start, out, oend, bitStream, bitCount, written);
        if !ok {
          return Err(DstSizeTooSmall);
        }
        bitCount := bitCount - 16;
      }
    }
    if remaining != 1 {
      PointsLeft(norm, tableLog, symbol, remaining);
      return Err(Generic);
    }
    WritingDone(norm, tableLog, symbol, remaining, previousIs0, written);
    r := LastBytes(dst, start, out, oend, bitStream, bitCount, written);
  }

  lemma NextNonZeroIs(norm: seq<int>, s: nat, z: nat)
    requires s <= z <= |norm| && (forall k :: s <= k < z ==> norm[k] == 0) && (z < |norm| ==> norm[z] != 0)
    ensures NextNonZero(norm, s) == z
    decreases z - s
  {
    if s < z {
      NextNonZeroIs(norm, s + 1, z);
    }
  }

  /** Narrows the count field to what is still to be distributed. */
  method Shrink(remaining: nat, t: nat, n: nat) returns (threshold: nat, nbBits: nat)
    requires 1 <= remaining < 2 * t && n >= 1 && t == Pow2(n - 1)
    ensures threshold == Threshold(remaining) && nbBits == HighBit(remaining) + 1 && nbBits <= n
  {
    hide Pow2, HighBit, Threshold;
    threshold, nbBits := t, n;
    while remaining < threshold
      invariant 1 <= nbBits <= n && threshold == Pow2(nbBits - 1) && remaining < 2 * threshold
    {
      ThresholdHalves(remaining, threshold, nbBits - 1);
      nbBits := nbBits - 1;
      threshold := threshold / 2;
    }
    ThresholdIs(remaining, threshold, nbBits);
  }

  /** Stores the last one or two bytes, if there is room for them. */
  method LastBytes(dst: array<byte>, start: nat, out: nat, oend: nat, bitStream: nat, bitCount: nat,
                   ghost written: seq<bool>) returns (r: Result<nat>)
    requires Staged(dst[..], start, out, bitStream, bitCount, written) && bitCount <= 16
    requires start <= dst.Length && oend <= dst.Length
    modifies dst
    ensures r.Ok? ==> start + r.value <= oend && dst[start..start + r.value] == Pack(written)
    ensures r.Err? ==> r.error == DstSizeTooSmall && oend < start + |written| / 8 + 2
    ensures forall k :: 0 <= k < start || oend <= k < dst.Length ==> dst[k] == old(dst[k])
  {
    hide Value, BytesToBits, Pack;
    if out > oend - 2 {
      return Err(DstSizeTooSmall);
    }
    var last: seq<byte> := [bitStream % 256, bitStream / 256 % 256];
    StagedPack(dst[..], start, out, bitStream, bitCount, written, last);
    ghost var before := dst[start..out];
    dst[out] := last[0];
    dst[out + 1] := last[1];
    var n := (bitCount + 7) / 8;
    assert dst[start..out + n] == before + last[..n];
    r := Ok(out + n - start);
  }
}
