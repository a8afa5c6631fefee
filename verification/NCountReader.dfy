/** FSE_readNCount_body: parses a table description through a 32-bit window on the source. */
module NCountReader {
  import opened Bits
  import opened Wrappers
  import opened Bitstream
  import opened FseSpread
  import opened NCountFormat

  const TABLELOG_ABSOLUTE_MAX := 15

  datatype NCount = NCount(size: nat, tableLog: nat, maxSymbolValue: nat)

  /** src starts with the description of norm; anything may follow. */
  ghost predicate IsHeader(src: seq<byte>, norm: seq<int>, tableLog: nat)
  {
    && ValidNorm(norm, tableLog) && norm[|norm| - 1] != 0
    && Header(norm, tableLog) <= BytesToBits(src)
  }

  /** At bit `pos` the header continues with the description from symbol charnum on. */
  ghost predicate Reading(src: seq<byte>, norm: seq<int>, tableLog: nat, charnum: nat, remaining: int, previous0: bool,
                          pos: nat)
  {
    && IsHeader(src, norm, tableLog) && charnum <= |norm| && pos <= |Header(norm, tableLog)|
    && Header(norm, tableLog)[pos..] == Body(norm, charnum, remaining, previous0)
    && remaining == Pow2(tableLog) + 1 - Start(norm, charnum)
  }

  /** At bit `pos` the header continues with the rest of a run of zeros. */
  ghost predicate InRun(src: seq<byte>, norm: seq<int>, tableLog: nat, charnum: nat, remaining: int, pos: nat)
  {
    && IsHeader(src, norm, tableLog) && charnum < |norm| && pos <= |Header(norm, tableLog)|
    && var z := NextNonZero(norm, charnum);
    && z < |norm|
    && Header(norm, tableLog)[pos..] == RunBits(z - charnum) + Body(norm, z, remaining, false)
    && remaining == Pow2(tableLog) + 1 - Start(norm, charnum)
  }

  /** bitStream holds the source from bit 8 * ip + bitCount to the end of the 32-bit word at ip. */
  ghost predicate Window(src: seq<byte>, ip: nat, bitCount: nat, bitStream: nat)
  {
    && ip + 4 <= |src| && bitCount < 32
    && (bitCount < 8 || ip + 4 == |src|)
    && bitStream == Shr(LittleEndian(src[ip..ip + 4]), bitCount)
  }

  lemma WindowBits(src: seq<byte>, ip: nat, bitCount: nat, bitStream: nat)
    requires Window(src, ip, bitCount, bitStream)
    ensures 8 * ip + 32 <= |BytesToBits(src)|
    ensures bitStream == Value(BytesToBits(src)[8 * ip + bitCount..8 * ip + 32])
    ensures bitStream < Pow2(32 - bitCount)
  {
    hide BytesToBits, Value, LittleEndian, Shr, Pow2;
    var w := src[ip..ip + 4];
    LittleEndianValue(w);
    BytesToBitsSlice(src, ip, ip + 4);
    ValueSplit(BytesToBits(w), bitCount);
    var all := BytesToBits(src);
    assert all[8 * ip..8 * ip + 32][bitCount..] == all[8 * ip + bitCount..8 * ip + 32];
    ValueBound(BytesToBits(w)[bitCount..]);
  }

  /** What the window shows of the rest of the header. */
  lemma WindowShows(src: seq<byte>, ip: nat, bitCount: nat, bitStream: nat, header: seq<bool>)
    returns (window: seq<bool>, rest: seq<bool>)
    requires Window(src, ip, bitCount, bitStream) && header <= BytesToBits(src) && 8 * ip + bitCount <= |header|
    ensures bitStream == Value(window) && |window| == 32 - bitCount
    ensures var all := header[8 * ip + bitCount..] + rest;
            |window| <= |all| && window == all[..|window|]
    ensures |window| >= 25 || |header| - (8 * ip + bitCount) <= |window|
  {
    hide BytesToBits, Value, LittleEndian, Shr, Pow2;
    WindowBits(src, ip, bitCount, bitStream);
    var all, pos := BytesToBits(src), 8 * ip + bitCount;
    window := all[pos..8 * ip + 32];
    rest := all[|header|..];
    HeaderSplit(all, header, pos);
    assert |all| == 8 * |src|;
  }

  lemma HeaderSplit<T>(all: seq<T>, header: seq<T>, pos: nat)
    requires header <= all && pos <= |header|
    ensures header[pos..] + all[|header|..] == all[pos..]
  {
  }

  // ----- repositioning -----

  /** Moves the window to bit 8 * ip + bitCount; near the end it stays on the last four bytes. */
  method Advance(src: seq<byte>, ip: nat, bitCount: nat) returns (ip': nat, bitCount': nat, bitStream: nat)
    requires ip + 4 <= |src| && (ip + 7 <= |src| ==> bitCount < 32)
    ensures Window(src, ip', bitCount', bitStream)
    ensures 8 * ip + bitCount < 8 * |src| ==> 8 * ip' + bitCount' == 8 * ip + bitCount
  {
    hide LittleEndian, Shr;
    var iend := |src|;
    if ip <= iend - 7 || ip + bitCount / 8 <= iend - 4 {
      ip', bitCount' := ip + bitCount / 8, bitCount % 8;
    } else {
      bitCount' := (bitCount - 8 * (iend - 4 - ip)) % 32;
      ip' := iend - 4;
    }
    bitStream := Shr(LittleEndian(src[ip'..ip' + 4]), bitCount');
  }

  // ----- runs of zeros -----

  lemma {:induction false} TrailingBound(x: nat, n: nat)
    ensures Pow2(TrailingOnes(x, n)) <= x + 1
  {
    if n > 0 && x % 2 == 1 {
      TrailingBound(x / 2, n - 1);
    }
  }

  /** Twelve repeats need 24 one bits: near the end of the source this cannot go on. */
  lemma TwelveRepeats(bitStream: nat, bitCount: nat)
    requires bitCount < 32 && bitStream < Pow2(32 - bitCount) && Repeats(bitStream) >= 12
    ensures bitCount <= 8
  {
    TrailingBound(bitStream, 31);
    Pow2Mono(24, TrailingOnes(bitStream, 31));
    Pow2Mono(Min(32 - bitCount, 23), 23);
    Pow2Strict(23, 24);
    hide Pow2, TrailingOnes;
  }

  function EndRank(bitCount: nat): nat
  {
    if bitCount > 8 then 0 else if bitCount < 8 then 1 else 2
  }

  /** The number of further 11 pairs, as the window shows them. */
  function Repeats(bitStream: nat): nat
  {
    TrailingOnes(bitStream, 31) / 2
  }

  function RunEnd(norm: seq<int>, s: nat): nat
  {
    if s <= |norm| then NextNonZero(norm, s) else s
  }

  lemma RunStep(src: seq<byte>, norm: seq<int>, tableLog: nat, charnum: nat, remaining: int, ip: nat, bitCount: nat,
                bitStream: nat)
    requires InRun(src, norm, tableLog, charnum, remaining, 8 * ip + bitCount)
    requires Window(src, ip, bitCount, bitStream)
    ensures Repeats(bitStream) >= 12 ==>
              && InRun(src, norm, tableLog, charnum + 36, remaining, 8 * ip + bitCount + 24)
              && 8 * ip + bitCount + 24 < 8 * |src|
              && RunEnd(norm, charnum + 36) == RunEnd(norm, charnum)
    ensures Repeats(bitStream) < 12 ==>
              && Low(Shr(bitStream, 2 * Repeats(bitStream)), 2) < 3
              && Reading(src, norm, tableLog,
                         charnum + 3 * Repeats(bitStream) + Low(Shr(bitStream, 2 * Repeats(bitStream)), 2),
                         remaining, false, 8 * ip + bitCount + 2 * Repeats(bitStream) + 2)
              && RunEnd(norm, charnum) ==
                charnum + 3 * Repeats(bitStream) + Low(Shr(bitStream, 2 * Repeats(bitStream)), 2)
  {
    hide BytesToBits, Value, Shr, Low, Pow2, Start, Body, RunBits, TrailingOnes, Window, Header, NextNonZero;
    var header, pos, z := Header(norm, tableLog), 8 * ip + bitCount, NextNonZero(norm, charnum);
    var n, body := z - charnum, Body(norm, z, remaining, false);
    var window, rest := WindowShows(src, ip, bitCount, bitStream, header);
    assert header[pos..] + rest == RunBits(n) + (body + rest);
    RunWindow(n, window, body + rest);
    if Repeats(bitStream) >= 12 {
      RunSplit(n, 12);
      assert |Ones(24)| == 24;
      DropFront(header, pos, Ones(24), RunBits(n - 36) + body);
      NextNonZeroLater(norm, charnum, charnum + 36);
      StartOverZeros(norm, charnum, charnum + 36);
      RunLength(n - 36);
    } else {
      DropFront(header, pos, RunBits(n), body);
      StartOverZeros(norm, charnum, z);
    }
  }

  lemma RunLength(n: nat)
    ensures |RunBits(n)| >= 2
  {
  }

  lemma DropFront<T>(s: seq<T>, pos: nat, a: seq<T>, b: seq<T>)
    requires pos <= |s| && s[pos..] == a + b
    ensures pos + |a| <= |s| && s[pos + |a|..] == b
  {
    assert s[pos..][|a|..] == s[pos + |a|..];
  }

  lemma NextNonZeroLater(norm: seq<int>, s: nat, t: nat)
    requires s <= |norm| && s <= t <= NextNonZero(norm, s)
    ensures NextNonZero(norm, t) == NextNonZero(norm, s)
    decreases t - s
  {
    if s < t {
      NextNonZeroLater(norm, s + 1, t);
    }
  }

  /** The part of the loop for a count that follows a zero: skips the rest of the run. */
  method ReadRun(src: seq<byte>, ip: nat, bitCount: nat, bitStream: nat, charnum: nat,
                 ghost norm: seq<int>, ghost tableLog: nat, ghost remaining: int)
    returns (ip': nat, bitCount': nat, charnum': nat)
    requires Window(src, ip, bitCount, bitStream)
    ensures ip' + 4 <= |src| && charnum <= charnum' && (ip' + 7 <= |src| ==> bitCount' < 32)
    ensures InRun(src, norm, tableLog, charnum, remaining, 8 * ip + bitCount) ==>
              && Reading(src, norm, tableLog, charnum', remaining, false, 8 * ip' + bitCount')
              && charnum' == RunEnd(norm, charnum)
  {
    hide BytesToBits, Value, Shr, Low, Pow2, TrailingOnes, InRun, Reading, LittleEndian, RunEnd, Repeats;
    ghost var running := InRun(src, norm, tableLog, charnum, remaining, 8 * ip + bitCount);
    ghost var z := RunEnd(norm, charnum);
    var stream := bitStream;
    ip', bitCount', charnum' := ip, bitCount, charnum;
    var iend := |src|;
    var repeats := Repeats(stream);
    while repeats >= 12
      invariant Window(src, ip', bitCount', stream) && charnum <= charnum' && repeats == Repeats(stream)
      invariant running ==> InRun(src, norm, tableLog, charnum', remaining, 8 * ip' + bitCount')
      invariant running ==> RunEnd(norm, charnum') == z
      decreases iend - ip', EndRank(bitCount')
    {
      WindowBits(src, ip', bitCount', stream);
      TwelveRepeats(stream, bitCount');
      if running {
        RunStep(src, norm, tableLog, charnum', remaining, ip', bitCount', stream);
      }
      charnum' := charnum' + 3 * 12;
      if ip' <= iend - 7 {
        ip' := ip' + 3;
      } else {
        bitCount' := (bitCount' - 8 * (iend - 7 - ip')) % 32;
        ip' := iend - 4;
      }
      stream := Shr(LittleEndian(src[ip'..ip' + 4]), bitCount');
      repeats := Repeats(stream);
    }
    if running {
      RunStep(src, norm, tableLog, charnum', remaining, ip', bitCount', stream);
    }
    LowBound(Shr(stream, 2 * repeats), 2);
    charnum' := charnum' + 3 * repeats;
    stream := Shr(stream, 2 * repeats);
    bitCount' := bitCount' + 2 * repeats;
    charnum' := charnum' + Low(stream, 2);
    bitCount' := bitCount' + 2;
  }

  // ----- counts -----

  /** The counts below charnum are set, the others are zero, and remaining - 1 points are left. */
  ghost predicate Counted(c: seq<int>, charnum: nat, remaining: int, tableLog: nat)
  {
    && charnum <= |c| && (forall k :: 0 <= k < |c| ==> c[k] >= -1)
    && (forall k :: charnum <= k < |c| ==> c[k] == 0)
    && Start(c, charnum) + remaining == Pow2(tableLog) + 1
  }

  lemma CountedSkip(c: seq<int>, charnum: nat, charnum': nat, remaining: int, tableLog: nat)
    requires Counted(c, charnum, remaining, tableLog) && charnum <= charnum' <= |c|
    ensures Counted(c, charnum', remaining, tableLog)
  {
    StartOverZeros(c, charnum, charnum');
  }

  lemma CountedPut(c: seq<int>, charnum: nat, remaining: int, tableLog: nat, count: int)
    requires Counted(c, charnum, remaining, tableLog) && charnum < |c| && count >= -1
    ensures Counted(c[charnum := count], charnum + 1, remaining - Abs(count), tableLog)
  {
    hide Pow2;
    StartPrefix(c, c[charnum := count], charnum);
  }

  lemma CountedNone(c: seq<int>, tableLog: nat)
    requires forall k :: 0 <= k < |c| ==> c[k] == 0
    ensures Counted(c, 0, Pow2(tableLog) + 1, tableLog)
  {
    hide Pow2;
  }

  /** One count of the header. */
  lemma ReadingStep(src: seq<byte>, norm: seq<int>, tableLog: nat, charnum: nat, remaining: int,
                    ip: nat, bitCount: nat, bitStream: nat)
    requires remaining >= 2 && Reading(src, norm, tableLog, charnum, remaining, false, 8 * ip + bitCount)
    requires Window(src, ip, bitCount, bitStream)
    ensures charnum < |norm|
    ensures var f := ReadField(bitStream, remaining);
            && norm[charnum] == f.0 - 1
            && Reading(src, norm, tableLog, charnum + 1, remaining - Abs(f.0 - 1), f.0 == 1, 8 * ip + bitCount + f.1)
  {
    hide BytesToBits, Value, Pow2, RunBits, Window, Header, NextNonZero, CountBits, ReadField, Threshold, ShortBound;
    PointsRemain(norm, tableLog, charnum, remaining);
    RemainingBound(tableLog);
    var header, pos := Header(norm, tableLog), 8 * ip + bitCount;
    var value := norm[charnum] + 1;
    var body := Body(norm, charnum + 1, remaining - Abs(norm[charnum]), norm[charnum] == 0);
    assert header[pos..] == CountBits(value, remaining) + body;
    StartStep(norm, charnum);
    hide Body, Start;
    FieldFromWindow(src, header, value, remaining, body, ip, bitCount, bitStream);
    DropFront(header, pos, CountBits(value, remaining), body);
  }

  lemma PointsRemain(norm: seq<int>, tableLog: nat, s: nat, remaining: int)
    requires ValidNorm(norm, tableLog) && s <= |norm| && remaining == Pow2(tableLog) + 1 - Start(norm, s)
    requires remaining >= 2
    ensures s < |norm| && norm[s] + 1 <= remaining
  {
    hide Pow2;
    if s < |norm| {
      StartMonotone(norm, s + 1, |norm|);
      StartStep(norm, s);
    }
  }

  lemma RemainingBound(tableLog: nat)
    requires tableLog <= MAX_TABLELOG
    ensures Pow2(tableLog) + 1 <= Pow2(15)
  {
    Pow2Mono(tableLog, 12);
    Pow2Strict(12, 15);
  }

  lemma CountWidth(value: nat, remaining: nat)
    requires 2 <= remaining <= Pow2(15)
    ensures |CountBits(value, remaining)| <= 15 + 1
  {
    Pow2Mono(Min(16, HighBit(remaining)), HighBit(remaining));
    Pow2Strict(15, 16);
  }

  /** The field is inside the window, so it is read off as it was written. */
  lemma FieldFromWindow(src: seq<byte>, header: seq<bool>, value: nat, remaining: nat, body: seq<bool>,
                        ip: nat, bitCount: nat, bitStream: nat)
    requires Window(src, ip, bitCount, bitStream) && header <= BytesToBits(src) && 8 * ip + bitCount <= |header|
    requires 2 <= remaining <= Pow2(15) && value <= remaining
    requires header[8 * ip + bitCount..] == CountBits(value, remaining) + body
    ensures ReadField(bitStream, remaining) == (value, |CountBits(value, remaining)|)
  {
    hide BytesToBits, Value, Pow2, Window, CountBits, ReadField;
    var field := CountBits(value, remaining);
    CountWidth(value, remaining);
    var window, rest := WindowShows(src, ip, bitCount, bitStream, header);
    assert header[8 * ip + bitCount..] + rest == field + (body + rest);
    assert window == field + window[|field|..];
    ReadFieldInverse(value, remaining, window[|field|..]);
  }

  lemma ReadingStart(src: seq<byte>, norm: seq<int>, tableLog: nat, bitStream: nat)
    requires IsHeader(src, norm, tableLog) && Window(src, 0, 0, bitStream)
    ensures Low(bitStream, 4) == tableLog - MIN_TABLELOG
    ensures Reading(src, norm, tableLog, 0, Pow2(tableLog) + 1, false, 4)
  {
    hide BytesToBits, Value, Pow2, Body, Window, BitsOf, Start;
    var field, body := BitsOf(tableLog - MIN_TABLELOG, 4), Body(norm, 0, Pow2(tableLog) + 1, false);
    var header := Header(norm, tableLog);
    assert header == field + body;
    var window, rest := WindowShows(src, 0, 0, bitStream, header);
    assert header[0..] + rest == header + rest;
    assert window[..4] == field;
    ValueSplit(window, 4);
    ValueOfBits(tableLog - MIN_TABLELOG, 4);
    assert tableLog - MIN_TABLELOG < Pow2(4) by { Pow2Values(); }
    LowSmall(tableLog - MIN_TABLELOG, 4);
    StartZero(norm);
  }

  lemma ReadingRun(src: seq<byte>, norm: seq<int>, tableLog: nat, charnum: nat, remaining: int, pos: nat)
    requires Reading(src, norm, tableLog, charnum, remaining, true, pos) && remaining >= 2
    ensures InRun(src, norm, tableLog, charnum, remaining, pos) && RunEnd(norm, charnum) < |norm|
    ensures forall k :: charnum <= k < RunEnd(norm, charnum) ==> norm[k] == 0
  {
    hide BytesToBits, Pow2, Header, RunBits;
    PointsRemain(norm, tableLog, charnum, remaining);
    StartOverZeros(norm, charnum, NextNonZero(norm, charnum));
  }

  /** When no point is left the last symbol has been read and the header is exhausted. */
  lemma ReadingEnd(src: seq<byte>, norm: seq<int>, tableLog: nat, charnum: nat, previous0: bool, pos: nat)
    requires Reading(src, norm, tableLog, charnum, 1, previous0, pos)
    ensures charnum == |norm| && pos == |Header(norm, tableLog)|
  {
    hide BytesToBits, Pow2, Header, RunBits;
    if charnum < |norm| {
      StartMonotone(norm, charnum, |norm| - 1);
      StartStep(norm, |norm| - 1);
    }
  }

  lemma InHeader(src: seq<byte>, norm: seq<int>, tableLog: nat, charnum: nat, remaining: int, previous0: bool, pos: nat)
    requires Reading(src, norm, tableLog, charnum, remaining, previous0, pos) && remaining >= 2
    ensures pos < 8 * |src|
  {
    hide BytesToBits, Pow2, Header;
    PointsRemain(norm, tableLog, charnum, remaining);
    assert |BytesToBits(src)| == 8 * |src|;
    BodyNotEmpty(norm, tableLog, charnum, remaining, previous0);
  }

  lemma BodyNotEmpty(norm: seq<int>, tableLog: nat, s: nat, remaining: int, previousIs0: bool)
    requires ValidNorm(norm, tableLog) && s < |norm| && remaining >= 2
    requires remaining == Pow2(tableLog) + 1 - Start(norm, s)
    ensures |Body(norm, s, remaining, previousIs0)| > 0
  {
    hide Pow2, Start;
    if previousIs0 {
      StartOverZeros(norm, s, NextNonZero(norm, s));
      RunLength(NextNonZero(norm, s) - s);
    } else {
      FieldNotEmpty(norm[s] + 1, remaining);
    }
  }

  lemma FieldNotEmpty(value: nat, remaining: nat)
    requires remaining >= 2
    ensures |CountBits(value, remaining)| > 0
  {
    Pow2Values();
  }

  /** What a successful parse promises about any source at all. */
  ghost predicate WellFormed(n: NCount, counts: seq<int>, srcSize: nat)
  {
    && n.size <= srcSize && MIN_TABLELOG <= n.tableLog <= TABLELOG_ABSOLUTE_MAX
    && n.maxSymbolValue < |counts| && (forall k :: 0 <= k < |counts| ==> counts[k] >= -1)
    && Start(counts, n.maxSymbolValue + 1) == Pow2(n.tableLog)
  }

  /** counts is norm followed by zeros. */
  ghost predicate Extends(counts: seq<int>, norm: seq<int>)
  {
    norm <= counts && forall k :: |norm| <= k < |counts| ==> counts[k] == 0
  }

  /** What must be true after each count, whatever the source is, and when it is a header. */
  ghost predicate Progress(src: seq<byte>, norm: seq<int>, tableLog: nat, counts: seq<int>, log: nat,
                           charnum: nat, remaining: int, previous0: bool, pos: nat)
  {
    && Counted(counts, charnum, remaining, log)
    && (IsHeader(src, norm, tableLog) && |norm| <= |counts| ==>
          && log == tableLog && Reading(src, norm, tableLog, charnum, remaining, previous0, pos)
          && counts[..charnum] == norm[..charnum])
  }

  lemma ProgressStart(src: seq<byte>, norm: seq<int>, tableLog: nat, counts: seq<int>, word: nat)
    requires |src| >= 8 && word == LittleEndian(src[0..4]) && forall k :: 0 <= k < |counts| ==> counts[k] == 0
    ensures var log := Low(word, 4) + MIN_TABLELOG;
            && (log > TABLELOG_ABSOLUTE_MAX ==> !IsHeader(src, norm, tableLog))
            && Progress(src, norm, tableLog, counts, log, 0, Pow2(log) + 1, false, 4)
            && Window(src, 0, 4, Shr(word, 4)) 
  {
    hide BytesToBits, Value, Low, Pow2, Start, Body, Header, Reading, LittleEndian, Counted;
    assert Shr(word, 0) == word;
    CountedNone(counts, Low(word, 4) + MIN_TABLELOG);
    hide Shr;
    if IsHeader(src, norm, tableLog) {
      ReadingStart(src, norm, tableLog, word);
    }
  }

  lemma ProgressRun(src: seq<byte>, norm: seq<int>, tableLog: nat, counts: seq<int>, log: nat,
                    charnum: nat, remaining: int, pos: nat)
    requires Progress(src, norm, tableLog, counts, log, charnum, remaining, true, pos) && remaining >= 2
    ensures IsHeader(src, norm, tableLog) && |norm| <= |counts| ==>
              InRun(src, norm, tableLog, charnum, remaining, pos) && RunEnd(norm, charnum) < |norm|
  {
    hide BytesToBits, Pow2, Start, Body, Header, InRun, RunEnd, Counted;
    if IsHeader(src, norm, tableLog) && |norm| <= |counts| {
      ReadingRun(src, norm, tableLog, charnum, remaining, pos);
    }
  }

  lemma ProgressAfterRun(src: seq<byte>, norm: seq<int>, tableLog: nat, counts: seq<int>, log: nat,
                         charnum: nat, charnum': nat, remaining: int, pos: nat, pos': nat)
    requires Progress(src, norm, tableLog, counts, log, charnum, remaining, true, pos) && remaining >= 2
    requires charnum <= charnum' < |counts|
    requires InRun(src, norm, tableLog, charnum, remaining, pos) ==>
               Reading(src, norm, tableLog, charnum', remaining, false, pos') && charnum' == RunEnd(norm, charnum)
    ensures Progress(src, norm, tableLog, counts, log, charnum', remaining, false, pos')
  {
    hide BytesToBits, Pow2, Start, Body, Header, InRun;
    CountedSkip(counts, charnum, charnum', remaining, log);
    if IsHeader(src, norm, tableLog) && |norm| <= |counts| {
      ReadingRun(src, norm, tableLog, charnum, remaining, pos);
      assert counts[..charnum'] == norm[..charnum'];
    }
  }

  lemma ProgressCount(src: seq<byte>, norm: seq<int>, tableLog: nat, counts: seq<int>, log: nat,
                      charnum: nat, remaining: int, ip: nat, bitCount: nat, bitStream: nat)
    requires Progress(src, norm, tableLog, counts, log, charnum, remaining, false, 8 * ip + bitCount)
    requires charnum < |counts| && remaining >= 2 && Window(src, ip, bitCount, bitStream)
    ensures var f := ReadField(bitStream, remaining);
            var count: int := f.0 - 1;
            Progress(src, norm, tableLog, counts[charnum := count], log, charnum + 1, remaining - Abs(count),
                     count == 0, 8 * ip + bitCount + f.1)
  {
    hide BytesToBits, Pow2, Start, Body, Header, Window, Counted, Reading, ReadField;
    var f := ReadField(bitStream, remaining);
    var count: int := f.0 - 1;
    CountedPut(counts, charnum, remaining, log, count);
    if IsHeader(src, norm, tableLog) && |norm| <= |counts| {
      ReadingStep(src, norm, tableLog, charnum, remaining, ip, bitCount, bitStream);
      assert counts[charnum := count][..charnum + 1] == counts[..charnum] + [count];
      assert norm[..charnum + 1] == norm[..charnum] + [norm[charnum]];
    }
  }

  lemma ProgressInside(src: seq<byte>, norm: seq<int>, tableLog: nat, counts: seq<int>, log: nat,
                       charnum: nat, remaining: int, previous0: bool, pos: nat)
    requires Progress(src, norm, tableLog, counts, log, charnum, remaining, previous0, pos) && remaining >= 2
    ensures IsHeader(src, norm, tableLog) && |norm| <= |counts| ==> pos < 8 * |src| && charnum < |norm|
  {
    hide BytesToBits, Pow2, Start, Body, Header, Counted, Reading;
    if IsHeader(src, norm, tableLog) && |norm| <= |counts| {
      InHeader(src, norm, tableLog, charnum, remaining, previous0, pos);
      InNorm(src, norm, tableLog, charnum, remaining, previous0, pos);
    }
  }

  lemma InNorm(src: seq<byte>, norm: seq<int>, tableLog: nat, charnum: nat, remaining: int, previous0: bool, pos: nat)
    requires Reading(src, norm, tableLog, charnum, remaining, previous0, pos) && remaining >= 2
    ensures charnum < |norm|
  {
    hide BytesToBits, Pow2, Start, Header;
    PointsRemain(norm, tableLog, charnum, remaining);
  }

  lemma ProgressEnd(src: seq<byte>, norm: seq<int>, tableLog: nat, counts: seq<int>, log: nat, charnum: nat,
                    previous0: bool, pos: nat)
    requires Progress(src, norm, tableLog, counts, log, charnum, 1, previous0, pos) && charnum > 0
    ensures charnum <= |counts| && Start(counts, charnum) == Pow2(log)
    ensures forall k :: 0 <= k < |counts| ==> counts[k] >= -1
    ensures IsHeader(src, norm, tableLog) && |norm| <= |counts| ==>
              && log == tableLog && charnum == |norm| && pos == |Header(norm, tableLog)| <= 8 * |src|
              && Extends(counts, norm)
  {
    hide BytesToBits, Pow2, Start, Body, Header, Reading;
    if IsHeader(src, norm, tableLog) && |norm| <= |counts| {
      ReadingEnd(src, norm, tableLog, charnum, previous0, pos);
      assert |BytesToBits(src)| == 8 * |src|;
      assert counts[..|norm|] == norm;
    }
  }

  /** The window sits at most 7 bits into its word, or on the last word. */
  lemma WindowEdge(src: seq<byte>, ip: nat, bitCount: nat, bitStream: nat)
    requires Window(src, ip, bitCount, bitStream)
    ensures ip + 4 <= |src| && bitCount < 32 && (bitCount < 8 || ip + 4 == |src|)
  {
  }

  lemma Elsewhere(src: seq<byte>, norm: seq<int>, tableLog: nat, counts: seq<int>, log: nat,
                  charnum: nat, remaining: int, previous0: bool, pos: nat, pos': nat)
    requires Progress(src, norm, tableLog, counts, log, charnum, remaining, previous0, pos) && remaining >= 2
    requires pos < 8 * |src| ==> pos' == pos
    ensures Progress(src, norm, tableLog, counts, log, charnum, remaining, previous0, pos')
  {
    hide Counted, Reading, IsHeader;
    ProgressInside(src, norm, tableLog, counts, log, charnum, remaining, previous0, pos);
  }

  lemma ThresholdFalls(remaining: nat, t: nat, nbBits: nat)
    requires nbBits >= 1 && t == Pow2(nbBits - 1) && 2 <= remaining < 2 * t
    ensures HighBit(remaining) + 1 <= nbBits
    ensures Threshold(remaining) == Pow2(HighBit(remaining))
    ensures t <= remaining ==> t == Threshold(remaining) && nbBits == HighBit(remaining) + 1
  {
    Pow2Mono(Min(nbBits, HighBit(remaining)), HighBit(remaining));
    TwiceHalf(nbBits);
    if t <= remaining {
      ThresholdIs(remaining, t, nbBits);
    }
  }

  /** A count: the short field if its value is below the bound, else the long one. */
  method ReadCount(bitStream: nat, remaining: nat, threshold: nat, nbBits: nat) returns (count: nat, width: nat)
    requires remaining >= 2 && threshold == Threshold(remaining) && nbBits == HighBit(remaining) + 1
    ensures (count, width) == ReadField(bitStream, remaining) && width <= nbBits
  {
    hide Low, Pow2, HighBit, Threshold;
    var max := 2 * threshold - 1 - remaining;
    if Low(bitStream, nbBits - 1) < max {
      count := Low(bitStream, nbBits - 1);
      width := nbBits - 1;
    } else {
      count := Low(bitStream, nbBits);
      if count >= threshold {
        count := count - max;
      }
      width := nbBits;
    }
  }

  method Clear(counter: array<int>)
    modifies counter
    ensures forall k :: 0 <= k < counter.Length ==> counter[k] == 0
  {
    for k := 0 to counter.Length
      invariant forall j :: 0 <= j < k ==> counter[j] == 0
    {
      counter[k] := 0;
    }
  }

  /** What follows a zero: the run, and the window on what comes after it, unless the run leaves the alphabet. */
  method SkipRun(src: seq<byte>, ip: nat, bitCount: nat, bitStream: nat, charnum: nat, maxSV1: nat,
                 ghost norm: seq<int>, ghost tableLog: nat, ghost counts: seq<int>, ghost log: nat,
                 ghost remaining: int) returns (ip': nat, bitCount': nat, bitStream': nat, charnum': nat)
    requires Window(src, ip, bitCount, bitStream) && |counts| == maxSV1 && remaining >= 2
    requires Progress(src, norm, tableLog, counts, log, charnum, remaining, true, 8 * ip + bitCount)
    ensures charnum <= charnum'
    ensures charnum' < maxSV1 ==>
              && Window(src, ip', bitCount', bitStream')
              && Progress(src, norm, tableLog, counts, log, charnum', remaining, false, 8 * ip' + bitCount')
    ensures charnum' >= maxSV1 ==> !(IsHeader(src, norm, tableLog) && |norm| <= maxSV1)
  {
    hide BytesToBits, Value, Shr, Low, Pow2, Start, Body, Header, Threshold, HighBit, Reading, InRun, Counted,
      LittleEndian, IsHeader, Progress, Window, RunEnd, ReadField, Extends;
    ProgressRun(src, norm, tableLog, counts, log, charnum, remaining, 8 * ip + bitCount);
    ip', bitCount', charnum' := ReadRun(src, ip, bitCount, bitStream, charnum, norm, tableLog, remaining);
    bitStream' := 0;
    if charnum' < maxSV1 {
      ghost var pos := 8 * ip' + bitCount';
      ProgressAfterRun(src, norm, tableLog, counts, log, charnum, charnum', remaining, 8 * ip + bitCount, pos);
      ProgressInside(src, norm, tableLog, counts, log, charnum', remaining, false, pos);
      ip', bitCount', bitStream' := Advance(src, ip', bitCount');
      Elsewhere(src, norm, tableLog, counts, log, charnum', remaining, false, pos, 8 * ip' + bitCount');
    }
  }

  /** FSE_readNCount_body on at least 8 bytes. */
  method ReadNCount8(counter: array<int>, src: seq<byte>, ghost norm: seq<int>, ghost tableLog: nat)
    returns (r: Result<NCount>)
    requires counter.Length > 0 && |src| >= 8
    modifies counter
    ensures r.Ok? ==> WellFormed(r.value, counter[..], |src|)
    ensures IsHeader(src, norm, tableLog) && |norm| <= counter.Length ==>
              && r == Ok(NCount((|Header(norm, tableLog)| + 7) / 8, tableLog, |norm| - 1))
              && Extends(counter[..], norm)
  {
    hide BytesToBits, Value, Shr, Low, Pow2, Start, Body, Header, Threshold, HighBit, Reading, InRun, Counted,
      LittleEndian, IsHeader, Progress, Window, RunEnd, ReadField, Extends;
    var maxSV1 := counter.Length;
    Clear(counter);
    var ip: nat, bitCount: nat, charnum: nat, previous0 := 0, 4, 0, false;
    var bitStream: nat := LittleEndian(src[0..4]);
    ProgressStart(src, norm, tableLog, counter[..], bitStream);
    var log := Low(bitStream, 4) + MIN_TABLELOG;
    if log > TABLELOG_ABSOLUTE_MAX {
      return Err(TableLogTooLarge);
    }
    bitStream := Shr(bitStream, 4);
    var remaining: int, threshold: nat, nbBits: nat := Pow2(log) + 1, Pow2(log), log + 1;
    InitialThreshold(log);
    ghost var header := IsHeader(src, norm, tableLog) && |norm| <= maxSV1;
    while true
      invariant charnum < maxSV1 && remaining >= 2 && nbBits <= 16
      invariant threshold == Threshold(remaining) && nbBits == HighBit(remaining) + 1
      invariant Window(src, ip, bitCount, bitStream)
      invariant Progress(src, norm, tableLog, counter[..], log, charnum, remaining, previous0, 8 * ip + bitCount)
      decreases maxSV1 - charnum
    {
      if previous0 {
        ip, bitCount, bitStream, charnum := SkipRun(src, ip, bitCount, bitStream, charnum, maxSV1, norm, tableLog,
                                                    counter[..], log, remaining);
        if charnum >= maxSV1 {
          break;
        }
      }
      ProgressCount(src, norm, tableLog, counter[..], log, charnum, remaining, ip, bitCount, bitStream);
      ThresholdForm(remaining);
      ghost var before := counter[..];
      var count: int, width := ReadCount(bitStream, remaining, threshold, nbBits);
      count := count - 1;
      WindowEdge(src, ip, bitCount, bitStream);
      bitCount := bitCount + width;
      counter[charnum] := count;
      assert counter[..] == before[charnum := count];
      if count >= 0 {
        remaining := remaining - count;
      } else {
        remaining := remaining + count;
      }
      previous0 := count == 0;
      charnum := charnum + 1;
      if remaining >= 2 {
        ThresholdFalls(remaining, threshold, nbBits);
      }
      if remaining < threshold {
        if remaining <= 1 {
          break;
        }
        nbBits := HighBit(remaining) + 1;
        threshold := Pow2(nbBits - 1);
      }
      ProgressInside(src, norm, tableLog, counter[..], log, charnum, remaining, previous0, 8 * ip + bitCount);
      if charnum >= maxSV1 {
        break;
      }
      ghost var here := 8 * ip + bitCount;
      ip, bitCount, bitStream := Advance(src, ip, bitCount);
      Elsewhere(src, norm, tableLog, counter[..], log, charnum, remaining, previous0, here, 8 * ip + bitCount);
    }
    if remaining != 1 {
      return Err(Corruption);
    }
    ProgressEnd(src, norm, tableLog, counter[..], log, charnum, previous0, 8 * ip + bitCount);
    if charnum > maxSV1 {
      return Err(MaxSymbolValueTooSmall);
    }
    if bitCount > 32 {
      return Err(Corruption);
    }
    r := Ok(NCount(ip + (bitCount + 7) / 8, log, charnum - 1));
  }

  /** Reading on is unaffected by zero bytes after a short source. */
  lemma HeaderPadded(src: seq<byte>, buffer: seq<byte>, norm: seq<int>, tableLog: nat)
    requires IsHeader(src, norm, tableLog) && src <= buffer
    ensures IsHeader(buffer, norm, tableLog) && (|Header(norm, tableLog)| + 7) / 8 <= |src|
  {
    hide Header, ValidNorm, BytesToBits;
    assert buffer == src + buffer[|src|..];
    BytesToBitsConcat(src, buffer[|src|..]);
    assert |BytesToBits(src)| == 8 * |src|;
  }

  /**
    FSE_readNCount: any source that starts with the description of a distribution yields that
    distribution and the size of its description; and whatever the source, a parse that succeeds
    yields counts that sum to the table size.
   */
  method ReadNCount(counter: array<int>, src: seq<byte>, ghost norm: seq<int>, ghost tableLog: nat)
    returns (r: Result<NCount>)
    requires counter.Length > 0
    modifies counter
    ensures r.Ok? ==> WellFormed(r.value, counter[..], |src|)
    ensures IsHeader(src, norm, tableLog) && |norm| <= counter.Length ==>
              && r == Ok(NCount((|Header(norm, tableLog)| + 7) / 8, tableLog, |norm| - 1))
              && Extends(counter[..], norm)
  {
    hide IsHeader, Header, Start, Pow2, Extends;
    if |src| < 8 {
      var buffer := src + seq(8 - |src|, _ => 0);
      if IsHeader(src, norm, tableLog) {
        HeaderPadded(src, buffer, norm, tableLog);
      }
      r := ReadNCount8(counter, buffer, norm, tableLog);
      if r.Ok? && r.value.size > |src| {
        return Err(Corruption);
      }
    } else {
      r := ReadNCount8(counter, src, norm, tableLog);
    }
  }

  /** What the writer produced is a header, whatever bytes follow it. */
  lemma PackedIsHeader(norm: seq<int>, tableLog: nat, rest: seq<byte>)
    requires ValidNorm(norm, tableLog) && norm[|norm| - 1] != 0
    ensures IsHeader(Pack(Header(norm, tableLog)) + rest, norm, tableLog)
    ensures |Pack(Header(norm, tableLog))| == (|Header(norm, tableLog)| + 7) / 8
  {
    hide Header, BytesToBits, Pack, Pow2, Start;
    PackBits(Header(norm, tableLog));
    BytesToBitsConcat(Pack(Header(norm, tableLog)), rest);
  }
}
