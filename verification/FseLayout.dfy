/** The loops that lay symbols out over a table, as both table builders contain them. */
module FseLayout {
  import opened Bits
  import opened FseSpread
  import opened Memory

  // ----- laying symbols out -----

  const SV_ADD := 0x0101_0101_0101_0101

  lemma SameBytes(s: byte)
    ensures forall i :: 0 <= i < 8 ==> BytesOf(s * SV_ADD, 8)[i] == s
  {
    SameBytesAt(s, 0x01_0101_0101_0101, 7);
    SameBytesAt(s, 0x0101_0101_0101, 6);
    SameBytesAt(s, 0x01_0101_0101, 5);
    SameBytesAt(s, 0x0101_0101, 4);
    SameBytesAt(s, 0x01_0101, 3);
    SameBytesAt(s, 0x0101, 2);
    SameBytesAt(s, 0x01, 1);
    SameBytesAt(s, 0, 0);
  }

  lemma SameBytesAt(s: byte, rest: nat, n: nat)
    ensures BytesOf(s * (256 * rest + 1), n + 1) == [s] + BytesOf(s * rest, n)
  {
    var v := s * (256 * rest + 1);
    assert v == 256 * (s * rest) + s by {
      MulCommutes(s, 256 * rest + 1);
      MulSum(256 * rest, 1, s);
      MulAssoc(256, rest, s);
      MulCommutes(rest, s);
    }
    DivModUnique(v, 256, s * rest, s);
  }

  /** First stage: the symbols in order, eight bytes at a time; writes may run up to 8 bytes past the end. */
  method LayDown(norm: seq<int>, tableLog: nat, spread: array<byte>)
    requires ValidNorm(norm, tableLog) && LowCount(norm, |norm|) == 0
    requires spread.Length == Pow2(tableLog) + 8
    modifies spread
    ensures spread[..Pow2(tableLog)] == Laid(norm, |norm|)
  {
    hide Pow2, BytesOf, Laid, Start, LowCount;
    var pos, sv, s := 0, 0, 0;
    LaidStart(norm);
    while s < |norm|
      invariant 0 <= s <= |norm| && sv == s * SV_ADD
      invariant pos == |Laid(norm, s)| <= Pow2(tableLog)
      invariant spread[..pos] == Laid(norm, s)
    {
      var n := norm[s];
      LaidStep(norm, tableLog, s);
      SameBytes(s);
      WriteLE64(spread, pos, sv);
      var i := 8;
      while i < n
        invariant 8 <= i && spread[..pos] == Laid(norm, s)
        invariant forall k :: pos <= k < pos + i && k < spread.Length ==> spread[k] == s
      {
        WriteLE64(spread, pos + i, sv);
        i := i + 8;
      }
      assert spread[..pos + n] == Laid(norm, s) + Repeat(s, n);
      pos := pos + n;
      sv := sv + SV_ADD;
      s := s + 1;
    }
    LaidAll(norm, tableLog);
  }

  lemma LaidStart(norm: seq<int>)
    ensures Laid(norm, 0) == []
  {
  }

  lemma LaidStep(norm: seq<int>, tableLog: nat, s: nat)
    requires ValidNorm(norm, tableLog) && LowCount(norm, |norm|) == 0 && s < |norm|
    ensures 0 <= norm[s] && |Laid(norm, s)| + norm[s] <= Pow2(tableLog)
    ensures Laid(norm, s + 1) == Laid(norm, s) + Repeat(s, norm[s])
  {
    LowCountMonotone(norm, s, |norm|);
    LowCountMonotone(norm, s + 1, |norm|);
    StartSplit(norm, s + 1);
    StartMonotone(norm, s + 1, |norm|);
  }

  lemma LaidAll(norm: seq<int>, tableLog: nat)
    requires ValidNorm(norm, tableLog)
    ensures |Laid(norm, |norm|)| + LowCount(norm, |norm|) == Pow2(tableLog)
  {
    StartSplit(norm, |norm|);
  }

  /** Second stage: two cells of the walk per round. */
  method SpreadTwoByTwo(tableLog: nat, spread: array<byte>, table: array<byte>)
    requires tableLog >= MIN_TABLELOG
    requires table != spread && table.Length == Pow2(tableLog) <= spread.Length
    modifies table
    ensures forall i :: 0 <= i < Pow2(tableLog) ==> table[Orbit(tableLog, i)] == spread[i]
  {
    hide Pow2, Orbit, Step;
    var tableSize := Pow2(tableLog);
    var step := Step(tableSize);
    var position, s := 0, 0;
    ghost var half := EvenSize(tableLog);
    ghost var k := 0;
    OrbitStart(tableLog);
    while s < tableSize
      invariant s == 2 * k && 0 <= k <= half
      invariant position == Orbit(tableLog, s)
      invariant forall i :: 0 <= i < s ==> table[Orbit(tableLog, i)] == spread[i]
    {
      for u := 0 to 2
        invariant forall i :: 0 <= i < s + u ==> table[Orbit(tableLog, i)] == spread[i]
      {
        var uPosition := (position + u * step) % tableSize;
        OrbitAt(tableLog, s, u);
        OrbitFresh(tableLog, s + u);
        table[uPosition] := spread[s + u];
      }
      position := (position + 2 * step) % tableSize;
      OrbitTwoSteps(tableLog, s);
      s := s + 2;
      k := k + 1;
    }
    OrbitReturns(tableLog);
    assert position == 0;
  }

  lemma EvenSize(tableLog: nat) returns (half: nat)
    requires tableLog > 0
    ensures Pow2(tableLog) == 2 * half
  {
    half := Pow2(tableLog - 1);
  }

  lemma OrbitFresh(tableLog: nat, i: nat)
    requires tableLog >= MIN_TABLELOG && i < Pow2(tableLog)
    ensures forall k :: 0 <= k < i ==> Orbit(tableLog, k) != Orbit(tableLog, i)
  {
    forall k | 0 <= k < i
      ensures Orbit(tableLog, k) != Orbit(tableLog, i)
    {
      OrbitInjective(tableLog, k, i);
    }
  }

  lemma OrbitStart(tableLog: nat)
    ensures Orbit(tableLog, 0) == 0
  {
  }

  lemma OrbitAt(tableLog: nat, s: nat, u: nat)
    requires u < 2
    ensures (Orbit(tableLog, s) + u * Step(Pow2(tableLog))) % Pow2(tableLog) == Orbit(tableLog, s + u)
  {
    hide Pow2, Step;
    if u == 0 {
      DivModUnique(Orbit(tableLog, s), Pow2(tableLog), 0, Orbit(tableLog, s));
    }
  }

  /** Without low-probability symbols the walk visits every cell. */
  lemma {:induction false} FullWalk(tableLog: nat, i: nat)
    ensures var v := Visits(tableLog, Pow2(tableLog) - 1, i);
            |v| == i && forall r :: 0 <= r < i ==> v[r] == Orbit(tableLog, r)
  {
    hide Orbit;
    if i > 0 {
      FullWalk(tableLog, i - 1);
    }
  }

  lemma FreshCell(tableLog: nat, high: int, i: nat)
    requires tableLog >= MIN_TABLELOG && i < Pow2(tableLog)
    ensures Orbit(tableLog, i) !in Visits(tableLog, high, i)
  {
    hide Orbit;
    var v := Visits(tableLog, high, i);
    forall r | 0 <= r < |v|
      ensures v[r] != Orbit(tableLog, i)
    {
      var k := VisitStep(tableLog, high, i, r);
      OrbitInjective(tableLog, k, i);
    }
  }

  /** Fewer visits than there are cells to visit: the walk is not over. */
  lemma WalkGoesOn(tableLog: nat, high: int, i: nat)
    requires tableLog >= MIN_TABLELOG && -1 <= high < Pow2(tableLog) && i <= Pow2(tableLog)
    requires |Visits(tableLog, high, i)| < high + 1
    ensures i < Pow2(tableLog)
  {
    VisitsPermute(tableLog, high);
  }

  lemma WalkDone(tableLog: nat, high: int, i: nat)
    requires tableLog >= MIN_TABLELOG && 0 <= high < Pow2(tableLog) && i <= Pow2(tableLog)
    requires |Visits(tableLog, high, i)| == high + 1 && Orbit(tableLog, i) <= high
    ensures i == Pow2(tableLog) && Orbit(tableLog, i) == 0
  {
    VisitsPermute(tableLog, high);
    if i < Pow2(tableLog) {
      VisitsGrow(tableLog, high, i + 1, Pow2(tableLog));
    }
    OrbitReturns(tableLog);
  }

  lemma LaidNext(norm: seq<int>, s: nat)
    requires s < |norm|
    ensures |Laid(norm, s + 1)| == |Laid(norm, s)| + Max(norm[s], 0)
  {
  }

  /** i steps of the walk are done, r symbols are placed, and the walk stands at `position`. */
  ghost predicate Walking(norm: seq<int>, tableLog: nat, t: seq<nat>, i: nat, r: nat, position: nat)
  {
    && |t| == Pow2(tableLog) && i <= |t| && position == Orbit(tableLog, i)
    && |Visits(tableLog, High(norm, tableLog), i)| == r
    && WalkFilled(norm, tableLog, t, i)
  }

  /** The direct spread: one cell at a time, stepping over the low-probability area. */
  method SpreadSkipping(norm: seq<int>, tableLog: nat, table: array<byte>, highThreshold: int)
    returns (position: nat)
    requires ValidNorm(norm, tableLog) && -1 <= highThreshold == High(norm, tableLog)
    requires table.Length == Pow2(tableLog)
    modifies table
    ensures WalkFilled(norm, tableLog, table[..], Pow2(tableLog))
    ensures forall u :: highThreshold < u < table.Length ==> table[u] == old(table[u])
    ensures position == 0
  {
    hide Pow2, Orbit, Step, Visits, Laid, Start, LowCount, High, Walking, WalkFilled;
    var tableSize := Pow2(tableLog);
    var step := Step(tableSize);
    var symbol := 0;
    position := 0;
    ghost var i := 0;
    WalkStarts(norm, tableLog, table[..]);
    while symbol < |norm|
      invariant 0 <= symbol <= |norm|
      invariant Walking(norm, tableLog, table[..], i, |Laid(norm, symbol)|, position)
      invariant position <= highThreshold || |Laid(norm, symbol)| == i == 0
      invariant forall u :: highThreshold < u < table.Length ==> table[u] == old(table[u])
    {
      var freq := norm[symbol];
      var nbOccurrences := 0;
      while nbOccurrences < freq
        invariant 0 <= nbOccurrences <= Max(freq, 0)
        invariant Walking(norm, tableLog, table[..], i, |Laid(norm, symbol)| + nbOccurrences, position)
        invariant position <= highThreshold || |Laid(norm, symbol)| + nbOccurrences == i == 0
        invariant forall u :: highThreshold < u < table.Length ==> table[u] == old(table[u])
      {
        WalkStep(norm, tableLog, table[..], i, symbol, nbOccurrences, position);
        ghost var before: seq<nat> := table[..];
        table[position] := symbol;
        assert table[..] == before[position := symbol];
        i := i + 1;
        position := (position + step) % tableSize;
        while position > highThreshold
          invariant i <= tableSize
          invariant Walking(norm, tableLog, table[..], i, |Laid(norm, symbol)| + nbOccurrences + 1, position)
          invariant forall u :: highThreshold < u < table.Length ==> table[u] == old(table[u])
          decreases tableSize - i
        {
          WalkSkip(norm, tableLog, table[..], i, |Laid(norm, symbol)| + nbOccurrences + 1, position);
          i := i + 1;
          position := (position + step) % tableSize;
        }
        nbOccurrences := nbOccurrences + 1;
      }
      LaidNext(norm, symbol);
      symbol := symbol + 1;
    }
    WalkEnds(norm, tableLog, table[..], i, position);
  }

  lemma WalkStarts(norm: seq<int>, tableLog: nat, t: seq<nat>)
    requires ValidNorm(norm, tableLog) && |t| == Pow2(tableLog)
    ensures Walking(norm, tableLog, t, 0, 0, 0) && Laid(norm, 0) == []
    ensures High(norm, tableLog) + 1 == |Laid(norm, |norm|)|
  {
    HighFits(norm, tableLog);
  }

  /** Placing the next symbol at the current position; the walk cannot be over yet. */
  lemma WalkStep(norm: seq<int>, tableLog: nat, t: seq<nat>, i: nat, symbol: nat, k: nat, position: nat)
    requires ValidNorm(norm, tableLog) && symbol < |norm| && k < norm[symbol]
    requires Walking(norm, tableLog, t, i, |Laid(norm, symbol)| + k, position)
    requires position <= High(norm, tableLog) || i == 0
    ensures i < |t| == Pow2(tableLog) && position <= High(norm, tableLog) && position < |t|
    ensures Walking(norm, tableLog, t[position := symbol], i + 1, |Laid(norm, symbol)| + k + 1,
                    (position + Step(Pow2(tableLog))) % Pow2(tableLog))
  {
    hide Pow2, Step, Laid, High, Start, LowCount;
    var high := High(norm, tableLog);
    HighFits(norm, tableLog);
    LaidAt(norm, symbol, |Laid(norm, symbol)| + k);
    WalkGoesOn(tableLog, high, i);
    FreshCell(tableLog, high, i);
    var v := Visits(tableLog, high, i);
    assert Visits(tableLog, high, i + 1) == v + [position];
    assert Orbit(tableLog, i + 1) == (position + Step(Pow2(tableLog))) % Pow2(tableLog);
    hide Visits, Orbit;
  }

  lemma WalkSkip(norm: seq<int>, tableLog: nat, t: seq<nat>, i: nat, r: nat, position: nat)
    requires ValidNorm(norm, tableLog) && r > 0
    requires Walking(norm, tableLog, t, i, r, position) && position > High(norm, tableLog)
    ensures i < Pow2(tableLog)
    ensures Walking(norm, tableLog, t, i + 1, r, (position + Step(Pow2(tableLog))) % Pow2(tableLog))
  {
    hide Pow2, Step, Laid, High, Start, LowCount;
    HighFits(norm, tableLog);
    OrbitReturns(tableLog);
    if i == Pow2(tableLog) {
      VisitsPermute(tableLog, High(norm, tableLog));
    }
  }

  lemma WalkEnds(norm: seq<int>, tableLog: nat, t: seq<nat>, i: nat, position: nat)
    requires ValidNorm(norm, tableLog)
    requires Walking(norm, tableLog, t, i, |Laid(norm, |norm|)|, position)
    requires position <= High(norm, tableLog) || |Laid(norm, |norm|)| == i == 0
    ensures WalkFilled(norm, tableLog, t, Pow2(tableLog)) && position == 0
  {
    hide Pow2, Laid, High, Start, LowCount, Visits;
    var high := High(norm, tableLog);
    HighFits(norm, tableLog);
    if high >= 0 {
      WalkDone(tableLog, high, i);
    } else {
      VisitsPermute(tableLog, high);
    }
  }

  /** Low-probability symbols above, the walk below: with or without a low-probability area. */
  method SpreadSymbols(norm: seq<int>, tableLog: nat, table: array<byte>, highThreshold: int)
    requires ValidNorm(norm, tableLog) && highThreshold == High(norm, tableLog)
    requires table.Length == Pow2(tableLog) && LowAreaFilled(norm, tableLog, table[..], |norm|)
    modifies table
    ensures IsSpread(norm, tableLog, table[..])
  {
    hide Pow2, Orbit, Step, Visits, Laid, Start, LowCount, WalkFilled;
    var tableSize := Pow2(tableLog);
    ghost var before: seq<nat> := table[..];
    HighFits(norm, tableLog);
    if highThreshold == tableSize - 1 {
      var spread := new byte[tableSize + 8];
      LayDown(norm, tableLog, spread);
      SpreadTwoByTwo(tableLog, spread, table);
      FullWalkFilled(norm, tableLog, spread[..], table[..]);
      NoLowArea(norm, tableLog, before, table[..]);
    } else {
      var position := SpreadSkipping(norm, tableLog, table, highThreshold);
      assert position == 0;
      LowAreaKept(norm, tableLog, before, table[..]);
    }
  }

  lemma FullWalkFilled(norm: seq<int>, tableLog: nat, spread: seq<nat>, t: seq<nat>)
    requires ValidNorm(norm, tableLog) && High(norm, tableLog) == Pow2(tableLog) - 1
    requires |t| == Pow2(tableLog) <= |spread| && spread[..|t|] == Laid(norm, |norm|)
    requires forall i :: 0 <= i < |t| ==> t[Orbit(tableLog, i)] == spread[i]
    ensures WalkFilled(norm, tableLog, t, Pow2(tableLog))
  {
    hide Orbit, Laid, Visits, Start, LowCount, Pow2;
    FullWalk(tableLog, |t|);
  }

  lemma NoLowArea(norm: seq<int>, tableLog: nat, before: seq<nat>, t: seq<nat>)
    requires |before| == |t| == Pow2(tableLog) && LowCount(norm, |norm|) == 0
    ensures LowAreaFilled(norm, tableLog, t, |norm|)
  {
    hide LowCount, Pow2;
    forall k | 0 <= k < |norm|
      ensures norm[k] != -1
    {
      LowCountMonotone(norm, k, |norm|);
    }
  }

  lemma LowAreaKept(norm: seq<int>, tableLog: nat, before: seq<nat>, t: seq<nat>)
    requires |before| == |t| == Pow2(tableLog) && LowAreaFilled(norm, tableLog, before, |norm|)
    requires forall u :: High(norm, tableLog) < u < |t| && 0 <= u ==> t[u] == before[u]
    ensures LowAreaFilled(norm, tableLog, t, |norm|)
  {
    hide LowCount, Pow2;
    forall k | 0 <= k < |norm| && norm[k] == -1
      ensures |t| - 1 - LowCount(norm, k) > High(norm, tableLog)
    {
      LowCountMonotone(norm, k, |norm|);
    }
  }
}
