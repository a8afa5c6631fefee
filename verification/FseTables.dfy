/** FSE_buildCTable_wksp and FSE_buildDTable_internal: two tables that undo each other. */
module FseTables {
  import opened Bits
  import opened Counting
  import opened FseSpread
  import opened FseLayout

  /** FSE_symbolCompressionTransform. */
  datatype Transform = Transform(deltaNbBits: nat, deltaFindState: int)

  datatype CTable = CTable(tableLog: nat, maxSymbolValue: nat, stateTable: seq<nat>, symbolTT: seq<Transform>)

  /** FSE_decode_t. */
  datatype DecodeCell = DecodeCell(newState: nat, symbol: byte, nbBits: nat)

  datatype DTable = DTable(tableLog: nat, fastMode: bool, cells: seq<DecodeCell>)

  /** Where the state table lists cell u: cells are grouped by symbol, in table order. */
  function Slot(norm: seq<int>, t: seq<nat>, u: nat): nat
    requires u < |t| && t[u] < |norm|
  {
    Start(norm, t[u]) + Count(t, t[u], u)
  }

  ghost predicate IsTransform(tt: Transform, n: nat, tableLog: nat, start: nat)
    requires n > 0
  {
    if n == 1 then
      tt.deltaNbBits == 65536 * tableLog - Pow2(tableLog) && tt.deltaFindState == start - 1
    else
      var maxBitsOut := tableLog - HighBit(n - 1);
      && maxBitsOut >= 0
      && tt.deltaNbBits == 65536 * maxBitsOut - Shl(n, maxBitsOut)
      && tt.deltaFindState == start - n
  }

  ghost predicate Grouped(norm: seq<int>, t: seq<nat>, stateTable: seq<nat>, u: nat)
    requires u <= |t|
  {
    forall v :: 0 <= v < u ==>
      t[v] < |norm| && Slot(norm, t, v) < |stateTable| && stateTable[Slot(norm, t, v)] == |t| + v
  }

  ghost predicate IsCTable(ct: CTable, norm: seq<int>, tableLog: nat, t: seq<nat>)
  {
    && ct.tableLog == tableLog && ct.maxSymbolValue + 1 == |norm|
    && |ct.stateTable| == |t| == Pow2(tableLog) && |ct.symbolTT| == |norm|
    && Grouped(norm, t, ct.stateTable, |t|)
    && (forall s :: 0 <= s < |norm| && norm[s] != 0 ==>
          IsTransform(ct.symbolTT[s], Abs(norm[s]), tableLog, Start(norm, s)))
  }

  /** The value FSE_buildDTable_internal's symbolNext has for cell u. */
  function NextState(norm: seq<int>, t: seq<nat>, u: nat): nat
    requires u < |t| && t[u] < |norm|
  {
    Abs(norm[t[u]]) + Count(t, t[u], u)
  }

  ghost predicate IsCell(cell: DecodeCell, next: nat, tableLog: nat)
    requires next > 0
  {
    && cell.nbBits == tableLog - HighBit(next)
    && cell.newState == Shl(next, cell.nbBits) - Pow2(tableLog)
  }

  ghost predicate IsDTable(dt: DTable, norm: seq<int>, tableLog: nat, t: seq<nat>)
  {
    && dt.tableLog == tableLog && |dt.cells| == |t| == Pow2(tableLog)
    && (dt.fastMode <==> forall s :: 0 <= s < |norm| ==> 2 * norm[s] < Pow2(tableLog))
    && (forall u :: 0 <= u < |t| ==>
          && t[u] < |norm| && dt.cells[u].symbol == t[u] && NextState(norm, t, u) > 0
          && IsCell(dt.cells[u], NextState(norm, t, u), tableLog))
  }

  // ----- the encoder's table -----

  lemma SlotBounds(norm: seq<int>, tableLog: nat, t: seq<nat>, u: nat)
    requires ValidNorm(norm, tableLog) && IsSpread(norm, tableLog, t) && u < |t|
    ensures t[u] < |norm| && Count(t, t[u], u) < Abs(norm[t[u]]) && norm[t[u]] != 0
    ensures Slot(norm, t, u) < Start(norm, t[u] + 1) <= Pow2(tableLog)
  {
    hide IsSpread, Pow2, LowCount;
    SpreadCount(norm, tableLog, t, 0);
    SpreadCount(norm, tableLog, t, t[u]);
    CountMonotone(t, t[u], u, |t|);
    StartMonotone(norm, t[u] + 1, |norm|);
  }

  /** No two cells share a slot. */
  lemma SlotInjective(norm: seq<int>, tableLog: nat, t: seq<nat>, u: nat, v: nat)
    requires ValidNorm(norm, tableLog) && IsSpread(norm, tableLog, t) && u < v < |t|
    ensures t[u] < |norm| && t[v] < |norm| && Slot(norm, t, u) != Slot(norm, t, v)
  {
    hide IsSpread, Pow2, LowCount, Count, Start;
    SlotBounds(norm, tableLog, t, u);
    SlotBounds(norm, tableLog, t, v);
    if t[u] == t[v] {
      CountMonotone(t, t[u], u, v);
    } else if t[u] < t[v] {
      StartMonotone(norm, t[u] + 1, t[v]);
    } else {
      StartMonotone(norm, t[v] + 1, t[u]);
    }
  }

  /** Start positions of the symbols; low-probability symbols go to the top of the table. */
  method StartPositions(norm: seq<int>, tableLog: nat, cumul: array<nat>, tableSymbol: array<byte>)
    returns (highThreshold: int)
    requires ValidNorm(norm, tableLog)
    requires cumul.Length == |norm| + 1 && tableSymbol.Length == Pow2(tableLog)
    modifies cumul, tableSymbol
    ensures highThreshold == High(norm, tableLog)
    ensures forall s :: 0 <= s < |norm| ==> cumul[s] == Start(norm, s)
    ensures LowAreaFilled(norm, tableLog, tableSymbol[..], |norm|)
  {
    hide Pow2, Start, LowCount, LowAreaFilled;
    var tableSize := Pow2(tableLog);
    highThreshold := tableSize - 1;
    cumul[0] := 0;
    NothingPlaced(norm, tableLog, tableSymbol[..]);
    var u := 1;
    while u <= |norm|
      invariant 1 <= u <= |norm| + 1
      invariant highThreshold == tableSize - 1 - LowCount(norm, u - 1)
      invariant forall s :: 0 <= s < u ==> cumul[s] == Start(norm, s)
      invariant LowAreaFilled(norm, tableLog, tableSymbol[..], u - 1)
    {
      LowPlaced(norm, tableLog, tableSymbol[..], u - 1);
      if norm[u - 1] == -1 {
        cumul[u] := cumul[u - 1] + 1;
        ghost var before: seq<nat> := tableSymbol[..];
        tableSymbol[highThreshold] := u - 1;
        assert tableSymbol[..] == before[highThreshold := u - 1];
        highThreshold := highThreshold - 1;
      } else {
        cumul[u] := cumul[u - 1] + norm[u - 1];
      }
      u := u + 1;
    }
    cumul[|norm|] := tableSize + 1;
  }

  lemma NothingPlaced(norm: seq<int>, tableLog: nat, t: seq<nat>)
    requires |t| == Pow2(tableLog)
    ensures Start(norm, 0) == 0 && LowCount(norm, 0) == 0 && LowAreaFilled(norm, tableLog, t, 0)
  {
  }

  lemma LowBefore(norm: seq<int>, tableLog: nat, s: nat)
    requires ValidNorm(norm, tableLog) && s < |norm| && norm[s] == -1
    ensures LowCount(norm, s) < Pow2(tableLog)
    ensures forall k :: 0 <= k < s && norm[k] == -1 ==> LowCount(norm, k) < LowCount(norm, s)
  {
    hide Pow2, Start, LowCount;
    HighFits(norm, tableLog);
    LowCountMonotone(norm, s, |norm|);
    forall k | 0 <= k < s && norm[k] == -1
      ensures LowCount(norm, k) < LowCount(norm, s)
    {
      LowCountMonotone(norm, k, s);
    }
  }

  lemma LowPlaced(norm: seq<int>, tableLog: nat, t: seq<nat>, s: nat)
    requires ValidNorm(norm, tableLog)
    requires s < |norm| && |t| == Pow2(tableLog) && LowAreaFilled(norm, tableLog, t, s)
    ensures Start(norm, s + 1) == Start(norm, s) + Abs(norm[s])
    ensures LowCount(norm, s + 1) == LowCount(norm, s) + if norm[s] == -1 then 1 else 0
    ensures norm[s] != -1 ==> LowAreaFilled(norm, tableLog, t, s + 1)
    ensures norm[s] == -1 ==>
              && LowCount(norm, s) < |t|
              && LowAreaFilled(norm, tableLog, t[|t| - 1 - LowCount(norm, s) := s], s + 1)
  {
    hide Pow2, Start, LowCount;
    StartStep(norm, s);
    if norm[s] == -1 {
      LowBefore(norm, tableLog, s);
    }
  }

  /** tableU16: the next state values, sorted by symbol. */
  method FillStates(norm: seq<int>, tableLog: nat, cumul: array<nat>, tableSymbol: array<byte>)
    returns (stateTable: array<nat>)
    requires ValidNorm(norm, tableLog) && IsSpread(norm, tableLog, tableSymbol[..])
    requires cumul.Length == |norm| + 1 && forall s :: 0 <= s < |norm| ==> cumul[s] == Start(norm, s)
    modifies cumul
    ensures fresh(stateTable) && stateTable.Length == Pow2(tableLog)
    ensures Grouped(norm, tableSymbol[..], stateTable[..], Pow2(tableLog))
  {
    hide Pow2, Start, IsSpread, LowCount, Count;
    var tableSize := Pow2(tableLog);
    CountsZero(tableSymbol[..]);
    SpreadSize(norm, tableLog, tableSymbol[..]);
    stateTable := new nat[tableSize];
    ghost var t: seq<nat> := tableSymbol[..];
    for u := 0 to tableSize
      invariant tableSymbol[..] == t
      invariant forall s :: 0 <= s < |norm| ==> cumul[s] == Start(norm, s) + Count(t, s, u)
      invariant Grouped(norm, t, stateTable[..], u)
    {
      var s := tableSymbol[u];
      SlotBounds(norm, tableLog, t, u);
      SlotsBefore(norm, tableLog, t, u);
      CountsStep(t, u);
      stateTable[cumul[s]] := tableSize + u;
      cumul[s] := cumul[s] + 1;
    }
  }

  lemma CountsZero(t: seq<nat>)
    ensures forall s: nat :: Count(t, s, 0) == 0
  {
  }

  lemma CountsStep(t: seq<nat>, u: nat)
    requires u < |t|
    ensures forall s: nat :: Count(t, s, u + 1) == Count(t, s, u) + if t[u] == s then 1 else 0
  {
  }

  lemma SpreadSize(norm: seq<int>, tableLog: nat, t: seq<nat>)
    requires IsSpread(norm, tableLog, t)
    ensures |t| == Pow2(tableLog)
  {
  }

  lemma SlotsBefore(norm: seq<int>, tableLog: nat, t: seq<nat>, u: nat)
    requires ValidNorm(norm, tableLog) && IsSpread(norm, tableLog, t) && u < |t|
    ensures t[u] < |norm|
    ensures forall v :: 0 <= v < u ==> t[v] < |norm| && Slot(norm, t, v) != Slot(norm, t, u)
  {
    hide IsSpread, Slot, Count, Start;
    SlotBounds(norm, tableLog, t, u);
    forall v | 0 <= v < u
      ensures t[v] < |norm| && Slot(norm, t, v) != Slot(norm, t, u)
    {
      SlotInjective(norm, tableLog, t, v, u);
    }
  }

  /** The symbol transformation table. */
  method Transforms(norm: seq<int>, tableLog: nat) returns (symbolTT: array<Transform>)
    requires ValidNorm(norm, tableLog)
    ensures fresh(symbolTT) && symbolTT.Length == |norm|
    ensures forall s :: 0 <= s < |norm| && norm[s] != 0 ==>
              IsTransform(symbolTT[s], Abs(norm[s]), tableLog, Start(norm, s))
  {
    hide Pow2, Shl, HighBit, Start, IsTransform;
    symbolTT := new Transform[|norm|](_ => Transform(0, 0));
    var total := 0;
    StartZero(norm);
    for s := 0 to |norm|
      invariant total == Start(norm, s)
      invariant forall k :: 0 <= k < s && norm[k] != 0 ==>
                  IsTransform(symbolTT[k], Abs(norm[k]), tableLog, Start(norm, k))
    {
      TransformBits(norm, tableLog, s);
      if norm[s] == 0 {
        symbolTT[s] := Transform(65536 * (tableLog + 1) - Pow2(tableLog), symbolTT[s].deltaFindState);
      } else if norm[s] == -1 || norm[s] == 1 {
        symbolTT[s] := Transform(65536 * tableLog - Pow2(tableLog), total - 1);
        total := total + 1;
      } else {
        var maxBitsOut := tableLog - HighBit(norm[s] - 1);
        var minStatePlus := Shl(norm[s], maxBitsOut);
        symbolTT[s] := Transform(65536 * maxBitsOut - minStatePlus, total - norm[s]);
        total := total + norm[s];
      }
      assert norm[s] != 0 ==> IsTransform(symbolTT[s], Abs(norm[s]), tableLog, Start(norm, s));
    }
  }

  /** FSE_buildCTable_wksp. */
  method BuildCTable(norm: seq<int>, tableLog: nat) returns (ct: CTable, ghost t: seq<nat>)
    requires ValidNorm(norm, tableLog)
    ensures IsSpread(norm, tableLog, t) && IsCTable(ct, norm, tableLog, t)
    ensures ct.tableLog == tableLog && |ct.symbolTT| == |norm| && |ct.stateTable| == Pow2(tableLog)
  {
    hide Pow2, Start, LowCount, IsSpread, LowAreaFilled, IsTransform;
    var cumul := new nat[|norm| + 1];
    var tableSymbol := new byte[Pow2(tableLog)];
    var highThreshold := StartPositions(norm, tableLog, cumul, tableSymbol);
    SpreadSymbols(norm, tableLog, tableSymbol, highThreshold);
    t := tableSymbol[..];
    var stateTable := FillStates(norm, tableLog, cumul, tableSymbol);
    var symbolTT := Transforms(norm, tableLog);
    ct := CTable(tableLog, |norm| - 1, stateTable[..], symbolTT[..]);
  }

  // ----- how many bits a symbol takes -----

  /** The bounds the table log puts on the transformation of a symbol with n cells. */
  lemma MaxBits(n: nat, tableLog: nat)
    requires 2 <= n <= Pow2(tableLog) <= 4096
    ensures var h := HighBit(n - 1);
            && h + 1 <= tableLog && Pow2(h) < n <= Pow2(h + 1)
            && Pow2(h) * Pow2(tableLog - h) == Pow2(tableLog)
            && Pow2(tableLog) < Shl(n, tableLog - h) == n * Pow2(tableLog - h) <= 2 * Pow2(tableLog)
  {
    var h := HighBit(n - 1);
    if h >= tableLog {
      Pow2Mono(tableLog, h);
    }
    var m := tableLog - h;
    assert Pow2(h) < n <= Pow2(h + 1);
    hide *;
    Pow2Add(h, m);
    Pow2Add(h + 1, m);
    Pow2Add(1, tableLog);
    ShlIsMul(n, m);
    ProductBounds(Pow2(h), n, Pow2(h + 1), Pow2(m));
    Pow2One();
  }

  lemma Pow2One()
    ensures Pow2(1) == 2
  {
  }

  lemma ProductBounds(a: nat, n: nat, b: nat, p: nat)
    requires a < n <= b && p > 0
    ensures a * p < n * p <= b * p
  {
  }

  lemma LogBounds(tableLog: nat)
    requires MIN_TABLELOG <= tableLog <= MAX_TABLELOG
    ensures 32 <= Pow2(tableLog) <= 4096
  {
    Pow2Values();
    Pow2Mono(5, tableLog);
    Pow2Mono(tableLog, 12);
  }

  lemma WeightBound(norm: seq<int>, tableLog: nat, s: nat)
    requires ValidNorm(norm, tableLog) && s < |norm|
    ensures Abs(norm[s]) <= Pow2(tableLog) && norm[s] >= -1
    ensures MIN_TABLELOG <= tableLog <= MAX_TABLELOG
  {
    StartMonotone(norm, s, |norm|);
  }

  lemma TransformBits(norm: seq<int>, tableLog: nat, s: nat)
    requires ValidNorm(norm, tableLog) && s < |norm|
    ensures Pow2(tableLog) <= 65536
    ensures Start(norm, s + 1) == Start(norm, s) + Abs(norm[s])
    ensures norm[s] == -1 || norm[s] == 1 ==>
              IsTransform(Transform(65536 * tableLog - Pow2(tableLog), Start(norm, s) - 1), 1, tableLog, Start(norm, s))
    ensures norm[s] > 1 ==>
              var m := tableLog - HighBit(norm[s] - 1);
              m > 0 && Shl(norm[s], m) <= 65536 &&
              IsTransform(Transform(65536 * m - Shl(norm[s], m), Start(norm, s) - norm[s]), norm[s], tableLog,
                          Start(norm, s))
  {
    hide Start, Pow2, Shl, HighBit, ValidNorm;
    StartStep(norm, s);
    WeightBound(norm, tableLog, s);
    LogBounds(tableLog);
    if norm[s] > 1 {
      MaxBits(norm[s], tableLog);
    }
  }

  // ----- the decoder's table -----

  ghost predicate NoMajority(norm: seq<int>, tableLog: nat, s: nat)
    requires s <= |norm|
  {
    forall k :: 0 <= k < s ==> 2 * norm[k] < Pow2(tableLog)
  }

  /** symbolNext, fastMode, and the low-probability symbols at the top of the table. */
  method DecoderSymbols(norm: seq<int>, tableLog: nat, symbolNext: array<nat>, symbols: array<byte>)
    returns (highThreshold: int, fastMode: bool)
    requires ValidNorm(norm, tableLog)
    requires symbolNext.Length == |norm| && symbols.Length == Pow2(tableLog)
    modifies symbolNext, symbols
    ensures highThreshold == High(norm, tableLog)
    ensures fastMode <==> NoMajority(norm, tableLog, |norm|)
    ensures forall s :: 0 <= s < |norm| ==> symbolNext[s] == Abs(norm[s])
    ensures LowAreaFilled(norm, tableLog, symbols[..], |norm|)
  {
    hide Pow2, Start, LowCount, LowAreaFilled;
    highThreshold := Pow2(tableLog) - 1;
    fastMode := true;
    var largeLimit := Pow2(tableLog - 1);
    TwiceHalf(tableLog);
    NothingPlaced(norm, tableLog, symbols[..]);
    for s := 0 to |norm|
      invariant highThreshold == Pow2(tableLog) - 1 - LowCount(norm, s)
      invariant fastMode <==> NoMajority(norm, tableLog, s)
      invariant forall k :: 0 <= k < s ==> symbolNext[k] == Abs(norm[k])
      invariant LowAreaFilled(norm, tableLog, symbols[..], s)
    {
      LowPlaced(norm, tableLog, symbols[..], s);
      if norm[s] == -1 {
        ghost var before: seq<nat> := symbols[..];
        symbols[highThreshold] := s;
        assert symbols[..] == before[highThreshold := s];
        highThreshold := highThreshold - 1;
        symbolNext[s] := 1;
      } else {
        if norm[s] >= largeLimit {
          fastMode := false;
        }
        symbolNext[s] := norm[s];
      }
    }
  }

  lemma NextStateBounds(norm: seq<int>, tableLog: nat, t: seq<nat>, u: nat)
    requires ValidNorm(norm, tableLog) && IsSpread(norm, tableLog, t) && u < |t| == Pow2(tableLog)
    ensures t[u] < |norm| && 0 < Abs(norm[t[u]]) <= NextState(norm, t, u) < 2 * Abs(norm[t[u]])
    ensures NextState(norm, t, u) < 2 * Pow2(tableLog)
  {
    SlotBounds(norm, tableLog, t, u);
    WeightBound(norm, tableLog, t[u]);
  }

  lemma CellBits(next: nat, tableLog: nat)
    requires 0 < next < 2 * Pow2(tableLog)
    ensures HighBit(next) <= tableLog
    ensures var nb := tableLog - HighBit(next);
            Pow2(tableLog) <= Shl(next, nb) && Shl(next, nb) + Pow2(nb) <= 2 * Pow2(tableLog)
  {
    var h := HighBit(next);
    if h > tableLog {
      Pow2Strict(tableLog, h);
    }
    var nb := tableLog - h;
    assert Pow2(h) <= next && next + 1 <= 2 * Pow2(h);
    hide *;
    Pow2Add(h, nb);
    ShlIsMul(next, nb);
    CellProduct(Pow2(h), next, Pow2(nb));
  }

  lemma CellProduct(a: nat, n: nat, p: nat)
    requires a <= n && n + 1 <= 2 * a && p > 0
    ensures a * p <= n * p && n * p + p <= 2 * (a * p)
  {
    MulAssoc(2, a, p);
    MulSum(n, 1, p);
    MulSum(2 * a - (n + 1), n + 1, p);
    MulSum(n - a, a, p);
  }

  /** FSE_buildDTable_internal. */
  method BuildDTable(norm: seq<int>, tableLog: nat) returns (dt: DTable, ghost t: seq<nat>)
    requires ValidNorm(norm, tableLog)
    ensures IsSpread(norm, tableLog, t) && IsDTable(dt, norm, tableLog, t)
    ensures dt.tableLog == tableLog && |dt.cells| == Pow2(tableLog)
  {
    hide Pow2, Start, LowCount, IsSpread, LowAreaFilled, Count, HighBit, Shl;
    var tableSize := Pow2(tableLog);
    var symbolNext := new nat[|norm|];
    var symbols := new byte[tableSize];
    var highThreshold, fastMode := DecoderSymbols(norm, tableLog, symbolNext, symbols);
    SpreadSymbols(norm, tableLog, symbols, highThreshold);
    t := symbols[..];
    var cells := new DecodeCell[tableSize](_ => DecodeCell(0, 0, 0));
    CountsZero(t);
    for u := 0 to tableSize
      invariant symbols[..] == t
      invariant forall s :: 0 <= s < |norm| ==> symbolNext[s] == Abs(norm[s]) + Count(t, s, u)
      invariant forall v :: 0 <= v < u ==>
                  && t[v] < |norm| && cells[v].symbol == t[v] && NextState(norm, t, v) > 0
                  && IsCell(cells[v], NextState(norm, t, v), tableLog)
    {
      var symbol := symbols[u];
      NextStateBounds(norm, tableLog, t, u);
      CountsStep(t, u);
      var nextState := symbolNext[symbol];
      symbolNext[symbol] := nextState + 1;
      CellBits(nextState, tableLog);
      var nbBits := tableLog - HighBit(nextState);
      cells[u] := DecodeCell(Shl(nextState, nbBits) - tableSize, symbol, nbBits);
    }
    dt := DTable(tableLog, fastMode, cells[..]);
  }
}
