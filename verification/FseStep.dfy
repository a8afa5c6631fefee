/** One encoding step of FSE and the decoding step that undoes it (common/fse.h). */
module FseStep {
  // An encoder state of a table with log L lies in [2^L, 2^(L+1)); what the decoder
  // holds is its L low bits. A run-length table has log 0 and the single state 0.

  import opened Bits
  import opened Counting
  import opened FseSpread
  import opened FseTables

  ghost predicate IsState(tableLog: nat, x: nat)
  {
    if tableLog == 0 then x == 0 else Pow2(tableLog) <= x < 2 * Pow2(tableLog)
  }

  /** FSE_encodeSymbol: how many low bits of the state are written. */
  function NbBitsOut(tt: Transform, x: nat): nat
  {
    (x + tt.deltaNbBits) / 65536
  }

  function StateIndex(tt: Transform, x: nat): int
  {
    Shr(x, NbBitsOut(tt, x)) + tt.deltaFindState
  }

  /** FSE_initCState2: the index of the smallest state that codes the symbol. */
  function FirstBits(tt: Transform): nat
  {
    (tt.deltaNbBits + 0x8000) / 65536
  }

  function FirstIndex(tt: Transform): int
  {
    var value := 65536 * FirstBits(tt) - tt.deltaNbBits;
    (if value < 0 then 0 else Shr(value, FirstBits(tt))) + tt.deltaFindState
  }

  ghost predicate Leads(ct: CTable, index: int)
  {
    0 <= index < |ct.stateTable| && IsState(ct.tableLog, ct.stateTable[index])
  }

  ghost predicate StepFits(ct: CTable, s: nat, x: nat)
    requires s < |ct.symbolTT|
  {
    NbBitsOut(ct.symbolTT[s], x) <= ct.tableLog && Leads(ct, StateIndex(ct.symbolTT[s], x))
  }

  /** The table can encode s from every state, and start with it. */
  ghost predicate Encodable(ct: CTable, s: nat)
  {
    && ct.tableLog <= MAX_TABLELOG
    && s < |ct.symbolTT|
    && Leads(ct, FirstIndex(ct.symbolTT[s]))
    && forall x: nat {:trigger StepFits(ct, s, x)} :: IsState(ct.tableLog, x) ==> StepFits(ct, s, x)
  }

  ghost function Next(ct: CTable, s: nat, x: nat): (y: nat)
    requires Encodable(ct, s) && IsState(ct.tableLog, x)
    ensures IsState(ct.tableLog, y)
  {
    assert StepFits(ct, s, x);
    ct.stateTable[StateIndex(ct.symbolTT[s], x)]
  }

  ghost function First(ct: CTable, s: nat): (y: nat)
    requires Encodable(ct, s)
    ensures IsState(ct.tableLog, y)
  {
    ct.stateTable[FirstIndex(ct.symbolTT[s])]
  }

  /** The bits FSE_encodeSymbol writes. */
  ghost function Emitted(ct: CTable, s: nat, x: nat): (bits: seq<bool>)
    requires s < |ct.symbolTT|
  {
    BitsOf(x, NbBitsOut(ct.symbolTT[s], x))
  }

  /** Every cell stays inside the table, whatever bits are read. */
  ghost predicate DTableOk(dt: DTable)
  {
    && dt.tableLog <= MAX_TABLELOG && |dt.cells| == Pow2(dt.tableLog)
    && (forall u :: 0 <= u < |dt.cells| ==>
          dt.cells[u].nbBits <= dt.tableLog && dt.cells[u].newState + Pow2(dt.cells[u].nbBits) <= |dt.cells|)
    && (dt.fastMode ==> forall u :: 0 <= u < |dt.cells| ==> dt.cells[u].nbBits >= 1)
  }

  ghost predicate StepUndone(ct: CTable, dt: DTable, s: nat, x: nat)
    requires Encodable(ct, s) && IsState(ct.tableLog, x) && DTableOk(dt) && ct.tableLog == dt.tableLog
  {
    LowBound(Next(ct, s, x), dt.tableLog);
    var cell := dt.cells[Low(Next(ct, s, x), dt.tableLog)];
    && cell.symbol == s
    && cell.nbBits == NbBitsOut(ct.symbolTT[s], x)
    && cell.newState + Low(x, cell.nbBits) == Low(x, ct.tableLog)
  }

  /** dt undoes every step of ct for symbol s. */
  ghost predicate Undoes(ct: CTable, dt: DTable, s: nat)
  {
    && Encodable(ct, s) && DTableOk(dt) && ct.tableLog == dt.tableLog
    && (LowBound(First(ct, s), dt.tableLog); dt.cells[Low(First(ct, s), dt.tableLog)].symbol == s)
    && forall x: nat {:trigger StepUndone(ct, dt, s, x)} :: IsState(ct.tableLog, x) ==> StepUndone(ct, dt, s, x)
  }

  // ----- the tables that were built -----

  lemma Over65536(m: int, y: int, x: int)
    requires 0 <= x - y < 65536
    ensures (x + (65536 * m - y)) / 65536 == m
  {
  }

  lemma OneCell(tt: Transform, tableLog: nat, x: nat)
    requires tt.deltaNbBits == 65536 * tableLog - Pow2(tableLog) && IsState(tableLog, x)
    requires 0 < tableLog && Pow2(tableLog) <= 4096
    ensures NbBitsOut(tt, x) == tableLog && Shr(x, tableLog) == 1
  {
    hide Pow2, Shr;
    Over65536(tableLog, Pow2(tableLog), x);
    ShrUnique(x, tableLog, 1, x - Pow2(tableLog));
  }

  lemma ManyCells(tt: Transform, n: nat, h: nat, m: nat, x: nat)
    requires 0 < m && Pow2(h) < n <= Pow2(h + 1)
    requires Pow2(h) * Pow2(m) <= x < 2 * (Pow2(h) * Pow2(m)) <= 8192
    requires Shl(n, m) == n * Pow2(m) <= 8192 && tt.deltaNbBits == 65536 * m - Shl(n, m)
    ensures NbBitsOut(tt, x) <= m && n <= Shr(x, NbBitsOut(tt, x)) < 2 * n
  {
    hide Pow2, Shr, Shl;
    if x >= Shl(n, m) {
      Over65536(m, Shl(n, m), x);
      ShiftedHigh(n, h, m, x);
    } else {
      Over65536(m - 1, Shl(n, m) - 65536, x);
      ShiftedLow(n, h, m, x);
    }
  }

  /** From every state, the shifted state falls in [n, 2n): one slot per remaining value. */
  lemma ShiftedState(tt: Transform, n: nat, tableLog: nat, start: nat, x: nat)
    requires MIN_TABLELOG <= tableLog <= MAX_TABLELOG && 0 < n <= Pow2(tableLog)
    requires IsTransform(tt, n, tableLog, start) && IsState(tableLog, x)
    ensures NbBitsOut(tt, x) <= tableLog
    ensures n <= Shr(x, NbBitsOut(tt, x)) < 2 * n
    ensures StateIndex(tt, x) == start + Shr(x, NbBitsOut(tt, x)) - n
  {
    hide Pow2, Shr, Shl, HighBit, NbBitsOut;
    LogBounds(tableLog);
    if n == 1 {
      OneCell(tt, tableLog, x);
    } else {
      MaxBits(n, tableLog);
      ManyCells(tt, n, HighBit(n - 1), tableLog - HighBit(n - 1), x);
    }
  }

  lemma ShiftedHigh(n: nat, h: nat, m: nat, x: nat)
    requires Pow2(h) < n && n * Pow2(m) <= x < 2 * (Pow2(h) * Pow2(m))
    ensures n <= Shr(x, m) < 2 * n
  {
    hide *;
    ShrLow(x, m);
    MulCommutes(Pow2(m), Shr(x, m));
    MulAssoc(2, Pow2(h), Pow2(m));
    QuotientBetween(n, 2 * Pow2(h), Pow2(m), Shr(x, m), Low(x, m));
  }

  lemma ShiftedLow(n: nat, h: nat, m: nat, x: nat)
    requires m > 0 && n <= Pow2(h + 1) && Pow2(h) * Pow2(m) <= x < n * Pow2(m)
    ensures n <= Shr(x, m - 1) < 2 * n
  {
    var p := Pow2(m - 1);
    assert Pow2(m) == 2 * p && Pow2(h + 1) == 2 * Pow2(h);
    hide *;
    ShrLow(x, m - 1);
    MulCommutes(p, Shr(x, m - 1));
    MulAssoc(Pow2(h), 2, p);
    MulAssoc(n, 2, p);
    QuotientBetween(Pow2(h) * 2, n * 2, p, Shr(x, m - 1), Low(x, m - 1));
  }

  lemma QuotientBetween(a: nat, b: nat, p: nat, q: nat, r: nat)
    requires p > 0 && r < p && a * p <= q * p + r < b * p
    ensures a <= q < b
  {
    if q < a {
      MulSum(a - q, q, p);
      MulAtLeast(a - q, p);
    } else if b <= q {
      MulSum(q - b, b, p);
      MulAtLeast(q - b, p);
    }
  }

  lemma SmallestState(tt: Transform, m: nat, value: nat, n: nat)
    requires tt.deltaNbBits == 65536 * m - value && value <= 0x8000 && Shr(value, m) == n
    ensures FirstIndex(tt) == n + tt.deltaFindState
  {
    Over65536(m, value, 0x8000);
  }

  lemma FirstShift(tt: Transform, n: nat, tableLog: nat, start: nat)
    requires MIN_TABLELOG <= tableLog <= MAX_TABLELOG && 0 < n <= Pow2(tableLog)
    requires IsTransform(tt, n, tableLog, start)
    ensures FirstIndex(tt) == start
  {
    hide Pow2, Shr, Shl, HighBit, FirstIndex;
    LogBounds(tableLog);
    if n == 1 {
      ShrUnique(Pow2(tableLog), tableLog, 1, 0);
      SmallestState(tt, tableLog, Pow2(tableLog), 1);
    } else {
      MaxBits(n, tableLog);
      var m := tableLog - HighBit(n - 1);
      ShrShl(n, m);
      SmallestState(tt, m, Shl(n, m), n);
    }
  }

  ghost predicate Built(ct: CTable, norm: seq<int>, tableLog: nat, t: seq<nat>)
  {
    ValidNorm(norm, tableLog) && IsSpread(norm, tableLog, t) && IsCTable(ct, norm, tableLog, t)
  }

  /** The cell that has k cells of the same symbol before it is found at slot start + k. */
  lemma SlotLeads(ct: CTable, norm: seq<int>, tableLog: nat, t: seq<nat>, s: nat, k: nat) returns (u: nat)
    requires Built(ct, norm, tableLog, t) && s < |norm| && k < Abs(norm[s])
    ensures u < |t| && t[u] == s && Count(t, s, u) == k
    ensures Start(norm, s) + k < |ct.stateTable| && ct.stateTable[Start(norm, s) + k] == Pow2(tableLog) + u
    ensures Leads(ct, Start(norm, s) + k) && Low(Pow2(tableLog) + u, tableLog) == u
  {
    hide Pow2, Start, IsSpread, Count;
    SpreadCount(norm, tableLog, t, s);
    u := NthOccurrence(t, s, k, |t|);
    ShrUnique(Pow2(tableLog) + u, tableLog, 1, u);
  }

  lemma BuiltEncodable(ct: CTable, norm: seq<int>, tableLog: nat, t: seq<nat>, s: nat)
    requires Built(ct, norm, tableLog, t) && s < |norm| && norm[s] != 0
    ensures Encodable(ct, s)
  {
    hide Pow2, Start, IsSpread, IsTransform, StateIndex, NbBitsOut, FirstIndex, Leads;
    var n, tt := Abs(norm[s]), ct.symbolTT[s];
    WeightBound(norm, tableLog, s);
    FirstShift(tt, n, tableLog, Start(norm, s));
    var u := SlotLeads(ct, norm, tableLog, t, s, 0);
    forall x: nat | IsState(tableLog, x)
      ensures StepFits(ct, s, x)
    {
      ShiftedState(tt, n, tableLog, Start(norm, s), x);
      var v := SlotLeads(ct, norm, tableLog, t, s, Shr(x, NbBitsOut(tt, x)) - n);
    }
  }

  /** The decoder's cells stay inside the table, and fast mode means that each of them asks for a bit. */
  lemma BuiltDTableOk(dt: DTable, norm: seq<int>, tableLog: nat, t: seq<nat>)
    requires ValidNorm(norm, tableLog) && IsSpread(norm, tableLog, t) && IsDTable(dt, norm, tableLog, t)
    ensures DTableOk(dt)
  {
    hide Pow2, Start, IsSpread, Count, Shl, HighBit, NextState;
    forall u | 0 <= u < |dt.cells|
      ensures dt.cells[u].nbBits <= dt.tableLog && dt.cells[u].newState + Pow2(dt.cells[u].nbBits) <= |dt.cells|
      ensures dt.fastMode ==> dt.cells[u].nbBits >= 1
    {
      NextStateBounds(norm, tableLog, t, u);
      CellBits(NextState(norm, t, u), tableLog);
      if dt.fastMode {
        LogBounds(tableLog);
        CellAsks(NextState(norm, t, u), tableLog);
      }
    }
  }

  lemma CellAsks(next: nat, tableLog: nat)
    requires 0 < next
    ensures next < Pow2(tableLog) ==> HighBit(next) < tableLog
    ensures next == Pow2(tableLog) ==> HighBit(next) == tableLog
  {
    if next < Pow2(tableLog) && tableLog <= HighBit(next) {
      Pow2Mono(tableLog, HighBit(next));
    } else if next == Pow2(tableLog) {
      HighBitUnique(next, tableLog);
    }
  }

  /** Encoding s from x and decoding the resulting state gives back s, the width, and x. */
  lemma StepInverse(ct: CTable, dt: DTable, norm: seq<int>, tableLog: nat, t: seq<nat>, s: nat, x: nat)
    requires Built(ct, norm, tableLog, t) && IsDTable(dt, norm, tableLog, t)
    requires s < |norm| && norm[s] != 0 && IsState(tableLog, x) && Encodable(ct, s) && DTableOk(dt)
    ensures StepUndone(ct, dt, s, x)
  {
    hide Pow2, Start, IsSpread, Count, IsTransform, Shr, Shl, Low, DTableOk, Leads;
    var n, tt := Abs(norm[s]), ct.symbolTT[s];
    WeightBound(norm, tableLog, s);
    ShiftedState(tt, n, tableLog, Start(norm, s), x);
    var nb := NbBitsOut(tt, x);
    var next := Shr(x, nb);
    var u := SlotLeads(ct, norm, tableLog, t, s, next - n);
    assert Next(ct, s, x) == Pow2(tableLog) + u;
    assert NextState(norm, t, u) == next;
    ShiftBack(x, nb, tableLog);
  }

  lemma ShiftBack(x: nat, nb: nat, tableLog: nat)
    requires nb <= tableLog && Pow2(tableLog) <= x < 2 * Pow2(tableLog)
    ensures Shr(x, nb) > 0 && HighBit(Shr(x, nb)) == tableLog - nb
    ensures Shl(Shr(x, nb), nb) - Pow2(tableLog) + Low(x, nb) == Low(x, tableLog)
  {
    hide Pow2, Shr, Shl, Low, HighBit;
    var h, p, q := tableLog - nb, Pow2(tableLog - nb), Pow2(nb);
    ShrLow(x, nb);
    ShlIsMul(Shr(x, nb), nb);
    Pow2Add(h, nb);
    MulCommutes(q, Shr(x, nb));
    MulAssoc(2, p, q);
    QuotientBetween(p, 2 * p, q, Shr(x, nb), Low(x, nb));
    HighBitUnique(Shr(x, nb), h);
    ShrUnique(x, tableLog, 1, x - Pow2(tableLog));
  }

  /** The two builders produce mutually inverse tables. */
  lemma TablesInverse(ct: CTable, dt: DTable, norm: seq<int>, tableLog: nat, t: seq<nat>, t': seq<nat>, s: nat)
    requires Built(ct, norm, tableLog, t) && IsSpread(norm, tableLog, t') && IsDTable(dt, norm, tableLog, t')
    requires s < |norm| && norm[s] != 0
    ensures Undoes(ct, dt, s)
  {
    hide Pow2, Start, IsSpread, Count, IsTransform, Low, StepUndone, DTableOk, Leads;
    SpreadUnique(norm, tableLog, t, t');
    BuiltEncodable(ct, norm, tableLog, t, s);
    BuiltDTableOk(dt, norm, tableLog, t);
    FirstUndone(ct, dt, norm, tableLog, t, s);
    forall x: nat | IsState(tableLog, x)
      ensures StepUndone(ct, dt, s, x)
    {
      StepInverse(ct, dt, norm, tableLog, t, s, x);
    }
  }

  /** The state FSE_initCState2 picks asks the decoder for a bit, unless s fills the whole table. */
  lemma FirstUndone(ct: CTable, dt: DTable, norm: seq<int>, tableLog: nat, t: seq<nat>, s: nat)
    requires Built(ct, norm, tableLog, t) && IsDTable(dt, norm, tableLog, t)
    requires s < |norm| && norm[s] != 0 && Encodable(ct, s)
    ensures Low(First(ct, s), tableLog) < |dt.cells|
    ensures var cell := dt.cells[Low(First(ct, s), tableLog)];
            cell.symbol == s && (cell.nbBits >= 1 <==> Abs(norm[s]) < Pow2(tableLog))
  {
    hide Pow2, Start, IsSpread, Count, IsTransform, Low, DTableOk, Leads, HighBit, Shl;
    var n, tt := Abs(norm[s]), ct.symbolTT[s];
    WeightBound(norm, tableLog, s);
    FirstShift(tt, n, tableLog, Start(norm, s));
    var u := SlotLeads(ct, norm, tableLog, t, s, 0);
    assert NextState(norm, t, u) == n;
    CellAsks(n, tableLog);
  }
}
