/** The table of the default distribution of literal lengths, as Appendix A of RFC 8878 prints it. */
module DefaultTable {
  import opened Bits
  import opened Counting
  import opened FseSpread
  import opened FseTables
  import opened Sequences
  import opened SequenceCodes

  const LL_DEFAULT_NORM_LOG := 6

  const LL_DEFAULT_NORM: seq<int> :=
    [4, 3, 2, 2, 2, 2, 2, 2, 2, 2, 2, 2, 2, 1, 1, 1, 2, 2] +
    [2, 2, 2, 2, 2, 2, 2, 3, 2, 1, 1, 1, 1, 1, -1, -1, -1, -1]

  /** ZSTD_seqSymbol: a cell together with what its code adds. */
  datatype SeqSymbol = SeqSymbol(nextState: nat, nbAdditionalBits: nat, nbBits: nat, baseValue: nat)

  /** LL_defaultDTable without its header. */
  const LL_DEFAULT_DTABLE: seq<SeqSymbol> :=
    [
      SeqSymbol(0, 0, 4, 0), SeqSymbol(16, 0, 4, 0), SeqSymbol(32, 0, 5, 1), SeqSymbol(0, 0, 5, 3),
      SeqSymbol(0, 0, 5, 4), SeqSymbol(0, 0, 5, 6), SeqSymbol(0, 0, 5, 7), SeqSymbol(0, 0, 5, 9),
      SeqSymbol(0, 0, 5, 10), SeqSymbol(0, 0, 5, 12), SeqSymbol(0, 0, 6, 14), SeqSymbol(0, 1, 5, 16),
      SeqSymbol(0, 1, 5, 20), SeqSymbol(0, 1, 5, 22), SeqSymbol(0, 2, 5, 28), SeqSymbol(0, 3, 5, 32)] + [
      SeqSymbol(0, 4, 5, 48), SeqSymbol(32, 6, 5, 64), SeqSymbol(0, 7, 5, 128), SeqSymbol(0, 8, 6, 256),
      SeqSymbol(0, 10, 6, 1024), SeqSymbol(0, 12, 6, 4096), SeqSymbol(32, 0, 4, 0), SeqSymbol(0, 0, 4, 1),
      SeqSymbol(0, 0, 5, 2), SeqSymbol(32, 0, 5, 4), SeqSymbol(0, 0, 5, 5), SeqSymbol(32, 0, 5, 7),
      SeqSymbol(0, 0, 5, 8), SeqSymbol(32, 0, 5, 10), SeqSymbol(0, 0, 5, 11), SeqSymbol(0, 0, 6, 13)] + [
      SeqSymbol(32, 1, 5, 16), SeqSymbol(0, 1, 5, 18), SeqSymbol(32, 1, 5, 22), SeqSymbol(0, 2, 5, 24),
      SeqSymbol(32, 3, 5, 32), SeqSymbol(0, 3, 5, 40), SeqSymbol(0, 6, 4, 64), SeqSymbol(16, 6, 4, 64),
      SeqSymbol(32, 7, 5, 128), SeqSymbol(0, 9, 6, 512), SeqSymbol(0, 11, 6, 2048), SeqSymbol(48, 0, 4, 0),
      SeqSymbol(16, 0, 4, 1), SeqSymbol(32, 0, 5, 2), SeqSymbol(32, 0, 5, 3), SeqSymbol(32, 0, 5, 5)] + [
      SeqSymbol(32, 0, 5, 6), SeqSymbol(32, 0, 5, 8), SeqSymbol(32, 0, 5, 9), SeqSymbol(32, 0, 5, 11),
      SeqSymbol(32, 0, 5, 12), SeqSymbol(0, 0, 6, 15), SeqSymbol(32, 1, 5, 18), SeqSymbol(32, 1, 5, 20),
      SeqSymbol(32, 2, 5, 24), SeqSymbol(32, 2, 5, 28), SeqSymbol(32, 3, 5, 40), SeqSymbol(32, 4, 5, 48),
      SeqSymbol(0, 16, 6, 65536), SeqSymbol(0, 15, 6, 32768), SeqSymbol(0, 14, 6, 16384), SeqSymbol(0, 13, 6, 8192)]

  function LLSymbolOf(cell: DecodeCell): SeqSymbol
    requires cell.symbol <= MAX_LL
  {
    SeqSymbol(cell.newState, LL_BITS[cell.symbol], cell.nbBits, LL_BASE[cell.symbol])
  }

  // ----- the walk over 64 cells -----

  /** The step of the walk is 43, and 3 * 43 leaves 1: cell u is reached after 3 * u steps. */
  function Steps(u: nat): nat
  {
    3 * u % 64
  }

  /** The steps before the i-th that lead to one of the last four cells. */
  function Skipped(i: nat): nat
  {
    (if i > 52 then 1 else 0) + (if i > 55 then 1 else 0) + (if i > 58 then 1 else 0) + (if i > 61 then 1 else 0)
  }

  lemma WalkOf64(i: nat)
    ensures Orbit(6, i) == i * 43 % 64
  {
    hide Orbit;
    Pow2Values();
    OrbitClosed(6, i);
  }

  lemma StepsLead(u: nat)
    requires u < 64
    ensures Orbit(6, Steps(u)) == u
  {
    hide Orbit;
    WalkOf64(Steps(u));
    var q := 3 * u / 64;
    assert Steps(u) == 3 * u - 64 * q;
    DivModUnique(Steps(u) * 43, 64, 2 * u - 43 * q, u);
  }

  lemma {:induction false} VisitedBefore(i: nat)
    requires i <= 64
    ensures |Visits(6, 59, i)| == i - Skipped(i)
  {
    hide Orbit;
    if i > 0 {
      VisitedBefore(i - 1);
      WalkOf64(i - 1);
      LastFour(i - 1);
    }
  }

  lemma LastFour(i: nat)
    requires i < 64
    ensures i * 43 % 64 > 59 <==> i == 52 || i == 55 || i == 58 || i == 61
  {
  }

  /** The number of the symbol that cell u receives, in the order in which symbols are laid. */
  function Rank(u: nat): int
  {
    Steps(u) - Skipped(Steps(u))
  }

  /** Where the symbols start in that order. */
  function LaidBefore(s: nat): nat
  {
    if s == 0 then 0
    else if s == 1 then 4
    else if s <= 13 then 2 * s + 3
    else if s <= 16 then s + 16
    else if s <= 25 then 2 * s
    else if s == 26 then 53
    else if s <= 32 then s + 28
    else 60
  }

  lemma NormBelow18(s: nat)
    requires s < 18
    ensures LL_DEFAULT_NORM[s] == if s == 0 then 4 else if s == 1 then 3 else if 13 <= s <= 15 then 1 else 2
  {
    var n := LL_DEFAULT_NORM;
    assert n[0] == 4 && n[1] == 3 && n[2] == 2 && n[3] == 2 && n[4] == 2 && n[5] == 2;
    assert n[6] == 2 && n[7] == 2 && n[8] == 2 && n[9] == 2 && n[10] == 2 && n[11] == 2;
    assert n[12] == 2 && n[13] == 1 && n[14] == 1 && n[15] == 1 && n[16] == 2 && n[17] == 2;
  }

  lemma NormAbove18(s: nat)
    requires 18 <= s < 36
    ensures LL_DEFAULT_NORM[s] == if s == 25 then 3 else if s <= 26 then 2 else if s <= 31 then 1 else -1
  {
    var n := LL_DEFAULT_NORM;
    assert n[18] == 2 && n[19] == 2 && n[20] == 2 && n[21] == 2 && n[22] == 2 && n[23] == 2;
    assert n[24] == 2 && n[25] == 3 && n[26] == 2 && n[27] == 1 && n[28] == 1 && n[29] == 1;
    assert n[30] == 1 && n[31] == 1 && n[32] == -1 && n[33] == -1 && n[34] == -1 && n[35] == -1;
  }

  lemma NormOf(s: nat)
    requires s < 36
    ensures LL_DEFAULT_NORM[s] == if s == 0 then 4 else if s == 1 || s == 25 then 3
                                  else if 13 <= s <= 15 || 27 <= s <= 31 then 1 else if s >= 32 then -1 else 2
  {
    hide LL_DEFAULT_NORM;
    DefaultSize();
    if s < 18 {
      NormBelow18(s);
    } else {
      NormAbove18(s);
    }
  }

  lemma DefaultSize()
    ensures |LL_DEFAULT_NORM| == 36
  {
  }

  lemma {:induction false} LaidSizes(s: nat)
    requires s <= 36
    ensures |LL_DEFAULT_NORM| == 36 && |Laid(LL_DEFAULT_NORM, s)| == LaidBefore(s)
    ensures LowCount(LL_DEFAULT_NORM, s) == if s < 32 then 0 else s - 32
    ensures Start(LL_DEFAULT_NORM, s) == LaidBefore(s) + LowCount(LL_DEFAULT_NORM, s)
  {
    if s > 0 {
      LaidSizes(s - 1);
      NormOf(s - 1);
    }
  }

  lemma DefaultIsValid()
    ensures ValidNorm(LL_DEFAULT_NORM, 6) && High(LL_DEFAULT_NORM, 6) == 59 && |LL_DEFAULT_NORM| == 36
  {
    hide Start, LowCount, LL_DEFAULT_NORM;
    LaidSizes(36);
    Pow2Values();
    forall s | 0 <= s < 36
      ensures LL_DEFAULT_NORM[s] >= -1
    {
      NormOf(s);
    }
  }

  /** The cells of one symbol, by their numbers in the walk. */
  predicate CellsOf(s: nat, v: seq<nat>)
  {
    && s < 32 && LaidBefore(s) + |v| == LaidBefore(s + 1)
    && (forall k :: 0 <= k < |v| ==> v[k] < 60 && LaidBefore(s) <= Rank(v[k]) < LaidBefore(s + 1))
    && (forall k :: 0 < k < |v| ==> v[k - 1] < v[k])
  }

  lemma RankLaid(s: nat, u: nat)
    requires s < 32 && LaidBefore(s) <= Rank(u) < LaidBefore(s + 1)
    ensures 0 <= Rank(u) < |Laid(LL_DEFAULT_NORM, |LL_DEFAULT_NORM|)|
    ensures Laid(LL_DEFAULT_NORM, |LL_DEFAULT_NORM|)[Rank(u)] == s
  {
    hide Laid, LowCount, LL_DEFAULT_NORM, Start, Rank;
    LaidSizes(s);
    LaidSizes(s + 1);
    NormOf(s);
    LaidAt(LL_DEFAULT_NORM, s, Rank(u));
  }

  lemma RankVisited(u: nat)
    requires u < 60
    ensures var v := Visits(6, 59, 64); 0 <= Rank(u) < |v| && v[Rank(u)] == u
  {
    hide Orbit, Visits;
    Pow2Values();
    StepsLead(u);
    VisitedBefore(Steps(u));
    VisitAt(6, 59, Steps(u));
  }

  /** A cell up to the threshold holds the symbol that is laid with its number. */
  lemma CellSymbol(t: seq<nat>, s: nat, u: nat)
    requires IsSpread(LL_DEFAULT_NORM, 6, t) && s < 32 && u < 60
    requires LaidBefore(s) <= Rank(u) < LaidBefore(s + 1)
    ensures |t| == 64 && t[u] == s
  {
    hide Orbit, Visits, Laid, LowCount, LL_DEFAULT_NORM, Start, Rank;
    Pow2Values();
    DefaultIsValid();
    RankVisited(u);
    RankLaid(s, u);
  }

  /** The k-th cell of a symbol with n of them. */
  function CellAt(s: byte, n: nat, k: nat): DecodeCell
    requires 1 <= n <= 4 && k < n
  {
    if n == 1 then DecodeCell(0, s, 6)
    else if n + k < 4 then DecodeCell(32 * (n + k - 2), s, 5)
    else DecodeCell(16 * (n + k - 4), s, 4)
  }

  lemma CellIs(cell: DecodeCell, n: nat, k: nat)
    requires 1 <= n <= 4 && k < n && IsCell(cell, n + k, 6)
    ensures cell == CellAt(cell.symbol, n, k)
  {
    hide Pow2, HighBit, Shl;
    Pow2Values();
    var next := n + k;
    var h := if next == 1 then 0 else if next < 4 then 1 else 2;
    HighBitUnique(next, h);
    ShlIsMul(next, 6 - h);
  }

  lemma CellCount(s: nat, v: seq<nat>)
    requires CellsOf(s, v)
    ensures LL_DEFAULT_NORM[s] == |v| && 1 <= |v| <= 4 && v[|v| - 1] < 64
  {
    hide LL_DEFAULT_NORM, Rank;
    NormOf(s);
  }

  /** All cells of one symbol. */
  lemma SymbolCells(dt: DTable, t: seq<nat>, s: nat, v: seq<nat>)
    requires IsSpread(LL_DEFAULT_NORM, 6, t) && IsDTable(dt, LL_DEFAULT_NORM, 6, t) && CellsOf(s, v)
    ensures |dt.cells| == 64 && 1 <= |v| <= 4
    ensures forall k :: 0 <= k < |v| ==> v[k] < 64 && dt.cells[v[k]] == CellAt(s, |v|, k)
  {
    hide LL_DEFAULT_NORM, Rank, IsSpread, Count, IsCell, LaidBefore, ValidNorm, High;
    DefaultIsValid();
    Pow2Values();
    SpreadSize(LL_DEFAULT_NORM, 6, t);
    CellCount(s, v);
    forall k | 0 <= k < |v|
      ensures t[v[k]] == s
    {
      CellSymbol(t, s, v[k]);
    }
    SpreadCount(LL_DEFAULT_NORM, 6, t, s);
    forall k | 0 <= k < |v|
      ensures v[k] < 64 && dt.cells[v[k]] == CellAt(s, |v|, k)
    {
      CountAt(t, s, v, k);
      CellIs(dt.cells[v[k]], |v|, k);
    }
  }

  /** Cell u belongs to symbol s. */
  predicate Belongs(s: nat, u: nat)
  {
    u < 60 && LaidBefore(s) <= Rank(u) < LaidBefore(s + 1)
  }

  lemma OneCell(dt: DTable, t: seq<nat>, s: nat, a: nat)
    requires IsSpread(LL_DEFAULT_NORM, 6, t) && IsDTable(dt, LL_DEFAULT_NORM, 6, t)
    requires s < 32 && LaidBefore(s) + 1 == LaidBefore(s + 1) && Belongs(s, a)
    ensures |dt.cells| == 64 && dt.cells[a] == CellAt(s, 1, 0)
  {
    hide LL_DEFAULT_NORM, Rank, IsSpread, IsDTable, LaidBefore;
    var v := [a];
    assert v[0] == a;
    SymbolCells(dt, t, s, v);
  }

  lemma TwoCells(dt: DTable, t: seq<nat>, s: nat, a: nat, b: nat)
    requires IsSpread(LL_DEFAULT_NORM, 6, t) && IsDTable(dt, LL_DEFAULT_NORM, 6, t)
    requires s < 32 && LaidBefore(s) + 2 == LaidBefore(s + 1) && Belongs(s, a) && Belongs(s, b) && a < b
    ensures |dt.cells| == 64 && dt.cells[a] == CellAt(s, 2, 0) && dt.cells[b] == CellAt(s, 2, 1)
  {
    hide LL_DEFAULT_NORM, Rank, IsSpread, IsDTable, LaidBefore;
    var v := [a, b];
    assert v[0] == a && v[1] == b;
    SymbolCells(dt, t, s, v);
  }

  lemma ThreeCells(dt: DTable, t: seq<nat>, s: nat, a: nat, b: nat, c: nat)
    requires IsSpread(LL_DEFAULT_NORM, 6, t) && IsDTable(dt, LL_DEFAULT_NORM, 6, t)
    requires s < 32 && LaidBefore(s) + 3 == LaidBefore(s + 1)
    requires Belongs(s, a) && Belongs(s, b) && Belongs(s, c) && a < b < c
    ensures |dt.cells| == 64
    ensures dt.cells[a] == CellAt(s, 3, 0) && dt.cells[b] == CellAt(s, 3, 1) && dt.cells[c] == CellAt(s, 3, 2)
  {
    hide LL_DEFAULT_NORM, Rank, IsSpread, IsDTable, LaidBefore;
    var v := [a, b, c];
    assert v[0] == a && v[1] == b && v[2] == c;
    SymbolCells(dt, t, s, v);
  }

  /** The cells of the most frequent symbol. */
  lemma ZeroCells(dt: DTable, t: seq<nat>)
    requires IsSpread(LL_DEFAULT_NORM, 6, t) && IsDTable(dt, LL_DEFAULT_NORM, 6, t)
    ensures |dt.cells| == 64
    ensures dt.cells[0] == CellAt(0, 4, 0) && dt.cells[1] == CellAt(0, 4, 1)
    ensures dt.cells[22] == CellAt(0, 4, 2) && dt.cells[43] == CellAt(0, 4, 3)
  {
    hide LL_DEFAULT_NORM, IsSpread, IsDTable;
    var v := [0, 1, 22, 43];
    assert v[0] == 0 && v[1] == 1 && v[2] == 22 && v[3] == 43;
    SymbolCells(dt, t, 0, v);
  }

  lemma LowPlace(norm: seq<int>, tableLog: nat, t: seq<nat>, s: nat)
    requires IsSpread(norm, tableLog, t) && s < |norm| && norm[s] == -1
    ensures |t| == Pow2(tableLog) && LowCount(norm, s) < |t| && t[|t| - 1 - LowCount(norm, s)] == s
  {
  }

  /** The cell of a low-probability symbol. */
  lemma LowCell(dt: DTable, t: seq<nat>, s: nat)
    requires IsSpread(LL_DEFAULT_NORM, 6, t) && IsDTable(dt, LL_DEFAULT_NORM, 6, t) && 32 <= s < 36
    ensures |dt.cells| == 64 && dt.cells[95 - s] == CellAt(s, 1, 0)
  {
    hide LL_DEFAULT_NORM, Count, IsCell, LowCount, ValidNorm, High, IsSpread, Start, Laid;
    DefaultIsValid();
    Pow2Values();
    NormOf(s);
    LaidSizes(s);
    LowPlace(LL_DEFAULT_NORM, 6, t, s);
    SlotBounds(LL_DEFAULT_NORM, 6, t, 95 - s);
    CellIs(dt.cells[95 - s], 1, 0);
  }

  // ----- the printed table -----

  /** Cell u is the printed one. */
  predicate Printed(cells: seq<DecodeCell>, u: nat)
  {
    && u < |cells| && u < |LL_DEFAULT_DTABLE| && cells[u].symbol < |LL_BITS| == |LL_BASE|
    && LLSymbolOf(cells[u]) == LL_DEFAULT_DTABLE[u]
  }

  lemma SmallLL(s: nat)
    requires s < 16
    ensures |LL_BITS| == |LL_BASE| == 36 && LL_BITS[s] == 0 && LL_BASE[s] == s
  {
  }

  lemma PrintedRow0()
    ensures |LL_DEFAULT_DTABLE| == 64
    ensures LL_DEFAULT_DTABLE[0] == SeqSymbol(0, 0, 4, 0) && LL_DEFAULT_DTABLE[1] == SeqSymbol(16, 0, 4, 0)
    ensures LL_DEFAULT_DTABLE[2] == SeqSymbol(32, 0, 5, 1) && LL_DEFAULT_DTABLE[3] == SeqSymbol(0, 0, 5, 3)
    ensures LL_DEFAULT_DTABLE[4] == SeqSymbol(0, 0, 5, 4) && LL_DEFAULT_DTABLE[5] == SeqSymbol(0, 0, 5, 6)
    ensures LL_DEFAULT_DTABLE[6] == SeqSymbol(0, 0, 5, 7) && LL_DEFAULT_DTABLE[7] == SeqSymbol(0, 0, 5, 9)
    ensures LL_DEFAULT_DTABLE[8] == SeqSymbol(0, 0, 5, 10) && LL_DEFAULT_DTABLE[9] == SeqSymbol(0, 0, 5, 12)
    ensures LL_DEFAULT_DTABLE[10] == SeqSymbol(0, 0, 6, 14) && LL_DEFAULT_DTABLE[11] == SeqSymbol(0, 1, 5, 16)
    ensures LL_DEFAULT_DTABLE[12] == SeqSymbol(0, 1, 5, 20) && LL_DEFAULT_DTABLE[13] == SeqSymbol(0, 1, 5, 22)
    ensures LL_DEFAULT_DTABLE[14] == SeqSymbol(0, 2, 5, 28) && LL_DEFAULT_DTABLE[15] == SeqSymbol(0, 3, 5, 32)
  {
  }

  lemma PrintedRow1()
    ensures |LL_DEFAULT_DTABLE| == 64
    ensures LL_DEFAULT_DTABLE[16] == SeqSymbol(0, 4, 5, 48) && LL_DEFAULT_DTABLE[17] == SeqSymbol(32, 6, 5, 64)
    ensures LL_DEFAULT_DTABLE[18] == SeqSymbol(0, 7, 5, 128) && LL_DEFAULT_DTABLE[19] == SeqSymbol(0, 8, 6, 256)
    ensures LL_DEFAULT_DTABLE[20] == SeqSymbol(0, 10, 6, 1024) && LL_DEFAULT_DTABLE[21] == SeqSymbol(0, 12, 6, 4096)
    ensures LL_DEFAULT_DTABLE[22] == SeqSymbol(32, 0, 4, 0) && LL_DEFAULT_DTABLE[23] == SeqSymbol(0, 0, 4, 1)
    ensures LL_DEFAULT_DTABLE[24] == SeqSymbol(0, 0, 5, 2) && LL_DEFAULT_DTABLE[25] == SeqSymbol(32, 0, 5, 4)
    ensures LL_DEFAULT_DTABLE[26] == SeqSymbol(0, 0, 5, 5) && LL_DEFAULT_DTABLE[27] == SeqSymbol(32, 0, 5, 7)
    ensures LL_DEFAULT_DTABLE[28] == SeqSymbol(0, 0, 5, 8) && LL_DEFAULT_DTABLE[29] == SeqSymbol(32, 0, 5, 10)
    ensures LL_DEFAULT_DTABLE[30] == SeqSymbol(0, 0, 5, 11) && LL_DEFAULT_DTABLE[31] == SeqSymbol(0, 0, 6, 13)
  {
  }

  lemma PrintedRow2()
    ensures |LL_DEFAULT_DTABLE| == 64
    ensures LL_DEFAULT_DTABLE[32] == SeqSymbol(32, 1, 5, 16) && LL_DEFAULT_DTABLE[33] == SeqSymbol(0, 1, 5, 18)
    ensures LL_DEFAULT_DTABLE[34] == SeqSymbol(32, 1, 5, 22) && LL_DEFAULT_DTABLE[35] == SeqSymbol(0, 2, 5, 24)
    ensures LL_DEFAULT_DTABLE[36] == SeqSymbol(32, 3, 5, 32) && LL_DEFAULT_DTABLE[37] == SeqSymbol(0, 3, 5, 40)
    ensures LL_DEFAULT_DTABLE[38] == SeqSymbol(0, 6, 4, 64) && LL_DEFAULT_DTABLE[39] == SeqSymbol(16, 6, 4, 64)
    ensures LL_DEFAULT_DTABLE[40] == SeqSymbol(32, 7, 5, 128) && LL_DEFAULT_DTABLE[41] == SeqSymbol(0, 9, 6, 512)
    ensures LL_DEFAULT_DTABLE[42] == SeqSymbol(0, 11, 6, 2048) && LL_DEFAULT_DTABLE[43] == SeqSymbol(48, 0, 4, 0)
    ensures LL_DEFAULT_DTABLE[44] == SeqSymbol(16, 0, 4, 1) && LL_DEFAULT_DTABLE[45] == SeqSymbol(32, 0, 5, 2)
    ensures LL_DEFAULT_DTABLE[46] == SeqSymbol(32, 0, 5, 3) && LL_DEFAULT_DTABLE[47] == SeqSymbol(32, 0, 5, 5)
  {
  }

  lemma PrintedRow3()
    ensures |LL_DEFAULT_DTABLE| == 64
    ensures LL_DEFAULT_DTABLE[48] == SeqSymbol(32, 0, 5, 6) && LL_DEFAULT_DTABLE[49] == SeqSymbol(32, 0, 5, 8)
    ensures LL_DEFAULT_DTABLE[50] == SeqSymbol(32, 0, 5, 9) && LL_DEFAULT_DTABLE[51] == SeqSymbol(32, 0, 5, 11)
    ensures LL_DEFAULT_DTABLE[52] == SeqSymbol(32, 0, 5, 12) && LL_DEFAULT_DTABLE[53] == SeqSymbol(0, 0, 6, 15)
    ensures LL_DEFAULT_DTABLE[54] == SeqSymbol(32, 1, 5, 18) && LL_DEFAULT_DTABLE[55] == SeqSymbol(32, 1, 5, 20)
    ensures LL_DEFAULT_DTABLE[56] == SeqSymbol(32, 2, 5, 24) && LL_DEFAULT_DTABLE[57] == SeqSymbol(32, 2, 5, 28)
    ensures LL_DEFAULT_DTABLE[58] == SeqSymbol(32, 3, 5, 40) && LL_DEFAULT_DTABLE[59] == SeqSymbol(32, 4, 5, 48)
    ensures LL_DEFAULT_DTABLE[60] == SeqSymbol(0, 16, 6, 65536) && LL_DEFAULT_DTABLE[61] == SeqSymbol(0, 15, 6, 32768)
    ensures LL_DEFAULT_DTABLE[62] == SeqSymbol(0, 14, 6, 16384) && LL_DEFAULT_DTABLE[63] == SeqSymbol(0, 13, 6, 8192)
  {
  }

  lemma PrintedSymbols0(dt: DTable, t: seq<nat>)
    requires IsSpread(LL_DEFAULT_NORM, 6, t) && IsDTable(dt, LL_DEFAULT_NORM, 6, t)
    ensures Printed(dt.cells, 0) && Printed(dt.cells, 1) && Printed(dt.cells, 2) && Printed(dt.cells, 3)
    ensures Printed(dt.cells, 22) && Printed(dt.cells, 23) && Printed(dt.cells, 24) && Printed(dt.cells, 43)
    ensures Printed(dt.cells, 44) && Printed(dt.cells, 45) && Printed(dt.cells, 46)
  {
    hide IsSpread, IsDTable, LL_DEFAULT_NORM, LL_DEFAULT_DTABLE, LL_BASE, LL_BITS;
    PrintedRow0();
    PrintedRow1();
    PrintedRow2();
    SmallLL(0);
    SmallLL(1);
    SmallLL(2);
    SmallLL(3);
    ZeroCells(dt, t);
    ThreeCells(dt, t, 1, 2, 23, 44);
    TwoCells(dt, t, 2, 24, 45);
    TwoCells(dt, t, 3, 3, 46);
  }

  lemma PrintedSymbols1(dt: DTable, t: seq<nat>)
    requires IsSpread(LL_DEFAULT_NORM, 6, t) && IsDTable(dt, LL_DEFAULT_NORM, 6, t)
    ensures Printed(dt.cells, 4) && Printed(dt.cells, 5) && Printed(dt.cells, 6) && Printed(dt.cells, 25)
    ensures Printed(dt.cells, 26) && Printed(dt.cells, 27) && Printed(dt.cells, 47) && Printed(dt.cells, 48)
  {
    hide IsSpread, IsDTable, LL_DEFAULT_NORM, LL_DEFAULT_DTABLE, LL_BASE, LL_BITS;
    PrintedRow0();
    PrintedRow1();
    PrintedRow2();
    PrintedRow3();
    SmallLL(4);
    SmallLL(5);
    SmallLL(6);
    SmallLL(7);
    TwoCells(dt, t, 4, 4, 25);
    TwoCells(dt, t, 5, 26, 47);
    TwoCells(dt, t, 6, 5, 48);
    TwoCells(dt, t, 7, 6, 27);
  }

  lemma PrintedSymbols2(dt: DTable, t: seq<nat>)
    requires IsSpread(LL_DEFAULT_NORM, 6, t) && IsDTable(dt, LL_DEFAULT_NORM, 6, t)
    ensures Printed(dt.cells, 7) && Printed(dt.cells, 8) && Printed(dt.cells, 28) && Printed(dt.cells, 29)
    ensures Printed(dt.cells, 30) && Printed(dt.cells, 49) && Printed(dt.cells, 50) && Printed(dt.cells, 51)
  {
    hide IsSpread, IsDTable, LL_DEFAULT_NORM, LL_DEFAULT_DTABLE, LL_BASE, LL_BITS;
    PrintedRow0();
    PrintedRow1();
    PrintedRow3();
    SmallLL(8);
    SmallLL(9);
    SmallLL(10);
    SmallLL(11);
    TwoCells(dt, t, 8, 28, 49);
    TwoCells(dt, t, 9, 7, 50);
    TwoCells(dt, t, 10, 8, 29);
    TwoCells(dt, t, 11, 30, 51);
  }

  lemma PrintedSymbols3(dt: DTable, t: seq<nat>)
    requires IsSpread(LL_DEFAULT_NORM, 6, t) && IsDTable(dt, LL_DEFAULT_NORM, 6, t)
    ensures Printed(dt.cells, 9) && Printed(dt.cells, 10) && Printed(dt.cells, 31) && Printed(dt.cells, 52)
    ensures Printed(dt.cells, 53)
  {
    hide IsSpread, IsDTable, LL_DEFAULT_NORM, LL_DEFAULT_DTABLE, LL_BASE, LL_BITS;
    PrintedRow0();
    PrintedRow1();
    PrintedRow3();
    SmallLL(12);
    SmallLL(13);
    SmallLL(14);
    SmallLL(15);
    TwoCells(dt, t, 12, 9, 52);
    OneCell(dt, t, 13, 31);
    OneCell(dt, t, 14, 10);
    OneCell(dt, t, 15, 53);
  }

  lemma PrintedSymbols4(dt: DTable, t: seq<nat>)
    requires IsSpread(LL_DEFAULT_NORM, 6, t) && IsDTable(dt, LL_DEFAULT_NORM, 6, t)
    ensures Printed(dt.cells, 11) && Printed(dt.cells, 12) && Printed(dt.cells, 13) && Printed(dt.cells, 32)
    ensures Printed(dt.cells, 33) && Printed(dt.cells, 34) && Printed(dt.cells, 54) && Printed(dt.cells, 55)
  {
    hide IsSpread, IsDTable, LL_DEFAULT_NORM, LL_DEFAULT_DTABLE, LL_BASE, LL_BITS;
    PrintedRow0();
    PrintedRow2();
    PrintedRow3();
    LLTable();
    TwoCells(dt, t, 16, 11, 32);
    TwoCells(dt, t, 17, 33, 54);
    TwoCells(dt, t, 18, 12, 55);
    TwoCells(dt, t, 19, 13, 34);
  }

  lemma PrintedSymbols5(dt: DTable, t: seq<nat>)
    requires IsSpread(LL_DEFAULT_NORM, 6, t) && IsDTable(dt, LL_DEFAULT_NORM, 6, t)
    ensures Printed(dt.cells, 14) && Printed(dt.cells, 15) && Printed(dt.cells, 35) && Printed(dt.cells, 36)
    ensures Printed(dt.cells, 37) && Printed(dt.cells, 56) && Printed(dt.cells, 57) && Printed(dt.cells, 58)
  {
    hide IsSpread, IsDTable, LL_DEFAULT_NORM, LL_DEFAULT_DTABLE, LL_BASE, LL_BITS;
    PrintedRow0();
    PrintedRow2();
    PrintedRow3();
    LLTable();
    TwoCells(dt, t, 20, 35, 56);
    TwoCells(dt, t, 21, 14, 57);
    TwoCells(dt, t, 22, 15, 36);
    TwoCells(dt, t, 23, 37, 58);
  }

  lemma PrintedSymbols6(dt: DTable, t: seq<nat>)
    requires IsSpread(LL_DEFAULT_NORM, 6, t) && IsDTable(dt, LL_DEFAULT_NORM, 6, t)
    ensures Printed(dt.cells, 16) && Printed(dt.cells, 17) && Printed(dt.cells, 18) && Printed(dt.cells, 19)
    ensures Printed(dt.cells, 38) && Printed(dt.cells, 39) && Printed(dt.cells, 40) && Printed(dt.cells, 59)
  {
    hide IsSpread, IsDTable, LL_DEFAULT_NORM, LL_DEFAULT_DTABLE, LL_BASE, LL_BITS;
    PrintedRow1();
    PrintedRow2();
    PrintedRow3();
    LLTable();
    TwoCells(dt, t, 24, 16, 59);
    ThreeCells(dt, t, 25, 17, 38, 39);
    TwoCells(dt, t, 26, 18, 40);
    OneCell(dt, t, 27, 19);
  }

  lemma PrintedSymbols7(dt: DTable, t: seq<nat>)
    requires IsSpread(LL_DEFAULT_NORM, 6, t) && IsDTable(dt, LL_DEFAULT_NORM, 6, t)
    ensures Printed(dt.cells, 20) && Printed(dt.cells, 21) && Printed(dt.cells, 41) && Printed(dt.cells, 42)
  {
    hide IsSpread, IsDTable, LL_DEFAULT_NORM, LL_DEFAULT_DTABLE, LL_BASE, LL_BITS;
    PrintedRow1();
    PrintedRow2();
    LLTable();
    OneCell(dt, t, 28, 41);
    OneCell(dt, t, 29, 20);
    OneCell(dt, t, 30, 42);
    OneCell(dt, t, 31, 21);
  }

  lemma PrintedLow(dt: DTable, t: seq<nat>)
    requires IsSpread(LL_DEFAULT_NORM, 6, t) && IsDTable(dt, LL_DEFAULT_NORM, 6, t)
    ensures Printed(dt.cells, 60) && Printed(dt.cells, 61) && Printed(dt.cells, 62) && Printed(dt.cells, 63)
  {
    hide IsSpread, IsDTable, LL_DEFAULT_NORM, LL_DEFAULT_DTABLE, LL_BASE, LL_BITS;
    PrintedRow3();
    LLTable();
    LowCell(dt, t, 32);
    LowCell(dt, t, 33);
    LowCell(dt, t, 34);
    LowCell(dt, t, 35);
  }

  /**
    What FSE_buildDTable_internal builds from the default distribution of literal lengths is the table that the
    format prints: every cell's next state, its bits, and the base and extra bits of its code.
   */
  lemma DefaultDTable(dt: DTable, t: seq<nat>)
    requires IsSpread(LL_DEFAULT_NORM, LL_DEFAULT_NORM_LOG, t)
    requires IsDTable(dt, LL_DEFAULT_NORM, LL_DEFAULT_NORM_LOG, t)
    ensures dt.fastMode && |dt.cells| == |LL_DEFAULT_DTABLE| == 64
    ensures forall u :: 0 <= u < 64 ==> Printed(dt.cells, u)
  {
    hide IsSpread, LL_DEFAULT_NORM, LL_DEFAULT_DTABLE, Printed, Count, IsCell;
    PrintedSymbols0(dt, t);
    PrintedSymbols1(dt, t);
    PrintedSymbols2(dt, t);
    PrintedSymbols3(dt, t);
    PrintedSymbols4(dt, t);
    PrintedSymbols5(dt, t);
    PrintedSymbols6(dt, t);
    PrintedSymbols7(dt, t);
    PrintedLow(dt, t);
    PrintedRow0();
    FastDefault(dt, t);
    forall u | 0 <= u < 64
      ensures Printed(dt.cells, u)
    {
      RowPrinted(dt.cells, u / 16 * 16, u);
    }
  }

  lemma FastDefault(dt: DTable, t: seq<nat>)
    requires IsDTable(dt, LL_DEFAULT_NORM, 6, t)
    ensures dt.fastMode && |dt.cells| == 64
  {
    hide LL_DEFAULT_NORM, Count, IsCell;
    Pow2Values();
    DefaultSize();
    forall s | 0 <= s < 36
      ensures LL_DEFAULT_NORM[s] <= 4
    {
      NormOf(s);
    }
  }

  lemma RowPrinted(cells: seq<DecodeCell>, row: nat, u: nat)
    requires row <= u < row + 16
    requires Printed(cells, row) && Printed(cells, row + 1) && Printed(cells, row + 2) && Printed(cells, row + 3)
    requires Printed(cells, row + 4) && Printed(cells, row + 5) && Printed(cells, row + 6) && Printed(cells, row + 7)
    requires Printed(cells, row + 8) && Printed(cells, row + 9) && Printed(cells, row + 10) && Printed(cells, row + 11)
    requires Printed(cells, row + 12) && Printed(cells, row + 13) && Printed(cells, row + 14)
    requires Printed(cells, row + 15)
    ensures Printed(cells, u)
  {
    hide Printed;
  }
}
