/** FSE_normalizeCount and its fallback: a histogram scaled to a sum that is exactly a power of two. */
module FseNormalize {
  import opened Bits
  import opened Wrappers
  import opened FseSpread
  import opened Histogram

  const DEFAULT_TABLELOG := 11
  const NOT_YET_ASSIGNED := -2

  /** FSE_minTableLog. */
  function MinTableLog(srcSize: nat, maxSymbolValue: nat): nat
    requires srcSize > 0 && maxSymbolValue > 0
  {
    Min(HighBit(srcSize) + 1, HighBit(maxSymbolValue) + 2)
  }

  lemma HighBitMeans(x: nat, n: nat)
    requires x > 0
    ensures HighBit(x) < n <==> x < Pow2(n)
  {
    if HighBit(x) < n {
      Pow2Strict(HighBit(x), n);
    } else {
      Pow2Mono(n, HighBit(x));
    }
  }

  /** The minimum is the least log whose table has more cells than there is input, or than twice the greatest symbol. */
  lemma LeastLog(srcSize: nat, maxSymbolValue: nat, tableLog: nat)
    requires srcSize > 0 && maxSymbolValue > 0
    ensures tableLog >= MinTableLog(srcSize, maxSymbolValue) <==>
              srcSize < Pow2(tableLog) || 2 * maxSymbolValue < Pow2(tableLog)
  {
    HighBitMeans(srcSize, tableLog);
    if tableLog > 0 {
      HighBitMeans(maxSymbolValue, tableLog - 1);
    }
  }

  /** The table log is not too small for the histogram. */
  predicate Sufficient(tableLog: nat, total: nat, symbols: nat)
  {
    total > 0 && symbols >= 2 && tableLog >= MinTableLog(total, symbols - 1)
  }

  /** Counts up to this one are below half a cell. */
  function LowThreshold(total: nat, tableLog: nat): nat
  {
    Ratio(total, Pow2(tableLog))
  }

  function Ratio(a: nat, b: nat): nat
    requires b > 0
  {
    a / b
  }

  ghost predicate IsHistogram(count: seq<nat>, total: nat)
  {
    |count| >= 2 && 0 < total == SumTo(count, |count|) <= 0x4000_0000
  }

  /** A share v for a symbol that occurs c times; only counts up to the threshold may get the low-probability mark. */
  predicate Fitted(v: int, c: nat, lowProbCount: int, lowThreshold: nat)
  {
    if c == 0 then v == 0 else v >= 1 || (v == -1 == lowProbCount && c <= lowThreshold)
  }

  ghost predicate AllFitted(norm: seq<int>, count: seq<nat>, n: nat, lowProbCount: int, lowThreshold: nat)
  {
    n <= |count| <= |norm| && forall k :: 0 <= k < n ==> Fitted(norm[k], count[k], lowProbCount, lowThreshold)
  }

  // ----- sums -----

  lemma {:induction false} SumAtMost(count: seq<nat>, n: nat, bound: nat)
    requires n <= |count| && forall k :: 0 <= k < n ==> count[k] <= bound
    ensures SumTo(count, n) <= n * bound
  {
    if n > 0 {
      SumAtMost(count, n - 1, bound);
      MulNext(n - 1, bound);
    }
  }

  /** A table log of at least the minimum leaves room for all symbols, or for all occurrences. */
  lemma MinTableLogMeans(total: nat, symbols: nat, tableLog: nat)
    requires Sufficient(tableLog, total, symbols)
    ensures total < Pow2(tableLog) || symbols < Pow2(tableLog)
  {
    if tableLog >= HighBit(total) + 1 {
      Pow2Mono(HighBit(total) + 1, tableLog);
    } else {
      Pow2Mono(HighBit(symbols - 1) + 2, tableLog);
    }
  }

  /** Some symbol occurs more often than the threshold. */
  lemma SomeLarge(count: seq<nat>, total: nat, tableLog: nat) returns (s: nat)
    requires total == SumTo(count, |count|) && Sufficient(tableLog, total, |count|)
    ensures s < |count| && count[s] > LowThreshold(total, tableLog)
  {
    hide HighBit, Pow2;
    var size := Pow2(tableLog);
    var threshold := LowThreshold(total, tableLog);
    MinTableLogMeans(total, |count|, tableLog);
    if forall k :: 0 <= k < |count| ==> count[k] <= threshold {
      SumAtMost(count, |count|, threshold);
      ThresholdTooSmall(total, size, |count|);
    }
    s :| s < |count| && count[s] > threshold;
  }

  lemma ThresholdTooSmall(total: nat, size: nat, symbols: nat)
    requires total > 0 && size > 0 && (total < size || symbols < size)
    ensures symbols * (total / size) < total
  {
    var q := total / size;
    assert total == q * size + total % size;
    if q == 0 {
      assert symbols * q == 0;
    } else {
      MulMono(symbols + 1, size, q);
      MulNext(symbols, q);
      MulCommutes(size, q);
    }
  }

  // ----- the first method -----

  /** A count above the threshold gets at least one cell. */
  lemma AtLeastOneCell(c: nat, total: nat, tableLog: nat)
    requires 0 < total <= 0x4000_0000 && tableLog <= 30 && c > LowThreshold(total, tableLog)
    ensures c * (Pow2(62) / total) >= Pow2(62 - tableLog)
  {
    hide *;
    Whole(tableLog);
    var size, unit, whole := Pow2(tableLog), Pow2(62 - tableLog), Pow2(62);
    ThresholdIs(total, tableLog);
    AboveThreshold(c, total, size);
    NoLoss(c, total, size, unit, whole, whole / total, whole % total, c * size - total);
  }

  lemma ThresholdIs(total: nat, tableLog: nat)
    ensures LowThreshold(total, tableLog) == total / Pow2(tableLog)
  {
  }

  lemma Whole(tableLog: nat)
    requires tableLog <= 30
    ensures Pow2(62) == Pow2(tableLog) * Pow2(62 - tableLog) == 0x4000_0000_0000_0000
  {
    hide *;
    Pow2Add(tableLog, 62 - tableLog);
    Pow2Add(32, 30);
    Pow2Add(16, 14);
    Pow2Values();
  }

  lemma AboveThreshold(c: nat, total: nat, size: nat)
    requires size > 0 && c > total / size
    ensures c * size >= total + 1
  {
    MulMono(total / size + 1, c, size);
    MulNext(total / size, size);
  }

  lemma NoLoss(c: nat, total: nat, size: nat, unit: nat, whole: nat, q: nat, r: nat, e: nat)
    requires 0 < total <= 0x4000_0000 && whole == size * unit == 0x4000_0000_0000_0000
    requires whole == q * total + r && r < total && c * size == total + e && e >= 1
    ensures c * q >= unit
  {
    if c * q + 1 <= unit {
      MulMono(c * q + 1, unit, size * total);
      assert unit * (size * total) == whole * total;
      assert (c * q + 1) * (size * total) == (c * size) * (q * total) + size * total;
      assert (c * size) * (q * total) == (total + e) * (whole - r);
      assert (total + e) * (whole - r) == total * whole + e * whole - (total + e) * r;
      assert e * whole + size * total <= (total + e) * r;
      MulMono(r, total, total + e);
      MulCommutes(r, total + e);
      MulCommutes(total, total + e);
      assert (total + e) * total == total * total + e * total;
      MulMono(total, 0x4000_0000, total);
      MulMono(total, 0x4000_0000, e);
      MulCommutes(total, e);
    }
  }

  /** rtbTable: how far above the floor a small share has to be to be rounded up. */
  const REST_TO_BEAT: seq<nat> := [0, 473195, 504333, 520860, 550000, 700000, 750000, 830000]

  /** The share of a count above the threshold. */
  function Proba(c: nat, step: nat, scale: nat): nat
    requires scale >= 20
  {
    var floor := Shr(c * step, scale);
    if floor < 8 && c * step - Shl(floor, scale) > Pow2(scale - 20) * REST_TO_BEAT[floor] then floor + 1 else floor
  }

  lemma ProbaPositive(c: nat, total: nat, tableLog: nat)
    requires 0 < total <= 0x4000_0000 && tableLog <= 30 && c > LowThreshold(total, tableLog)
    ensures Proba(c, Pow2(62) / total, 62 - tableLog) >= 1
  {
    hide *;
    var step, unit := Pow2(62) / total, Pow2(62 - tableLog);
    AtLeastOneCell(c, total, tableLog);
    ShrIsDiv(c * step, 62 - tableLog);
    OneUnit(c * step, unit);
    ProbaFloor(c, step, 62 - tableLog);
  }

  lemma OneUnit(x: nat, unit: nat)
    requires x >= unit > 0
    ensures x / unit >= 1
  {
    DivModUnique(x, unit, x / unit, x % unit);
  }

  lemma ProbaFloor(c: nat, step: nat, scale: nat)
    requires scale >= 20
    ensures Shr(c * step, scale) <= Proba(c, step, scale) <= Shr(c * step, scale) + 1
    ensures Proba(c, step, scale) > 8 ==> Proba(c, step, scale) == Shr(c * step, scale)
  {
    hide Shr, Shl, Pow2;
  }

  /**
    A share v is in proportion to what the count is worth in cells. Shares above 8 are not rounded up; smaller ones only
    beyond 9/20 of a cell. Shares below 8 lack less than 4/5 of a cell, and larger ones less than two cells.
   */
  predicate Proportional(v: int, c: nat, total: nat, size: nat)
  {
    && (if v > 8 then v * total <= c * size else (20 * v - 11) * total < 20 * (c * size))
    && (if v < 8 then 5 * (c * size) < (5 * v + 4) * total else c * size < (v + 2) * total)
  }

  lemma Expand(c: nat, total: nat, size: nat, unit: nat, step: nat, r: nat)
    requires step * total + r == size * unit
    ensures (c * step) * total + c * r == (c * size) * unit
  {
    MulAssoc(c, step, total);
    MulAssoc(c, size, unit);
    assert c * (step * total + r) == c * (step * total) + c * r;
  }

  lemma FloorBelow(f: nat, c: nat, total: nat, size: nat, unit: nat, step: nat, r: nat)
    requires unit > 0 && f * unit <= c * step && step * total + r == size * unit
    ensures f * total <= c * size
  {
    Expand(c, total, size, unit, step, r);
    MulMono(f * unit, c * step, total);
    Swap(f, unit, total);
    NonNegativeProduct(c, r);
    MulCancel(f * total, c * size, unit);
  }

  lemma OneMore(g: nat, total: nat, unit: nat)
    ensures ((g + 1) * total) * unit == (g * total) * unit + unit * total
  {
    MulSum(g, 1, total);
    MulSum(g * total, total, unit);
    MulCommutes(unit, total);
  }

  lemma Swap(a: int, b: int, c: int)
    ensures (a * b) * c == (a * c) * b
  {
  }

  lemma NonNegativeProduct(a: nat, b: nat)
    ensures a * b >= 0
  {
  }

  lemma BelowProduct(a: nat, b: nat, unit: nat)
    requires unit > 0 && a * unit < b * unit
    ensures a < b
  {
    if a >= b {
      MulMono(b, a, unit);
    }
  }

  lemma MulCancel(a: int, b: int, unit: nat)
    requires unit > 0 && a * unit <= b * unit
    ensures a <= b
  {
    if a > b {
      MulMono(b + 1, a, unit);
    }
  }

  const MEBI := 0x10_0000

  /** What the product with the step says about the worth of a count, in units of 2^-20 cells. */
  lemma WorthMoreThan(k: nat, c: nat, total: nat, size: nat, g: nat, step: nat, r: nat)
    requires g > 0 && c * step > k * g && step * total + r == size * (g * MEBI) && total > 0
    ensures k * total < (c * size) * MEBI
  {
    Expand(c, total, size, g * MEBI, step, r);
    MulMono(k * g + 1, c * step, total);
    MulSum(k * g, 1, total);
    Swap(k, g, total);
    NonNegativeProduct(c, r);
    MulAssoc(c * size, MEBI, g);
    MulCommutes(MEBI, g);
    BelowProduct(k * total, (c * size) * MEBI, g);
  }

  lemma WorthAtMost(k: nat, c: nat, total: nat, size: nat, g: nat, step: nat, r: nat)
    requires g > 0 && c * step <= k * g && step * total + r == size * (g * MEBI) && c <= g && r < total
    ensures (c * size) * MEBI <= (k + 1) * total
  {
    Expand(c, total, size, g * MEBI, step, r);
    MulMono(c * step, k * g, total);
    Swap(k, g, total);
    MulMono(c, g, r);
    MulMono(r, total, g);
    OneMore(k, total, g);
    MulAssoc(c * size, MEBI, g);
    MulCommutes(MEBI, g);
    MulCancel((c * size) * MEBI, (k + 1) * total, g);
  }

  /** The same in cells, for a share with floor f whose rest is as large, or as small, as this. */
  lemma RoundedUp(f: nat, rest: nat, x: nat, total: nat)
    requires (f * MEBI + rest) * total < x * MEBI && 20 * rest >= 9 * MEBI
    ensures (20 * f + 9) * total < 20 * x
  {
    MulMono((20 * f + 9) * MEBI, 20 * (f * MEBI + rest), total);
    MulAssoc(20, f * MEBI + rest, total);
    Swap(20 * f + 9, MEBI, total);
  }

  lemma RoundedDown(f: nat, rest: nat, x: nat, total: nat)
    requires x * MEBI <= (f * MEBI + rest + 1) * total && total > 0 && 5 * (rest + 1) < 4 * MEBI
    ensures 5 * x < (5 * f + 4) * total
  {
    var k := f * MEBI + rest + 1;
    MulMono(5 * k + 1, (5 * f + 4) * MEBI, total);
    MulSum(5 * k, 1, total);
    MulAssoc(5, k, total);
    Swap(5 * f + 4, MEBI, total);
  }

  lemma LessThanNext(f: nat, x: nat, total: nat)
    requires x * MEBI <= ((f + 1) * MEBI + 1) * total && total > 0
    ensures x < (f + 2) * total && 5 * x < (5 * f + 9) * total
  {
    var k := (f + 1) * MEBI + 1;
    MulMono(5 * k + 1, (5 * f + 9) * MEBI, total);
    MulSum(5 * k, 1, total);
    MulAssoc(5, k, total);
    Swap(5 * f + 9, MEBI, total);
    MulMono(5 * f + 9, 5 * (f + 2), total);
    MulAssoc(5, f + 2, total);
  }

  lemma RestToBeat(f: nat)
    requires 1 <= f < 8
    ensures f < |REST_TO_BEAT| && 20 * REST_TO_BEAT[f] >= 9 * 0x10_0000
    ensures 5 * (REST_TO_BEAT[f] + 1) < 4 * 0x10_0000
  {
    var t := REST_TO_BEAT;
    assert t[1] == 473195 && t[2] == 504333 && t[3] == 520860 && t[4] == 550000 && t[5] == 700000;
    assert t[6] == 750000 && t[7] == 830000;
  }

  /** When a share is rounded up. */
  lemma ProbaRounds(c: nat, step: nat, scale: nat, g: nat)
    requires scale >= 20 && g == Pow2(scale - 20) && Pow2(scale) == g * MEBI
    ensures var f, v := Shr(c * step, scale), Proba(c, step, scale);
            && |REST_TO_BEAT| == 8 && (v == f || v == f + 1) && (f >= 8 ==> v == f)
            && (f < 8 ==> (v == f + 1 <==> c * step > (f * MEBI + REST_TO_BEAT[f]) * g))
  {
    hide Shr, Shl, REST_TO_BEAT, Pow2;
    var f := Shr(c * step, scale);
    RestToBeats();
    ShlIsMul(f, scale);
    MulAssoc(f, MEBI, g);
    MulCommutes(MEBI, g);
    if f < 8 {
      MulSum(f * MEBI, REST_TO_BEAT[f], g);
      MulCommutes(g, REST_TO_BEAT[f]);
    }
  }

  lemma RestToBeats()
    ensures |REST_TO_BEAT| == 8
  {
  }

  /** The share v of a count c whose product with the step has the floor f. */
  lemma RoundedProportional(v: nat, f: nat, c: nat, total: nat, size: nat, g: nat, step: nat, r: nat)
    requires 0 < g && c <= g && r < total && step * total + r == size * (g * MEBI)
    requires f >= 1 && f * (g * MEBI) <= c * step <= ((f + 1) * MEBI) * g
    requires (v == f || v == f + 1) && (f >= 8 ==> v == f) && |REST_TO_BEAT| == 8
    requires f < 8 ==> (v == f + 1 <==> c * step > (f * MEBI + REST_TO_BEAT[f]) * g)
    ensures Proportional(v, c, total, size)
  {
    hide REST_TO_BEAT, Proportional;
    FloorBelow(f, c, total, size, g * MEBI, step, r);
    WorthAtMost((f + 1) * MEBI, c, total, size, g, step, r);
    LessThanNext(f, c * size, total);
    if f < 8 {
      var rest := REST_TO_BEAT[f];
      RestToBeat(f);
      if v == f + 1 {
        WorthMoreThan(f * MEBI + rest, c, total, size, g, step, r);
        RoundedUp(f, rest, c * size, total);
      } else {
        WorthAtMost(f * MEBI + rest, c, total, size, g, step, r);
        RoundedDown(f, rest, c * size, total);
      }
    }
    ProportionalMeans(v, f, c, total, size);
  }

  /** The share of the first method is in proportion. */
  lemma ProbaProportional(c: nat, total: nat, tableLog: nat)
    requires 0 < total <= 0x4000_0000 && tableLog <= 12 && LowThreshold(total, tableLog) < c <= total
    ensures Proportional(Proba(c, Ratio(Pow2(62), total), 62 - tableLog), c, total, Pow2(tableLog))
  {
    hide *;
    var whole, unit, g := Pow2(62), Pow2(62 - tableLog), Pow2(42 - tableLog);
    var step, r := Ratio(whole, total), whole % total;
    RatioRest(whole, total);
    Whole(tableLog);
    UnitLarge(tableLog);
    var f := Shr(c * step, 62 - tableLog);
    FloorOf(c * step, 62 - tableLog);
    MulAssoc(f + 1, MEBI, g);
    MulCommutes(MEBI, g);
    ProbaRounds(c, step, 62 - tableLog, g);
    FloorPositive(c, total, tableLog);
    RoundedProportional(Proba(c, step, 62 - tableLog), f, c, total, Pow2(tableLog), g, step, r);
  }

  lemma FloorOf(x: nat, n: nat)
    ensures Shr(x, n) * Pow2(n) <= x <= (Shr(x, n) + 1) * Pow2(n)
  {
    hide *;
    ShrIsDiv(x, n);
    Quotient(x, Pow2(n));
    MulNext(Shr(x, n), Pow2(n));
  }

  lemma FloorPositive(c: nat, total: nat, tableLog: nat)
    requires 0 < total <= 0x4000_0000 && tableLog <= 30 && c > LowThreshold(total, tableLog)
    ensures Shr(c * Ratio(Pow2(62), total), 62 - tableLog) >= 1
  {
    hide *;
    var unit := Pow2(62 - tableLog);
    RatioIs(Pow2(62), total);
    AtLeastOneCell(c, total, tableLog);
    ShrIsDiv(c * Ratio(Pow2(62), total), 62 - tableLog);
    OneUnit(c * Ratio(Pow2(62), total), unit);
  }

  lemma RatioIs(a: nat, b: nat)
    requires b > 0
    ensures Ratio(a, b) == a / b
  {
  }

  lemma RatioRest(a: nat, b: nat)
    requires b > 0
    ensures a == Ratio(a, b) * b + a % b
  {
  }

  lemma UnitLarge(tableLog: nat)
    requires tableLog <= 12
    ensures Pow2(62 - tableLog) >= Pow2(42 - tableLog) >= 0x4000_0000
    ensures Pow2(62 - tableLog) == Pow2(42 - tableLog) * MEBI
  {
    hide Pow2;
    Pow2Values();
    Pow2Mono(30, 42 - tableLog);
    Pow2Mono(42 - tableLog, 62 - tableLog);
    Pow2Add(16, 14);
    Pow2Add(16, 4);
    Pow2Add(42 - tableLog, 20);
  }

  lemma ProportionalMeans(v: nat, f: nat, c: nat, total: nat, size: nat)
    requires total > 0 && f * total <= c * size < (f + 2) * total && 5 * (c * size) < (5 * f + 9) * total
    requires v == f || (v == f + 1 && f < 8)
    requires v == f + 1 ==> (20 * f + 9) * total < 20 * (c * size)
    requires f < 8 && v == f ==> 5 * (c * size) < (5 * f + 4) * total
    ensures Proportional(v, c, total, size)
  {
    MulMono(f + 2, v + 2, total);
    MulSum(20 * f, -11, total);
    MulAssoc(20, f, total);
  }

  /** After n symbols of the first method. */
  ghost predicate FirstPass(norm: seq<int>, count: seq<nat>, n: nat, low: int, threshold: nat, left: int, size: nat,
                            largest: nat, largestP: int)
  {
    && n <= |count| <= |norm|
    && AllFitted(norm, count, n, low, threshold)
    && left == size - Start(norm, n)
    && (largestP > 0 ==> largest < n && norm[largest] == largestP && count[largest] > threshold)
    && (forall k :: 0 <= k < n && count[k] > threshold ==> largestP > 0)
  }

  lemma FirstPassStep(norm: seq<int>, count: seq<nat>, n: nat, low: int, threshold: nat, left: int, size: nat,
                      largest: nat, largestP: int, v: int)
    requires FirstPass(norm, count, n, low, threshold, left, size, largest, largestP) && n < |count|
    requires Fitted(v, count[n], low, threshold)
    requires count[n] > threshold ==> v >= 1
    ensures var wins := count[n] > threshold && v > largestP;
            FirstPass(norm[n := v], count, n + 1, low, threshold, left - Abs(v), size,
                      if wins then n else largest, if wins then v else largestP)
  {
    StartPrefix(norm, norm[n := v], n);
    StartStep(norm[n := v], n);
  }

  /** Where the first method can put what is left over. */
  lemma FirstPassEnds(norm: seq<int>, count: seq<nat>, low: int, threshold: nat, left: int, size: nat, largest: nat,
                      largestP: int)
    requires FirstPass(norm, count, |count|, low, threshold, left, size, largest, largestP)
    requires largestP > 0 && -left < norm[largest] / 2
    ensures var all := norm[largest := norm[largest] + left];
            AllFitted(all, count, |count|, low, threshold) && Start(all, |count|) == size
  {
    StartChange(norm, largest, norm[largest] + left, |count|);
  }

  lemma {:induction false} StartChange(norm: seq<int>, i: nat, v: int, n: nat)
    requires i < n <= |norm|
    ensures Start(norm[i := v], n) == Start(norm, n) - Abs(norm[i]) + Abs(v)
  {
    if i < n - 1 {
      StartChange(norm, i, v, n - 1);
    } else {
      StartPrefix(norm, norm[i := v], i);
    }
  }

  // ----- the second method -----

  /** The cells given out among the first n symbols. */
  ghost function Given(norm: seq<int>, n: nat): nat
    requires n <= |norm|
  {
    if n == 0 then 0 else Given(norm, n - 1) + (if norm[n - 1] == NOT_YET_ASSIGNED then 0 else Abs(norm[n - 1]))
  }

  /** The occurrences of those among the first n symbols that are not assigned yet. */
  ghost function Open(norm: seq<int>, count: seq<nat>, n: nat): nat
    requires n <= |count| <= |norm|
  {
    if n == 0 then 0 else Open(norm, count, n - 1) + (if norm[n - 1] == NOT_YET_ASSIGNED then count[n - 1] else 0)
  }

  /** A symbol has no cell, one cell, or waits. */
  predicate Waits(v: int, c: nat, low: int, threshold: nat)
  {
    if v == NOT_YET_ASSIGNED then c > threshold else Fitted(v, c, low, threshold) && v <= 1
  }

  ghost predicate Marked(norm: seq<int>, count: seq<nat>, n: nat, low: int, threshold: nat)
  {
    n <= |count| <= |norm| && forall k :: 0 <= k < n ==> Waits(norm[k], count[k], low, threshold)
  }

  lemma {:induction false} GivenPrefix(a: seq<int>, b: seq<int>, count: seq<nat>, n: nat)
    requires n <= |count| <= |a| && |count| <= |b| && forall k :: 0 <= k < n ==> a[k] == b[k]
    ensures Given(a, n) == Given(b, n) && Open(a, count, n) == Open(b, count, n)
  {
    if n > 0 {
      GivenPrefix(a, b, count, n - 1);
    }
  }

  /** Assigning one more symbol. */
  lemma {:induction false} Assign(norm: seq<int>, count: seq<nat>, i: nat, v: int, n: nat)
    requires i < n <= |count| <= |norm| && norm[i] == NOT_YET_ASSIGNED != v
    ensures Given(norm[i := v], n) == Given(norm, n) + Abs(v)
    ensures Open(norm[i := v], count, n) == Open(norm, count, n) - count[i]
  {
    if i < n - 1 {
      Assign(norm, count, i, v, n - 1);
    } else {
      GivenPrefix(norm, norm[i := v], count, i);
    }
  }

  /** No more cells than symbols and than occurrences have been given out. */
  lemma {:induction false} GivenBounds(norm: seq<int>, count: seq<nat>, n: nat, low: int, threshold: nat)
    requires n <= |count| <= |norm| && Marked(norm, count, n, low, threshold)
    ensures Given(norm, n) <= n && Given(norm, n) + Open(norm, count, n) <= SumTo(count, n)
    ensures Given(norm, n) == n ==> forall k :: 0 <= k < n ==> norm[k] != NOT_YET_ASSIGNED
    ensures Open(norm, count, n) == 0 ==> forall k :: 0 <= k < n ==> norm[k] != NOT_YET_ASSIGNED
  {
    if n > 0 {
      GivenBounds(norm, count, n - 1, low, threshold);
      assert Waits(norm[n - 1], count[n - 1], low, threshold);
    }
  }

  /** So there is something left to give out. */
  lemma SomethingLeft(norm: seq<int>, count: seq<nat>, total: nat, tableLog: nat, low: int, threshold: nat)
    requires |count| <= |norm| && Marked(norm, count, |count|, low, threshold)
    requires total == SumTo(count, |count|) && Sufficient(tableLog, total, |count|)
    ensures Given(norm, |count|) < Pow2(tableLog)
  {
    hide HighBit, Pow2;
    MinTableLogMeans(total, |count|, tableLog);
    GivenBounds(norm, count, |count|, low, threshold);
  }

  /** When everything is assigned, the cells given out are the cells taken. */
  lemma {:induction false} AllAssigned(norm: seq<int>, count: seq<nat>, n: nat, low: int, threshold: nat)
    requires n <= |count| <= |norm| && forall k :: 0 <= k < n ==> norm[k] != NOT_YET_ASSIGNED
    requires Marked(norm, count, n, low, threshold)
    ensures Start(norm, n) == Given(norm, n) && AllFitted(norm, count, n, low, threshold)
  {
    if n > 0 {
      AllAssigned(norm, count, n - 1, low, threshold);
      assert Waits(norm[n - 1], count[n - 1], low, threshold);
    }
  }

  /** What a count gets at first. */
  function Mark(c: nat, low: int, threshold: nat, lowOne: int): int
  {
    if c == 0 then 0 else if c <= threshold then low else if c <= lowOne then 1 else NOT_YET_ASSIGNED
  }

  ghost function Marks(count: seq<nat>, low: int, threshold: nat, lowOne: int): (m: seq<int>)
    ensures |m| == |count| && forall k :: 0 <= k < |m| ==> m[k] == Mark(count[k], low, threshold, lowOne)
  {
    seq(|count|, k requires 0 <= k < |count| => Mark(count[k], low, threshold, lowOne))
  }

  /** With a higher limit, more of those that wait get one cell. */
  ghost function MoreMarks(m: seq<int>, count: seq<nat>, lowOne: int): (n: seq<int>)
    requires |m| == |count|
    ensures |n| == |m|
    ensures forall k :: 0 <= k < |m| ==> n[k] == if m[k] == NOT_YET_ASSIGNED && count[k] <= lowOne then 1 else m[k]
  {
    seq(|m|, k requires 0 <= k < |m| => if m[k] == NOT_YET_ASSIGNED && count[k] <= lowOne then 1 else m[k])
  }

  /** Low counts get one cell, the others wait. */
  method AssignLow(norm: array<int>, count: seq<nat>, total: nat, lowThreshold: nat, lowOne: int, lowProbCount: int)
    returns (distributed: nat, rest: nat)
    requires |count| <= norm.Length && total == SumTo(count, |count|)
    requires lowProbCount == 1 || lowProbCount == -1
    modifies norm
    ensures Marked(norm[..], count, |count|, lowProbCount, lowThreshold)
    ensures norm[..|count|] == Marks(count, lowProbCount, lowThreshold, lowOne)
    ensures distributed == Given(norm[..], |count|) && rest == Open(norm[..], count, |count|)
    ensures forall k :: |count| <= k < norm.Length ==> norm[k] == old(norm[k])
  {
    distributed, rest := 0, total;
    for s := 0 to |count|
      invariant Marked(norm[..], count, s, lowProbCount, lowThreshold)
      invariant forall k :: 0 <= k < s ==> norm[k] == Mark(count[k], lowProbCount, lowThreshold, lowOne)
      invariant distributed == Given(norm[..], s)
      invariant rest + SumTo(count, s) == total + Open(norm[..], count, s)
      invariant forall k :: |count| <= k < norm.Length ==> norm[k] == old(norm[k])
    {
      SumMonotone(count, s, |count|);
      ghost var before := norm[..];
      if count[s] == 0 {
        norm[s] := 0;
      } else if count[s] <= lowThreshold {
        norm[s] := lowProbCount;
        distributed := distributed + 1;
        rest := rest - count[s];
      } else if count[s] <= lowOne {
        norm[s] := 1;
        distributed := distributed + 1;
        rest := rest - count[s];
      } else {
        norm[s] := NOT_YET_ASSIGNED;
      }
      GivenPrefix(before, norm[..], count, s);
    }
  }

  /** More of the waiting symbols get one cell. */
  method AssignMore(norm: array<int>, count: seq<nat>, distributed0: nat, rest0: nat, lowOne: int,
                    ghost low: int, ghost threshold: nat) returns (distributed: nat, rest: nat)
    requires |count| <= norm.Length && Marked(norm[..], count, |count|, low, threshold)
    requires distributed0 == Given(norm[..], |count|) && rest0 == Open(norm[..], count, |count|)
    modifies norm
    ensures Marked(norm[..], count, |count|, low, threshold)
    ensures norm[..|count|] == MoreMarks(old(norm[..|count|]), count, lowOne)
    ensures distributed == Given(norm[..], |count|) && rest == Open(norm[..], count, |count|)
    ensures forall k :: |count| <= k < norm.Length ==> norm[k] == old(norm[k])
  {
    distributed, rest := distributed0, rest0;
    ghost var was := norm[..|count|];
    ghost var now := MoreMarks(was, count, lowOne);
    for s := 0 to |count|
      invariant Marked(norm[..], count, |count|, low, threshold)
      invariant distributed == Given(norm[..], |count|) && rest == Open(norm[..], count, |count|)
      invariant forall k :: 0 <= k < s ==> norm[k] == now[k]
      invariant forall k :: s <= k < |count| ==> norm[k] == was[k]
      invariant forall k :: |count| <= k < norm.Length ==> norm[k] == old(norm[k])
    {
      if norm[s] == NOT_YET_ASSIGNED && count[s] <= lowOne {
        Assign(norm[..], count, s, 1, |count|);
        ghost var before := norm[..];
        norm[s] := 1;
        assert norm[..] == before[s := 1];
        distributed := distributed + 1;
        rest := rest - count[s];
      }
    }
  }

  // ----- the ways out of the second method -----

  /** A finished distribution. */
  ghost predicate Finished(norm: seq<int>, count: seq<nat>, low: int, threshold: nat, size: nat)
  {
    |count| <= |norm| && AllFitted(norm, count, |count|, low, threshold) && Start(norm, |count|) == size
  }

  /** The first of the most frequent symbols. */
  ghost predicate MostFrequent(count: seq<nat>, v: nat)
  {
    && v < |count| && (forall k :: 0 <= k < |count| ==> count[k] <= count[v])
    && (forall k :: 0 <= k < v ==> count[k] < count[v])
  }

  ghost predicate AllToOne(norm: seq<int>, m: seq<int>, v: nat, left: nat)
    requires |norm| == |m|
  {
    v < |m| && norm == m[v := m[v] + left]
  }

  /** Every positive share grows by the rounds, and by one more if the last round reached it. */
  ghost predicate InTurn(norm: seq<int>, m: seq<int>, rounds: nat, stop: nat)
  {
    && |norm| == |m|
    && (forall k :: 0 <= k < |m| ==> norm[k] == if m[k] > 0 then m[k] + rounds + (if k < stop then 1 else 0) else m[k])
  }

  /** All symbols have one cell: what is left goes to the most frequent one. */
  method GiveToLargest(norm: array<int>, count: seq<nat>, toDistribute: nat, ghost low: int, ghost threshold: nat,
                       ghost large: nat)
    requires |count| <= norm.Length && Marked(norm[..], count, |count|, low, threshold)
    requires Given(norm[..], |count|) == |count| && large < |count| && count[large] > threshold
    modifies norm
    ensures Finished(norm[..], count, low, threshold, |count| + toDistribute)
    ensures exists v :: MostFrequent(count, v) && AllToOne(norm[..|count|], old(norm[..|count|]), v, toDistribute)
    ensures forall k :: |count| <= k < norm.Length ==> norm[k] == old(norm[k])
  {
    var maxV, maxC := 0, 0;
    for s := 0 to |count|
      invariant 0 <= maxV < |count| && (if maxC > 0 then count[maxV] == maxC else maxV == 0)
      invariant forall k :: 0 <= k < s ==> count[k] <= maxC
      invariant forall k :: 0 <= k < maxV ==> count[k] < maxC
    {
      if count[s] > maxC {
        maxV, maxC := s, count[s];
      }
    }
    ghost var before := norm[..];
    GivenBounds(before, count, |count|, low, threshold);
    AllAssigned(before, count, |count|, low, threshold);
    assert Waits(before[maxV], count[maxV], low, threshold);
    StartChange(before, maxV, norm[maxV] + toDistribute, |count|);
    norm[maxV] := norm[maxV] + toDistribute;
    assert norm[..] == before[maxV := before[maxV] + toDistribute];
    assert MostFrequent(count, maxV) && AllToOne(norm[..|count|], before[..|count|], maxV, toDistribute);
  }

  /** Nothing waits: what is left goes round the symbols with a positive share. */
  method GiveInTurn(norm: array<int>, count: seq<nat>, distributed: nat, toDistribute0: nat,
                    ghost low: int, ghost threshold: nat, ghost large: nat)
    requires |count| <= norm.Length && Marked(norm[..], count, |count|, low, threshold)
    requires Given(norm[..], |count|) == distributed && Open(norm[..], count, |count|) == 0
    requires large < |count| && count[large] > threshold
    modifies norm
    ensures Finished(norm[..], count, low, threshold, distributed + toDistribute0)
    ensures exists rounds, stop :: InTurn(norm[..|count|], old(norm[..|count|]), rounds, stop)
    ensures forall k :: |count| <= k < norm.Length ==> norm[k] == old(norm[k])
  {
    GivenBounds(norm[..], count, |count|, low, threshold);
    AllAssigned(norm[..], count, |count|, low, threshold);
    TurnLoop(norm, count, distributed, toDistribute0, low, threshold, large);
  }

  method TurnLoop(norm: array<int>, count: seq<nat>, ghost distributed: nat, toDistribute0: nat,
                  ghost low: int, ghost threshold: nat, ghost large: nat)
    requires Finished(norm[..], count, low, threshold, distributed) && large < |count| && count[large] > threshold
    requires |count| <= norm.Length
    modifies norm
    ensures Finished(norm[..], count, low, threshold, distributed + toDistribute0)
    ensures exists rounds, stop :: InTurn(norm[..|count|], old(norm[..|count|]), rounds, stop)
    ensures forall k :: |count| <= k < norm.Length ==> norm[k] == old(norm[k])
  {
    hide *;
    var toDistribute: nat, s: nat := toDistribute0, 0;
    ghost var m, rounds := norm[..|count|], 0;
    NoTurnYet(m);
    while toDistribute > 0
      invariant s < |count| <= norm.Length && toDistribute <= toDistribute0
      invariant Finished(norm[..], count, low, threshold, distributed + toDistribute0 - toDistribute)
      invariant InTurn(norm[..|count|], m, rounds, s)
      invariant forall k :: |count| <= k < norm.Length ==> norm[k] == old(norm[k])
      decreases toDistribute, if s <= large then large - s else large + |count| - s
    {
      ghost var before := norm[..];
      LargeIsPositive(before, count, low, threshold, distributed + toDistribute0 - toDistribute, large);
      if norm[s] > 0 {
        GiveOne(before, count, low, threshold, distributed + toDistribute0 - toDistribute, s);
        toDistribute := toDistribute - 1;
        norm[s] := norm[s] + 1;
        assert norm[..] == before[s := before[s] + 1];
      }
      NextTurn(before[..|count|], norm[..|count|], m, rounds, s);
      NextIndex(s, |count|);
      if s + 1 == |count| {
        rounds := rounds + 1;
      }
      s := (s + 1) % |count|;
    }
  }

  lemma NoTurnYet(m: seq<int>)
    ensures InTurn(m, m, 0, 0)
  {
  }

  lemma NextTurn(before: seq<int>, norm: seq<int>, m: seq<int>, rounds: nat, s: nat)
    requires InTurn(before, m, rounds, s) && s < |m|
    requires norm == if before[s] > 0 then before[s := before[s] + 1] else before
    ensures InTurn(norm, m, rounds, s + 1)
    ensures s + 1 == |m| ==> InTurn(norm, m, rounds + 1, 0)
  {
  }

  lemma LargeIsPositive(norm: seq<int>, count: seq<nat>, low: int, threshold: nat, size: nat, large: nat)
    requires Finished(norm, count, low, threshold, size) && large < |count| && count[large] > threshold
    ensures large < |norm| && norm[large] > 0
  {
    assert Fitted(norm[large], count[large], low, threshold);
  }

  lemma GiveOne(norm: seq<int>, count: seq<nat>, low: int, threshold: nat, size: nat, s: nat)
    requires Finished(norm, count, low, threshold, size) && s < |count| && s < |norm| && norm[s] > 0
    ensures Finished(norm[s := norm[s] + 1], count, low, threshold, size + 1)
  {
    StartChange(norm, s, norm[s] + 1, |count|);
  }

  lemma NextIndex(s: nat, n: nat)
    requires s < n
    ensures (s + 1) % n == if s + 1 == n then 0 else s + 1
  {
    if s + 1 < n {
      DivModUnique(s + 1, n, 0, s + 1);
    }
  }

  /** The step of the second method: 2^vStepLog cells per cell left, spread over the occurrences that wait. */
  function StepOf(left: nat, rest: nat, vStepLog: nat): nat
    requires rest > 0 && vStepLog > 0
  {
    (Shl(left, vStepLog) + (Pow2(vStepLog - 1) - 1)) / rest
  }

  /** How the rounded shares of the waiting symbols add up to what is left. */
  lemma SharesAddUp(left: nat, rest: nat, vStepLog: nat, mid: nat, rStep: nat)
    requires 0 < rest <= 0x4000_0000 && vStepLog >= 31
    requires mid == Pow2(vStepLog - 1) - 1 && rStep == StepOf(left, rest, vStepLog)
    ensures Shr(mid, vStepLog) == 0 && Shr(mid + rest * rStep, vStepLog) == left
  {
    hide *;
    Pow2Mono(31, vStepLog);
    BigPower();
    TwiceHalf(vStepLog);
    LowSmall(mid, vStepLog);
    StepBounds(left, rest, vStepLog);
    ShlIsMul(left, vStepLog);
    MulCommutes(left, Pow2(vStepLog));
    MulCommutes(rStep, rest);
    ShrUnique(mid + rest * rStep, vStepLog, left, mid + rest * rStep - Pow2(vStepLog) * left);
  }

  lemma StepBounds(left: nat, rest: nat, vStepLog: nat)
    requires rest > 0 && vStepLog > 0
    ensures var x, q := Shl(left, vStepLog) + (Pow2(vStepLog - 1) - 1), StepOf(left, rest, vStepLog);
            q * rest <= x < q * rest + rest
  {
    hide Shl, Pow2;
    Quotient(Shl(left, vStepLog) + (Pow2(vStepLog - 1) - 1), rest);
  }

  lemma BigPower()
    ensures Pow2(31) == 0x8000_0000
  {
    hide *;
    Pow2Add(16, 15);
    Pow2Values();
  }

  lemma Quotient(x: nat, d: nat)
    requires d > 0
    ensures (x / d) * d <= x < (x / d) * d + d
  {
  }

  /** A share v of what is left is in proportion to the occurrences that wait, up to one cell each way. */
  predicate SharedOut(v: int, c: nat, left: nat, rest: nat)
  {
    c * left < (v + 1) * rest && 2 * ((v - 1) * rest) < c * (2 * left + 1)
  }

  /** Whatever position the share starts from. */
  lemma ShareBounds(left: nat, rest: nat, vStepLog: nat, c: nat, from: nat)
    requires 0 < rest <= 0x4000_0000 && vStepLog >= 31 && c > 0
    ensures var rStep := StepOf(left, rest, vStepLog);
            SharedOut(Shr(from + c * rStep, vStepLog) - Shr(from, vStepLog), c, left, rest)
  {
    hide *;
    var rStep, size := StepOf(left, rest, vStepLog), Pow2(vStepLog);
    var end := from + c * rStep;
    Pow2Mono(31, vStepLog);
    BigPower();
    TwiceHalf(vStepLog);
    StepBounds(left, rest, vStepLog);
    ShlIsMul(left, vStepLog);
    ShrIsDiv(from, vStepLog);
    ShrIsDiv(end, vStepLog);
    Quotient(from, size);
    Quotient(end, size);
    var v := Shr(end, vStepLog) - Shr(from, vStepLog);
    MulSum(Shr(from, vStepLog), v, size);
    MulSum(v, 1, size);
    MulSum(v - 1, 1, size);
    ShareAbove(v, c, left, rest, size, rStep);
    ShareBelow(v, c, left, rest, size, rStep);
    SharedOutMeans(v, c, left, rest);
  }

  lemma SharedOutMeans(v: int, c: nat, left: nat, rest: nat)
    requires c * left < (v + 1) * rest && 2 * ((v - 1) * rest) < c * (2 * left + 1)
    ensures SharedOut(v, c, left, rest)
  {
  }

  lemma ShareAbove(v: int, c: nat, left: nat, rest: nat, size: nat, q: nat)
    requires size > 0 && c * q < (v + 1) * size && left * size <= q * rest && rest > 0
    ensures c * left < (v + 1) * rest
  {
    hide *;
    MulMono(left * size, q * rest, c);
    MulMono(c * q + 1, (v + 1) * size, rest);
    MulSum(c * q, 1, rest);
    MulAssoc(c, left, size);
    MulAssoc(c, q, rest);
    Swap(v + 1, size, rest);
    if c * left >= (v + 1) * rest {
      MulMono((v + 1) * rest, c * left, size);
    }
  }

  lemma ShareBelow(v: int, c: nat, left: nat, rest: nat, size: nat, q: nat)
    requires size > 0 && (v - 1) * size < c * q && 2 * (q * rest) < 2 * (left * size) + size && rest > 0 && c > 0
    ensures 2 * ((v - 1) * rest) < c * (2 * left + 1)
  {
    hide *;
    MulMono(2 * (q * rest) + 1, 2 * (left * size) + size, c);
    MulMono((v - 1) * size + 1, c * q, rest);
    MulSum((v - 1) * size, 1, rest);
    MulAssoc(c, q, rest);
    Swap(v - 1, size, rest);
    Spread(c, 2 * (q * rest), 1);
    TwiceThrough(c, q * rest);
    HalfMore(c, left, size);
    if 2 * ((v - 1) * rest) >= c * (2 * left + 1) {
      MulMono(c * (2 * left + 1), 2 * ((v - 1) * rest), size);
      MulAssoc(2, (v - 1) * rest, size);
    }
  }

  lemma TwiceThrough(c: int, x: int)
    ensures c * (2 * x) == 2 * (c * x)
  {
  }

  lemma HalfMore(c: nat, left: nat, size: nat)
    ensures c * (2 * (left * size) + size) == (c * (2 * left + 1)) * size
  {
    MulSum(2 * left, 1, size);
    MulAssoc(2, left, size);
    MulAssoc(c, 2 * left + 1, size);
  }

  /** A symbol that waited got its share, and the others what they had. */
  predicate SharedOrKept(v: int, m: int, c: nat, left: nat, rest: nat)
  {
    if m == NOT_YET_ASSIGNED then SharedOut(v, c, left, rest) else v == m
  }

  ghost predicate AllShared(norm: seq<int>, m: seq<int>, count: seq<nat>, left: nat, rest: nat)
  {
    |norm| == |m| == |count| && forall k :: 0 <= k < |m| ==> SharedOrKept(norm[k], m[k], count[k], left, rest)
  }

  /** Some symbol that waits is not worth one cell. */
  ghost predicate SomeTooRare(m: seq<int>, count: seq<nat>, left: nat, rest: nat)
  {
    |m| == |count| && exists k :: 0 <= k < |m| && m[k] == NOT_YET_ASSIGNED && count[k] * left < rest
  }

  lemma TooSmall(m: seq<int>, count: seq<nat>, s: nat, weight: int, left: nat, rest: nat)
    requires s < |m| == |count| && m[s] == NOT_YET_ASSIGNED && SharedOut(weight, count[s], left, rest) && weight < 1
    ensures SomeTooRare(m, count, left, rest)
  {
    MulMono(weight + 1, 1, rest);
  }

  lemma WaitingOccurs(norm: seq<int>, count: seq<nat>, s: nat, low: int, threshold: nat, distributed: nat, rest: nat,
                      mid: nat, rStep: nat, vStepLog: nat, tmpTotal: nat)
    requires Sharing(norm, count, s, low, threshold, distributed, rest, mid, rStep, vStepLog, tmpTotal)
    requires s < |count| && s < |norm| && norm[s] == NOT_YET_ASSIGNED
    ensures count[s] > 0
  {
    hide Given, Open, Shr;
    assert Waits(norm[s], count[s], low, threshold);
  }

  /** The remaining symbols share what is left in proportion. */
  method ShareOut(norm: array<int>, count: seq<nat>, distributed: nat, left: nat, rest: nat, tableLog: nat,
                  ghost low: int, ghost threshold: nat) returns (ok: bool)
    requires |count| <= norm.Length && Marked(norm[..], count, |count|, low, threshold)
    requires Given(norm[..], |count|) == distributed && Open(norm[..], count, |count|) == rest
    requires 0 < rest <= 0x4000_0000 && tableLog <= 31
    modifies norm
    ensures ok ==> Finished(norm[..], count, low, threshold, distributed + left)
    ensures ok ==> AllShared(norm[..|count|], old(norm[..|count|]), count, left, rest)
    ensures !ok ==> SomeTooRare(old(norm[..|count|]), count, left, rest)
    ensures forall k :: |count| <= k < norm.Length ==> norm[k] == old(norm[k])
  {
    hide Shr, Pow2, Given, Open, Start, StepOf, Sharing, AllFitted, Marked, SharedOut, SomeTooRare;
    ghost var m := norm[..|count|];
    var vStepLog := 62 - tableLog;
    var mid := Pow2(vStepLog - 1) - 1;
    var rStep := StepOf(left, rest, vStepLog);
    SharesAddUp(left, rest, vStepLog, mid, rStep);
    var tmpTotal: nat := mid;
    SharingStarts(norm[..], count, low, threshold, distributed, rest, mid, rStep, vStepLog);
    for s := 0 to |count|
      invariant Sharing(norm[..], count, s, low, threshold, distributed, rest, mid, rStep, vStepLog, tmpTotal)
      invariant forall k :: 0 <= k < s ==> SharedOrKept(norm[k], m[k], count[k], left, rest)
      invariant forall k :: s <= k < |count| ==> norm[k] == m[k]
      invariant forall k :: |count| <= k < norm.Length ==> norm[k] == old(norm[k])
    {
      if norm[s] == NOT_YET_ASSIGNED {
        WaitingOccurs(norm[..], count, s, low, threshold, distributed, rest, mid, rStep, vStepLog, tmpTotal);
        ShareBounds(left, rest, vStepLog, count[s], tmpTotal);
        var end := tmpTotal + count[s] * rStep;
        var sStart: int, sEnd: int := Shr(tmpTotal, vStepLog), Shr(end, vStepLog);
        var weight := sEnd - sStart;
        if weight < 1 {
          TooSmall(m, count, s, weight, left, rest);
          return false;
        }
        SharingStep(norm[..], count, s, low, threshold, distributed, rest, mid, rStep, vStepLog, tmpTotal);
        ghost var before := norm[..];
        norm[s] := weight;
        assert norm[..] == before[s := weight];
        tmpTotal := end;
      } else {
        SharingSkip(norm[..], count, s, low, threshold, distributed, rest, mid, rStep, vStepLog, tmpTotal);
      }
    }
    SharingEnds(norm[..], count, low, threshold, distributed, rest, mid, rStep, vStepLog, tmpTotal);
    return true;
  }

  /** The symbols below s are done; tmpTotal says where the next share starts. */
  ghost predicate Sharing(norm: seq<int>, count: seq<nat>, s: nat, low: int, threshold: nat, distributed: nat,
                          rest: nat, mid: nat, rStep: nat, vStepLog: nat, tmpTotal: nat)
  {
    && s <= |count| <= |norm| && AllFitted(norm, count, s, low, threshold)
    && (forall k :: s <= k < |count| ==> Waits(norm[k], count[k], low, threshold))
    && Given(norm, |count|) == distributed + Shr(tmpTotal, vStepLog)
    && tmpTotal + Open(norm, count, |count|) * rStep == mid + rest * rStep
  }

  lemma SharingStarts(norm: seq<int>, count: seq<nat>, low: int, threshold: nat, distributed: nat, rest: nat,
                      mid: nat, rStep: nat, vStepLog: nat)
    requires Marked(norm, count, |count|, low, threshold) && Shr(mid, vStepLog) == 0
    requires |count| <= |norm| && Given(norm, |count|) == distributed && Open(norm, count, |count|) == rest
    ensures Sharing(norm, count, 0, low, threshold, distributed, rest, mid, rStep, vStepLog, mid)
  {
    hide Given, Open, Shr;
  }

  lemma SharingStep(norm: seq<int>, count: seq<nat>, s: nat, low: int, threshold: nat, distributed: nat, rest: nat,
                    mid: nat, rStep: nat, vStepLog: nat, tmpTotal: nat)
    requires Sharing(norm, count, s, low, threshold, distributed, rest, mid, rStep, vStepLog, tmpTotal)
    requires s < |count| && s < |norm| && norm[s] == NOT_YET_ASSIGNED
    requires Shr(tmpTotal + count[s] * rStep, vStepLog) > Shr(tmpTotal, vStepLog)
    ensures var end := tmpTotal + count[s] * rStep;
            var weight := Shr(end, vStepLog) - Shr(tmpTotal, vStepLog);
            Sharing(norm[s := weight], count, s + 1, low, threshold, distributed, rest, mid, rStep, vStepLog, end)
  {
    hide Given, Open, Shr;
    var weight := Shr(tmpTotal + count[s] * rStep, vStepLog) - Shr(tmpTotal, vStepLog);
    assert Waits(norm[s], count[s], low, threshold);
    Assign(norm, count, s, weight, |count|);
    MinusTimes(Open(norm, count, |count|), count[s], rStep);
  }

  lemma SharingSkip(norm: seq<int>, count: seq<nat>, s: nat, low: int, threshold: nat, distributed: nat, rest: nat,
                    mid: nat, rStep: nat, vStepLog: nat, tmpTotal: nat)
    requires Sharing(norm, count, s, low, threshold, distributed, rest, mid, rStep, vStepLog, tmpTotal)
    requires s < |count| && s < |norm| && norm[s] != NOT_YET_ASSIGNED
    ensures Sharing(norm, count, s + 1, low, threshold, distributed, rest, mid, rStep, vStepLog, tmpTotal)
  {
    hide Given, Open, Shr;
    assert Waits(norm[s], count[s], low, threshold);
  }

  lemma SharingEnds(norm: seq<int>, count: seq<nat>, low: int, threshold: nat, distributed: nat, rest: nat,
                    mid: nat, rStep: nat, vStepLog: nat, tmpTotal: nat)
    requires Sharing(norm, count, |count|, low, threshold, distributed, rest, mid, rStep, vStepLog, tmpTotal)
    ensures Finished(norm, count, low, threshold, distributed + Shr(mid + rest * rStep, vStepLog))
  {
    hide Given, Open, Shr, Start;
    NothingOpen(norm, count, |count|, low, threshold);
  }

  lemma MinusTimes(a: int, b: int, c: int)
    ensures (a - b) * c == a * c - b * c
  {
  }

  lemma {:induction false} NothingOpen(norm: seq<int>, count: seq<nat>, n: nat, low: int, threshold: nat)
    requires n <= |count| <= |norm| && AllFitted(norm, count, n, low, threshold)
    ensures Open(norm, count, n) == 0 && Given(norm, n) == Start(norm, n)
  {
    if n > 0 {
      NothingOpen(norm, count, n - 1, low, threshold);
      assert Fitted(norm[n - 1], count[n - 1], low, threshold);
    }
  }

  /** Up to this count one cell is enough: one and a half cells' worth of what is to be distributed. */
  function LowOne(total: nat, cells: nat): int
    requires cells > 0
  {
    (total * 3) / (cells * 2)
  }

  /** Counts worth at most one cell, and at most one and a half cells. */
  lemma LimitsMean(c: nat, total: nat, tableLog: nat)
    ensures c <= LowThreshold(total, tableLog) <==> c * Pow2(tableLog) <= total
    ensures c <= LowOne(total, Pow2(tableLog)) <==> 2 * (c * Pow2(tableLog)) <= 3 * total
  {
    hide Pow2;
    var size := Pow2(tableLog);
    QuotientMeans(c, total, size);
    QuotientMeans(c, total * 3, size * 2);
    MulAssoc(c, size, 2);
  }

  lemma QuotientMeans(c: nat, x: nat, d: nat)
    requires d > 0
    ensures c <= x / d <==> c * d <= x
  {
    Quotient(x, d);
    if c <= x / d {
      MulMono(c, x / d, d);
    } else {
      MulMono(x / d + 1, c, d);
      MulNext(x / d, d);
    }
  }

  predicate RiskOfZero(rest: nat, left: nat, lowOne: int)
    requires left > 0
  {
    rest / left > lowOne
  }

  /** What the second method may make of the marks m, with `left` cells for `rest` occurrences that wait. */
  ghost predicate Completed(norm: seq<int>, ok: bool, m: seq<int>, count: seq<nat>, size: nat)
  {
    && |m| == |count| == |norm| && Given(m, |m|) < size
    && var left, rest := size - Given(m, |m|), Open(m, count, |m|);
    if Given(m, |m|) == |m| then ok && (exists v :: MostFrequent(count, v) && AllToOne(norm, m, v, left))
    else if rest == 0 then ok && exists rounds, stop :: InTurn(norm, m, rounds, stop)
    else if ok then AllShared(norm, m, count, left, rest)
    else SomeTooRare(m, count, left, rest)
  }

  /** The second method: the marks, more of them if there is a risk of rounding to zero, and the rest shared out. */
  ghost predicate SecondMethod(norm: seq<int>, ok: bool, count: seq<nat>, total: nat, tableLog: nat, low: int)
  {
    var size, threshold := Pow2(tableLog), LowThreshold(total, tableLog);
    var m := Marks(count, low, threshold, LowOne(total, size));
    var left, rest := size - Given(m, |m|), Open(m, count, |m|);
    && left > 0
    && if RiskOfZero(rest, left, LowOne(total, size)) then
         Completed(norm, ok, MoreMarks(m, count, LowOne(rest, left)), count, size)
       else
         Completed(norm, ok, m, count, size)
  }

  lemma CutPrefix(norm: seq<int>, m: seq<int>, count: seq<nat>)
    requires |count| <= |norm| && m == norm[..|count|]
    ensures Given(norm, |count|) == Given(m, |m|) && Open(norm, count, |count|) == Open(m, count, |m|)
  {
    GivenPrefix(norm, m, count, |count|);
  }

  lemma SecondMethodMeans(norm: seq<int>, ok: bool, count: seq<nat>, total: nat, tableLog: nat, low: int,
                          m: seq<int>, risk: bool, left: nat, rest: nat, n: seq<int>)
    requires m == Marks(count, low, LowThreshold(total, tableLog), LowOne(total, Pow2(tableLog)))
    requires left > 0 && left == Pow2(tableLog) - Given(m, |m|) && rest == Open(m, count, |m|)
    requires risk <==> RiskOfZero(rest, left, LowOne(total, Pow2(tableLog)))
    requires n == if risk then MoreMarks(m, count, LowOne(rest, left)) else m
    requires Completed(norm, ok, n, count, Pow2(tableLog))
    ensures SecondMethod(norm, ok, count, total, tableLog, low)
  {
    hide Marks, MoreMarks, Pow2, LowOne, RiskOfZero, Completed, Given, Open;
  }

  /** The second method fails only after giving one cell to more symbols. */
  lemma FailsAfterRisk(norm: seq<int>, count: seq<nat>, total: nat, tableLog: nat, low: int)
    requires SecondMethod(norm, false, count, total, tableLog, low) && low != NOT_YET_ASSIGNED
    ensures var lowOne := LowOne(total, Pow2(tableLog));
            var m := Marks(count, low, LowThreshold(total, tableLog), lowOne);
            Pow2(tableLog) > Given(m, |m|) && RiskOfZero(Open(m, count, |m|), Pow2(tableLog) - Given(m, |m|), lowOne)
  {
    hide Pow2, Given, Open, LowOne, LowThreshold;
    var size, lowOne := Pow2(tableLog), LowOne(total, Pow2(tableLog));
    var m := Marks(count, low, LowThreshold(total, tableLog), lowOne);
    var left, rest := size - Given(m, |m|), Open(m, count, |m|);
    if !RiskOfZero(rest, left, lowOne) {
      var k :| 0 <= k < |m| && m[k] == NOT_YET_ASSIGNED && count[k] * left < rest;
      Quotient(rest, left);
      MulMono(rest / left + 1, count[k], left);
      MulNext(rest / left, left);
    }
  }

  /** FSE_normalizeM2. */
  method NormalizeM2(norm: array<int>, tableLog: nat, count: seq<nat>, total: nat, lowProbCount: int) returns (ok: bool)
    requires |count| <= norm.Length && IsHistogram(count, total)
    requires MIN_TABLELOG <= tableLog <= MAX_TABLELOG && Sufficient(tableLog, total, |count|)
    requires lowProbCount == 1 || lowProbCount == -1
    modifies norm
    ensures ok ==> Finished(norm[..], count, lowProbCount, LowThreshold(total, tableLog), Pow2(tableLog))
    ensures SecondMethod(norm[..|count|], ok, count, total, tableLog, lowProbCount)
    ensures forall k :: |count| <= k < norm.Length ==> norm[k] == old(norm[k])
  {
    hide Pow2, HighBit, SumTo, Given, Open, Start, Marked, Finished, Sufficient, LowOne, RiskOfZero, LowThreshold,
      AllToOne, MostFrequent, InTurn, AllShared, SomeTooRare, SecondMethod, Mark;
    var lowThreshold, tableSize := LowThreshold(total, tableLog), Pow2(tableLog);
    var lowOne := LowOne(total, tableSize);
    ghost var large := SomeLarge(count, total, tableLog);
    var distributed, rest := AssignLow(norm, count, total, lowThreshold, lowOne, lowProbCount);
    SomethingLeft(norm[..], count, total, tableLog, lowProbCount, lowThreshold);
    var toDistribute := tableSize - distributed;
    if toDistribute == 0 {
      return true;
    }
    ghost var m, left, waiting := norm[..|count|], toDistribute, rest;
    CutPrefix(norm[..], m, count);
    var risk := RiskOfZero(rest, toDistribute, lowOne);
    if risk {
      lowOne := LowOne(rest, toDistribute);
      distributed, rest := AssignMore(norm, count, distributed, rest, lowOne, lowProbCount, lowThreshold);
      SomethingLeft(norm[..], count, total, tableLog, lowProbCount, lowThreshold);
      toDistribute := tableSize - distributed;
    }
    ghost var n := norm[..|count|];
    CutPrefix(norm[..], n, count);
    GivenBounds(norm[..], count, |count|, lowProbCount, lowThreshold);
    ok := DistributeLeft(norm, tableLog, count, distributed, toDistribute, rest, lowProbCount, lowThreshold, large);
    SecondMethodMeans(norm[..|count|], ok, count, total, tableLog, lowProbCount, m, risk, left, waiting, n);
  }

  /** The end of FSE_normalizeM2: three ways to give out what is left. */
  method DistributeLeft(norm: array<int>, tableLog: nat, count: seq<nat>, distributed: nat, toDistribute: nat,
                        rest: nat,
                        ghost low: int, ghost threshold: nat, ghost large: nat) returns (ok: bool)
    requires |count| <= norm.Length && Marked(norm[..], count, |count|, low, threshold)
    requires Given(norm[..], |count|) == distributed && Open(norm[..], count, |count|) == rest <= 0x4000_0000
    requires distributed + toDistribute == Pow2(tableLog) && toDistribute > 0 && tableLog <= MAX_TABLELOG
    requires large < |count| && count[large] > threshold
    modifies norm
    ensures ok ==> Finished(norm[..], count, low, threshold, Pow2(tableLog))
    ensures Completed(norm[..|count|], ok, old(norm[..|count|]), count, Pow2(tableLog))
    ensures forall k :: |count| <= k < norm.Length ==> norm[k] == old(norm[k])
  {
    hide Pow2, Given, Open, Start, Marked, Finished, AllToOne, MostFrequent, InTurn, AllShared, SomeTooRare;
    GivenBounds(norm[..], count, |count|, low, threshold);
    CutPrefix(norm[..], norm[..|count|], count);
    if distributed == |count| {
      GiveToLargest(norm, count, toDistribute, low, threshold, large);
      return true;
    }
    if rest == 0 {
      GiveInTurn(norm, count, distributed, toDistribute, low, threshold, large);
      return true;
    }
    ok := ShareOut(norm, count, distributed, toDistribute, rest, tableLog, low, threshold);
  }

  // ----- the whole -----

  /** The result of normalization: the table log, or 0 for a single-symbol histogram. */
  ghost predicate Normalized(norm: seq<int>, count: seq<nat>, tableLog: nat, lowProb: bool, threshold: nat)
  {
    && |norm| == |count|
    && (|count| <= MAX_SYMBOL_VALUE + 1 ==> ValidNorm(norm, tableLog))
    && Start(norm, |norm|) == Pow2(tableLog)
    && (forall s :: 0 <= s < |norm| ==>
          && (norm[s] == 0 <==> count[s] == 0)
          && (norm[s] >= 0 || (norm[s] == -1 && lowProb && count[s] <= threshold)))
  }

  lemma FinishedIsNormalized(norm: seq<int>, count: seq<nat>, low: int, threshold: nat, tableLog: nat)
    requires Finished(norm, count, low, threshold, Pow2(tableLog)) && MIN_TABLELOG <= tableLog <= MAX_TABLELOG
    requires count != []
    ensures Normalized(norm[..|count|], count, tableLog, low == -1, threshold)
  {
    hide Pow2, Start;
    StartPrefix(norm, norm[..|count|], |count|);
    forall s | 0 <= s < |count|
      ensures Fitted(norm[..|count|][s], count[s], low, threshold)
    {
      assert Fitted(norm[s], count[s], low, threshold);
    }
  }

  /** What a count gets in the first method. */
  function FirstShare(c: nat, total: nat, tableLog: nat, low: int): int
    requires 0 < total && tableLog <= 42
  {
    if c == 0 then 0 else if c <= LowThreshold(total, tableLog) then low
    else Proba(c, Ratio(Pow2(62), total), 62 - tableLog)
  }

  ghost function FirstShares(count: seq<nat>, total: nat, tableLog: nat, low: int): (f: seq<int>)
    requires 0 < total && tableLog <= 42
    ensures |f| == |count| && forall k :: 0 <= k < |f| ==> f[k] == FirstShare(count[k], total, tableLog, low)
  {
    seq(|count|, k requires 0 <= k < |count| => FirstShare(count[k], total, tableLog, low))
  }

  /** The first of the largest shares among the counts above the threshold. */
  ghost predicate LargestShare(f: seq<int>, count: seq<nat>, threshold: nat, i: nat)
  {
    && |f| == |count| && i < |f| && count[i] > threshold
    && (forall k :: 0 <= k < |f| && count[k] > threshold ==> f[k] <= f[i])
    && (forall k :: 0 <= k < i && count[k] > threshold ==> f[k] < f[i])
  }

  /** Every count above the threshold gets its proportional share. */
  ghost predicate InProportion(f: seq<int>, count: seq<nat>, total: nat, tableLog: nat)
  {
    |f| == |count| && forall k :: 0 <= k < |f| && count[k] > LowThreshold(total, tableLog) ==>
      Proportional(f[k], count[k], total, Pow2(tableLog))
  }

  /**
    How the shares come about: each in proportion, and the largest takes what they leave, or lack, of the table; if
    they lack half of the largest share or more, the second method starts anew.
   */
  ghost predicate Shared(norm: seq<int>, ok: bool, count: seq<nat>, total: nat, tableLog: nat, low: int)
    requires 0 < total && tableLog <= 42
  {
    var f, threshold := FirstShares(count, total, tableLog, low), LowThreshold(total, tableLog);
    var left := Pow2(tableLog) - Start(f, |f|);
    && InProportion(f, count, total, tableLog)
    && exists i: nat :: LargestShare(f, count, threshold, i)
                   && if -left < f[i] / 2 then ok && norm == f[i := f[i] + left]
                      else SecondMethod(norm, ok, count, total, tableLog, low)
  }

  lemma FirstSharesProportional(count: seq<nat>, total: nat, tableLog: nat, low: int)
    requires 0 < total <= 0x4000_0000 && tableLog <= 12 && SumTo(count, |count|) == total
    ensures InProportion(FirstShares(count, total, tableLog, low), count, total, tableLog)
  {
    hide Proba, Pow2, Proportional, LowThreshold;
    forall k | 0 <= k < |count| && count[k] > LowThreshold(total, tableLog)
      ensures Proportional(Proba(count[k], Ratio(Pow2(62), total), 62 - tableLog), count[k], total, Pow2(tableLog))
    {
      CountWithin(count, k);
      ProbaProportional(count[k], total, tableLog);
    }
  }

  lemma CountWithin(count: seq<nat>, k: nat)
    requires k < |count|
    ensures count[k] <= SumTo(count, |count|)
  {
    SumMonotone(count, k, |count|);
  }

  lemma SharedMeans(norm: seq<int>, ok: bool, count: seq<nat>, total: nat, tableLog: nat, low: int, f: seq<int>,
                    left: int, i: nat)
    requires 0 < total <= 0x4000_0000 && tableLog <= 12 && SumTo(count, |count|) == total
    requires f == FirstShares(count, total, tableLog, low) && left == Pow2(tableLog) - Start(f, |f|)
    requires LargestShare(f, count, LowThreshold(total, tableLog), i)
    requires if -left < f[i] / 2 then ok && norm == f[i := f[i] + left]
             else SecondMethod(norm, ok, count, total, tableLog, low)
    ensures Shared(norm, ok, count, total, tableLog, low)
  {
    hide FirstShares, LargestShare, SecondMethod, Pow2, Start, LowThreshold, InProportion;
    FirstSharesProportional(count, total, tableLog, low);
  }

  /**
    The first pass over the histogram. If one symbol is the whole input it stops at once.
   */
  method FirstMethod(norm: array<int>, tableLog: nat, count: seq<nat>, total: nat, lowProbCount: int)
    returns (single: bool, stillToDistribute: int, largest: nat, ghost largestP: int)
    requires |count| <= norm.Length && IsHistogram(count, total)
    requires MIN_TABLELOG <= tableLog <= MAX_TABLELOG && (lowProbCount == 1 || lowProbCount == -1)
    modifies norm
    ensures single <==> exists s :: 0 <= s < |count| && count[s] == total
    ensures !single ==>
              && norm[..|count|] == FirstShares(count, total, tableLog, lowProbCount)
              && (largestP > 0 ==> LargestShare(norm[..|count|], count, LowThreshold(total, tableLog), largest))
              && FirstPass(norm[..], count, |count|, lowProbCount, LowThreshold(total, tableLog), stillToDistribute,
                           Pow2(tableLog), largest, largestP)
    ensures forall k :: |count| <= k < norm.Length ==> norm[k] == old(norm[k])
  {
    hide Pow2, HighBit, SumTo, Start, Shr, Shl, FirstPass, Proba, LowThreshold;
    var scale := 62 - tableLog;
    var step: nat := Ratio(Pow2(62), total);
    var lowThreshold := LowThreshold(total, tableLog);
    var best := 0;
    stillToDistribute, largest := Pow2(tableLog), 0;
    FirstPassStarts(norm[..], count, lowProbCount, lowThreshold, Pow2(tableLog));
    for s := 0 to |count|
      invariant FirstPass(norm[..], count, s, lowProbCount, lowThreshold, stillToDistribute, Pow2(tableLog), largest,
                          best)
      invariant best >= 0 && (best > 0 ==> largest < s && norm[largest] == best && count[largest] > lowThreshold)
      invariant forall k :: 0 <= k < s ==>
                  count[k] != total && norm[k] == FirstShare(count[k], total, tableLog, lowProbCount)
      invariant forall k :: 0 <= k < s && count[k] > lowThreshold ==>
                  norm[k] <= best && (best > 0 && k < largest ==> norm[k] < best)
      invariant forall k :: |count| <= k < norm.Length ==> norm[k] == old(norm[k])
    {
      ghost var before := norm[..];
      if count[s] == total {
        return true, stillToDistribute, largest, best;
      }
      var v: int;
      if count[s] == 0 {
        v := 0;
      } else if count[s] <= lowThreshold {
        v := lowProbCount;
      } else {
        ProbaPositive(count[s], total, tableLog);
        v := Proba(count[s], step, scale);
      }
      FirstPassStep(before, count, s, lowProbCount, lowThreshold, stillToDistribute, Pow2(tableLog), largest, best, v);
      norm[s] := v;
      assert norm[..] == before[s := v];
      stillToDistribute := stillToDistribute - Abs(v);
      if count[s] > lowThreshold && v > best {
        best, largest := v, s;
      }
    }
    return false, stillToDistribute, largest, best;
  }

  lemma FirstPassStarts(norm: seq<int>, count: seq<nat>, low: int, threshold: nat, size: nat)
    requires |count| <= |norm|
    ensures FirstPass(norm, count, 0, low, threshold, size, size, 0, 0)
  {
  }

  /**
    FSE_normalizeCount. Apart from its error exits it returns 0 exactly for a single-symbol histogram, and
    otherwise a distribution that sums to 2^tableLog, with cells for exactly the symbols that occur.
   */
  method NormalizeCount(norm: array<int>, tableLog0: nat, count: seq<nat>, total: nat, useLowProbCount: bool)
    returns (r: Result<nat>)
    requires |count| <= norm.Length && IsHistogram(count, total) && total >= 2
    modifies norm
    ensures var tableLog := if tableLog0 == 0 then DEFAULT_TABLELOG else tableLog0;
            && (tableLog > MAX_TABLELOG ==> r == Err(TableLogTooLarge))
            && (tableLog < MIN_TABLELOG || !Sufficient(tableLog, total, |count|) ==> r.Err?)
            && (r.Err? ==> r.error == Generic || tableLog > MAX_TABLELOG)
            && (r.Ok? ==> (r.value == 0 <==> exists s :: 0 <= s < |count| && count[s] == total))
            && (tableLog <= MAX_TABLELOG && (r.Err? || r.value > 0) ==>
                  tableLog < MIN_TABLELOG || !Sufficient(tableLog, total, |count|)
                  || Shared(norm[..|count|], r.Ok?, count, total, tableLog, if useLowProbCount then -1 else 1))
            && (r.Ok? && r.value > 0 ==>
                  r.value == tableLog
                    && Normalized(norm[..|count|], count, tableLog, useLowProbCount, LowThreshold(total, tableLog)))
    ensures forall k :: |count| <= k < norm.Length ==> norm[k] == old(norm[k])
  {
    hide Pow2, HighBit, SumTo, Start, FirstPass, Finished, Normalized, MinTableLog, LowThreshold, FirstShares,
      LargestShare, SecondMethod, Shared;
    var tableLog := if tableLog0 == 0 then DEFAULT_TABLELOG else tableLog0;
    if tableLog < MIN_TABLELOG {
      return Err(Generic);
    }
    if tableLog > MAX_TABLELOG {
      return Err(TableLogTooLarge);
    }
    if !Sufficient(tableLog, total, |count|) {
      return Err(Generic);
    }
    var lowProbCount := if useLowProbCount then -1 else 1;
    var single, stillToDistribute, largest, largestP := FirstMethod(norm, tableLog, count, total, lowProbCount);
    if single {
      return Ok(0);
    }
    ghost var threshold := LowThreshold(total, tableLog);
    ghost var large := SomeLarge(count, total, tableLog);
    LargestExists(norm[..], count, lowProbCount, threshold, stillToDistribute, Pow2(tableLog), largest, largestP,
                  large);
    ghost var first := norm[..|count|];
    StartPrefix(norm[..], first, |count|);
    if -stillToDistribute >= norm[largest] / 2 {
      var ok := NormalizeM2(norm, tableLog, count, total, lowProbCount);
      SharedMeans(norm[..|count|], ok, count, total, tableLog, lowProbCount, first, stillToDistribute, largest);
      if !ok {
        return Err(Generic);
      }
    } else {
      ghost var before := norm[..];
      FirstPassDone(before, count, lowProbCount, threshold, stillToDistribute, Pow2(tableLog), largest, largestP);
      norm[largest] := norm[largest] + stillToDistribute;
      assert norm[..] == before[largest := before[largest] + stillToDistribute];
      SharedMeans(norm[..|count|], true, count, total, tableLog, lowProbCount, first, stillToDistribute, largest);
    }
    FinishedIsNormalized(norm[..], count, lowProbCount, threshold, tableLog);
    assert norm[..][..|count|] == norm[..|count|];
    return Ok(tableLog);
  }

  lemma LargestExists(norm: seq<int>, count: seq<nat>, low: int, threshold: nat, left: int, size: nat, largest: nat,
                      largestP: int, large: nat)
    requires FirstPass(norm, count, |count|, low, threshold, left, size, largest, largestP)
    requires large < |count| && count[large] > threshold
    ensures largestP > 0 && largest < |count| <= |norm| && left == size - Start(norm, |count|)
  {
    hide Start, AllFitted;
  }

  lemma FirstPassDone(norm: seq<int>, count: seq<nat>, low: int, threshold: nat, left: int, size: nat, largest: nat,
                      largestP: int)
    requires FirstPass(norm, count, |count|, low, threshold, left, size, largest, largestP)
    requires largest < |norm| && largestP > 0 && -left < norm[largest] / 2
    ensures Finished(norm[largest := norm[largest] + left], count, low, threshold, size)
  {
    FirstPassEnds(norm, count, low, threshold, left, size, largest, largestP);
  }
}
