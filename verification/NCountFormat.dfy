/** The bit format of an FSE table description (section 4.1.1 of RFC 8878). */
module NCountFormat {
  // `Header` is the description of a distribution as a bit string. A count takes a
  // field whose width depends on what is still to be distributed; a zero count is
  // followed by the length of the run of further zeros, in base 3.

  import opened Bits
  import opened FseSpread

  /** The number of bits a count may take: the description of `remaining` starts a new power of two. */
  function Threshold(remaining: nat): (t: nat)
    requires remaining >= 1
    ensures t <= remaining < 2 * t
  {
    Pow2(HighBit(remaining))
  }

  /** Values below this bound are written with one bit less. */
  function ShortBound(remaining: nat): (m: nat)
    requires remaining >= 1
    ensures m < Threshold(remaining)
  {
    2 * Threshold(remaining) - 1 - remaining
  }

  function CountBits(value: nat, remaining: nat): seq<bool>
    requires remaining >= 1
  {
    var width := HighBit(remaining) + 1;
    if value < ShortBound(remaining) then BitsOf(value, width - 1)
    else if value < Threshold(remaining) then BitsOf(value, width)
    else BitsOf(value + ShortBound(remaining), width)
  }

  /**
    The values 0 to remaining fill the fields: with the short width for as many values as ShortBound says and one
    bit more for the others, no bit pattern is left over.
   */
  lemma FieldsFill(remaining: nat)
    requires remaining >= 1
    ensures var short, long := ShortBound(remaining), remaining + 1 - ShortBound(remaining);
            2 * short + long == Pow2(HighBit(remaining) + 1)
    ensures forall value: nat :: value <= remaining ==>
              |CountBits(value, remaining)| == HighBit(remaining) + (if value < ShortBound(remaining) then 0 else 1)
  {
    TwiceHalf(HighBit(remaining) + 1);
    hide BitsOf, Pow2;
  }

  /** The example of section 4.1.1 of RFC 8878: of the values 0 to 157, those below 98 take 7 bits and the others 8. */
  lemma FieldsFor157()
    ensures forall value: nat :: value <= 157 ==> |CountBits(value, 157)| == if value < 98 then 7 else 8
  {
    Pow2Values();
    HighBitUnique(157, 7);
    FieldsFill(157);
  }

  /** A run of n zeros: 11 for every three of them, then the rest. */
  function RunBits(n: nat): seq<bool>
  {
    if n >= 3 then [true, true] + RunBits(n - 3) else BitsOf(n, 2)
  }

  function NextNonZero(norm: seq<int>, s: nat): (z: nat)
    requires s <= |norm|
    ensures s <= z <= |norm| && (z < |norm| ==> norm[z] != 0)
    ensures forall k :: s <= k < z ==> norm[k] == 0
    decreases |norm| - s
  {
    if s == |norm| || norm[s] != 0 then s else NextNonZero(norm, s + 1)
  }

  /** The description from symbol s on, with `remaining` - 1 points to distribute. */
  function Body(norm: seq<int>, s: nat, remaining: int, previousIs0: bool): seq<bool>
    requires forall k :: 0 <= k < |norm| ==> norm[k] >= -1
    decreases |norm| - s, previousIs0
  {
    if s >= |norm| || remaining <= 1 then []
    else if previousIs0 then
      var z := NextNonZero(norm, s);
      if z == |norm| then [] else RunBits(z - s) + Body(norm, z, remaining, false)
    else
      CountBits(norm[s] + 1, remaining) + Body(norm, s + 1, remaining - Abs(norm[s]), norm[s] == 0)
  }

  function Header(norm: seq<int>, tableLog: nat): seq<bool>
    requires forall k :: 0 <= k < |norm| ==> norm[k] >= -1
    requires tableLog >= MIN_TABLELOG
  {
    BitsOf(tableLog - MIN_TABLELOG, 4) + Body(norm, 0, Pow2(tableLog) + 1, false)
  }

  /** A description starts with the table log less 5 in four bits, as section 4.1.1 of RFC 8878 has it. */
  lemma AccuracyField(norm: seq<int>, tableLog: nat)
    requires 5 <= tableLog <= MAX_TABLELOG && forall k :: 0 <= k < |norm| ==> norm[k] >= -1
    ensures |Header(norm, tableLog)| >= 4 && Value(Header(norm, tableLog)[..4]) + 5 == tableLog
  {
    hide Body, BitsOf, Value;
    var front := BitsOf(tableLog - 5, 4);
    assert (front + Body(norm, 0, Pow2(tableLog) + 1, false))[..4] == front;
    ValueOfBits(tableLog - 5, 4);
    Pow2Values();
    LowSmall(tableLog - 5, 4);
  }

  // ----- thresholds -----

  lemma ThresholdForm(remaining: nat)
    requires remaining >= 1
    ensures Threshold(remaining) == Pow2(HighBit(remaining))
  {
  }

  lemma ThresholdIs(remaining: nat, t: nat, nbBits: nat)
    requires nbBits >= 1 && t == Pow2(nbBits - 1) && t <= remaining < 2 * t
    ensures t == Threshold(remaining) && nbBits == HighBit(remaining) + 1
  {
    HighBitUnique(remaining, nbBits - 1);
  }

  lemma InitialThreshold(tableLog: nat)
    requires tableLog >= 1
    ensures HighBit(Pow2(tableLog) + 1) == tableLog && Threshold(Pow2(tableLog) + 1) == Pow2(tableLog)
  {
    hide *;
    TwiceHalf(tableLog);
    HighBitUnique(Pow2(tableLog) + 1, tableLog);
    ThresholdForm(Pow2(tableLog) + 1);
  }

  // ----- counts -----

  /** The field FSE_readNCount finds: the count plus one, and how many bits it took. */
  function ReadField(window: nat, remaining: nat): (f: (nat, nat))
    requires remaining >= 2
    ensures f.0 <= remaining
  {
    var threshold, max := Threshold(remaining), ShortBound(remaining);
    var width := HighBit(remaining) + 1;
    LowBound(window, width - 1);
    LowBound(window, width);
    if Low(window, width - 1) < max then (Low(window, width - 1), width - 1)
    else
      var count := Low(window, width);
      (if count >= threshold then count - max else count, width)
  }

  /** Both widths are read off unambiguously, whatever follows the field. */
  lemma ReadFieldInverse(value: nat, remaining: nat, rest: seq<bool>)
    requires remaining >= 2 && value <= remaining
    ensures ReadField(Value(CountBits(value, remaining) + rest), remaining) == (value, |CountBits(value, remaining)|)
  {
    var threshold, max := Threshold(remaining), ShortBound(remaining);
    var width := HighBit(remaining) + 1;
    var field := CountBits(value, remaining);
    var window := Value(field + rest);
    assert Pow2(width - 1) == threshold && Pow2(width) == 2 * threshold;
    hide Pow2, HighBit, Threshold, ShortBound, Value, BitsOf, Low;
    if value < max {
      FieldValue(value, width - 1, rest);
    } else {
      var v := if value < threshold then value else value + max;
      assert field == BitsOf(v, width);
      FieldValue(v, width, rest);
      LowOfLow(window, v, width, threshold);
    }
  }

  lemma FieldValue(v: nat, width: nat, rest: seq<bool>)
    requires v < Pow2(width)
    ensures Low(Value(BitsOf(v, width) + rest), width) == v
  {
    var field := BitsOf(v, width);
    hide *;
    ValueSplit(field + rest, width);
    assert (field + rest)[..width] == field;
    ValueOfBits(v, width);
    LowSmall(v, width);
  }

  /** The low width - 1 bits of a field of width bits. */
  lemma LowOfLow(window: nat, v: nat, width: nat, threshold: nat)
    requires width > 0 && Low(window, width) == v && Pow2(width - 1) == threshold && v < 2 * threshold
    ensures Low(window, width - 1) == if v < threshold then v else v - threshold
  {
    LowStep(window, width - 1);
    ShrLow(window, width - 1);
  }

  lemma {:induction false} LowStep(x: nat, n: nat)
    ensures Low(x, n + 1) == Low(x, n) + Pow2(n) * (Shr(x, n) % 2)
  {
    if n > 0 {
      LowStep(x / 2, n - 1);
      MulAssoc(2, Pow2(n - 1), Shr(x, n) % 2);
    }
  }

  // ----- runs of zeros -----

  /** The number of 1 bits at the bottom of x, at most n: ZSTD_countTrailingZeros32 of the complement. */
  function TrailingOnes(x: nat, n: nat): (k: nat)
    ensures k <= n
  {
    if n == 0 || x % 2 == 0 then 0 else 1 + TrailingOnes(x / 2, n - 1)
  }

  function Ones(n: nat): (b: seq<bool>)
    ensures |b| == n && forall i :: 0 <= i < n ==> b[i]
  {
    if n == 0 then [] else [true] + Ones(n - 1)
  }

  /** A run is a number of 11 pairs and one other pair. */
  lemma {:induction false} RunForm(n: nat)
    ensures RunBits(n) == Ones(2 * (n / 3)) + BitsOf(n % 3, 2)
  {
    hide BitsOf;
    if n >= 3 {
      RunForm(n - 3);
      assert (n - 3) / 3 == n / 3 - 1 && (n - 3) % 3 == n % 3;
      assert Ones(2 * (n / 3)) == [true] + ([true] + Ones(2 * (n / 3) - 2));
      assert RunBits(n) == [true, true] + RunBits(n - 3);
    } else {
      assert Ones(0) + BitsOf(n, 2) == BitsOf(n, 2);
    }
  }

  lemma {:induction false} OnesConcat(a: nat, b: nat)
    ensures Ones(a + b) == Ones(a) + Ones(b)
  {
    if a > 0 {
      OnesConcat(a - 1, b);
    }
  }

  /** 3k zeros more are k pairs more. */
  lemma {:induction false} RunSplit(n: nat, k: nat)
    requires 3 * k <= n
    ensures RunBits(n) == Ones(2 * k) + RunBits(n - 3 * k)
  {
    if k > 0 {
      RunSplit(n - 3, k - 1);
      assert Ones(2 * k) == [true] + ([true] + Ones(2 * k - 2));
      assert RunBits(n) == [true, true] + RunBits(n - 3);
    } else {
      assert Ones(0) + RunBits(n) == RunBits(n);
    }
  }

  lemma {:induction false} TrailingAtLeast(bits: seq<bool>, k: nat, n: nat)
    requires k <= |bits| && k <= n && forall i :: 0 <= i < k ==> bits[i]
    ensures TrailingOnes(Value(bits), n) >= k
  {
    if k > 0 {
      TrailingAtLeast(bits[1..], k - 1, n - 1);
    }
  }

  lemma {:induction false} TrailingAtMost(bits: seq<bool>, k: nat, n: nat)
    requires k < |bits| && !bits[k]
    ensures TrailingOnes(Value(bits), n) <= k
  {
    if k > 0 && n > 0 {
      TrailingAtMost(bits[1..], k - 1, n - 1);
    }
  }

  /** What the reader learns from a window onto a run of n zeros, of which it may see only a part. */
  lemma RunWindow(n: nat, window: seq<bool>, rest: seq<bool>)
    requires |window| <= 32
    requires var all := RunBits(n) + rest;
             |window| <= |all| && window == all[..|window|] && (|window| >= 25 || |RunBits(n)| <= |window|)
    ensures var repeats := TrailingOnes(Value(window), 31) / 2;
            && (repeats >= 12 ==> n >= 36)
            && (repeats < 12 ==>
                  && repeats == n / 3 && |RunBits(n)| == 2 * repeats + 2 <= |window|
                  && Low(Shr(Value(window), 2 * repeats), 2) == n % 3)
  {
    hide Value, TrailingOnes, RunBits, Shr, Low;
    RunForm(n);
    var p, r := n / 3, n % 3;
    var all := RunBits(n) + rest;
    RemainderBits(r);
    var run := Ones(2 * p) + BitsOf(r, 2);
    assert forall i :: 0 <= i < 2 * p && i < |window| ==> window[i];
    if 2 * p + 2 <= |window| {
      TrailingAtLeast(window, 2 * p, 31);
      var z := 2 * p + (if r == 1 then 1 else 0);
      assert !window[z];
      TrailingAtMost(window, z, 31);
      ValueField(window, 2 * p, 2);
      assert window[2 * p] == run[2 * p] == BitsOf(r, 2)[0];
      assert window[2 * p + 1] == run[2 * p + 1] == BitsOf(r, 2)[1];
      assert window[2 * p..2 * p + 2] == BitsOf(r, 2);
    } else {
      TrailingAtLeast(window, 24, 31);
    }
  }

  lemma RemainderBits(r: nat)
    requires r < 3
    ensures BitsOf(r, 2) == [r == 1, r == 2] && Value(BitsOf(r, 2)) == r
  {
    ValueOfBits(r, 2);
  }
}
