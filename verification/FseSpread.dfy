/** How FSE distributes symbols over the cells of a table. */
module FseSpread {
  // Both table builders walk the cells with a fixed odd step and leave the
  // low-probability symbols at the top of the table. `IsSpread` states where every
  // symbol goes; it has exactly one solution, so the encoder's and the decoder's
  // tables agree cell by cell.

  import opened Bits
  import opened Counting

  const MIN_TABLELOG := 5
  const MAX_TABLELOG := 12
  const MAX_SYMBOL_VALUE := 255

  /** The number of cells the first s symbols occupy. */
  function Start(norm: seq<int>, s: nat): nat
    requires s <= |norm|
  {
    if s == 0 then 0 else Start(norm, s - 1) + Abs(norm[s - 1])
  }

  /** A normalized distribution: -1 marks a low-probability symbol, which takes one cell. */
  ghost predicate ValidNorm(norm: seq<int>, tableLog: nat)
  {
    && MIN_TABLELOG <= tableLog <= MAX_TABLELOG
    && 0 < |norm| <= MAX_SYMBOL_VALUE + 1
    && (forall s :: 0 <= s < |norm| ==> norm[s] >= -1)
    && Start(norm, |norm|) == Pow2(tableLog)
  }

  /** FSE_TABLESTEP. */
  function Step(tableSize: nat): nat
  {
    tableSize / 2 + tableSize / 8 + 3
  }

  /** The i-th cell of the walk. */
  function Orbit(tableLog: nat, i: nat): (u: nat)
    ensures u < Pow2(tableLog)
  {
    if i == 0 then 0 else (Orbit(tableLog, i - 1) + Step(Pow2(tableLog))) % Pow2(tableLog)
  }

  /** The cells among the first i of the walk that are not above `high`, in order. */
  function Visits(tableLog: nat, high: int, i: nat): (v: seq<nat>)
    ensures |v| <= i
  {
    if i == 0 then []
    else Visits(tableLog, high, i - 1) + (if Orbit(tableLog, i - 1) <= high then [Orbit(tableLog, i - 1)] else [])
  }

  function Repeat(s: nat, n: nat): (r: seq<nat>)
    ensures |r| == n && forall k :: 0 <= k < n ==> r[k] == s
  {
    if n == 0 then [] else Repeat(s, n - 1) + [s]
  }

  /** Each of the first s symbols as often as its (positive) probability says, in order. */
  function Laid(norm: seq<int>, s: nat): seq<nat>
    requires s <= |norm|
  {
    if s == 0 then [] else Laid(norm, s - 1) + Repeat(s - 1, Max(norm[s - 1], 0))
  }

  /** The number of low-probability symbols among the first s. */
  function LowCount(norm: seq<int>, s: nat): (n: nat)
    requires s <= |norm|
    ensures n <= s
  {
    if s == 0 then 0 else LowCount(norm, s - 1) + (if norm[s - 1] == -1 then 1 else 0)
  }

  /** The last cell of the area the walk may use. */
  function High(norm: seq<int>, tableLog: nat): int
  {
    Pow2(tableLog) - 1 - LowCount(norm, |norm|)
  }

  ghost predicate LowAreaFilled(norm: seq<int>, tableLog: nat, t: seq<nat>, s: nat)
    requires s <= |norm| && |t| == Pow2(tableLog)
  {
    forall k :: 0 <= k < s && norm[k] == -1 ==>
      0 <= |t| - 1 - LowCount(norm, k) && t[|t| - 1 - LowCount(norm, k)] == k
  }

  ghost predicate WalkFilled(norm: seq<int>, tableLog: nat, t: seq<nat>, i: nat)
    requires |t| == Pow2(tableLog)
  {
    var v := Visits(tableLog, High(norm, tableLog), i);
    var laid := Laid(norm, |norm|);
    |v| <= |laid| && forall r :: 0 <= r < |v| ==> v[r] < |t| && t[v[r]] == laid[r]
  }

  /** The symbol of every cell of the table. */
  ghost predicate IsSpread(norm: seq<int>, tableLog: nat, t: seq<nat>)
  {
    && |t| == Pow2(tableLog)
    && LowAreaFilled(norm, tableLog, t, |norm|)
    && WalkFilled(norm, tableLog, t, Pow2(tableLog))
  }

  // ----- start positions -----

  lemma StartZero(norm: seq<int>)
    ensures Start(norm, 0) == 0
  {
  }

  lemma StartStep(norm: seq<int>, s: nat)
    requires s < |norm|
    ensures Start(norm, s + 1) == Start(norm, s) + Abs(norm[s])
    ensures LowCount(norm, s + 1) == LowCount(norm, s) + if norm[s] == -1 then 1 else 0
  {
  }

  lemma {:induction false} StartMonotone(norm: seq<int>, a: nat, b: nat)
    requires a <= b <= |norm|
    ensures Start(norm, a) <= Start(norm, b)
    ensures a < b ==> Start(norm, a) + Abs(norm[a]) <= Start(norm, b)
  {
    if a < b {
      StartMonotone(norm, a, b - 1);
    }
  }

  lemma StartOverZeros(norm: seq<int>, s: nat, z: nat)
    requires s <= z <= |norm| && forall k :: s <= k < z ==> norm[k] == 0
    ensures Start(norm, z) == Start(norm, s)
    decreases z
  {
    if s < z {
      StartOverZeros(norm, s, z - 1);
    }
  }

  lemma {:induction false} StartPrefix(a: seq<int>, b: seq<int>, s: nat)
    requires s <= |a| && s <= |b| && forall k :: 0 <= k < s ==> a[k] == b[k]
    ensures Start(a, s) == Start(b, s)
  {
    if s > 0 {
      StartPrefix(a, b, s - 1);
    }
  }

  // ----- the walk -----

  lemma StepOdd(tableLog: nat)
    requires tableLog >= MIN_TABLELOG
    ensures Step(Pow2(tableLog)) % 2 == 1
    ensures Pow2(tableLog) % 2 == 0 && Pow2(tableLog) >= 32
  {
    Pow2Values();
    Pow2Add(5, tableLog - 5);
    hide Pow2;
    StepOfMultiple(Pow2(tableLog), Pow2(tableLog - 5));
  }

  lemma StepOfMultiple(size: nat, m: nat)
    requires size == 32 * m
    ensures Step(size) % 2 == 1 && size % 2 == 0
  {
    assert size / 2 == 16 * m && size / 8 == 4 * m;
  }

  /** If an odd multiple of d is a multiple of 2^n, so is d. */
  lemma {:induction false} OddCancel(n: nat, d: nat, odd: nat, q: nat) returns (k: nat)
    requires odd % 2 == 1 && d * odd == Pow2(n) * q
    ensures d == Pow2(n) * k
  {
    if n == 0 {
      k := d;
    } else {
      var p := Pow2(n - 1);
      MulAssoc(2, p, q);
      EvenFactor(d, odd, p * q);
      var h := d / 2;
      k := OddCancel(n - 1, h, odd, q);
      MulAssoc(2, p, k);
    }
  }

  lemma EvenFactor(d: nat, odd: nat, m: nat)
    requires odd % 2 == 1 && d * odd == 2 * m
    ensures d % 2 == 0 && (d / 2) * odd == m
  {
    var k, h, r := odd / 2, d / 2, d % 2;
    assert odd == 2 * k + 1 && d == 2 * h + r;
    calc {
      d * odd;
      (2 * h + r) * odd;
      { MulSum(2 * h, r, odd); }
      (2 * h) * odd + r * odd;
      { MulAssoc(2, h, odd); }
      2 * (h * odd) + r * odd;
    }
  }

  lemma WrappedStep(i: nat, step: nat, size: nat, prev: nat, p: nat)
    requires size > 0 && i * step == prev + p * size
    ensures (i + 1) * step == (prev + step) % size + (p + (prev + step) / size) * size
  {
    var d := (prev + step) / size;
    MulSum(i, 1, step);
    MulSum(p, d, size);
    assert prev + step == d * size + (prev + step) % size;
  }

  /** i steps of the walk, counted without wrapping around. */
  lemma {:induction false} OrbitForm(tableLog: nat, i: nat) returns (q: nat)
    ensures i * Step(Pow2(tableLog)) == Orbit(tableLog, i) + q * Pow2(tableLog)
  {
    hide Pow2, Step;
    if i == 0 {
      q := 0;
    } else {
      var p := OrbitForm(tableLog, i - 1);
      var size, step, prev := Pow2(tableLog), Step(Pow2(tableLog)), Orbit(tableLog, i - 1);
      q := p + (prev + step) / size;
      WrappedStep(i - 1, step, size, prev, p);
    }
  }

  lemma StepForm(m: nat)
    ensures Step(8 * m) == 5 * m + 3
  {
  }

  /** The walk in closed form: i steps of five eighths of the table and 3 more. */
  lemma OrbitClosed(tableLog: nat, i: nat)
    requires tableLog >= 3
    ensures Orbit(tableLog, i) == i * (5 * Pow2(tableLog - 3) + 3) % Pow2(tableLog)
  {
    hide *;
    var q := OrbitForm(tableLog, i);
    Pow2Add(3, tableLog - 3);
    Pow2Values();
    StepForm(Pow2(tableLog - 3));
    DivModUnique(i * Step(Pow2(tableLog)), Pow2(tableLog), q, Orbit(tableLog, i));
  }

  lemma SameRemainder(i: nat, j: nat, step: nat, size: nat, u: nat, p: nat, q: nat)
    requires i < j && size > 0 && step > 0
    requires i * step == u + p * size && j * step == u + q * size
    ensures q >= p && (j - i) * step == size * (q - p)
  {
    MulSum(j - i, i, step);
    MulSum(q - p, p, size);
    MulCommutes(q - p, size);
    MulAtLeast(j - i, step);
    NonNegative(q - p, size, (j - i) * step);
  }

  /** The walk enters no cell twice. */
  lemma OrbitInjective(tableLog: nat, i: nat, j: nat)
    requires tableLog >= MIN_TABLELOG && i < j < Pow2(tableLog)
    ensures Orbit(tableLog, i) != Orbit(tableLog, j)
  {
    StepOdd(tableLog);
    hide Pow2, Step, Orbit;
    if Orbit(tableLog, i) == Orbit(tableLog, j) {
      var size, step := Pow2(tableLog), Step(Pow2(tableLog));
      var p := OrbitForm(tableLog, i);
      var q := OrbitForm(tableLog, j);
      SameRemainder(i, j, step, size, Orbit(tableLog, i), p, q);
      var k := OddCancel(tableLog, j - i, step, q - p);
      MulCommutes(size, k);
      MulAtLeast(k, size);
    }
  }

  lemma NonNegative(a: int, b: nat, c: nat)
    requires b > 0 && a * b == c
    ensures a >= 0
  {
  }

  lemma MultipleBelow(size: nat, step: nat, u: nat, q: nat)
    requires u < size && size * step == u + q * size
    ensures u == 0
  {
    MulCommutes(size, step);
    MulSum(step - q, q, size);
    MulAtLeast(step - q, size);
  }

  /** After tableSize steps the walk is back at cell 0. */
  lemma OrbitReturns(tableLog: nat)
    ensures Orbit(tableLog, Pow2(tableLog)) == 0
  {
    hide *;
    var q := OrbitForm(tableLog, Pow2(tableLog));
    MultipleBelow(Pow2(tableLog), Step(Pow2(tableLog)), Orbit(tableLog, Pow2(tableLog)), q);
  }

  /** Two steps at once. */
  lemma OrbitTwoSteps(tableLog: nat, i: nat)
    ensures Orbit(tableLog, i + 1) == (Orbit(tableLog, i) + Step(Pow2(tableLog))) % Pow2(tableLog)
    ensures Orbit(tableLog, i + 2) == (Orbit(tableLog, i) + 2 * Step(Pow2(tableLog))) % Pow2(tableLog)
  {
    hide Pow2, Step;
    var next := Orbit(tableLog, i) + Step(Pow2(tableLog));
    assert Orbit(tableLog, i + 1) == next % Pow2(tableLog);
    assert Orbit(tableLog, i + 2) == (Orbit(tableLog, i + 1) + Step(Pow2(tableLog))) % Pow2(tableLog);
    hide Orbit;
    ModAdd(next, Step(Pow2(tableLog)), Pow2(tableLog));
  }

  lemma ModAdd(a: nat, b: nat, m: nat)
    requires m > 0
    ensures (a % m + b) % m == (a + b) % m
  {
    var q, r := (a % m + b) / m, (a % m + b) % m;
    assert a == (a / m) * m + a % m;
    MulSum(a / m, q, m);
    DivModUnique(a + b, m, a / m + q, r);
  }

  // ----- the cells the walk visits -----

  lemma {:induction false} VisitsGrow(tableLog: nat, high: int, i: nat, j: nat)
    requires i <= j
    ensures Visits(tableLog, high, i) <= Visits(tableLog, high, j)
  {
    if i < j {
      VisitsGrow(tableLog, high, i, j - 1);
    }
  }

  /** Every visited cell comes from a step of the walk. */
  lemma {:induction false} VisitStep(tableLog: nat, high: int, i: nat, r: nat) returns (k: nat)
    requires r < |Visits(tableLog, high, i)|
    ensures k < i && Orbit(tableLog, k) == Visits(tableLog, high, i)[r] <= high
    ensures |Visits(tableLog, high, k)| == r
  {
    hide Orbit;
    if r < |Visits(tableLog, high, i - 1)| {
      k := VisitStep(tableLog, high, i - 1, r);
    } else {
      k := i - 1;
    }
  }

  /** The cell of the i-th step, if visited, has as many visited cells before it as the first i steps have. */
  lemma VisitAt(tableLog: nat, high: int, i: nat)
    requires i < Pow2(tableLog) && Orbit(tableLog, i) <= high
    ensures var v, r := Visits(tableLog, high, Pow2(tableLog)), |Visits(tableLog, high, i)|;
            r < |v| && v[r] == Orbit(tableLog, i)
  {
    hide Orbit, Pow2;
    VisitsGrow(tableLog, high, i + 1, Pow2(tableLog));
    assert Visits(tableLog, high, i + 1) == Visits(tableLog, high, i) + [Orbit(tableLog, i)];
  }

  /** No cell is visited twice. */
  lemma VisitsDistinct(tableLog: nat, high: int, r: nat, q: nat)
    requires tableLog >= MIN_TABLELOG && r < q < |Visits(tableLog, high, Pow2(tableLog))|
    ensures Visits(tableLog, high, Pow2(tableLog))[r] != Visits(tableLog, high, Pow2(tableLog))[q]
  {
    hide Orbit;
    var i := VisitStep(tableLog, high, Pow2(tableLog), r);
    var j := VisitStep(tableLog, high, Pow2(tableLog), q);
    if j <= i {
      VisitsGrow(tableLog, high, j, i);
    }
    OrbitInjective(tableLog, i, j);
  }

  /** The walk as a sequence. */
  function Walk(tableLog: nat): (w: seq<nat>)
    ensures |w| == Pow2(tableLog) && forall i :: 0 <= i < |w| ==> w[i] == Orbit(tableLog, i)
  {
    seq(Pow2(tableLog), i requires 0 <= i => Orbit(tableLog, i))
  }

  lemma WalkCovers(tableLog: nat)
    requires tableLog >= MIN_TABLELOG
    ensures Covers(Walk(tableLog), Pow2(tableLog))
  {
    hide Orbit;
    var w := Walk(tableLog);
    forall i, j | 0 <= i < j < |w|
      ensures w[i] != w[j]
    {
      OrbitInjective(tableLog, i, j);
    }
    Pigeonhole(w, |w|);
  }

  /** Every cell up to `high` is visited. */
  lemma VisitsCover(tableLog: nat, high: int, u: nat)
    requires tableLog >= MIN_TABLELOG && u < Pow2(tableLog) && u <= high
    ensures u in Visits(tableLog, high, Pow2(tableLog))
  {
    hide Orbit;
    WalkCovers(tableLog);
    var w := Walk(tableLog);
    assert u in w;
    var i :| 0 <= i < |w| && w[i] == u;
    VisitsGrow(tableLog, high, i + 1, Pow2(tableLog));
    var v := Visits(tableLog, high, i + 1);
    assert v[|v| - 1] == u;
  }

  /** The visited cells are exactly the cells up to `high`, each once. */
  lemma VisitsPermute(tableLog: nat, high: int)
    requires tableLog >= MIN_TABLELOG && -1 <= high < Pow2(tableLog)
    ensures var v := Visits(tableLog, high, Pow2(tableLog));
            Distinct(v) && Covers(v, high + 1) && |v| == high + 1
  {
    hide Orbit, Visits;
    var v := Visits(tableLog, high, Pow2(tableLog));
    forall r, q | 0 <= r < q < |v|
      ensures v[r] != v[q]
    {
      VisitsDistinct(tableLog, high, r, q);
    }
    forall u: nat | u < high + 1
      ensures u in v
    {
      VisitsCover(tableLog, high, u);
    }
    forall r | 0 <= r < |v|
      ensures v[r] < high + 1
    {
      var k := VisitStep(tableLog, high, Pow2(tableLog), r);
    }
    CoverSize(v, high + 1);
  }

  // ----- what a spread determines -----

  lemma {:induction false} StartSplit(norm: seq<int>, s: nat)
    requires s <= |norm| && forall k :: 0 <= k < |norm| ==> norm[k] >= -1
    ensures Start(norm, s) == |Laid(norm, s)| + LowCount(norm, s)
  {
    if s > 0 {
      StartSplit(norm, s - 1);
    }
  }

  lemma {:induction false} LowCountMonotone(norm: seq<int>, a: nat, b: nat)
    requires a <= b <= |norm|
    ensures LowCount(norm, a) <= LowCount(norm, b)
    ensures a < b && norm[a] == -1 ==> LowCount(norm, a) < LowCount(norm, b)
  {
    if a < b {
      LowCountMonotone(norm, a, b - 1);
    }
  }

  lemma {:induction false} LaidGrow(norm: seq<int>, a: nat, b: nat)
    requires a <= b <= |norm|
    ensures Laid(norm, a) <= Laid(norm, b)
  {
    if a < b {
      LaidGrow(norm, a, b - 1);
    }
  }

  /** Where the copies of a symbol lie. */
  lemma LaidAt(norm: seq<int>, s: nat, r: nat)
    requires s < |norm| && |Laid(norm, s)| <= r < |Laid(norm, s)| + norm[s]
    ensures r < |Laid(norm, |norm|)| && Laid(norm, |norm|)[r] == s
  {
    LaidGrow(norm, s + 1, |norm|);
    assert Laid(norm, s + 1) == Laid(norm, s) + Repeat(s, norm[s]);
  }

  /** The low-probability symbol that has n such symbols before it. */
  lemma {:induction false} NthLow(norm: seq<int>, n: nat, s: nat) returns (k: nat)
    requires s <= |norm| && n < LowCount(norm, s)
    ensures k < s && norm[k] == -1 && LowCount(norm, k) == n
  {
    if n < LowCount(norm, s - 1) {
      k := NthLow(norm, n, s - 1);
    } else {
      k := s - 1;
    }
  }

  lemma HighFits(norm: seq<int>, tableLog: nat)
    requires ValidNorm(norm, tableLog)
    ensures -1 <= High(norm, tableLog) < Pow2(tableLog)
    ensures |Laid(norm, |norm|)| == High(norm, tableLog) + 1
  {
    StartSplit(norm, |norm|);
  }

  /** The rules for laying out symbols leave no choice. */
  lemma SpreadUnique(norm: seq<int>, tableLog: nat, t1: seq<nat>, t2: seq<nat>)
    requires ValidNorm(norm, tableLog) && IsSpread(norm, tableLog, t1) && IsSpread(norm, tableLog, t2)
    ensures t1 == t2
  {
    hide Visits, Laid, LowCount, Start;
    HighFits(norm, tableLog);
    var high := High(norm, tableLog);
    forall u: nat | u < |t1|
      ensures t1[u] == t2[u]
    {
      if u <= high {
        VisitsCover(tableLog, high, u);
        var v := Visits(tableLog, high, Pow2(tableLog));
        var r :| 0 <= r < |v| && v[r] == u;
      } else {
        var k := NthLow(norm, |t1| - 1 - u, |norm|);
      }
    }
  }

  lemma RepeatCount(s: nat, n: nat, x: nat)
    ensures Count(Repeat(s, n), x, n) == if x == s then n else 0
  {
    var r := Repeat(s, n);
    if x == s {
      CountAll(r, x, 0, n);
    } else {
      CountNone(r, x, 0, n);
    }
  }

  lemma {:induction false} LaidCount(norm: seq<int>, s: nat, x: nat)
    requires s <= |norm|
    ensures Count(Laid(norm, s), x, |Laid(norm, s)|) == if x < s then Max(norm[x], 0) else 0
    ensures forall r :: 0 <= r < |Laid(norm, s)| ==> Laid(norm, s)[r] < s && norm[Laid(norm, s)[r]] > 0
  {
    if s > 0 {
      var n := Max(norm[s - 1], 0);
      LaidCount(norm, s - 1, x);
      CountConcat(Laid(norm, s - 1), Repeat(s - 1, n), x, n);
      RepeatCount(s - 1, n, x);
    }
  }

  /** Every symbol occupies exactly as many cells as its probability says. */
  lemma SpreadCount(norm: seq<int>, tableLog: nat, t: seq<nat>, x: nat)
    requires ValidNorm(norm, tableLog) && IsSpread(norm, tableLog, t) && x < |norm|
    ensures Count(t, x, |t|) == Abs(norm[x])
    ensures forall u :: 0 <= u < |t| ==> t[u] < |norm|
  {
    hide Visits, Laid, LowCount, Start, Count;
    var high, laid := High(norm, tableLog), Laid(norm, |norm|);
    HighFits(norm, tableLog);
    LaidCount(norm, |norm|, x);
    VisitsPermute(tableLog, high);
    var v := Visits(tableLog, high, Pow2(tableLog));
    CountAlong(t, v, laid, high + 1, x);
    forall u: nat | u < |t|
      ensures t[u] < |norm|
      ensures u > high ==> norm[t[u]] == -1 && u == |t| - 1 - LowCount(norm, t[u])
    {
      if u <= high {
        assert u in v;
        var r :| 0 <= r < |v| && v[r] == u;
      } else {
        var k := NthLow(norm, |t| - 1 - u, |norm|);
      }
    }
    if norm[x] == -1 {
      LowCountMonotone(norm, x, |norm|);
      CountSingle(t, x, high + 1, |t| - 1 - LowCount(norm, x));
    } else {
      CountNone(t, x, high + 1, |t|);
    }
  }

  lemma CountSingle(t: seq<nat>, x: nat, m: nat, u: nat)
    requires m <= u < |t| && t[u] == x && forall i :: m <= i < |t| && i != u ==> t[i] != x
    ensures Count(t, x, |t|) == Count(t, x, m) + 1
  {
    CountNone(t, x, m, u);
    CountNone(t, x, u + 1, |t|);
  }
}
