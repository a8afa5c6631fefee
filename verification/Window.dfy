/** ZSTD_window_t: the indices by which match finders name the bytes of the history. */
module Window {
  import opened Bits

  const START_INDEX := 2
  const HASH_READ_SIZE := 8
  const CURRENT_MAX := 3500 * 1024 * 1024
  /** The first index from which every correction is a large one: 3 * 2^30 + 2. */
  const CORRECTABLE := 0xC000_0002
  /** The longest chunk for which the guard at its end suffices for a correction at its beginning. */
  const CHUNK_MAX := CURRENT_MAX + 1 - CORRECTABLE

  /** Where the index restarts after a correction: the low bits stay, and maxDist fits below. */
  function NewCurrent(curr: nat, cycleSize: nat, maxDist: nat): nat
    requires cycleSize > 0
  {
    var currentCycle := curr % cycleSize;
    currentCycle + (if currentCycle < START_INDEX then Max(cycleSize, START_INDEX) else 0) + Max(maxDist, cycleSize)
  }

  /**
    The end of the input seen, the addresses of index 0 of the prefix and of the external dictionary, and the
    limits.
   */
  datatype Bounds = Bounds(nextSrc: int, base: int, dictBase: int, dictLimit: nat, lowLimit: nat)
  {
    function End(): int { nextSrc - base }

    function Address(i: nat): int { if i < dictLimit then dictBase + i else base + i }

    /** The memory of the dictionary does not overlap that of the prefix. */
    predicate Disjoint()
    {
      lowLimit == dictLimit || dictBase + dictLimit <= base + dictLimit || nextSrc <= dictBase + lowLimit
    }
  }

  /** Every byte ever appended, what memory holds, and by how much the indices have been reduced. */
  datatype Past = Past(history: seq<byte>, mem: int -> byte, corrected: nat)

  /** Index i still names the byte that was appended as number i + corrected - START_INDEX. */
  ghost predicate Names(w: Bounds, p: Past, i: nat)
  {
    && 0 <= i + p.corrected - START_INDEX < |p.history|
    && p.mem(w.Address(i)) == p.history[i + p.corrected - START_INDEX]
  }

  ghost predicate Sound(w: Bounds, p: Past)
  {
    && START_INDEX <= w.lowLimit <= w.dictLimit <= w.End()
    && w.End() + p.corrected - START_INDEX == |p.history|
    && (forall i: nat :: w.lowLimit <= i < w.End() ==> Names(w, p, i))
    && w.Disjoint()
  }

  /** What index i named from `first` on is named by index i - correction. */
  ghost predicate StillNamed(w: Bounds, v: Bounds, correction: nat, first: int)
  {
    forall i: nat :: w.lowLimit <= i < w.End() && first <= i ==>
      v.lowLimit <= i - correction && v.Address(i - correction) == w.Address(i)
  }

  /** The bounds after a non-contiguous segment at ip has begun, before its end is recorded. */
  function NewSegment(w: Bounds, ip: int): Bounds
    requires w.dictLimit <= w.End()
  {
    w.(lowLimit := if w.End() - w.dictLimit < HASH_READ_SIZE then w.End() else w.dictLimit,
       dictLimit := w.End(), dictBase := w.base, base := ip - w.End())
  }

  /** The bounds after the input at ip has been appended to the current segment. */
  function Appended(w: Bounds, ip: int, srcSize: nat): Bounds
    requires START_INDEX <= w.lowLimit
  {
    var end := ip + srcSize;
    if end > w.dictBase + w.lowLimit && ip < w.dictBase + w.dictLimit then
      w.(nextSrc := end, lowLimit := if end - w.dictBase > w.dictLimit then w.dictLimit else end - w.dictBase)
    else w.(nextSrc := end)
  }

  /** The first dictionary index from `first` on whose bytes, and all bytes behind them, lie outside [from, to). */
  function FirstUntouched(first: nat, dictLimit: nat, dictBase: int, from: int, to: int): nat
    requires first <= dictLimit
  {
    if to <= dictBase + first || dictBase + dictLimit <= from then first else Min(dictLimit, Max(first, to - dictBase))
  }

  /** Nothing is given up without need: index by index, what the input does not reach past stays. */
  lemma OnlyTouchedLost(first: nat, dictLimit: nat, dictBase: int, from: int, to: int, i: nat)
    requires first <= i < dictLimit && from < to
    ensures FirstUntouched(first, dictLimit, dictBase, from, to) <= i <==>
              from >= dictBase + dictLimit || to <= dictBase + i || to <= dictBase + first
  {
  }

  /** Input written over the dictionary only takes dictionary bytes out of reach. */
  lemma UpdateKeeps(w: Bounds, p: Past, src: int, srcSize: nat, contiguous: bool, memory: int -> byte, more: seq<byte>)
    requires Sound(w, p) && srcSize > 0 && (contiguous ==> src == w.nextSrc)
    requires forall a :: a < src || src + srcSize <= a ==> memory(a) == p.mem(a)
    requires |more| == srcSize && forall k :: 0 <= k < srcSize ==> more[k] == memory(src + k)
    ensures Sound(Appended(if contiguous then w else NewSegment(w, src), src, srcSize),
                  Past(p.history + more, memory, p.corrected))
  {
    var v := Appended(if contiguous then w else NewSegment(w, src), src, srcSize);
    var q := Past(p.history + more, memory, p.corrected);
    forall i: nat | v.lowLimit <= i < v.End()
      ensures Names(v, q, i)
    {
      if i < w.End() {
        assert Names(w, p, i);
        assert v.Address(i) == w.Address(i);
      } else {
        assert v.Address(i) == src + (i - w.End());
        assert q.history[i + p.corrected - START_INDEX] == more[i - w.End()];
      }
    }
  }

  class Window {
    var nextSrc: int
    var base: int
    var dictBase: int
    /** Indices from dictLimit on are in the prefix, those from lowLimit to dictLimit in the dictionary. */
    var dictLimit: nat
    var lowLimit: nat
    var nbOverflowCorrections: nat

    ghost var history: seq<byte>
    ghost var mem: int -> byte
    ghost var corrected: nat

    function View(): Bounds
      reads this
    {
      Bounds(nextSrc, base, dictBase, dictLimit, lowLimit)
    }

    ghost predicate Valid()
      reads this
    {
      Sound(View(), Past(history, mem, corrected))
    }

    /** The index of the next byte. */
    function End(): int
      reads this
    {
      View().End()
    }

    /** The address that an index stands for. */
    function Address(i: nat): int
      reads this
    {
      View().Address(i)
    }

    /** ZSTD_window_init; the addresses of the two placeholder strings are arbitrary. */
    constructor (base0: int, dictBase0: int, ghost memory: int -> byte)
      ensures Valid() && history == [] && End() == lowLimit == dictLimit == START_INDEX
    {
      base, dictBase := base0, dictBase0;
      dictLimit, lowLimit := START_INDEX, START_INDEX;
      nextSrc := base0 + START_INDEX;
      nbOverflowCorrections := 0;
      history, mem, corrected := [], memory, 0;
    }

    /** ZSTD_window_clear. */
    method Clear()
      requires Valid()
      modifies this
      ensures Valid() && lowLimit == dictLimit == End() == old(End())
      ensures history == old(history) && corrected == old(corrected)
    {
      var end := nextSrc - base;
      lowLimit, dictLimit := end, end;
    }

    /**
      ZSTD_window_update. The caller has put the input at src and has written nowhere else; it may
      have written over parts of the dictionary or of the former prefix.
     */
    method Update(src: int, srcSize: nat, forceNonContiguous: bool, ghost memory: int -> byte)
      returns (contiguous: bool)
      requires Valid() && End() + srcSize <= 0xFFFF_FFFF
      requires forall a :: a < src || src + srcSize <= a ==> memory(a) == mem(a)
      modifies this
      ensures Valid() && corrected == old(corrected)
      ensures contiguous <==> srcSize == 0 || (src == old(nextSrc) && !forceNonContiguous)
      ensures history == old(history) + seq(srcSize, k => memory(src + k)) && End() == old(End()) + srcSize
      ensures srcSize > 0 ==> nextSrc == src + srcSize && base + old(End()) == src
      ensures lowLimit >= old(lowLimit)
      ensures contiguous ==> dictLimit == old(dictLimit) && dictBase == old(dictBase)
      ensures !contiguous ==> dictLimit == old(End()) && dictBase == old(base) && lowLimit >= old(dictLimit)
      ensures var first := if contiguous then old(lowLimit)
                           else if old(End()) - old(dictLimit) < HASH_READ_SIZE then old(End()) else old(dictLimit);
              lowLimit == if srcSize > 0 then FirstUntouched(first, dictLimit, dictBase, src, src + srcSize) else first
    {
      hide Sound;
      contiguous := true;
      ghost var w, p := View(), Past(history, mem, corrected);
      ghost var more := seq(srcSize, k => memory(src + k));
      if srcSize == 0 {
        NothingAppended(w, p, memory);
        assert history + more == history;
        mem := memory;
        return;
      }
      SoundLimits(w, p);
      UpdateKeeps(w, p, src, srcSize, src == nextSrc && !forceNonContiguous, memory, more);
      var ip := src;
      if src != nextSrc || forceNonContiguous {
        var distanceFromBase := nextSrc - base;
        lowLimit := dictLimit;
        dictLimit := distanceFromBase;
        dictBase := base;
        base := ip - distanceFromBase;
        if dictLimit - lowLimit < HASH_READ_SIZE {
          lowLimit := dictLimit;
        }
        contiguous := false;
      }
      nextSrc := ip + srcSize;
      if ip + srcSize > dictBase + lowLimit && ip < dictBase + dictLimit {
        var highInputIdx := ip + srcSize - dictBase;
        lowLimit := if highInputIdx > dictLimit then dictLimit else highInputIdx;
      }
      assert View() == Appended(if contiguous then w else NewSegment(w, src), src, srcSize);
      mem := memory;
      history := history + more;
    }

    /**
      ZSTD_window_enforceMaxDist: once the block ends further than maxDist after the dictionary, no
      valid index is further away than maxDist, and the dictionary is dropped.
     */
    method EnforceMaxDist(blockEnd: int, maxDist: nat, loadedDictEnd0: nat) returns (loadedDictEnd: nat)
      requires Valid() && base <= blockEnd <= nextSrc
      modifies this
      ensures Valid() && history == old(history) && corrected == old(corrected) && End() == old(End())
      ensures var blockEndIdx := blockEnd - base;
              && (blockEndIdx > maxDist + loadedDictEnd0 ==>
                    && loadedDictEnd == 0 && blockEndIdx - lowLimit <= maxDist
                    && lowLimit == Max(old(lowLimit), blockEndIdx - maxDist)
                    && dictLimit == Max(old(dictLimit), lowLimit))
              && (blockEndIdx <= maxDist + loadedDictEnd0 ==>
                    loadedDictEnd == loadedDictEnd0 && lowLimit == old(lowLimit) && dictLimit == old(dictLimit))
      ensures forall i: nat :: lowLimit <= i < End() ==> Address(i) == old(Address(i))
    {
      loadedDictEnd := loadedDictEnd0;
      var blockEndIdx := blockEnd - base;
      if blockEndIdx > maxDist + loadedDictEnd {
        var newLowLimit := blockEndIdx - maxDist;
        if lowLimit < newLowLimit {
          lowLimit := newLowLimit;
        }
        if dictLimit < lowLimit {
          dictLimit := lowLimit;
        }
        loadedDictEnd := 0;
        forall i: nat | lowLimit <= i < End()
          ensures Names(View(), Past(history, mem, corrected), i) && Address(i) == old(Address(i))
        {
          assert old(Names(View(), Past(history, mem, corrected), i));
        }
      }
    }

    /**
      ZSTD_window_correctOverflow: indices shrink by the correction, every byte that was named and lies at most
      maxDist back is still named, by the corrected index, and the low bits of the current index stay.
     */
    method CorrectOverflow(cycleLog: nat, maxDist: nat, src: int) returns (correction: nat)
      requires Valid() && base + dictLimit <= src <= nextSrc
      requires exists k: nat :: maxDist == Pow2(k)
      requires src - base > NewCurrent(src - base, Pow2(cycleLog), maxDist)
      modifies this
      ensures Valid() && history == old(history) && corrected == old(corrected) + correction
      ensures End() == old(End()) - correction && nextSrc == old(nextSrc)
      ensures var curr, newCurrent := src - old(base), src - base;
              && newCurrent == curr - correction == NewCurrent(curr, Pow2(cycleLog), maxDist)
              && newCurrent % Pow2(cycleLog) == curr % Pow2(cycleLog)
              && newCurrent - maxDist >= START_INDEX && lowLimit <= dictLimit <= newCurrent
              && StillNamed(old(View()), View(), correction, curr - maxDist)
    {
      hide Pow2;
      var cycleSize := Pow2(cycleLog);
      var curr := src - base;
      var newCurrent := NewCurrent(curr, cycleSize, maxDist);
      CycleKept(curr, cycleLog, maxDist);
      correction := curr - newCurrent;
      base := base + correction;
      dictBase := dictBase + correction;
      lowLimit := if lowLimit < correction + START_INDEX then START_INDEX else lowLimit - correction;
      dictLimit := if dictLimit < correction + START_INDEX then START_INDEX else dictLimit - correction;
      nbOverflowCorrections := nbOverflowCorrections + 1;
      corrected := corrected + correction;
      forall i: nat | lowLimit <= i < End()
        ensures Names(View(), Past(history, mem, corrected), i)
      {
        assert old(Names(View(), Past(history, mem, corrected), i + correction));
        assert Address(i) == old(Address(i + correction));
      }
    }

    /**
      ZSTD_window_needOverflowCorrection and the correction its callers make: at the end of the chunk the index is
      within its maximum afterwards, and a correction that is made is a large one.
     */
    method OverflowCorrectIfNeeded(cycleLog: nat, maxDist: nat, src: int, srcEnd: int, loadedDictEnd0: nat)
      returns (correction: nat, loadedDictEnd: nat)
      requires Valid() && base + dictLimit <= src <= srcEnd <= nextSrc && srcEnd - src <= CHUNK_MAX
      requires cycleLog <= 30 && maxDist <= Pow2(31) && exists k: nat :: maxDist == Pow2(k)
      modifies this
      ensures Valid() && history == old(history) && corrected == old(corrected) + correction
      ensures nextSrc == old(nextSrc) && base == old(base) + correction && srcEnd - base <= CURRENT_MAX
      ensures srcEnd - old(base) <= CURRENT_MAX ==>
                correction == 0 && View() == old(View()) && loadedDictEnd == loadedDictEnd0
      ensures srcEnd - old(base) > CURRENT_MAX ==>
                && correction > Pow2(28) && loadedDictEnd == 0
                && (src - base) % Pow2(cycleLog) == (src - old(base)) % Pow2(cycleLog)
                && src - base - maxDist >= START_INDEX
                && StillNamed(old(View()), View(), correction, src - old(base) - maxDist)
    {
      hide Pow2, NewCurrent, Sound, StillNamed;
      if srcEnd - base <= CURRENT_MAX {
        return 0, loadedDictEnd0;
      }
      LargeCorrection(src - base, cycleLog, maxDist);
      correction := CorrectOverflow(cycleLog, maxDist, src);
      loadedDictEnd := 0;
    }
  }

  lemma NothingAppended(w: Bounds, p: Past, memory: int -> byte)
    requires Sound(w, p) && forall a :: memory(a) == p.mem(a)
    ensures Sound(w, p.(mem := memory))
  {
    forall i: nat | w.lowLimit <= i < w.End()
      ensures Names(w, p.(mem := memory), i)
    {
      assert Names(w, p, i);
    }
  }

  lemma SoundLimits(w: Bounds, p: Past)
    requires Sound(w, p)
    ensures START_INDEX <= w.lowLimit <= w.dictLimit <= w.End()
  {
  }

  /** The low cycleLog bits survive because everything added is a multiple of the cycle. */
  lemma CycleKept(curr: nat, cycleLog: nat, maxDist: nat)
    requires exists k: nat :: maxDist == Pow2(k)
    ensures var cycleSize := Pow2(cycleLog);
            var newCurrent := NewCurrent(curr, cycleSize, maxDist);
            newCurrent % cycleSize == curr % cycleSize && newCurrent - maxDist >= START_INDEX
  {
    hide Pow2;
    var cycleSize := Pow2(cycleLog);
    var m := WholeCycles(cycleLog, maxDist);
    var cc := curr % cycleSize;
    var e := if cc >= START_INDEX then 0 else if cycleSize >= START_INDEX then 1 else START_INDEX;
    assert e * cycleSize == if cc < START_INDEX then Max(cycleSize, START_INDEX) else 0;
    MulSum(m, e, cycleSize);
    DivModUnique(NewCurrent(curr, cycleSize, maxDist), cycleSize, m + e, cc);
  }

  lemma WholeCycles(cycleLog: nat, maxDist: nat) returns (m: nat)
    requires exists k: nat :: maxDist == Pow2(k)
    ensures Max(maxDist, Pow2(cycleLog)) == m * Pow2(cycleLog)
  {
    hide Pow2;
    var k: nat :| maxDist == Pow2(k);
    if k <= cycleLog {
      Pow2Mono(k, cycleLog);
      m := 1;
    } else {
      Pow2Mono(cycleLog, k);
      Pow2Add(k - cycleLog, cycleLog);
      m := Pow2(k - cycleLog);
    }
  }

  lemma LargePowers()
    ensures Pow2(28) == 0x1000_0000 && Pow2(29) == 0x2000_0000 && Pow2(30) == 0x4000_0000 && Pow2(31) == 0x8000_0000
  {
    Pow2Values();
    Pow2Add(16, 12);
    Pow2Add(16, 13);
    Pow2Add(16, 14);
    Pow2Add(16, 15);
  }

  /** From index 3 * 2^30 + 2 on every correction is a large one, and it leads back below 3 * 2^30 + 2. */
  lemma LargeCorrection(curr: nat, cycleLog: nat, maxDist: nat)
    requires curr >= CORRECTABLE && cycleLog <= 30 && maxDist <= Pow2(31)
    ensures curr - NewCurrent(curr, Pow2(cycleLog), maxDist) > Pow2(28)
    ensures NewCurrent(curr, Pow2(cycleLog), maxDist) < CORRECTABLE
  {
    hide Pow2;
    LargePowers();
    if cycleLog <= 29 {
      Pow2Mono(cycleLog, 29);
    }
  }

  /** Below that index the largest cycle and the largest window leave nothing to correct. */
  lemma NothingToCorrect(curr: nat)
    requires curr < CORRECTABLE
    ensures curr <= NewCurrent(curr, Pow2(30), Pow2(31))
  {
    hide Pow2;
    LargePowers();
  }

  /**
    The guard looks at the end of a chunk, and the correction is made at its beginning: exactly for chunks of up to
    CHUNK_MAX bytes that is far enough for every cycle and every window.
   */
  lemma GuardSuffices(chunk: nat)
    ensures chunk <= CHUNK_MAX <==>
              forall srcIdx: nat :: srcIdx + chunk > CURRENT_MAX ==> AlwaysCorrectable(srcIdx)
  {
    hide Pow2, AlwaysCorrectable;
    if chunk <= CHUNK_MAX {
      forall srcIdx: nat | srcIdx + chunk > CURRENT_MAX
        ensures AlwaysCorrectable(srcIdx)
      {
        FarEnough(srcIdx);
      }
    } else {
      var srcIdx := Max(0, CURRENT_MAX + 1 - chunk);
      NotFarEnough(srcIdx);
    }
  }

  /** Whatever the cycle and the window, the correction made at this index is a large one. */
  ghost predicate AlwaysCorrectable(srcIdx: nat)
  {
    forall cycleLog: nat, k: nat :: cycleLog <= 30 && k <= 31 ==>
      srcIdx - NewCurrent(srcIdx, Pow2(cycleLog), Pow2(k)) > Pow2(28)
  }

  lemma FarEnough(srcIdx: nat)
    requires srcIdx >= CORRECTABLE
    ensures AlwaysCorrectable(srcIdx)
  {
    hide Pow2, NewCurrent;
    forall cycleLog: nat, k: nat | cycleLog <= 30 && k <= 31
      ensures srcIdx - NewCurrent(srcIdx, Pow2(cycleLog), Pow2(k)) > Pow2(28)
    {
      Pow2Mono(k, 31);
      LargeCorrection(srcIdx, cycleLog, Pow2(k));
    }
  }

  lemma NotFarEnough(srcIdx: nat)
    requires srcIdx < CORRECTABLE
    ensures !AlwaysCorrectable(srcIdx)
  {
    hide Pow2, NewCurrent;
    NothingToCorrect(srcIdx);
    var correction := srcIdx - NewCurrent(srcIdx, Pow2(30), Pow2(31));
    assert correction <= 0;
  }
}
