/** The bit containers of the Huffman encoder: filled from the top, with noise below the bits in use. */
module HufContainer {
  import opened Bits

  const TABLELOG_MAX := 12

  /** A code: its length and its bits. */
  datatype Code = Code(nbBits: nat, value: nat)
  {
    ghost predicate Valid() { nbBits <= TABLELOG_MAX && value < Pow2(nbBits) }

    /** The bits in stream order, lowest first. */
    function Stream(): (bits: seq<bool>)
      ensures |bits| == nbBits
    {
      BitsOf(value, nbBits)
    }
  }

  /** HUF_CElt: the length in the low byte and the value in the top bits (HUF_setNbBits and HUF_setValue). */
  function Elt(c: Code): nat
    requires c.nbBits <= TABLELOG_MAX
  {
    if c.nbBits == 0 then 0 else BitOr(c.nbBits, Shl(c.value, 64 - c.nbBits))
  }

  /** One of the two bit containers, with its bitPos. */
  datatype Container = Container(word: nat, pos: nat)

  /** HUF_addBits on one container. */
  function AddElt(c: Container, elt: nat, fast: bool): Container
  {
    var nbBits := Low(elt, 8);
    var value := Shl(Shr(elt, 8), 8);
    Container(BitOr(Shr(c.word, nbBits), if fast then elt else value), Low(c.pos + elt, 64))
  }

  /** HUF_mergeIndex1, as far as container 0 is concerned. */
  function Merge(c0: Container, c1: Container): Container
  {
    Container(BitOr(Shr(c0.word, Low(c1.pos, 8)), c1.word), Low(c0.pos + c1.pos, 64))
  }

  /** The top |bits| bits of the word are `bits`, the `slack` bits below them are clear, and anything lies below. */
  ghost predicate Holds(c: Container, bits: seq<bool>, slack: nat)
  {
    && |bits| + slack <= 64
    && c.word < Pow2(64)
    && Shr(c.word, 64 - |bits|) == Value(bits)
    && Low(c.word, 64 - |bits|) < Pow2(64 - |bits| - slack)
    && Low(c.pos, 8) == |bits|
  }

  /** How many low bits of an element its length takes. */
  function Dirty(nbBits: nat): nat
  {
    if nbBits == 0 then 0 else HighBit(nbBits) + 1
  }

  // ----- or, block by block -----

  lemma {:induction false} OrLow(x: nat, y: nat, k: nat)
    ensures Low(BitOr(x, y), k) == BitOr(Low(x, k), Low(y, k))
  {
    if k > 0 {
      OrHalf(x, y);
      OrLow(x / 2, y / 2, k - 1);
      OrHalf(Low(x, k), Low(y, k));
    }
  }

  lemma OrBound(x: nat, y: nat, k: nat)
    requires x < Pow2(k) && y < Pow2(k)
    ensures BitOr(x, y) < Pow2(k)
  {
    hide *;
    LowSmall(x, k);
    LowSmall(y, k);
    OrLow(x, y, k);
    ShrLow(BitOr(x, y), k);
  }

  lemma OrSplit(a: nat, b: nat, c: nat, d: nat, k: nat)
    requires a < Pow2(k) && c < Pow2(k)
    ensures BitOr(a + Pow2(k) * b, c + Pow2(k) * d) == BitOr(a, c) + Pow2(k) * BitOr(b, d)
  {
    hide *;
    var x, y := a + Pow2(k) * b, c + Pow2(k) * d;
    ShrUnique(x, k, b, a);
    ShrUnique(y, k, d, c);
    OrShift(x, y, k);
    OrLow(x, y, k);
    ShrLow(BitOr(x, y), k);
  }

  /**
    What is in the container moves down by n = |more|, and `more` comes in at the top, with dirt that
    stays clear of the slack; k bits are left below.
   */
  lemma ShiftOr(word: nat, bits: seq<bool>, more: seq<bool>, dirt: nat, p: nat, n: nat, room: nat, slack: nat)
    requires p == |bits| && n == |more| && p + n + room + slack == 64 && word < Pow2(64)
    requires Shr(word, n + room + slack) == Value(bits) && Low(word, n + room + slack) < Pow2(n + room)
    requires dirt < Pow2(room)
    ensures var after := BitOr(Shr(word, n), dirt + Shl(Value(more), p + room + slack));
            && after < Pow2(64)
            && Shr(after, room + slack) == Value(bits + more)
            && Low(after, room + slack) < Pow2(room)
  {
    hide *;
    var k := room + slack;
    var low := Low(word, n + k);
    ShlIsMul(Value(more), p + room + slack);
    MulCommutes(Value(more), Pow2(p + room + slack));
    ShiftedDown(word, Value(bits), n, room, slack);
    Pow2Mono(room, k);
    Pow2Add(k, p);
    MulAssoc(Pow2(k), Pow2(p), Value(more));
    OrSplit(Shr(low, n), Value(bits), dirt, Pow2(p) * Value(more), k);
    OrBound(Shr(low, n), dirt, room);
    ValueBound(bits);
    OrAbove(Value(bits), Value(more), p);
    ShlIsMul(Value(more), p);
    MulCommutes(Value(more), Pow2(p));
    ValueConcat(bits, more);
    var noise, v := BitOr(Shr(low, n), dirt), Value(bits + more);
    ShrUnique(noise + Pow2(k) * v, k, v, noise);
    ValueBound(bits + more);
    Pow2Add(k, p + n);
    BelowTop(noise, Pow2(k), v, Pow2(p + n));
  }

  lemma BelowTop(lo: nat, unit: nat, v: nat, size: nat)
    requires lo < unit && v < size
    ensures lo + unit * v < unit * size
  {
    assert unit * (v + 1) <= unit * size;
  }

  /** The word moved down by n bits. */
  lemma ShiftedDown(word: nat, v: nat, n: nat, room: nat, slack: nat)
    requires Shr(word, n + room + slack) == v && Low(word, n + room + slack) < Pow2(n + room)
    ensures var low := Low(word, n + room + slack);
            && Shr(word, n) == Shr(low, n) + Pow2(room + slack) * v
            && Shr(low, n) < Pow2(room)
  {
    hide *;
    var k := room + slack;
    var low := Low(word, n + room + slack);
    ShrLow(word, n + room + slack);
    Pow2Add(n, k);
    MulAssoc(Pow2(n), Pow2(k), v);
    ShrLow(low, n);
    Spread(Pow2(n), Shr(low, n), Pow2(k) * v);
    ShrUnique(word, n, Shr(low, n) + Pow2(k) * v, Low(low, n));
    Pow2Add(n, room);
    QuotientBelow(Shr(low, n), Pow2(n), Pow2(room));
  }

  lemma QuotientBelow(q: nat, unit: nat, size: nat)
    requires unit * q < unit * size
    ensures q < size
  {
    if q >= size {
      MulMono(size, q, unit);
    }
  }

  /** The element of a code, and its parts. */
  lemma EltParts(c: Code)
    requires c.Valid()
    ensures Elt(c) == c.nbBits + Shl(c.value, 64 - c.nbBits)
    ensures Low(Elt(c), 8) == c.nbBits && Elt(c) < Pow2(64)
    ensures Shl(Shr(Elt(c), 8), 8) == Elt(c) - c.nbBits
  {
    hide *;
    ValidCode(c);
    Pow2Values();
    var n, v, e := c.nbBits, c.value, Elt(c);
    if n == 0 {
      EltZero(c);
      LowSmall(0, 8);
      ShlIsMul(Shr(0, 8), 8);
      ShlIsMul(0, 64);
    } else {
      EltSum(c);
      ShlIsMul(v, 64 - n);
      MulCommutes(v, Pow2(64 - n));
      Pow2Add(8, 56 - n);
      MulAssoc(Pow2(8), Pow2(56 - n), v);
      ShrUnique(e, 8, Pow2(56 - n) * v, n);
      ShlIsMul(Shr(e, 8), 8);
      MulCommutes(Pow2(56 - n) * v, Pow2(8));
      Pow2Add(64 - n, n);
      Pow2Mono(8, 64 - n);
      BelowTop(n, Pow2(64 - n), v, Pow2(n));
    }
  }

  lemma ValidCode(c: Code)
    requires c.Valid()
    ensures c.nbBits <= 12 && c.nbBits <= TABLELOG_MAX && c.value < Pow2(c.nbBits)
  {
    hide Pow2;
  }

  lemma EltForm(c: Code)
    requires 0 < c.nbBits <= 12
    ensures c.nbBits <= TABLELOG_MAX && Elt(c) == BitOr(c.nbBits, Shl(c.value, 64 - c.nbBits))
  {
    hide BitOr, Shl;
  }

  lemma EltZero(c: Code)
    requires c.Valid() && c.nbBits == 0
    ensures Elt(c) == 0 == c.value
  {
  }

  lemma EltSum(c: Code)
    requires c.Valid() && c.nbBits > 0
    ensures Elt(c) == c.nbBits + Pow2(64 - c.nbBits) * c.value && c.nbBits <= 12
  {
    hide *;
    ValidCode(c);
    Pow2Values();
    EltForm(c);
    var n, v := c.nbBits, c.value;
    Pow2Mono(8, 64 - n);
    OrAbove(n, v, 64 - n);
  }

  // ----- bitPos, of which only the low byte matters -----

  lemma LowByte(x: nat, k: nat)
    requires 8 <= k
    ensures Low(Low(x, k), 8) == Low(x, 8)
  {
    hide *;
    ShrLow(x, k);
    Pow2Add(8, k - 8);
    var lo, hi := Low(x, k), Shr(x, k);
    ShrLow(lo, 8);
    MulAssoc(Pow2(8), Pow2(k - 8), hi);
    Spread(Pow2(8), Shr(lo, 8), Pow2(k - 8) * hi);
    ShrUnique(x, 8, Shr(lo, 8) + Pow2(k - 8) * hi, Low(lo, 8));
  }

  lemma AddPositions(x: nat, y: nat)
    requires Low(x, 8) + Low(y, 8) < 256
    ensures Low(Low(x + y, 64), 8) == Low(x, 8) + Low(y, 8)
  {
    hide *;
    Pow2Values();
    LowByte(x + y, 64);
    ShrLow(x, 8);
    ShrLow(y, 8);
    Spread(Pow2(8), Shr(x, 8), Shr(y, 8));
    ShrUnique(x + y, 8, Shr(x, 8) + Shr(y, 8), Low(x, 8) + Low(y, 8));
  }

  // ----- the operations on containers -----

  /** A cleared container. */
  lemma Cleared(slack: nat)
    requires slack <= 64
    ensures Holds(Container(0, 0), [], slack)
  {
    LowSmall(0, 64);
    LowSmall(0, 8);
    hide Shr, Low;
    assert Value([]) == 0;
  }

  lemma HoldsFits(c: Container, bits: seq<bool>, slack: nat)
    requires Holds(c, bits, slack)
    ensures |bits| + slack <= 64
  {
  }

  lemma OpenHolds(c: Container, bits: seq<bool>, room: nat, slack: nat)
    requires |bits| + room + slack == 64 && Holds(c, bits, slack)
    ensures c.word < Pow2(64) && Shr(c.word, room + slack) == Value(bits)
    ensures Low(c.word, room + slack) < Pow2(room) && Low(c.pos, 8) == |bits|
  {
    hide Shr, Low, Value, Pow2;
  }

  lemma CloseHolds(c: Container, bits: seq<bool>, room: nat, slack: nat)
    requires |bits| + room + slack == 64
    requires c.word < Pow2(64) && Shr(c.word, room + slack) == Value(bits)
    requires Low(c.word, room + slack) < Pow2(room) && Low(c.pos, 8) == |bits|
    ensures Holds(c, bits, slack)
  {
    hide Shr, Low, Value, Pow2;
  }

  /** HUF_addBits, when the dirt of the fast form stays below the bits in use and the slack. */
  lemma AddKeeps(c: Container, bits: seq<bool>, code: Code, fast: bool, slack: nat)
    requires Holds(c, bits, slack) && code.Valid()
    requires |bits| + code.nbBits + slack + (if fast then Dirty(code.nbBits) else 0) <= 64
    ensures Holds(AddElt(c, Elt(code), fast), bits + code.Stream(), slack)
  {
    hide *;
    var n := code.nbBits;
    var room := 64 - |bits| - n - slack;
    var dirt := DirtBelow(n, fast, room);
    ValidCode(code);
    var after := AddElt(c, Elt(code), fast);
    OpenHolds(c, bits, n + room, slack);
    AddWord(c, code, fast);
    StreamValue(code);
    ShiftOr(c.word, bits, code.Stream(), dirt, |bits|, n, room, slack);
    AddPositions(c.pos, Elt(code));
    CloseHolds(after, bits + code.Stream(), room, slack);
  }

  lemma DirtBelow(n: nat, fast: bool, room: nat) returns (dirt: nat)
    requires fast ==> Dirty(n) <= room
    ensures dirt == (if fast then n else 0) && dirt < Pow2(room)
  {
    dirt := if fast then n else 0;
    if fast && n > 0 {
      Pow2Mono(Dirty(n), room);
    }
  }

  lemma StreamValue(code: Code)
    requires code.Valid()
    ensures |code.Stream()| == code.nbBits && Value(code.Stream()) == code.value
  {
    hide Low, Value, BitsOf;
    ValueOfBits(code.value, code.nbBits);
    LowSmall(code.value, code.nbBits);
  }

  /** HUF_mergeIndex1: the bits of container 1 come after those of container 0. */
  lemma MergeKeeps(c0: Container, bits0: seq<bool>, c1: Container, bits1: seq<bool>, slack: nat)
    requires Holds(c0, bits0, 0) && Holds(c1, bits1, slack) && |bits0| <= slack
    ensures Holds(Merge(c0, c1), bits0 + bits1, 0)
  {
    hide *;
    var p, n := |bits0|, |bits1|;
    HoldsFits(c1, bits1, slack);
    var room := 64 - p - n;
    OpenHolds(c0, bits0, n + room, 0);
    OpenHolds(c1, bits1, room + p - slack, slack);
    Pow2Mono(room + p - slack, room);
    LowPlusShl(c1.word, p + room);
    ShiftOr(c0.word, bits0, bits1, Low(c1.word, p + room), p, n, room, 0);
    AddPositions(c0.pos, c1.pos);
    MergeForm(c0, c1);
    CloseHolds(Merge(c0, c1), bits0 + bits1, room, 0);
  }

  lemma LowPlusShl(x: nat, k: nat)
    ensures x == Low(x, k) + Shl(Shr(x, k), k)
  {
    hide *;
    ShrLow(x, k);
    ShlIsMul(Shr(x, k), k);
    MulCommutes(Shr(x, k), Pow2(k));
  }

  lemma MergeForm(c0: Container, c1: Container)
    ensures Merge(c0, c1).word == BitOr(Shr(c0.word, Low(c1.pos, 8)), c1.word)
    ensures Merge(c0, c1).pos == Low(c0.pos + c1.pos, 64)
  {
    hide BitOr, Shr, Low;
  }

  /** What HUF_addBits leaves in the word. */
  lemma AddWord(c: Container, code: Code, fast: bool)
    requires code.Valid()
    ensures var n := code.nbBits;
            && AddElt(c, Elt(code), fast).word ==
              BitOr(Shr(c.word, n), (if fast then n else 0) + Shl(code.value, 64 - n))
            && AddElt(c, Elt(code), fast).pos == Low(c.pos + Elt(code), 64) && Low(Elt(code), 8) == n
            && code.value < Pow2(n)
  {
    hide *;
    ValidCode(code);
    AddForm(c, Elt(code), fast);
    EltParts(code);
  }

  lemma AddForm(c: Container, elt: nat, fast: bool)
    ensures AddElt(c, elt, fast).word == BitOr(Shr(c.word, Low(elt, 8)), if fast then elt else Shl(Shr(elt, 8), 8))
    ensures AddElt(c, elt, fast).pos == Low(c.pos + elt, 64)
  {
    hide BitOr, Shr, Low, Shl;
  }

  /** After a flush of k whole bytes the rest is still at the top; the word itself does not change. */
  lemma FlushKeeps(c: Container, bits: seq<bool>, k: nat)
    requires Holds(c, bits, 0) && 8 * k <= |bits| < 8 * k + 8
    ensures Holds(Container(c.word, Low(c.pos, 3)), bits[8 * k..], 0)
    ensures Shr(c.word, 64 - |bits|) == Value(bits)
  {
    hide *;
    HoldsFits(c, bits, 0);
    var p, r := |bits|, |bits| - 8 * k;
    OpenHolds(c, bits, 64 - p, 0);
    ValueSplit(bits, 8 * k);
    ShrShr(c.word, 64 - p, 8 * k);
    ShrLow(c.word, 64 - r);
    FlushedPos(c.pos, k, r);
    CloseHolds(Container(c.word, Low(c.pos, 3)), bits[8 * k..], 64 - r, 0);
  }

  lemma FlushedPos(pos: nat, k: nat, r: nat)
    requires Low(pos, 8) == 8 * k + r && r < 8
    ensures Low(Low(pos, 3), 8) == r
  {
    hide *;
    ShrLow(pos, 8);
    Pow2Values();
    var hi := Shr(pos, 8);
    ShrUnique(pos, 3, k + 32 * hi, r);
    LowSmall(r, 8);
  }
}
