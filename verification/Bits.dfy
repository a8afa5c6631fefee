/** Fixed-width registers, seen both as numbers and as bit strings. */
module Bits {
  // A register is a natural number below a power of two; C's shifts and masks on
  // it are division, multiplication and remainder by powers of two, and `|` is
  // `BitOr`. A stream of bits is a `seq<bool>` whose first element is the lowest
  // bit of the lowest byte. The lemmas of this module translate between the two
  // views; the rest of the project reasons about bit strings.

  type byte = x: int | 0 <= x < 256

  function Pow2(n: nat): (p: nat)
    ensures p >= 1
  {
    if n == 0 then 1 else 2 * Pow2(n - 1)
  }

  /** ZSTD_highbit32: the position of the highest set bit. */
  function HighBit(x: nat): (h: nat)
    requires x > 0
    ensures Pow2(h) <= x < 2 * Pow2(h)
  {
    if x == 1 then 0 else 1 + HighBit(x / 2)
  }

  function Min(a: int, b: int): int { if a < b then a else b }

  function Max(a: int, b: int): int { if a < b then b else a }

  function Abs(a: int): nat { if a < 0 then -a else a }

  // ----- bit strings -----

  function Bit(b: bool): nat { if b then 1 else 0 }

  /** The number a bit string denotes, lowest bit first. */
  function Value(bits: seq<bool>): nat
  {
    if bits == [] then 0 else Bit(bits[0]) + 2 * Value(bits[1..])
  }

  /** The n lowest bits of v, lowest first. */
  function BitsOf(v: nat, n: nat): (bits: seq<bool>)
    ensures |bits| == n
  {
    if n == 0 then [] else [v % 2 == 1] + BitsOf(v / 2, n - 1)
  }

  /** C's `v >> n`. */
  function Shr(v: nat, n: nat): nat
  {
    if n == 0 then v else Shr(v / 2, n - 1)
  }

  /** C's `v & ((1 << n) - 1)`, and the truncation to an n-bit register. */
  function Low(v: nat, n: nat): nat
  {
    if n == 0 then 0 else v % 2 + 2 * Low(v / 2, n - 1)
  }

  /** C's `v << n`, before truncation to the width of the register. */
  function Shl(v: nat, n: nat): nat
  {
    if n == 0 then v else 2 * Shl(v, n - 1)
  }

  /** C's `x | y`. */
  function BitOr(x: nat, y: nat): nat
    decreases x + y
  {
    if x == 0 && y == 0 then 0
    else (if x % 2 == 1 || y % 2 == 1 then 1 else 0) + 2 * BitOr(x / 2, y / 2)
  }

  // ----- arithmetic -----

  lemma {:induction false} Pow2Add(a: nat, b: nat)
    ensures Pow2(a + b) == Pow2(a) * Pow2(b)
  {
    if a > 0 {
      Pow2Add(a - 1, b);
      assert Pow2(a + b) == 2 * Pow2(a - 1 + b);
      assert 2 * (Pow2(a - 1) * Pow2(b)) == (2 * Pow2(a - 1)) * Pow2(b);
    }
  }

  lemma {:induction false} Pow2Mono(a: nat, b: nat)
    requires a <= b
    ensures Pow2(a) <= Pow2(b)
    decreases b
  {
    if a < b {
      Pow2Mono(a, b - 1);
    }
  }

  lemma Pow2Strict(a: nat, b: nat)
    requires a < b
    ensures 2 * Pow2(a) <= Pow2(b)
  {
    Pow2Mono(a, b - 1);
  }

  lemma TwiceHalf(n: nat)
    requires n > 0
    ensures Pow2(n) == 2 * Pow2(n - 1)
  {
  }

  lemma Pow2Values()
    ensures Pow2(0) == 1 && Pow2(1) == 2 && Pow2(2) == 4 && Pow2(3) == 8 && Pow2(4) == 16
    ensures Pow2(5) == 32 && Pow2(6) == 64 && Pow2(7) == 128 && Pow2(8) == 256
    ensures Pow2(9) == 512 && Pow2(10) == 1024 && Pow2(11) == 2048 && Pow2(12) == 4096
    ensures Pow2(13) == 8192 && Pow2(14) == 0x4000 && Pow2(15) == 0x8000 && Pow2(16) == 0x1_0000
    ensures Pow2(24) == 0x100_0000 && Pow2(32) == 0x1_0000_0000
    ensures Pow2(64) == 0x1_0000_0000_0000_0000
  {
    assert Pow2(8) == 256;
    assert Pow2(16) == 0x1_0000 by { Pow2Add(8, 8); }
    assert Pow2(9) == 512 && Pow2(10) == 1024 && Pow2(11) == 2048 && Pow2(12) == 4096;
    assert Pow2(13) == 8192 && Pow2(14) == 0x4000 && Pow2(15) == 0x8000;
    Pow2Add(16, 8);
    Pow2Add(16, 16);
    Pow2Add(32, 32);
  }

  /** The highest bit is the only exponent that fits. */
  lemma HighBitUnique(x: nat, h: nat)
    requires x > 0 && Pow2(h) <= x < 2 * Pow2(h)
    ensures HighBit(x) == h
  {
    if HighBit(x) < h {
      Pow2Strict(HighBit(x), h);
    } else if h < HighBit(x) {
      Pow2Strict(h, HighBit(x));
    }
  }

  lemma MulAtLeast(d: int, b: int)
    requires b > 0
    ensures d >= 1 ==> d * b >= b
    ensures d <= -1 ==> d * b <= -b
  {
  }

  lemma MulCommutes(a: int, b: int)
    ensures a * b == b * a
  {
  }

  lemma MulAssoc(a: int, b: int, c: int)
    ensures (a * b) * c == a * (b * c)
  {
  }

  lemma MulNext(a: int, b: int)
    ensures (a + 1) * b == a * b + b
  {
  }

  lemma MulMono(a: int, b: int, c: nat)
    requires a <= b
    ensures a * c <= b * c && c * a <= c * b
  {
  }

  lemma MulSum(a: int, b: int, c: int)
    ensures (a + b) * c == a * c + b * c
  {
  }

  lemma Spread(a: int, x: int, y: int)
    ensures a * (x + y) == a * x + a * y
  {
  }

  lemma DivModUnique(a: int, b: int, q: int, r: int)
    requires b > 0 && 0 <= r < b && a == q * b + r
    ensures a / b == q && a % b == r
  {
    var d := a / b - q;
    assert a == (a / b) * b + a % b;
    assert d * b == (a / b) * b - q * b;
    assert -b < d * b < b;
    MulAtLeast(d, b);
  }

  lemma MulDivCancel(a: nat, b: nat)
    requires b > 0
    ensures (a * b) / b == a && (a * b) % b == 0
  {
    DivModUnique(a * b, b, a, 0);
  }

  // ----- shifts and masks -----

  lemma {:induction false} ShrLow(v: nat, n: nat)
    ensures v == Low(v, n) + Pow2(n) * Shr(v, n)
    ensures Low(v, n) < Pow2(n)
  {
    if n > 0 {
      ShrLow(v / 2, n - 1);
      MulAssoc(2, Pow2(n - 1), Shr(v / 2, n - 1));
    }
  }

  lemma LowBound(x: nat, n: nat)
    ensures Low(x, n) < Pow2(n)
  {
    ShrLow(x, n);
  }

  lemma ShrIsDiv(v: nat, n: nat)
    ensures Shr(v, n) == v / Pow2(n) && Low(v, n) == v % Pow2(n)
  {
    ShrLow(v, n);
    MulCommutes(Pow2(n), Shr(v, n));
    DivModUnique(v, Pow2(n), Shr(v, n), Low(v, n));
  }

  /** The quotient and remainder of a division by a power of two. */
  lemma ShrUnique(v: nat, n: nat, hi: nat, lo: nat)
    requires lo < Pow2(n) && v == lo + Pow2(n) * hi
    ensures Shr(v, n) == hi && Low(v, n) == lo
  {
    MulCommutes(Pow2(n), hi);
    DivModUnique(v, Pow2(n), hi, lo);
    ShrIsDiv(v, n);
  }

  lemma {:induction false} ShlIsMul(v: nat, n: nat)
    ensures Shl(v, n) == v * Pow2(n)
  {
    if n > 0 {
      ShlIsMul(v, n - 1);
      MulAssoc(2, v, Pow2(n - 1));
      MulCommutes(2 * v, Pow2(n - 1));
      MulCommutes(v, 2);
      MulAssoc(v, 2, Pow2(n - 1));
    }
  }

  lemma LowSmall(v: nat, n: nat)
    requires v < Pow2(n)
    ensures Low(v, n) == v && Shr(v, n) == 0
  {
    ShrUnique(v, n, 0, v);
  }

  lemma {:induction false} ShrShr(v: nat, a: nat, b: nat)
    ensures Shr(v, a + b) == Shr(Shr(v, a), b)
  {
    if a > 0 {
      ShrShr(v / 2, a - 1, b);
    }
  }

  lemma {:induction false} ShrShl(v: nat, n: nat)
    ensures Shr(Shl(v, n), n) == v && Low(Shl(v, n), n) == 0
  {
    if n > 0 {
      assert Shl(v, n) / 2 == Shl(v, n - 1);
      ShrShl(v, n - 1);
    }
  }

  // ----- bit strings and numbers -----

  lemma {:induction false} ValueBound(bits: seq<bool>)
    ensures Value(bits) < Pow2(|bits|)
  {
    if bits != [] {
      ValueBound(bits[1..]);
    }
  }

  lemma {:induction false} ValueOfBits(v: nat, n: nat)
    ensures Value(BitsOf(v, n)) == Low(v, n)
  {
    if n > 0 {
      assert BitsOf(v, n)[1..] == BitsOf(v / 2, n - 1);
      ValueOfBits(v / 2, n - 1);
    }
  }

  lemma {:induction false} BitsOfValue(bits: seq<bool>)
    ensures BitsOf(Value(bits), |bits|) == bits
  {
    if bits != [] {
      BitsOfValue(bits[1..]);
      assert bits == [bits[0]] + bits[1..];
    }
  }

  lemma {:induction false} ValueConcat(a: seq<bool>, b: seq<bool>)
    ensures Value(a + b) == Value(a) + Pow2(|a|) * Value(b)
  {
    if a == [] {
      assert a + b == b;
    } else {
      var p, v := Pow2(|a| - 1), Value(b);
      assert Value(a + b) == Bit(a[0]) + 2 * Value(a[1..] + b) by {
        assert (a + b)[1..] == a[1..] + b;
      }
      ValueConcat(a[1..], b);
      MulAssoc(2, p, v);
    }
  }

  lemma {:induction false} ValueZeros(z: seq<bool>)
    requires forall i :: 0 <= i < |z| ==> !z[i]
    ensures Value(z) == 0
  {
    if z != [] {
      ValueZeros(z[1..]);
    }
  }

  /** Dropping low bits is a right shift; keeping them is a mask. */
  lemma ValueSplit(bits: seq<bool>, k: nat)
    requires k <= |bits|
    ensures Value(bits[k..]) == Shr(Value(bits), k)
    ensures Value(bits[..k]) == Low(Value(bits), k)
  {
    var lo, hi := bits[..k], bits[k..];
    assert bits == lo + hi;
    ValueConcat(lo, hi);
    ValueBound(lo);
    ShrUnique(Value(bits), k, Value(hi), Value(lo));
  }

  /** A field of nb bits at offset k of a register. */
  lemma ValueField(bits: seq<bool>, k: nat, nb: nat)
    requires k + nb <= |bits|
    ensures Value(bits[k..k + nb]) == Low(Shr(Value(bits), k), nb)
  {
    ValueSplit(bits, k);
    assert bits[k..][..nb] == bits[k..k + nb];
    ValueSplit(bits[k..], nb);
  }

  lemma {:induction false} BitsOfLow(v: nat, n: nat, m: nat)
    requires n <= m
    ensures BitsOf(Low(v, m), n) == BitsOf(v, n)
  {
    if n > 0 {
      BitsOfLow(v / 2, n - 1, m - 1);
    }
  }

  lemma {:induction false} BitsOfConcat(v: nat, n: nat, m: nat)
    ensures BitsOf(v, n + m) == BitsOf(v, n) + BitsOf(Shr(v, n), m)
  {
    if n > 0 {
      BitsOfConcat(v / 2, n - 1, m);
    }
  }

  // ----- or -----

  lemma {:induction false} OrZero(x: nat)
    ensures BitOr(x, 0) == x && BitOr(0, x) == x
  {
    if x > 0 {
      OrZero(x / 2);
    }
  }

  /** Or-ing in a value shifted past the bits in use is an addition. */
  lemma {:induction false} OrAbove(x: nat, y: nat, k: nat)
    requires x < Pow2(k)
    ensures BitOr(x, Shl(y, k)) == x + Pow2(k) * y
  {
    if k == 0 {
      OrZero(y);
    } else {
      var z := Shl(y, k - 1);
      OrAbove(x / 2, y, k - 1);
      MulAssoc(2, Pow2(k - 1), y);
      if x == 0 {
        OrZero(2 * z);
        OrZero(z);
      } else {
        assert BitOr(x, 2 * z) == x % 2 + 2 * BitOr(x / 2, z);
      }
    }
  }

  /** A right shift distributes over `|`, so low garbage never climbs. */
  lemma {:induction false} OrShift(x: nat, y: nat, k: nat)
    ensures Shr(BitOr(x, y), k) == BitOr(Shr(x, k), Shr(y, k))
  {
    if k > 0 {
      OrHalf(x, y);
      OrShift(x / 2, y / 2, k - 1);
    }
  }

  lemma OrHalf(x: nat, y: nat)
    ensures BitOr(x, y) / 2 == BitOr(x / 2, y / 2)
  {
  }

  // ----- bytes -----

  /** The bits of a little-endian byte string. */
  function BytesToBits(s: seq<byte>): (bits: seq<bool>)
    ensures |bits| == 8 * |s|
  {
    if s == [] then [] else BitsOf(s[0], 8) + BytesToBits(s[1..])
  }

  /** MEM_readLE32 / MEM_readLEST: the number a little-endian byte string denotes. */
  function LittleEndian(s: seq<byte>): nat
  {
    if s == [] then 0 else s[0] + 256 * LittleEndian(s[1..])
  }

  /** MEM_writeLE16 / MEM_writeLEST: the n low bytes of v. */
  function BytesOf(v: nat, n: nat): (s: seq<byte>)
    ensures |s| == n
  {
    if n == 0 then [] else [v % 256] + BytesOf(v / 256, n - 1)
  }

  lemma {:induction false} BytesToBitsConcat(a: seq<byte>, b: seq<byte>)
    ensures BytesToBits(a + b) == BytesToBits(a) + BytesToBits(b)
  {
    if a == [] {
      assert a + b == b;
    } else {
      assert (a + b)[1..] == a[1..] + b;
      BytesToBitsConcat(a[1..], b);
    }
  }

  lemma BytesToBitsCut(s: seq<byte>, i: nat)
    requires i <= |s|
    ensures BytesToBits(s[..i]) == BytesToBits(s)[..8 * i]
    ensures BytesToBits(s[i..]) == BytesToBits(s)[8 * i..]
  {
    var a, b := s[..i], s[i..];
    assert s == a + b;
    BytesToBitsConcat(a, b);
  }

  lemma BytesToBitsSlice(s: seq<byte>, i: nat, j: nat)
    requires i <= j <= |s|
    ensures BytesToBits(s[i..j]) == BytesToBits(s)[8 * i..8 * j]
  {
    var t := s[..j];
    assert s[i..j] == t[i..];
    BytesToBitsCut(s, j);
    BytesToBitsCut(t, i);
  }

  lemma ByteValue(b: byte)
    ensures Value(BitsOf(b, 8)) == b
  {
    ValueOfBits(b, 8);
    Pow2Values();
    LowSmall(b, 8);
  }

  lemma {:induction false} LittleEndianValue(s: seq<byte>)
    ensures LittleEndian(s) == Value(BytesToBits(s))
  {
    if s != [] {
      LittleEndianValue(s[1..]);
      ValueConcat(BitsOf(s[0], 8), BytesToBits(s[1..]));
      ByteValue(s[0]);
      Pow2Values();
    }
  }

  lemma {:induction false} BytesOfBits(v: nat, n: nat)
    ensures BytesToBits(BytesOf(v, n)) == BitsOf(v, 8 * n)
  {
    if n > 0 {
      BytesOfBits(v / 256, n - 1);
      assert Shr(v, 8) == v / 256 && Low(v, 8) == v % 256 by {
        ShrIsDiv(v, 8);
        Pow2Values();
      }
      BitsOfConcat(v, 8, 8 * (n - 1));
      BitsOfLow(v, 8, 8);
    }
  }

  lemma {:induction false} BytesToBitsInjective(a: seq<byte>, b: seq<byte>)
    requires BytesToBits(a) == BytesToBits(b)
    ensures a == b
  {
    assert 8 * |a| == |BytesToBits(a)| == |BytesToBits(b)| == 8 * |b|;
    if a != [] {
      FirstByte(a);
      FirstByte(b);
      BytesToBitsInjective(a[1..], b[1..]);
      assert a == [a[0]] + a[1..] && b == [b[0]] + b[1..];
    }
  }

  lemma FirstByte(s: seq<byte>)
    requires s != []
    ensures Value(BytesToBits(s)[..8]) == s[0]
    ensures BytesToBits(s)[8..] == BytesToBits(s[1..])
  {
    assert BytesToBits(s)[..8] == BitsOf(s[0], 8);
    ByteValue(s[0]);
  }
}
