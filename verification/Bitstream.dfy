/** The LIFO bit streams of common/bitstream.h. */
module Bitstream {
  // A writer (`CStream`) appends fields to a 64-bit register and spills whole bytes
  // forward; a reader (`DStream`) starts at the last byte and takes fields back in
  // the opposite order. Writer and reader are both specified by bit strings: `Seal`
  // is the byte string that stands for a bit string with its end mark, and `Unseal`
  // its inverse.

  import opened Bits
  import opened Wrappers

  const REGISTER_BYTES := 8
  const REGISTER_BITS := 64

  // ----- bit strings as byte strings -----

  function Zeros(n: nat): (z: seq<bool>)
    ensures |z| == n && forall i :: 0 <= i < n ==> !z[i]
  {
    if n == 0 then [] else [false] + Zeros(n - 1)
  }

  /** Fills bytes from the lowest bit up; the last byte is padded with zeros. */
  function Pack(bits: seq<bool>): (s: seq<byte>)
    ensures |s| == (|bits| + 7) / 8
  {
    if bits == [] then []
    else if |bits| < 8 then
      PartialByte(bits);
      [Value(bits)]
    else
      PartialByte(bits[..8]);
      [Value(bits[..8])] + Pack(bits[8..])
  }

  function Padding(n: nat): (p: nat)
    ensures p < 8 && (n + p) % 8 == 0
  {
    (8 - n % 8) % 8
  }

  lemma PaddingIs(n: nat, p: nat, k: nat)
    requires p < 8 && n + p == 8 * k
    ensures Padding(n) == p
  {
  }

  /** What BIT_closeCStream leaves in memory for the given fields. */
  function Seal(bits: seq<bool>): (s: seq<byte>)
  {
    Pack(bits + [true])
  }

  /** What BIT_initDStream makes of a byte string: its errors, or everything below the highest set bit. */
  function Unseal(src: seq<byte>): (r: Result<seq<bool>>)
  {
    if |src| < 1 then Err(SrcSizeWrong)
    else if src[|src| - 1] == 0 then Err(if |src| >= REGISTER_BYTES then Generic else Corruption)
    else
      MarkBelowEight(src[|src| - 1]);
      Ok(BytesToBits(src)[..8 * (|src| - 1) + HighBit(src[|src| - 1])])
  }

  lemma PartialByte(bits: seq<bool>)
    requires |bits| <= 8
    ensures Value(bits) < 256
  {
    ValueBound(bits);
    Pow2Mono(|bits|, 8);
    Pow2Values();
  }

  lemma MarkBelowEight(b: byte)
    requires b > 0
    ensures HighBit(b) < 8
  {
    Pow2Values();
    if HighBit(b) >= 8 {
      Pow2Mono(8, HighBit(b));
    }
  }

  lemma SingleByteBits(b: byte)
    ensures BytesToBits([b]) == BitsOf(b, 8)
  {
    assert [b][1..] == [];
    assert BytesToBits([b]) == BitsOf(b, 8) + BytesToBits([]);
  }

  lemma ByteAt(s: seq<byte>, n: nat)
    requires n < |s|
    ensures BitsOf(s[n], 8) == BytesToBits(s)[8 * n..8 * n + 8]
  {
    hide *;
    BytesToBitsSlice(s, n, n + 1);
    assert s[n..n + 1] == [s[n]];
    SingleByteBits(s[n]);
  }

  lemma PackWhole(lo: seq<bool>, hi: seq<bool>)
    requires |lo| == 8
    ensures Value(lo) < 256
    ensures BytesToBits([Value(lo)] + Pack(hi)) == lo + BytesToBits(Pack(hi))
  {
    PartialByte(lo);
    hide *;
    BytesToBitsConcat([Value(lo)], Pack(hi));
    SingleByteBits(Value(lo));
    BitsOfValue(lo);
  }

  lemma PackPartial(bits: seq<bool>)
    requires 0 < |bits| < 8
    ensures BytesToBits(Pack(bits)) == bits + Zeros(8 - |bits|)
  {
    PartialByte(bits);
    assert Pack(bits) == [Value(bits)];
    hide *;
    ZeroExtend(bits, 8);
    SingleByteBits(Value(bits));
  }

  lemma PackUnfold(bits: seq<bool>)
    ensures bits == [] ==> Pack(bits) == [] && BytesToBits(Pack(bits)) == []
    ensures |bits| >= 8 ==> Value(bits[..8]) < 256 && Pack(bits) == [Value(bits[..8])] + Pack(bits[8..])
  {
    if |bits| >= 8 {
      PartialByte(bits[..8]);
    }
  }

  lemma {:induction false} PackBits(bits: seq<bool>)
    ensures BytesToBits(Pack(bits)) == bits + Zeros(Padding(|bits|))
    decreases |bits|
  {
    hide *;
    PackUnfold(bits);
    if |bits| >= 8 {
      var lo, hi := bits[..8], bits[8..];
      PackWhole(lo, hi);
      PackBits(hi);
      assert Padding(|hi|) == Padding(|bits|);
      var z := Zeros(Padding(|hi|));
      assert bits == lo + hi;
      assert lo + (hi + z) == (lo + hi) + z;
    } else if bits != [] {
      PackPartial(bits);
      assert Padding(|bits|) == 8 - |bits|;
    }
  }

  lemma ZeroExtend(bits: seq<bool>, n: nat)
    requires |bits| <= n
    ensures BitsOf(Value(bits), n) == bits + Zeros(n - |bits|)
    ensures Value(bits + Zeros(n - |bits|)) == Value(bits)
  {
    var z := Zeros(n - |bits|);
    ValueConcat(bits, z);
    ValueZeros(z);
    BitsOfValue(bits + z);
  }

  lemma HighBitOfMarked(bits: seq<bool>)
    requires |bits| < 8
    ensures Value(bits + [true]) > 0 && HighBit(Value(bits + [true])) == |bits|
  {
    MarkedValue(bits);
    ValueBound(bits);
    HighBitUnique(Value(bits + [true]), |bits|);
  }

  /** A byte below its highest set bit. */
  lemma ByteBelowMark(b: byte)
    requires b > 0
    ensures HighBit(b) < 8
    ensures BitsOf(b, 8) == (BitsOf(b, 8)[..HighBit(b)] + [true]) + Zeros(7 - HighBit(b))
  {
    MarkBelowEight(b);
    var h := HighBit(b);
    var lo := BitsOf(b, 8)[..h];
    ByteValue(b);
    ValueSplit(BitsOf(b, 8), h);
    ShrUnique(b, h, 1, b - Pow2(h));
    MarkedValue(lo);
    assert Value(lo + [true]) == b;
    hide *;
    ZeroExtend(lo + [true], 8);
  }

  lemma ValueOne()
    ensures Value([true]) == 1
  {
    assert [true][1..] == [];
    assert Value([]) == 0;
  }

  lemma MarkedValue(lo: seq<bool>)
    ensures Value(lo + [true]) == Value(lo) + Pow2(|lo|)
  {
    hide *;
    ValueOne();
    ValueConcat(lo, [true]);
  }

  lemma ConcatAssoc<T>(a: seq<T>, b: seq<T>, c: seq<T>, d: seq<T>)
    ensures a + ((b + c) + d) == ((a + b) + c) + d
  {
  }

  /** The last byte of a sealed bit string. */
  lemma LastByteOfSeal(bits: seq<bool>)
    ensures var lo := bits[8 * (|bits| / 8)..];
            |Seal(bits)| == |bits| / 8 + 1 && Seal(bits)[|bits| / 8] == Value(lo + [true])
    ensures BytesToBits(Seal(bits))[..|bits|] == bits
  {
    hide Value, BitsOf, Pow2, HighBit, Padding, Zeros;
    var m := bits + [true];
    var s, k := Seal(bits), |bits| / 8;
    var lo := bits[8 * k..];
    PackBits(m);
    var all := m + Zeros(Padding(|m|));
    assert all[8 * k..8 * k + 8] == (lo + [true]) + Zeros(7 - |lo|);
    BytesToBitsSlice(s, k, k + 1);
    assert s[k..k + 1] == [s[k]];
    SingleByteBits(s[k]);
    ByteValue(s[k]);
    ZeroExtend(lo + [true], 8);
  }

  /** Reading back what was sealed returns exactly the bits that were written. */
  lemma UnsealSeal(bits: seq<bool>)
    ensures Unseal(Seal(bits)) == Ok(bits)
  {
    LastByteOfSeal(bits);
    HighBitOfMarked(bits[8 * (|bits| / 8)..]);
  }

  lemma LastByteBits(src: seq<byte>)
    requires src != []
    ensures var k := |src| - 1;
            BytesToBits(src) == BytesToBits(src[..k]) + BitsOf(src[k], 8)
  {
    hide *;
    var k := |src| - 1;
    assert src == src[..k] + [src[k]];
    BytesToBitsConcat(src[..k], [src[k]]);
    SingleByteBits(src[k]);
  }

  lemma SealForm(bits: seq<bool>)
    ensures Seal(bits) == Pack(bits + [true])
  {
  }

  /** The bits a reader finds, split at the last byte. */
  lemma UnsealForm(src: seq<byte>)
    requires Unseal(src).Ok?
    ensures src != [] && src[|src| - 1] > 0
    ensures var k := |src| - 1; var h := HighBit(src[k]);
            h < 8 && Unseal(src).value == BytesToBits(src[..k]) + BitsOf(src[k], 8)[..h]
  {
    var k := |src| - 1;
    MarkBelowEight(src[k]);
    LastByteBits(src);
    assert Unseal(src).value == BytesToBits(src)[..8 * k + HighBit(src[k])];
    hide *;
  }

  /** Every byte string with an end mark is the seal of the bits below the mark. */
  lemma SealUnseal(src: seq<byte>)
    requires Unseal(src).Ok?
    ensures Seal(Unseal(src).value) == src
  {
    hide *;
    UnsealForm(src);
    var k, bits := |src| - 1, Unseal(src).value;
    SealForm(bits);
    ByteBelowMark(src[k]);
    var front, last, h := BytesToBits(src[..k]), BitsOf(src[k], 8), HighBit(src[k]);
    LastByteBits(src);
    ConcatAssoc(front, last[..h], [true], Zeros(7 - h));
    PackBits(bits + [true]);
    PaddingIs(|bits + [true]|, 7 - h, |src|);
    BytesToBitsInjective(src, Pack(bits + [true]));
  }
}
