/** BIT_CStream_t: the forward writer of common/bitstream.h. */
module BitWriter {
  import opened Bits
  import opened Bitstream
  import opened Memory

  /** The size of the stream BIT_closeCStream reports for nbBits bits and the end mark. */
  function ClosedSize(nbBits: nat, capacity: nat): nat
    requires capacity > REGISTER_BYTES
  {
    if (nbBits + 1) / 8 < capacity - REGISTER_BYTES then nbBits / 8 + 1 else 0
  }

  class CStream {
    var bitContainer: nat
    var bitPos: nat
    const data: array<byte>
    const startPtr: nat
    const endPtr: nat
    var ptr: nat
    /** Every bit added so far. */
    ghost var bits: seq<bool>
    /** How many bytes have left the register. */
    ghost var flushed: nat

    ghost predicate Valid()
      reads this, data
    {
      && startPtr < endPtr && endPtr + REGISTER_BYTES <= data.Length
      && bitPos < REGISTER_BITS && |bits| == 8 * flushed + bitPos
      && bitContainer == Value(bits[8 * flushed..])
      && ptr == Min(startPtr + flushed, endPtr)
      && (ptr < endPtr ==> BytesToBits(data[startPtr..ptr]) == bits[..8 * flushed])
    }

    /** BIT_initCStream on dstCapacity bytes at dst; the error for a capacity of 8 or less is the caller's test. */
    constructor (dst: array<byte>, start: nat, dstCapacity: nat)
      requires dstCapacity > REGISTER_BYTES && start + dstCapacity <= dst.Length
      ensures Valid() && bits == [] && bitPos == 0
      ensures data == dst && startPtr == start && endPtr == start + dstCapacity - REGISTER_BYTES
    {
      bitContainer, bitPos := 0, 0;
      data, startPtr, ptr := dst, start, start;
      endPtr := start + dstCapacity - REGISTER_BYTES;
      bits, flushed := [], 0;
    }

    /** BIT_addBits: the nbBits low bits of value. */
    method AddBits(value: nat, nbBits: nat)
      requires Valid()
      requires nbBits < 32 && nbBits + bitPos < REGISTER_BITS
      modifies this
      ensures Valid()
      ensures bits == old(bits) + BitsOf(value, nbBits) && bitPos == old(bitPos) + nbBits
    {
      hide Value, BytesToBits, Shl, BitOr, Low;
      ghost var field := BitsOf(value, nbBits);
      OrField(bits[8 * flushed..], value, nbBits);
      AppendKeeps(bits, 8 * flushed, field);
      bitContainer := BitOr(bitContainer, Shl(Low(value, nbBits), bitPos));
      bitPos := bitPos + nbBits;
      bits := bits + field;
    }

    /** BIT_flushBits: whole bytes go to memory; ptr is clamped at endPtr and stays there. */
    method FlushBits()
      requires Valid()
      modifies this, data
      ensures Valid()
      ensures bits == old(bits) && bitPos == old(bitPos) % 8
      ensures ptr < endPtr ==> data[ptr] == bitContainer
      ensures forall k :: 0 <= k < startPtr || endPtr + REGISTER_BYTES <= k < data.Length ==> data[k] == old(data[k])
    {
      hide Value, BytesToBits, BytesOf, Shr;
      var nbBytes := bitPos / 8;
      assert 8 * (flushed + nbBytes) + bitPos % 8 == |bits|;
      FlushedRegister(bits, flushed, nbBytes);
      WriteRegister(data, ptr, bitContainer, startPtr, nbBytes);
      ptr := Min(ptr + nbBytes, endPtr);
      bitPos := bitPos % 8;
      bitContainer := Shr(bitContainer, 8 * nbBytes);
      flushed := flushed + nbBytes;
    }

    /**
      BIT_closeCStream: adds the end mark. A result of 0 says that the stream did not fit;
      any other result is the size of the sealed stream, whose bytes are in place.
     */
    method Close() returns (size: nat)
      requires Valid() && bitPos + 1 < REGISTER_BITS
      modifies this, data
      ensures size == ClosedSize(|old(bits)|, endPtr + REGISTER_BYTES - startPtr)
      ensures size > 0 ==> startPtr + size <= endPtr && data[startPtr..startPtr + size] == Seal(old(bits))
      ensures forall k :: 0 <= k < startPtr || endPtr + REGISTER_BYTES <= k < data.Length ==> data[k] == old(data[k])
    {
      hide Value, BytesToBits;
      AddBits(1, 1);
      assert bits == old(bits) + [true];
      FlushBits();
      if ptr >= endPtr {
        return 0;
      }
      size := ptr - startPtr + (if bitPos > 0 then 1 else 0);
      SealedBytes(data[startPtr..ptr], old(bits), bitPos);
      assert bitPos > 0 ==> data[startPtr..ptr + 1] == data[startPtr..ptr] + [data[ptr]];
    }
  }

  /** Stores the register at `at`; n of its bytes extend what starts at `from`. */
  method WriteRegister(dst: array<byte>, at: nat, v: nat, ghost from: nat, ghost n: nat)
    requires from <= at && at + REGISTER_BYTES <= dst.Length && n < REGISTER_BYTES
    modifies dst
    ensures forall k :: 0 <= k < at || at + REGISTER_BYTES <= k < dst.Length ==> dst[k] == old(dst[k])
    ensures dst[at + n] == BytesOf(v, REGISTER_BYTES)[n]
    ensures BytesToBits(dst[from..at + n]) ==
              BytesToBits(old(dst[from..at])) + BytesToBits(BytesOf(v, REGISTER_BYTES)[..n])
  {
    WriteLE64(dst, at, v);
    ghost var bytes := BytesOf(v, REGISTER_BYTES);
    assert dst[from..at] == old(dst[from..at]);
    assert dst[at..at + n] == bytes[..n];
    assert dst[from..at + n] == dst[from..at] + dst[at..at + n];
    BytesToBitsConcat(old(dst[from..at]), bytes[..n]);
  }

  lemma AppendKeeps<T>(s: seq<T>, k: nat, t: seq<T>)
    requires k <= |s|
    ensures (s + t)[..k] == s[..k] && (s + t)[k..] == s[k..] + t
  {
  }

  /** What `|=` leaves in the register when a field is added above the bits in use. */
  lemma OrField(pending: seq<bool>, value: nat, nbBits: nat)
    ensures BitOr(Value(pending), Shl(Low(value, nbBits), |pending|)) == Value(pending + BitsOf(value, nbBits))
  {
    hide *;
    ValueBound(pending);
    OrAbove(Value(pending), Low(value, nbBits), |pending|);
    ValueConcat(pending, BitsOf(value, nbBits));
    ValueOfBits(value, nbBits);
  }

  /** The bytes stored by a flush, when the register holds n whole bytes `done` and a few more bits `lo`. */
  lemma SpilledBytes(n: nat, done: seq<bool>, lo: seq<bool>)
    requires n < REGISTER_BYTES && |done| == 8 * n && |lo| < 8
    ensures var register := Value(done + lo);
            var spill := BytesOf(register, REGISTER_BYTES);
            && BytesToBits(spill[..n]) == done
            && spill[n] == Shr(register, 8 * n) == Value(lo)
  {
    var spill := BytesOf(Value(done + lo), REGISTER_BYTES);
    assert REGISTER_BITS == 64 && REGISTER_BYTES == 8;
    hide *;
    var k := REGISTER_BITS - |done + lo|;
    ZeroExtend(done + lo, REGISTER_BITS);
    BytesOfBits(Value(done + lo), REGISTER_BYTES);
    var z := Zeros(k);
    assert BytesToBits(spill) == (done + lo) + z;
    BytesToBitsCut(spill, n);
    ByteAt(spill, n);
    CutConcat(done, lo, z);
    var pad := z[..8 - |lo|];
    assert BitsOf(spill[n], 8) == lo + pad;
    ByteValue(spill[n]);
    ValueConcat(lo, pad);
    ValueZeros(pad);
    ValueSplit(done + lo, 8 * n);
    CutConcat(done, lo, []);
  }

  lemma CutConcat<T>(a: seq<T>, b: seq<T>, c: seq<T>)
    ensures ((a + b) + c)[..|a|] == a
    ensures |b| <= 8 <= |b| + |c| ==> ((a + b) + c)[|a|..|a| + 8] == b + c[..8 - |b|]
    ensures (a + b)[|a|..] == b
  {
  }

  /** The bytes stored by a flush and the bits left in the register. */
  lemma FlushedRegister(bits: seq<bool>, flushed: nat, nbBytes: nat)
    requires nbBytes < REGISTER_BYTES && 8 * (flushed + nbBytes) <= |bits| < 8 * (flushed + nbBytes) + 8
    ensures var register := Value(bits[8 * flushed..]);
            var spill := BytesOf(register, REGISTER_BYTES);
            && bits[..8 * flushed] + BytesToBits(spill[..nbBytes]) == bits[..8 * (flushed + nbBytes)]
            && spill[nbBytes] == Shr(register, 8 * nbBytes) == Value(bits[8 * (flushed + nbBytes)..])
  {
    hide *;
    var i, k := 8 * flushed, 8 * (flushed + nbBytes);
    var done, lo := bits[i..k], bits[k..];
    assert bits[i..] == done + lo;
    SpilledBytes(nbBytes, done, lo);
    assert bits[..i] + done == bits[..k];
  }

  /** Whole bytes in memory and the last partial byte make up the sealed stream. */
  lemma SealedBytes(front: seq<byte>, bits: seq<bool>, pending: nat)
    requires pending < 8 && 8 * |front| + pending == |bits| + 1
    requires BytesToBits(front) == (bits + [true])[..8 * |front|]
    ensures var last := Value((bits + [true])[8 * |front|..]);
            last < 256 && Seal(bits) == if pending == 0 then front else front + [last]
  {
    hide *;
    var m := bits + [true];
    var lo := m[8 * |front|..];
    PartialByte(lo);
    SealForm(bits);
    PackBits(m);
    if pending == 0 {
      WholeBytes(front, m);
    } else {
      PartialBytes(front, m);
    }
  }

  lemma WholeBytes(front: seq<byte>, m: seq<bool>)
    requires BytesToBits(front) == m
    ensures Pack(m) == front
  {
    hide *;
    assert |m| == 8 * |front|;
    PackBits(m);
    PaddingIs(|m|, 0, |front|);
    assert m + Zeros(0) == m;
    BytesToBitsInjective(front, Pack(m));
  }

  lemma PartialBytes(front: seq<byte>, m: seq<bool>)
    requires 8 * |front| < |m| < 8 * |front| + 8
    requires BytesToBits(front) == m[..8 * |front|]
    ensures var last := Value(m[8 * |front|..]);
            last < 256 && Pack(m) == front + [last]
  {
    hide *;
    var hi, lo := m[..8 * |front|], m[8 * |front|..];
    PartialByte(lo);
    var z := Zeros(8 - |lo|);
    ZeroExtend(lo, 8);
    BytesToBitsConcat(front, [Value(lo)]);
    SingleByteBits(Value(lo));
    PackBits(m);
    PaddingIs(|m|, 8 - |lo|, |front| + 1);
    assert m == hi + lo;
    assert hi + (lo + z) == (hi + lo) + z;
    BytesToBitsInjective(front + [Value(lo)], Pack(m));
  }
}
