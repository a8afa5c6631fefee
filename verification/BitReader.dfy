/** BIT_DStream_t: the backward reader of common/bitstream.h. */
module BitReader {
  import opened Bits
  import opened Bitstream
  import opened Wrappers

  datatype Status = Unfinished | EndOfBuffer | Completed | Overflow

  /** The source as the register sees it: a source shorter than a register reads as if followed by zeros. */
  function Padded(src: seq<byte>): (p: seq<byte>)
    ensures |p| == Max(|src|, REGISTER_BYTES)
  {
    if |src| < REGISTER_BYTES then src + seq(REGISTER_BYTES - |src|, _ => 0) else src
  }

  class DStream {
    var bitContainer: nat
    var bitsConsumed: nat
    const src: seq<byte>
    /** An offset into src, or -1 once the pointer has been moved to the static zero word. */
    var ptr: int

    ghost predicate Valid()
      reads this
    {
      && -1 <= ptr <= |Padded(src)| - REGISTER_BYTES
      && (ptr > 0 ==> bitsConsumed <= REGISTER_BITS)
      && (ptr == -1 ==> bitsConsumed > REGISTER_BITS)
      && bitContainer < Pow2(REGISTER_BITS)
      && (ptr >= 0 ==> bitContainer == Value(BytesToBits(Padded(src))[8 * ptr..8 * ptr + REGISTER_BITS]))
    }

    /** The number of bits not yet read; negative once more was asked for than was there. */
    ghost function Left(): int
      reads this
    {
      if ptr < 0 then -1 else 8 * ptr + REGISTER_BITS - bitsConsumed
    }

    /** The bits not yet read. The next field comes from the end. */
    ghost function Rest(): seq<bool>
      requires Valid() && Left() >= 0
      reads this
    {
      BytesToBits(Padded(src))[..Left()]
    }

    /** The register holds the next nbBits bits, or the whole beginning of the source. */
    ghost predicate Loaded(nbBits: nat)
      reads this
    {
      ptr <= 0 || bitsConsumed + nbBits <= REGISTER_BITS
    }

    /** BIT_initDStream, past its error exits (which Unseal describes). */
    constructor (source: seq<byte>)
      requires Unseal(source).Ok?
      ensures Valid() && src == source && Loaded(56)
      ensures Left() == |Unseal(source).value| && Rest() == Unseal(source).value
    {
      hide Value, BytesToBits, LittleEndian, Unseal, Pow2, HighBit;
      MarkPosition(source);
      var last := source[|source| - 1];
      src := source;
      if |source| >= 8 {
        ptr := |source| - 8;
        bitContainer := LittleEndian(source[|source| - 8..]);
        bitsConsumed := 8 - HighBit(last);
      } else {
        ptr := 0;
        bitContainer := LittleEndian(source);
        bitsConsumed := 8 - HighBit(last) + 8 * (8 - |source|);
      }
      new;
      assert bitContainer == LittleEndian(source[ptr..]);
      InitiallyValid(this);
    }

    /** BIT_lookBits: past the end of the register the shift wraps and the result is arbitrary. */
    method LookBits(nbBits: nat) returns (value: nat)
      requires Valid() && nbBits < 32 && Loaded(nbBits)
      ensures value < Pow2(nbBits)
      ensures nbBits <= Left() ==> value == Value(Rest()[Left() - nbBits..])
    {
      hide Value, BytesToBits, Low, Shr;
      var start := (REGISTER_BITS - bitsConsumed - nbBits) % 64;
      value := Low(Shr(bitContainer, start), nbBits);
      ShrLow(Shr(bitContainer, start), nbBits);
      if nbBits <= Left() {
        RegisterField(BytesToBits(Padded(src)), 8 * ptr, REGISTER_BITS - bitsConsumed, nbBits);
      }
    }

    /** BIT_lookBitsFast: a double shift instead of a mask; works only if nbBits >= 1. */
    method LookBitsFast(nbBits: nat) returns (value: nat)
      requires Valid() && 1 <= nbBits < 32 && Loaded(nbBits)
      ensures value < Pow2(nbBits)
      ensures nbBits <= Left() ==> value == Value(Rest()[Left() - nbBits..])
    {
      hide Value, BytesToBits, Low, Shr, Shl;
      value := Shr(Low(Shl(bitContainer, bitsConsumed % 64), 64), (64 - nbBits) % 64);
      ShiftedOut(Shl(bitContainer, bitsConsumed % 64), nbBits);
      if nbBits <= Left() {
        DoubleShift(BytesToBits(Padded(src))[8 * ptr..8 * ptr + REGISTER_BITS], bitsConsumed, nbBits);
        assert (REGISTER_BITS - bitsConsumed - nbBits) % 64 == 64 - bitsConsumed - nbBits;
        RegisterField(BytesToBits(Padded(src)), 8 * ptr, REGISTER_BITS - bitsConsumed, nbBits);
      }
    }

    /** BIT_readBits. */
    method ReadBits(nbBits: nat) returns (value: nat)
      requires Valid() && nbBits < 32 && Loaded(nbBits)
      modifies this
      ensures Valid() && ptr == old(ptr) && bitsConsumed == old(bitsConsumed) + nbBits
      ensures value < Pow2(nbBits)
      ensures nbBits <= old(Left()) ==>
                && value == Value(old(Rest())[old(Left()) - nbBits..])
                && Left() == old(Left()) - nbBits && Rest() == old(Rest())[..Left()]
      ensures old(Left()) < nbBits ==> Left() < 0
    {
      hide Value, BytesToBits;
      value := LookBits(nbBits);
      bitsConsumed := bitsConsumed + nbBits;
    }

    /** BIT_readBitsFast. */
    method ReadBitsFast(nbBits: nat) returns (value: nat)
      requires Valid() && 1 <= nbBits < 32 && Loaded(nbBits)
      modifies this
      ensures Valid() && ptr == old(ptr) && bitsConsumed == old(bitsConsumed) + nbBits
      ensures value < Pow2(nbBits)
      ensures nbBits <= old(Left()) ==>
                && value == Value(old(Rest())[old(Left()) - nbBits..])
                && Left() == old(Left()) - nbBits && Rest() == old(Rest())[..Left()]
      ensures old(Left()) < nbBits ==> Left() < 0
    {
      hide Value, BytesToBits;
      value := LookBitsFast(nbBits);
      bitsConsumed := bitsConsumed + nbBits;
    }

    /** BIT_reloadDStream: refills the register and never moves before the start. */
    method Reload() returns (status: Status)
      requires Valid()
      modifies this
      ensures Valid()
      ensures status == Overflow <==> old(Left()) < 0
      ensures old(Left()) < 0 ==> Left() < 0
      ensures old(Left()) >= 0 ==>
                && Left() == old(Left()) && Rest() == old(Rest())
                && (ptr == 0 || bitsConsumed < 8)
      ensures status == Unfinished ==> bitsConsumed < 8
      ensures status == Completed <==> Left() == 0
    {
      hide Value, BytesToBits, LittleEndian;
      if bitsConsumed > REGISTER_BITS {
        ptr := -1;
        return Overflow;
      }
      if ptr >= REGISTER_BYTES {
        status := Unfinished;
        MoveBack(bitsConsumed / 8);
        return;
      }
      if ptr == 0 {
        return if bitsConsumed < REGISTER_BITS then EndOfBuffer else Completed;
      }
      var nbBytes := bitsConsumed / 8;
      status := Unfinished;
      if ptr - nbBytes < 0 {
        nbBytes := ptr;
        status := EndOfBuffer;
      }
      MoveBack(nbBytes);
    }

    method MoveBack(nbBytes: nat)
      requires Valid() && 0 < ptr && nbBytes <= ptr && 8 * nbBytes <= bitsConsumed
      modifies this
      ensures Valid() && ptr == old(ptr) - nbBytes && bitsConsumed == old(bitsConsumed) - 8 * nbBytes
      ensures Left() == old(Left()) && Left() >= 0
    {
      hide Value, BytesToBits, LittleEndian;
      ptr := ptr - nbBytes;
      bitsConsumed := bitsConsumed - 8 * nbBytes;
      bitContainer := LittleEndian(src[ptr..ptr + REGISTER_BYTES]);
      RegisterAt(src, ptr);
    }

    /** BIT_endOfDStream. */
    method EndOfDStream() returns (end: bool)
      requires Valid()
      ensures end <==> Left() == 0
    {
      end := ptr == 0 && bitsConsumed == REGISTER_BITS;
    }
  }

  /** MEM_readLEST at an offset of the source. */
  lemma RegisterAt(src: seq<byte>, at: nat)
    requires at + REGISTER_BYTES <= |Padded(src)|
    ensures var register := Value(BytesToBits(Padded(src))[8 * at..8 * at + REGISTER_BITS]);
            LittleEndian(Padded(src)[at..at + REGISTER_BYTES]) == register < Pow2(REGISTER_BITS)
  {
    hide Value, BytesToBits, LittleEndian, Pow2;
    var p := Padded(src);
    var w := p[at..at + REGISTER_BYTES];
    BytesToBitsSlice(p, at, at + REGISTER_BYTES);
    LittleEndianValue(w);
    ValueBound(BytesToBits(w));
  }

  lemma {:induction false} TrailingZeros(s: seq<byte>, z: seq<byte>)
    requires forall i :: 0 <= i < |z| ==> z[i] == 0
    ensures LittleEndian(s + z) == LittleEndian(s)
    decreases |s|, |z|
  {
    if s != [] {
      assert (s + z)[1..] == s[1..] + z;
      TrailingZeros(s[1..], z);
    } else if z != [] {
      assert s + z == z;
      TrailingZeros(s, z[1..]);
      assert s + z[1..] == z[1..];
    }
  }

  lemma MarkPosition(source: seq<byte>)
    requires Unseal(source).Ok?
    ensures source != [] && source[|source| - 1] > 0
    ensures HighBit(source[|source| - 1]) < 8
    ensures |Unseal(source).value| == 8 * (|source| - 1) + HighBit(source[|source| - 1])
  {
    MarkBelowEight(source[|source| - 1]);
  }

  lemma InitiallyValid(d: DStream)
    requires Unseal(d.src).Ok? && d.ptr == |Padded(d.src)| - REGISTER_BYTES
    requires d.bitContainer == LittleEndian(d.src[d.ptr..])
    requires 8 * d.ptr + 64 - d.bitsConsumed == |Unseal(d.src).value|
    requires 8 * |d.src| - 8 <= |Unseal(d.src).value|
    ensures d.Valid() && d.Loaded(56)
    ensures d.Left() == |Unseal(d.src).value| && d.Rest() == Unseal(d.src).value
  {
    hide Value, BytesToBits, LittleEndian, Pow2, Unseal;
    InitialRegister(d.src);
  }

  lemma InitialRegister(source: seq<byte>)
    requires Unseal(source).Ok?
    ensures var at := |Padded(source)| - REGISTER_BYTES;
            && LittleEndian(source[at..]) == Value(BytesToBits(Padded(source))[8 * at..8 * at + REGISTER_BITS])
            && LittleEndian(source[at..]) < Pow2(REGISTER_BITS)
    ensures |Unseal(source).value| <= 8 * |source|
    ensures Unseal(source).value == BytesToBits(Padded(source))[..|Unseal(source).value|]
  {
    hide Value, BytesToBits, LittleEndian, Pow2;
    var at := |Padded(source)| - REGISTER_BYTES;
    RegisterAt(source, at);
    BytesToBitsCut(Padded(source), |source|);
    assert Padded(source)[..|source|] == source;
    MarkBelowEight(source[|source| - 1]);
    if |source| < REGISTER_BYTES {
      var z: seq<byte> := seq(REGISTER_BYTES - |source|, _ => 0);
      TrailingZeros(source, z);
      assert Padded(source)[0..REGISTER_BYTES] == source + z;
      assert source[at..] == source;
    } else {
      assert Padded(source)[at..at + REGISTER_BYTES] == source[at..];
    }
  }

  /** A field below the top `unread` bits of a register. */
  lemma RegisterField(all: seq<bool>, base: nat, unread: nat, nbBits: nat)
    requires base + 64 <= |all| && nbBits <= unread <= 64
    ensures Low(Shr(Value(all[base..base + 64]), (unread - nbBits) % 64), nbBits)
         == Value(all[..base + unread][base + unread - nbBits..])
  {
    if nbBits == 0 {
      assert all[..base + unread][base + unread - nbBits..] == [];
    } else {
      hide *;
      var w, k := all[base..base + 64], unread - nbBits;
      ValueField(w, k, nbBits);
      SliceOfSlice(all, base, k, unread);
    }
  }

  lemma SliceOfSlice<T>(s: seq<T>, base: nat, a: nat, b: nat)
    requires a <= b <= 64 && base + 64 <= |s|
    ensures s[base..base + 64][a..b] == s[..base + b][base + a..]
  {
    var x, y := s[base..base + 64][a..b], s[..base + b][base + a..];
    assert forall i :: 0 <= i < b - a ==> x[i] == s[base + a + i];
    assert forall i :: 0 <= i < b - a ==> y[i] == s[base + a + i];
  }

  lemma ShiftedOut(v: nat, nbBits: nat)
    requires nbBits <= 64
    ensures Shr(Low(v, 64), 64 - nbBits) < Pow2(nbBits)
  {
    hide *;
    var lo, p, q := Low(v, 64), Pow2(64 - nbBits), Pow2(nbBits);
    ShrLow(v, 64);
    ShrLow(lo, 64 - nbBits);
    Pow2Add(64 - nbBits, nbBits);
    MulBelow(p, Shr(lo, 64 - nbBits), q);
  }

  lemma MulBelow(p: nat, h: nat, q: nat)
    requires p >= 1 && p * h < p * q
    ensures h < q
  {
  }

  lemma ShlBits(w: seq<bool>, n: nat)
    ensures Shl(Value(w), n) == Value(Zeros(n) + w)
  {
    hide *;
    ValueConcat(Zeros(n), w);
    ValueZeros(Zeros(n));
    ShlIsMul(Value(w), n);
    MulCommutes(Value(w), Pow2(n));
  }

  lemma ShiftedSlice<T>(z: seq<T>, w: seq<T>, n: nat)
    requires |w| == 64 && |z| + n <= 64
    ensures (z + w)[..64][64 - n..] == w[64 - |z| - n..64 - |z|]
  {
  }

  /** Shifting a register left, then right, selects the same field as shifting right and masking. */
  lemma DoubleShift(w: seq<bool>, consumed: nat, nbBits: nat)
    requires |w| == 64 && consumed + nbBits <= 64
    ensures Shr(Low(Shl(Value(w), consumed), 64), 64 - nbBits) == Low(Shr(Value(w), 64 - consumed - nbBits), nbBits)
  {
    hide *;
    var s := Zeros(consumed) + w;
    ShlBits(w, consumed);
    ValueSplit(s, 64);
    ValueSplit(s[..64], 64 - nbBits);
    ShiftedSlice(Zeros(consumed), w, nbBits);
    ValueField(w, 64 - consumed - nbBits, nbBits);
  }
}
