/** HUF_CStream_t and the unrolled Huffman encoder with its two bit containers. */
module HufEncoder {
  import opened Bits
  import opened Bitstream
  import opened BitWriter
  import opened HufContainer

  /**
    The codes of the symbols appended in reverse order, so that a reader of the stream meets the first symbol first.
   */
  ghost function HufBits(codes: seq<Code>, src: seq<byte>): (bits: seq<bool>)
    requires forall i :: 0 <= i < |src| ==> src[i] < |codes|
  {
    if src == [] then [] else HufBits(codes, src[1..]) + codes[src[0]].Stream()
  }

  class HufCStream {
    var c0: Container
    var c1: Container
    const data: array<byte>
    const startPtr: nat
    const endPtr: nat
    var ptr: nat
    /** Every bit that has reached container 0, and those in container 1. */
    ghost var bits: seq<bool>
    ghost var bits1: seq<bool>
    /** How many bytes have been stored. */
    ghost var flushed: nat

    ghost predicate Valid()
      reads this, data
    {
      && startPtr < endPtr && endPtr + REGISTER_BYTES <= data.Length
      && 8 * flushed <= |bits|
      && Holds(c0, bits[8 * flushed..], 0)
      && Holds(c1, bits1, SLACK)
      && ptr == Min(startPtr + flushed, endPtr)
      && (ptr < endPtr ==> BytesToBits(data[startPtr..ptr]) == bits[..8 * flushed])
    }

    /** How many bits in container 0 have not been stored. */
    ghost function Waiting(): int
      reads this
    {
      |bits| - 8 * flushed
    }

    /** The memory that does not belong to the stream. */
    ghost function Outside(): (seq<byte>, seq<byte>)
      reads data
    {
      if startPtr <= endPtr && endPtr + REGISTER_BYTES <= data.Length
      then (data[..startPtr], data[endPtr + REGISTER_BYTES..]) else ([], [])
    }

    /** HUF_initCStream on dstCapacity bytes at start; the error for a capacity of 8 or less is the caller's test. */
    constructor (dst: array<byte>, start: nat, dstCapacity: nat)
      requires dstCapacity > REGISTER_BYTES && start + dstCapacity <= dst.Length
      ensures Valid() && bits == bits1 == [] && flushed == 0 && fresh(this)
      ensures data == dst && startPtr == start && endPtr == start + dstCapacity - REGISTER_BYTES
    {
      hide Holds;
      c0, c1 := Container(0, 0), Container(0, 0);
      data, startPtr, ptr := dst, start, start;
      endPtr := start + dstCapacity - REGISTER_BYTES;
      bits, bits1, flushed := [], [], 0;
      new;
      Cleared(0);
      Cleared(SLACK);
      assert bits[8 * flushed..] == [];
    }

    /** HUF_addBits at idx 0. */
    method AddBits(elt: nat, fast: bool, ghost code: Code)
      requires Valid() && code.Valid() && elt == Elt(code)
      requires Waiting() + code.nbBits + (if fast then Dirty(code.nbBits) else 0) <= 64
      modifies this`c0, this`bits
      ensures Valid() && bits == old(bits) + code.Stream()
    {
      hide Holds, Elt, AddElt, BytesToBits, Dirty, Code.Stream;
      AddKeeps(c0, bits[8 * flushed..], code, fast, 0);
      AppendKeeps(bits, 8 * flushed, code.Stream());
      c0 := AddElt(c0, elt, fast);
      bits := bits + code.Stream();
    }

    /** HUF_addBits at idx 1. */
    method AddBits1(elt: nat, fast: bool, ghost code: Code)
      requires Valid() && code.Valid() && elt == Elt(code)
      requires |bits1| + code.nbBits + SLACK + (if fast then Dirty(code.nbBits) else 0) <= 64
      modifies this`c1, this`bits1
      ensures Valid() && bits1 == old(bits1) + code.Stream()
    {
      hide Holds, Elt, AddElt, BytesToBits, Dirty, Code.Stream;
      AddKeeps(c1, bits1, code, fast, SLACK);
      c1 := AddElt(c1, elt, fast);
      bits1 := bits1 + code.Stream();
    }

    /** HUF_zeroIndex1. */
    method ZeroIndex1()
      requires Valid()
      modifies this`c1, this`bits1
      ensures Valid() && bits1 == []
    {
      hide Holds, BytesToBits;
      Cleared(SLACK);
      c1 := Container(0, 0);
      bits1 := [];
    }

    /** HUF_mergeIndex1. */
    method MergeIndex1()
      requires Valid() && Waiting() <= SLACK
      modifies this`c0, this`bits
      ensures Valid() && bits == old(bits) + bits1
    {
      hide Holds, Merge, BytesToBits;
      MergeKeeps(c0, bits[8 * flushed..], c1, bits1, SLACK);
      AppendKeeps(bits, 8 * flushed, bits1);
      c0 := Merge(c0, c1);
      bits := bits + bits1;
    }

    /** HUF_flushBits: whole bytes go to memory; the fast form does not clamp ptr and relies on enough room. */
    method FlushBits(fast: bool)
      requires Valid() && 0 < Waiting() < 64
      requires fast ==> |bits| / 8 <= endPtr - startPtr
      modifies this`c0, this`ptr, this`flushed, data
      ensures Valid() && Waiting() == old(Waiting()) % 8
      ensures ptr < endPtr ==> data[ptr] as int == Value(bits[8 * flushed..])
      ensures Outside() == old(Outside())
    {
      hide Holds, BytesToBits, Value, Shr, Low, BytesOf;
      ghost var pending := bits[8 * flushed..];
      var nbBits := Low(c0.pos, 8);
      assert nbBits == |pending| by {
        OpenHolds(c0, pending, 64 - |pending|, 0);
      }
      var nbBytes := nbBits / 8;
      FlushKeeps(c0, pending, nbBytes);
      var bitContainer := Shr(c0.word, 64 - nbBits);
      FlushedRegister(bits, flushed, nbBytes);
      assert pending[8 * nbBytes..] == bits[8 * (flushed + nbBytes)..];
      WriteRegister(data, ptr, bitContainer, startPtr, nbBytes);
      assert data[..startPtr] == old(data[..startPtr]);
      assert data[endPtr + REGISTER_BYTES..] == old(data[endPtr + REGISTER_BYTES..]);
      c0 := Container(c0.word, Low(c0.pos, 3));
      ptr := ptr + nbBytes;
      if !fast && ptr > endPtr {
        ptr := endPtr;
      }
      flushed := flushed + nbBytes;
    }

    /** HUF_closeCStream: adds the end mark; 0 says that the stream did not fit. */
    method Close() returns (size: nat)
      requires Valid() && 0 <= Waiting() < 63
      modifies this, data
      ensures size == ClosedSize(|old(bits)|, endPtr + REGISTER_BYTES - startPtr)
      ensures size > 0 ==> startPtr + size <= endPtr && data[startPtr..startPtr + size] == Seal(old(bits))
      ensures Valid() && Outside() == old(Outside())
    {
      hide Holds, BytesToBits, Value, Shr, Low, Elt, BitsOf;
      EndMark();
      AddBits(Elt(Code(1, 1)), false, Code(1, 1));
      assert bits == old(bits) + [true];
      FlushBits(false);
      ghost var pending := |bits| - 8 * flushed;
      assert Low(c0.pos, 8) == pending by {
        OpenHolds(c0, bits[8 * flushed..], 64 - pending, 0);
      }
      var nbBits := Low(c0.pos, 8);
      if ptr >= endPtr {
        return 0;
      }
      size := ptr - startPtr + (if nbBits > 0 then 1 else 0);
      SealedBytes(data[startPtr..ptr], old(bits), pending);
      assert pending > 0 ==> data[startPtr..ptr + 1] == data[startPtr..ptr] + [data[ptr]];
    }
  }

  lemma EndMark()
    ensures Code(1, 1).Valid() && Code(1, 1).Stream() == [true] && Code(1, 1).nbBits == 1
  {
    assert BitsOf(1, 1) == [true] + BitsOf(0, 0);
  }

  /** Below the bits of container 1 as many bits stay clear as a flush can leave in container 0. */
  const SLACK := 7

  // ----- the table, and how much fits between two flushes -----

  ghost predicate Table(ct: seq<nat>, codes: seq<Code>, tableLog: nat)
  {
    && |ct| == |codes| && tableLog <= TABLELOG_MAX
    && (forall s :: 0 <= s < |codes| ==> codes[s].Valid() && codes[s].nbBits <= tableLog && ct[s] == Elt(codes[s]))
  }

  /** Every symbol of src has a code. */
  ghost predicate Encodable(src: seq<byte>, codes: seq<Code>)
  {
    forall i :: 0 <= i < |src| ==> src[i] < |codes| && codes[src[i]].nbBits > 0
  }

  /**
    kUnroll symbols fit above what a flush leaves, with the dirt of all but the last, and of the last if that is
    fast.
   */
  ghost predicate Roomy(kUnroll: nat, tableLog: nat, lastFast: bool)
  {
    && kUnroll > 0
    && (kUnroll - 1) * tableLog + SLACK + Dirty(tableLog) <= 64
    && kUnroll * tableLog + SLACK + (if lastFast then Dirty(tableLog) else 0) <= 64
    && kUnroll * tableLog + SLACK < 64
  }

  lemma DirtyMonotone(a: nat, b: nat)
    requires a <= b
    ensures Dirty(a) <= Dirty(b)
  {
    if a > 0 && HighBit(b) < HighBit(a) {
      Pow2Strict(HighBit(b), HighBit(a));
    }
  }

  lemma {:induction false} HufBitsConcat(codes: seq<Code>, a: seq<byte>, b: seq<byte>)
    requires forall i :: 0 <= i < |a| ==> a[i] < |codes|
    requires forall i :: 0 <= i < |b| ==> b[i] < |codes|
    ensures forall i :: 0 <= i < |a + b| ==> (a + b)[i] < |codes|
    ensures HufBits(codes, a + b) == HufBits(codes, b) + HufBits(codes, a)
  {
    hide Code.Stream;
    if a == [] {
      assert a + b == b;
    } else {
      assert (a + b)[1..] == a[1..] + b;
      HufBitsConcat(codes, a[1..], b);
    }
  }

  /** The next symbol down. */
  lemma HufBitsStep(codes: seq<Code>, src: seq<byte>, n: nat)
    requires 0 < n <= |src| && Encodable(src, codes)
    ensures Encodable(src[n..], codes) && Encodable(src[n - 1..], codes)
    ensures HufBits(codes, src[n - 1..]) == HufBits(codes, src[n..]) + codes[src[n - 1]].Stream()
  {
    assert src[n - 1..][1..] == src[n..];
  }

  lemma {:induction false} HufBitsLength(codes: seq<Code>, src: seq<byte>, tableLog: nat)
    requires Encodable(src, codes) && forall s :: 0 <= s < |codes| ==> codes[s].nbBits <= tableLog
    ensures |HufBits(codes, src)| <= |src| * tableLog
  {
    if src != [] {
      HufBitsLength(codes, src[1..], tableLog);
      assert |src| * tableLog == (|src| - 1) * tableLog + tableLog;
    }
  }

  // ----- the loops -----

  lemma RoomForNext(u: nat, kUnroll: nat, tableLog: nat, nbBits: nat, lastFast: bool)
    requires Roomy(kUnroll, tableLog, lastFast) && 1 <= u <= kUnroll && nbBits <= tableLog
    ensures u * tableLog == (u - 1) * tableLog + tableLog
    ensures u < kUnroll ==> SLACK + (u - 1) * tableLog + nbBits + Dirty(nbBits) <= 64
    ensures u == kUnroll ==> SLACK + (u - 1) * tableLog + nbBits + (if lastFast then Dirty(nbBits) else 0) <= 64
  {
    DirtyMonotone(nbBits, tableLog);
    hide Dirty;
    if u < kUnroll {
      MulMono(u, kUnroll - 1, tableLog);
      MulCommutes(u, tableLog);
      MulCommutes(kUnroll - 1, tableLog);
    }
  }

  /** kUnroll symbols below n into container 0. */
  method EncodeGroup(bitC: HufCStream, ip: seq<byte>, n: nat, ct: seq<nat>, kUnroll: nat, kLastFast: bool,
                     ghost codes: seq<Code>, ghost tableLog: nat)
    requires bitC.Valid() && Table(ct, codes, tableLog) && Encodable(ip, codes)
    requires Roomy(kUnroll, tableLog, kLastFast) && 1 <= kUnroll <= n <= |ip|
    requires bitC.bits == HufBits(codes, ip[n..]) && 0 <= bitC.Waiting() <= SLACK
    modifies bitC`c0, bitC`bits
    ensures bitC.Valid() && bitC.bits == HufBits(codes, ip[n - kUnroll..])
    ensures 0 < bitC.Waiting() <= SLACK + kUnroll * tableLog
  {
    hide HufCStream.Valid, Elt, HufBits, Roomy, Dirty;
    var u := 1;
    while u < kUnroll
      invariant 1 <= u <= kUnroll
      invariant bitC.Valid() && bitC.bits == HufBits(codes, ip[n - (u - 1)..])
      invariant 0 <= bitC.Waiting() <= SLACK + (u - 1) * tableLog
      invariant u > 1 ==> bitC.Waiting() > 0
    {
      ghost var code := codes[ip[n - u]];
      RoomForNext(u, kUnroll, tableLog, code.nbBits, kLastFast);
      HufBitsStep(codes, ip, n - (u - 1));
      bitC.AddBits(ct[ip[n - u]], true, code);
      u := u + 1;
    }
    ghost var code := codes[ip[n - kUnroll]];
    RoomForNext(u, kUnroll, tableLog, code.nbBits, kLastFast);
    HufBitsStep(codes, ip, n - (u - 1));
    bitC.AddBits(ct[ip[n - kUnroll]], kLastFast, code);
  }

  /** kUnroll symbols below n into container 1. */
  method EncodeGroup1(bitC: HufCStream, ip: seq<byte>, n: nat, ct: seq<nat>, kUnroll: nat, kLastFast: bool,
                      ghost codes: seq<Code>, ghost tableLog: nat)
    requires bitC.Valid() && Table(ct, codes, tableLog) && Encodable(ip, codes)
    requires Roomy(kUnroll, tableLog, kLastFast) && 1 <= kUnroll <= n <= |ip|
    requires bitC.bits1 == []
    modifies bitC`c1, bitC`bits1
    ensures bitC.Valid() && Encodable(ip[n - kUnroll..n], codes) && bitC.bits1 == HufBits(codes, ip[n - kUnroll..n])
    ensures 0 < |bitC.bits1| <= kUnroll * tableLog
  {
    hide HufCStream.Valid, Elt, HufBits, Roomy, Dirty;
    ghost var front := ip[..n];
    HufBitsNothing(codes);
    assert front[n..] == [];
    var u := 1;
    while u < kUnroll
      invariant 1 <= u <= kUnroll
      invariant bitC.Valid() && bitC.bits1 == HufBits(codes, front[n - (u - 1)..])
      invariant |bitC.bits1| <= (u - 1) * tableLog
    {
      ghost var code := codes[ip[n - u]];
      RoomForNext(u, kUnroll, tableLog, code.nbBits, kLastFast);
      HufBitsStep(codes, front, n - (u - 1));
      bitC.AddBits1(ct[ip[n - u]], true, code);
      u := u + 1;
    }
    ghost var code := codes[ip[n - kUnroll]];
    RoomForNext(u, kUnroll, tableLog, code.nbBits, kLastFast);
    HufBitsStep(codes, front, n - (u - 1));
    bitC.AddBits1(ct[ip[n - kUnroll]], kLastFast, code);
    assert front[n - kUnroll..] == ip[n - kUnroll..n];
  }

  lemma HufBitsNothing(codes: seq<Code>)
    ensures HufBits(codes, []) == []
  {
  }

  lemma Multiples(q: nat, k: nat)
    requires k > 0
    ensures (q * k) % (2 * k) == (q % 2) * k
    ensures (q * k) % k == 0
  {
    MulDivCancel(q, k);
    var h, r := q / 2, q % 2;
    MulAssoc(h, 2, k);
    MulSum(2 * h, r, k);
    DivModUnique(q * k, 2 * k, h, r * k);
  }

  /** The bits of a tail of src do not need more bytes than the tight bound allows. */
  lemma TailFits(codes: seq<Code>, src: seq<byte>, n: nat, tableLog: nat, room: nat)
    requires n <= |src| && Encodable(src, codes) && forall s :: 0 <= s < |codes| ==> codes[s].nbBits <= tableLog
    requires (|src| * tableLog) / 8 <= room
    ensures Encodable(src[n..], codes) && |HufBits(codes, src[n..])| / 8 <= room
  {
    HufBitsLength(codes, src[n..], tableLog);
    MulMono(|src[n..]|, |src|, tableLog);
    MulCommutes(|src[n..]|, tableLog);
    MulCommutes(|src|, tableLog);
  }

  /** What the loops keep: everything from n on has been encoded, and few bits wait. */
  ghost predicate Encoded(bitC: HufCStream, ip: seq<byte>, n: nat, codes: seq<Code>)
    requires Encodable(ip, codes)
    reads bitC, bitC.data
  {
    bitC.Valid() && n <= |ip| && bitC.bits == HufBits(codes, ip[n..]) && 0 <= bitC.Waiting() <= SLACK
  }

  /** The loop that takes symbols from the end until a multiple of kUnroll is left. */
  method EncodeSome(bitC: HufCStream, ip: seq<byte>, ct: seq<nat>, count: nat, ghost kUnroll: nat,
                    ghost codes: seq<Code>, ghost tableLog: nat, ghost lastFast: bool) returns (n: nat)
    requires Table(ct, codes, tableLog) && Encodable(ip, codes)
    requires bitC.Valid() && bitC.bits == [] && bitC.flushed == 0
    requires Roomy(kUnroll, tableLog, lastFast) && 0 < count < kUnroll && count <= |ip|
    modifies bitC`c0, bitC`bits
    ensures n == |ip| - count && bitC.Valid() && bitC.bits == HufBits(codes, ip[n..]) && 0 < bitC.Waiting() < 64
  {
    hide HufCStream.Valid, Elt, HufBits, Dirty, Roomy;
    n := |ip|;
    var rem := count;
    HufBitsNothing(codes);
    assert ip[n..] == [];
    while rem > 0
      invariant rem <= count && n == |ip| - (count - rem)
      invariant bitC.Valid() && bitC.bits == HufBits(codes, ip[n..])
      invariant |bitC.bits| <= (|ip| - n) * tableLog
      invariant n < |ip| ==> |bitC.bits| > 0
    {
      n := n - 1;
      ghost var code := codes[ip[n]];
      HufBitsStep(codes, ip, n + 1);
      RoomForRest(|ip| - n, kUnroll, tableLog, code.nbBits, lastFast);
      bitC.AddBits(ct[ip[n]], false, code);
      rem := rem - 1;
    }
    RoomForRest(|ip| - n, kUnroll, tableLog, 0, lastFast);
  }

  /** What is left over by the multiples of kUnroll. */
  method EncodeRest(bitC: HufCStream, ip: seq<byte>, ct: seq<nat>, kUnroll: nat, kFastFlush: bool,
                    ghost codes: seq<Code>, ghost tableLog: nat, ghost lastFast: bool) returns (n: nat)
    requires Table(ct, codes, tableLog) && Encodable(ip, codes)
    requires bitC.Valid() && bitC.bits == [] && bitC.flushed == 0
    requires Roomy(kUnroll, tableLog, lastFast) && kUnroll > 0
    requires kFastFlush ==> (|ip| * tableLog) / 8 <= bitC.endPtr - bitC.startPtr
    modifies bitC, bitC.data
    ensures Encoded(bitC, ip, n, codes) && n == (|ip| / kUnroll) * kUnroll
    ensures bitC.Outside() == old(bitC.Outside())
  {
    hide HufCStream.Valid, Elt, HufBits, Dirty, Roomy;
    var rem := |ip| % kUnroll;
    n := |ip|;
    HufBitsNothing(codes);
    assert ip[n..] == [];
    if rem > 0 {
      n := EncodeSome(bitC, ip, ct, rem, kUnroll, codes, tableLog, lastFast);
      if kFastFlush {
        TailFits(codes, ip, n, tableLog, bitC.endPtr - bitC.startPtr);
      }
      bitC.FlushBits(kFastFlush);
    }
  }

  lemma RoomForRest(count: nat, kUnroll: nat, tableLog: nat, nbBits: nat, lastFast: bool)
    requires Roomy(kUnroll, tableLog, lastFast) && 1 <= count < kUnroll && nbBits <= tableLog
    ensures count * tableLog == (count - 1) * tableLog + tableLog
    ensures (count - 1) * tableLog + nbBits < 64 && count * tableLog < 64
  {
    MulMono(count, kUnroll - 1, tableLog);
    MulCommutes(count, tableLog);
    MulCommutes(kUnroll - 1, tableLog);
  }

  /** Encodes one group into container 0 and flushes. */
  method EncodeAndFlush(bitC: HufCStream, ip: seq<byte>, n: nat, ct: seq<nat>, kUnroll: nat, kFastFlush: bool,
                        kLastFast: bool, ghost codes: seq<Code>, ghost tableLog: nat)
    requires Table(ct, codes, tableLog) && Encodable(ip, codes) && Encoded(bitC, ip, n, codes)
    requires Roomy(kUnroll, tableLog, kLastFast) && 1 <= kUnroll <= n
    requires kFastFlush ==> (|ip| * tableLog) / 8 <= bitC.endPtr - bitC.startPtr
    modifies bitC, bitC.data
    ensures Encoded(bitC, ip, n - kUnroll, codes)
    ensures bitC.Outside() == old(bitC.Outside())
  {
    hide HufCStream.Valid, Elt, HufBits, Dirty;
    EncodeGroup(bitC, ip, n, ct, kUnroll, kLastFast, codes, tableLog);
    if kFastFlush {
      TailFits(codes, ip, n - kUnroll, tableLog, bitC.endPtr - bitC.startPtr);
    }
    bitC.FlushBits(kFastFlush);
  }

  /** Encodes one group into container 1, merges and flushes. */
  method EncodeAndMerge(bitC: HufCStream, ip: seq<byte>, n: nat, ct: seq<nat>, kUnroll: nat, kFastFlush: bool,
                        kLastFast: bool, ghost codes: seq<Code>, ghost tableLog: nat)
    requires Table(ct, codes, tableLog) && Encodable(ip, codes) && Encoded(bitC, ip, n, codes)
    requires Roomy(kUnroll, tableLog, kLastFast) && 1 <= kUnroll <= n
    requires kFastFlush ==> (|ip| * tableLog) / 8 <= bitC.endPtr - bitC.startPtr
    modifies bitC, bitC.data
    ensures Encoded(bitC, ip, n - kUnroll, codes)
    ensures bitC.Outside() == old(bitC.Outside())
  {
    hide HufCStream.Valid, Elt, HufBits, Dirty;
    bitC.ZeroIndex1();
    EncodeGroup1(bitC, ip, n, ct, kUnroll, kLastFast, codes, tableLog);
    bitC.MergeIndex1();
    assert ip[n - kUnroll..] == ip[n - kUnroll..n] + ip[n..];
    HufBitsConcat(codes, ip[n - kUnroll..n], ip[n..]);
    if kFastFlush {
      TailFits(codes, ip, n - kUnroll, tableLog, bitC.endPtr - bitC.startPtr);
    }
    bitC.FlushBits(kFastFlush);
  }

  /** HUF_compress1X_usingCTable_internal_body_loop. */
  method EncodeLoop(bitC: HufCStream, ip: seq<byte>, ct: seq<nat>, kUnroll: nat, kFastFlush: bool, kLastFast: bool,
                    ghost codes: seq<Code>, ghost tableLog: nat)
    requires Table(ct, codes, tableLog) && Encodable(ip, codes)
    requires bitC.Valid() && bitC.bits == [] && bitC.flushed == 0
    requires Roomy(kUnroll, tableLog, kLastFast) && kUnroll > 0
    requires kFastFlush ==> (|ip| * tableLog) / 8 <= bitC.endPtr - bitC.startPtr
    modifies bitC, bitC.data
    ensures Encoded(bitC, ip, 0, codes)
    ensures bitC.Outside() == old(bitC.Outside())
  {
    hide *;
    var n := EncodeRest(bitC, ip, ct, kUnroll, kFastFlush, codes, tableLog, kLastFast);
    ghost var q := |ip| / kUnroll;
    Multiples(q, kUnroll);
    if n % (2 * kUnroll) != 0 {
      OneGroup(q, kUnroll);
      EncodeAndFlush(bitC, ip, n, ct, kUnroll, kFastFlush, kLastFast, codes, tableLog);
      n := n - kUnroll;
      q := q - 1;
      Multiples(q, kUnroll);
    }
    ghost var h := q / 2;
    PairsOfGroups(q, kUnroll);
    while n > 0
      invariant 0 <= n && n == h * (2 * kUnroll)
      invariant Encoded(bitC, ip, n, codes)
      invariant bitC.Outside() == old(bitC.Outside())
      decreases n
    {
      OnePair(h, kUnroll);
      EncodeAndFlush(bitC, ip, n, ct, kUnroll, kFastFlush, kLastFast, codes, tableLog);
      EncodeAndMerge(bitC, ip, n - kUnroll, ct, kUnroll, kFastFlush, kLastFast, codes, tableLog);
      n := n - 2 * kUnroll;
      h := h - 1;
    }
  }

  lemma OneGroup(q: nat, k: nat)
    requires k > 0 && (q * k) % (2 * k) != 0
    ensures q >= 1 && q % 2 == 1 && q * k >= k && (q - 1) * k == q * k - k
  {
    Multiples(q, k);
    MulSum(q - 1, 1, k);
  }

  lemma PairsOfGroups(q: nat, k: nat)
    requires k > 0 && (q * k) % (2 * k) == 0
    ensures q * k == (q / 2) * (2 * k)
  {
    Multiples(q, k);
    MulAssoc(q / 2, 2, k);
  }

  lemma OnePair(h: int, k: nat)
    requires h * (2 * k) > 0 && k > 0
    ensures h >= 1 && h * (2 * k) >= 2 * k && (h - 1) * (2 * k) == h * (2 * k) - 2 * k
  {
    MulSum(h - 1, 1, 2 * k);
  }

  // ----- the dispatcher -----

  /** HUF_tightCompressBound. */
  function TightBound(srcSize: nat, tableLog: nat): nat
  {
    (srcSize * tableLog) / 8 + 8
  }

  /** Every setting of kUnroll and kLastFast that the dispatcher picks has room for its symbols and their dirt. */
  lemma SettingsAreRoomy(tableLog: nat)
    requires tableLog <= TABLELOG_MAX
    ensures Roomy(4, tableLog, false)
    ensures tableLog == 11 ==> Roomy(5, tableLog, false)
    ensures tableLog == 10 ==> Roomy(5, tableLog, true)
    ensures tableLog == 9 ==> Roomy(6, tableLog, false)
    ensures tableLog == 8 ==> Roomy(7, tableLog, false)
    ensures tableLog == 7 ==> Roomy(8, tableLog, false)
    ensures tableLog <= 6 ==> Roomy(9, tableLog, true)
  {
    Pow2Values();
    if tableLog > 0 {
      SmallHighBit(tableLog, 4);
      if tableLog < 8 {
        SmallHighBit(tableLog, 3);
      }
    }
  }

  lemma SmallHighBit(x: nat, k: nat)
    requires 0 < x < Pow2(k)
    ensures HighBit(x) < k
  {
    if HighBit(x) >= k {
      Pow2Mono(k, HighBit(x));
    }
  }

  /**
    HUF_compress1X_usingCTable: the bytes of the codes in reverse order and the end mark, for every setting
    the dispatcher picks. The result is 0 exactly when the capacity is below 9 or the sealed stream does not fit.
   */
  method Compress1X(dst: array<byte>, start: nat, dstSize: nat, src: seq<byte>, ct: seq<nat>, tableLog: nat,
                    ghost codes: seq<Code>) returns (size: nat)
    requires start + dstSize <= dst.Length && Table(ct, codes, tableLog) && Encodable(src, codes)
    modifies dst
    ensures size == if dstSize <= REGISTER_BYTES then 0 else ClosedSize(|HufBits(codes, src)|, dstSize)
    ensures size > 0 ==> size < dstSize && dst[start..start + size] == Seal(HufBits(codes, src))
    ensures forall k :: 0 <= k < start || start + dstSize <= k < dst.Length ==> dst[k] == old(dst[k])
  {
    hide Elt, HufBits, Dirty, Roomy, Holds, Seal, BytesToBits, Table, HufCStream.Valid, HufCStream.Outside,
      HufCStream.Waiting, Encoded, ClosedSize;
    if dstSize <= REGISTER_BYTES {
      return 0;
    }
    var bitC := new HufCStream(dst, start, dstSize);
    OutsideParts(bitC);
    TableLogBound(ct, codes, tableLog);
    SettingsAreRoomy(tableLog);
    if dstSize < TightBound(|src|, tableLog) || tableLog > 11 {
      EncodeLoop(bitC, src, ct, 4, false, false, codes, tableLog);
    } else if tableLog == 11 {
      EncodeLoop(bitC, src, ct, 5, true, false, codes, tableLog);
    } else if tableLog == 10 {
      EncodeLoop(bitC, src, ct, 5, true, true, codes, tableLog);
    } else if tableLog == 9 {
      EncodeLoop(bitC, src, ct, 6, true, false, codes, tableLog);
    } else if tableLog == 8 {
      EncodeLoop(bitC, src, ct, 7, true, false, codes, tableLog);
    } else if tableLog == 7 {
      EncodeLoop(bitC, src, ct, 8, true, false, codes, tableLog);
    } else {
      EncodeLoop(bitC, src, ct, 9, true, true, codes, tableLog);
    }
    assert src[0..] == src;
    EncodedAll(bitC, src, codes);
    size := bitC.Close();
    SealFits(|HufBits(codes, src)|, dstSize);
    OutsideParts(bitC);
    assert dst[..start] == old(dst[..start]) && dst[start + dstSize..] == old(dst[start + dstSize..]);
    assert dst[..][..start] == dst[..start] && dst[..][start + dstSize..] == dst[start + dstSize..];
    assert old(dst[..])[..start] == old(dst[..start]) && old(dst[..])[start + dstSize..] == old(dst[start + dstSize..]);
    OutsideSame(dst[..], old(dst[..]), start, start + dstSize);
  }

  lemma EncodedAll(bitC: HufCStream, src: seq<byte>, codes: seq<Code>)
    requires Encodable(src, codes) && Encoded(bitC, src, 0, codes)
    ensures bitC.Valid() && bitC.bits == HufBits(codes, src) && 0 <= bitC.Waiting() <= 7
  {
    hide HufCStream.Valid, HufBits;
    assert src[0..] == src;
  }

  lemma SealFits(nbBits: nat, capacity: nat)
    requires capacity > REGISTER_BYTES
    ensures ClosedSize(nbBits, capacity) < capacity
  {
  }

  lemma OutsideParts(bitC: HufCStream)
    requires bitC.Valid()
    ensures bitC.startPtr <= bitC.endPtr && bitC.endPtr + 8 <= bitC.data.Length
    ensures bitC.Outside() == (bitC.data[..bitC.startPtr], bitC.data[bitC.endPtr + 8..])
  {
    hide Holds, BytesToBits;
  }

  lemma TableLogBound(ct: seq<nat>, codes: seq<Code>, tableLog: nat)
    requires Table(ct, codes, tableLog)
    ensures tableLog <= TABLELOG_MAX
  {
  }

  lemma OutsideSame(after: seq<byte>, before: seq<byte>, lo: nat, hi: nat)
    requires lo <= hi <= |after| == |before| && after[..lo] == before[..lo] && after[hi..] == before[hi..]
    ensures forall k :: 0 <= k < lo || hi <= k < |after| ==> after[k] == before[k]
  {
    forall k | 0 <= k < lo || hi <= k < |after|
      ensures after[k] == before[k]
    {
      if k < lo {
        assert after[k] == after[..lo][k];
      } else {
        assert after[k] == after[hi..][k - hi];
      }
    }
  }
}
