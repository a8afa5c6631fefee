/** FSE_compress_usingCTable_generic and FSE_decompress_usingDTable_generic. */
module FsePayload {
  // The encoder walks the source backwards with two alternating states; the decoder
  // walks forwards and finds the end only by asking for more bits than are left.
  // `Encoded` and `DecodeFrom` say what the two loops do on bit strings, and
  // `FseRoundTrip` says exactly when the second undoes the first.

  import opened Bits
  import opened Wrappers
  import opened Bitstream
  import opened BitWriter
  import opened BitReader
  import opened FseSpread
  import opened Counting
  import opened FseTables
  import opened FseStep
  import opened FseState

  // ----- what the encoder writes -----

  /** The state that codes the current symbol, the other state, and the bits written so far. */
  datatype Coded = Coded(cur: nat, other: nat, bits: seq<bool>)

  ghost predicate AllEncodable(ct: CTable, src: seq<byte>)
  {
    forall k :: 0 <= k < |src| ==> Encodable(ct, src[k])
  }

  /** The encoder after symbols i and above. */
  ghost function Encoded(ct: CTable, src: seq<byte>, i: nat): (c: Coded)
    requires AllEncodable(ct, src) && i + 2 <= |src|
    ensures IsState(ct.tableLog, c.cur) && IsState(ct.tableLog, c.other)
    decreases |src| - i
  {
    if i + 2 == |src| then Coded(First(ct, src[i]), First(ct, src[i + 1]), [])
    else
      var c := Encoded(ct, src, i + 1);
      Coded(Next(ct, src[i], c.other), c.cur, c.bits + Emitted(ct, src[i], c.other))
  }

  /** Everything the encoder writes, before the end mark. */
  ghost function Payload(ct: CTable, src: seq<byte>): seq<bool>
    requires AllEncodable(ct, src) && 2 <= |src|
  {
    var c := Encoded(ct, src, 0);
    c.bits + BitsOf(c.other, ct.tableLog) + BitsOf(c.cur, ct.tableLog)
  }

  /** `cur` codes symbol i, `other` codes symbol i + 1. */
  ghost predicate Tracks(ct: CTable, src: seq<byte>, i: nat, cur: nat, other: nat, bits: seq<bool>)
  {
    AllEncodable(ct, src) && i + 2 <= |src| && Encoded(ct, src, i) == Coded(cur, other, bits)
  }

  /** FSE_compress_usingCTable_generic with the checked flush (fast == 0). */
  method Compress(dst: array<byte>, start: nat, dstSize: nat, src: seq<byte>, ct: CTable) returns (size: nat)
    requires start + dstSize <= dst.Length && AllEncodable(ct, src)
    modifies dst
    ensures size == if |src| <= 2 || dstSize <= REGISTER_BYTES then 0 else ClosedSize(|Payload(ct, src)|, dstSize)
    ensures size > 0 ==> start + size <= dst.Length && dst[start..start + size] == Seal(Payload(ct, src))
    ensures forall k :: 0 <= k < start || start + dstSize <= k < dst.Length ==> dst[k] == old(dst[k])
  {
    hide BitsOf, Pow2, Next, First, Emitted, Encodable, IsState, Encoded, Tracks, Seal, ClosedSize, Payload,
      CStream.Valid;
    if |src| <= 2 {
      return 0;
    }
    if dstSize <= REGISTER_BYTES {
      return 0;
    }
    TracksStart(ct, src, |src| - 2);
    var bitC := new CStream(dst, start, dstSize);
    var ip := |src|;
    var cState1: CState, cState2: CState;
    ghost var rounds := Quads(|src|);
    if |src| % 2 == 1 {
      ip := ip - 1;
      cState1 := new CState(ct, src[ip]);
      ip := ip - 1;
      cState2 := new CState(ct, src[ip]);
      TracksStep(ct, src, ip, cState2.value, cState1.value, bitC.bits);
      ip := ip - 1;
      cState1.Encode(bitC, src[ip]);
      bitC.FlushBits();
    } else {
      ip := ip - 1;
      cState2 := new CState(ct, src[ip]);
      ip := ip - 1;
      cState1 := new CState(ct, src[ip]);
    }
    if (|src| - 2) / 2 % 2 == 1 {
      ip := EncodePair(bitC, cState1, cState2, src, ip);
      bitC.FlushBits();
    }
    while ip > 0
      invariant ip == 4 * rounds && ip + 2 <= |src|
      invariant bitC.Valid() && bitC.bitPos < 8 && cState1.ct == cState2.ct == ct
      invariant Tracks(ct, src, ip, cState1.value, cState2.value, bitC.bits)
      invariant forall k :: 0 <= k < start || start + dstSize <= k < dst.Length ==> dst[k] == old(dst[k])
    {
      ip := EncodePair(bitC, cState1, cState2, src, ip);
      ip := EncodePair(bitC, cState1, cState2, src, ip);
      bitC.FlushBits();
      rounds := rounds - 1;
    }
    TracksEnd(ct, src, cState1.value, cState2.value, bitC.bits);
    size := Finish(bitC, cState1, cState2);
  }

  /** Flushes the two states, the first one last, and closes the stream. */
  method Finish(bitC: CStream, cState1: CState, cState2: CState) returns (size: nat)
    requires bitC.Valid() && bitC.bitPos < 8 && cState1.ct == cState2.ct && cState1.ct.tableLog <= MAX_TABLELOG
    modifies bitC, bitC.data
    ensures var log := cState1.ct.tableLog;
            var bits := old(bitC.bits) + BitsOf(cState2.value, log) + BitsOf(cState1.value, log);
            && size == ClosedSize(|bits|, bitC.endPtr + REGISTER_BYTES - bitC.startPtr)
            && (size > 0 ==>
                  && bitC.startPtr + size <= bitC.endPtr
                  && bitC.data[bitC.startPtr..bitC.startPtr + size] == Seal(bits))
    ensures forall k :: 0 <= k < bitC.startPtr || bitC.endPtr + REGISTER_BYTES <= k < bitC.data.Length ==>
              bitC.data[k] == old(bitC.data[k])
  {
    hide BitsOf, Seal, ClosedSize;
    cState2.Flush(bitC);
    cState1.Flush(bitC);
    size := bitC.Close();
  }

  /** Two symbols, the second state first. */
  method EncodePair(bitC: CStream, cState1: CState, cState2: CState, src: seq<byte>, at: nat) returns (ip: nat)
    requires cState1.ct == cState2.ct && cState1 != cState2 && cState1.ct.tableLog <= MAX_TABLELOG
    requires 2 <= at && at + 2 <= |src|
    requires bitC.Valid() && bitC.bitPos + 2 * cState1.ct.tableLog < REGISTER_BITS
    requires Tracks(cState1.ct, src, at, cState1.value, cState2.value, bitC.bits)
    modifies bitC, cState1, cState2
    ensures ip == at - 2 && bitC.Valid() && bitC.bitPos <= old(bitC.bitPos) + 2 * cState1.ct.tableLog
    ensures Tracks(cState1.ct, src, ip, cState1.value, cState2.value, bitC.bits)
  {
    hide BitsOf, Pow2, Next, First, Emitted, Encodable, IsState, Encoded, Tracks;
    TracksStep(cState1.ct, src, at, cState1.value, cState2.value, bitC.bits);
    ip := at - 1;
    cState2.Encode(bitC, src[ip]);
    TracksStep(cState1.ct, src, ip, cState2.value, cState1.value, bitC.bits);
    ip := ip - 1;
    cState1.Encode(bitC, src[ip]);
  }

  /** The main loop starts at a multiple of four. */
  lemma Quads(n: nat) returns (rounds: nat)
    requires n > 2
    ensures 4 * rounds == n - 2 - (if n % 2 == 1 then 1 else 0) - (if (n - 2) / 2 % 2 == 1 then 2 else 0)
  {
    rounds := (n - 2) / 4;
  }

  lemma TracksStart(ct: CTable, src: seq<byte>, i: nat)
    requires AllEncodable(ct, src) && i + 2 == |src|
    ensures ct.tableLog <= MAX_TABLELOG && Encodable(ct, src[i]) && Encodable(ct, src[i + 1])
    ensures Tracks(ct, src, i, First(ct, src[i]), First(ct, src[i + 1]), [])
  {
    hide Next, First, Emitted, IsState;
  }

  /** The state that is not in turn codes the next symbol. */
  lemma TracksStep(ct: CTable, src: seq<byte>, i: nat, cur: nat, other: nat, bits: seq<bool>)
    requires i > 0 && Tracks(ct, src, i, cur, other, bits)
    ensures Encodable(ct, src[i - 1]) && IsState(ct.tableLog, other)
    ensures Tracks(ct, src, i - 1, Next(ct, src[i - 1], other), cur, bits + Emitted(ct, src[i - 1], other))
  {
    hide Next, First, Emitted, Encodable, IsState;
  }

  lemma TracksEnd(ct: CTable, src: seq<byte>, cur: nat, other: nat, bits: seq<bool>)
    requires Tracks(ct, src, 0, cur, other, bits)
    ensures Payload(ct, src) == bits + BitsOf(other, ct.tableLog) + BitsOf(cur, ct.tableLog)
  {
  }

  // ----- what the decoder reads -----

  function Prepend(front: seq<byte>, r: Result<seq<byte>>): Result<seq<byte>>
  {
    if r.Ok? then Ok(front + r.value) else r
  }

  /** The state the decoder moves to after reading the last nbBits bits of what is left. */
  function Follow(dt: DTable, y: nat, bits: seq<bool>): (z: nat)
    requires DTableOk(dt) && y < |dt.cells| && dt.cells[y].nbBits <= |bits|
    ensures z < |dt.cells|
  {
    var nb := dt.cells[y].nbBits;
    ValueBound(bits[|bits| - nb..]);
    dt.cells[y].newState + Value(bits[|bits| - nb..])
  }

  /**
    The decoder from two states: `cur` yields the next symbol. When its cell asks for more
    bits than there are, the other state's symbol is the last one.
   */
  ghost function DecodeFrom(dt: DTable, cur: nat, other: nat, bits: seq<bool>, capacity: nat): Result<seq<byte>>
    requires DTableOk(dt) && cur < |dt.cells| && other < |dt.cells|
    decreases capacity
  {
    var cell := dt.cells[cur];
    if capacity < 2 then Err(DstSizeTooSmall)
    else if |bits| < cell.nbBits then Ok([cell.symbol, dt.cells[other].symbol])
    else Prepend([cell.symbol],
                 DecodeFrom(dt, other, Follow(dt, cur, bits), bits[..|bits| - cell.nbBits], capacity - 1))
  }

  /** The decoder on a bit string: two initial states, then the symbols. */
  ghost function DecodeBits(dt: DTable, bits: seq<bool>, capacity: nat): Result<seq<byte>>
    requires DTableOk(dt)
  {
    var n := |bits| - dt.tableLog;
    if n < dt.tableLog then Err(Corruption)
    else
      ValueBound(bits[n..]);
      ValueBound(bits[n - dt.tableLog..n]);
      DecodeFrom(dt, Value(bits[n..]), Value(bits[n - dt.tableLog..n]), bits[..n - dt.tableLog], capacity)
  }

  /** What decompression makes of any byte string. */
  ghost function Decode(dt: DTable, src: seq<byte>, capacity: nat): Result<seq<byte>>
    requires DTableOk(dt)
  {
    match Unseal(src)
    case Ok(bits) => DecodeBits(dt, bits, capacity)
    case Err(e) => Err(e)
  }

  ghost predicate Decoding(target: Result<seq<byte>>, done: seq<byte>, cur: DState, other: DState, bitD: DStream,
                           left: nat)
    reads cur, other, bitD
  {
    && cur.Valid() && other.Valid() && cur.dt == other.dt && bitD.Valid() && bitD.Left() >= 0
    && target == Prepend(done, DecodeFrom(cur.dt, cur.state, other.state, bitD.Rest(), left))
  }

  lemma PrependStep(front: seq<byte>, s: byte, r: Result<seq<byte>>)
    ensures Prepend(front, Prepend([s], r)) == Prepend(front + [s], r)
  {
    if r.Ok? {
      assert front + ([s] + r.value) == (front + [s]) + r.value;
    }
  }

  lemma DecodeStep(dt: DTable, cur: nat, other: nat, bits: seq<bool>, capacity: nat)
    requires DTableOk(dt) && cur < |dt.cells| && other < |dt.cells|
    ensures var cell := dt.cells[cur];
            if capacity < 2 then DecodeFrom(dt, cur, other, bits, capacity) == Err(DstSizeTooSmall)
            else if |bits| < cell.nbBits then
              DecodeFrom(dt, cur, other, bits, capacity) == Ok([cell.symbol, dt.cells[other].symbol])
            else true
    ensures capacity >= 1 && dt.cells[cur].nbBits <= |bits| ==>
              DecodeFrom(dt, cur, other, bits, capacity)
              == Prepend([dt.cells[cur].symbol],
                         DecodeFrom(dt, other, Follow(dt, cur, bits), bits[..|bits| - dt.cells[cur].nbBits],
                                    capacity - 1))
  {
  }

  /** FSE_GETSYMBOL into dst[op]: one more symbol, and the states change roles; or the stream runs out. */
  method GetSymbol(dst: array<byte>, op: nat, cur: DState, other: DState, bitD: DStream, fast: bool,
                   ghost target: Result<seq<byte>>, ghost left: nat)
    requires op < dst.Length
    requires cur != other && Decoding(target, dst[..op], cur, other, bitD, left) && left >= 1
    requires fast ==> cur.dt.fastMode
    requires bitD.Loaded(cur.dt.cells[cur.state].nbBits)
    modifies dst, cur, bitD
    ensures bitD.Valid() && cur.Valid() && bitD.ptr == old(bitD.ptr)
    ensures bitD.bitsConsumed <= old(bitD.bitsConsumed) + MAX_TABLELOG && bitD.Left() + MAX_TABLELOG >= old(bitD.Left())
    ensures cur.dt.cells[old(cur.state)].nbBits <= old(bitD.Left()) <==> bitD.Left() >= 0
    ensures bitD.Left() >= 0 ==> Decoding(target, dst[..op + 1], other, cur, bitD, left - 1)
    ensures bitD.Left() < 0 && left >= 2 ==> target == Ok(dst[..op + 1] + [cur.dt.cells[other.state].symbol])
  {
    hide Value, BytesToBits, DecodeFrom, Pow2;
    ghost var done := dst[..op];
    DecodeStep(cur.dt, cur.state, other.state, bitD.Rest(), left);
    var symbol: byte;
    if fast {
      symbol := cur.DecodeSymbolFast(bitD);
    } else {
      symbol := cur.DecodeSymbol(bitD);
    }
    dst[op] := symbol;
    assert dst[..op + 1] == done + [symbol];
    if bitD.Left() >= 0 {
      PrependStep(done, symbol, DecodeFrom(cur.dt, other.state, cur.state, bitD.Rest(), left - 1));
    } else {
      assert done + [symbol, cur.dt.cells[other.state].symbol] ==
        (done + [symbol]) + [cur.dt.cells[other.state].symbol];
    }
  }

  lemma OutOfSpace(target: Result<seq<byte>>, done: seq<byte>, cur: DState, other: DState, bitD: DStream, left: nat)
    requires Decoding(target, done, cur, other, bitD, left) && left < 2
    ensures target == Err(DstSizeTooSmall)
  {
  }

  lemma DecodingStates(target: Result<seq<byte>>, done: seq<byte>, cur: DState, other: DState, bitD: DStream, left: nat)
    requires Decoding(target, done, cur, other, bitD, left)
    ensures cur.Valid() && other.Valid() && cur.dt == other.dt && bitD.Valid() && bitD.Left() >= 0
    ensures cur.dt.cells[cur.state].nbBits <= MAX_TABLELOG && other.dt.cells[other.state].nbBits <= MAX_TABLELOG
  {
  }

  /** BIT_reloadDStream between two symbols. */
  method Refill(cur: DState, other: DState, bitD: DStream,
                ghost target: Result<seq<byte>>, ghost done: seq<byte>, ghost left: nat) returns (status: Status)
    requires bitD.Valid() && (bitD.Left() >= 0 ==> Decoding(target, done, cur, other, bitD, left))
    modifies bitD
    ensures status == Overflow <==> old(bitD.Left()) < 0
    ensures bitD.Valid() && bitD.Loaded(56) && (old(bitD.Left()) < 0 <==> bitD.Left() < 0)
    ensures status != Overflow ==> Decoding(target, done, cur, other, bitD, left)
    ensures status == Unfinished ==> bitD.bitsConsumed < 8 && bitD.Left() >= 57
  {
    hide DecodeFrom, Prepend, DTableOk, BytesToBits, Value;
    status := bitD.Reload();
  }

  /** One round of the unrolled loop: the register holds enough bits for four symbols. */
  method FourSymbols(dst: array<byte>, op: nat, state1: DState, state2: DState, bitD: DStream, fast: bool,
                     ghost target: Result<seq<byte>>, ghost left: nat)
    requires op + 4 <= dst.Length && left >= 4 && state1 != state2
    requires Decoding(target, dst[..op], state1, state2, bitD, left)
    requires fast ==> state1.dt.fastMode
    requires bitD.Loaded(56) && bitD.bitsConsumed < 8 && bitD.Left() >= 57
    modifies dst, state1, state2, bitD
    ensures bitD.Valid() && bitD.Left() >= 0
    ensures Decoding(target, dst[..op + 4], state1, state2, bitD, left - 4)
  {
    hide Decoding, DStream.Valid, DState.Valid, DTableOk, Pow2;
    DecodingStates(target, dst[..op], state1, state2, bitD, left);
    GetSymbol(dst, op, state1, state2, bitD, fast, target, left);
    DecodingStates(target, dst[..op + 1], state2, state1, bitD, left - 1);
    GetSymbol(dst, op + 1, state2, state1, bitD, fast, target, left - 1);
    DecodingStates(target, dst[..op + 2], state1, state2, bitD, left - 2);
    GetSymbol(dst, op + 2, state1, state2, bitD, fast, target, left - 2);
    DecodingStates(target, dst[..op + 3], state2, state1, bitD, left - 3);
    GetSymbol(dst, op + 3, state2, state1, bitD, fast, target, left - 3);
  }

  /** A symbol whose value is already known: only the stream moves on. */
  method LastSymbol(cur: DState, bitD: DStream, fast: bool) returns (symbol: byte)
    requires cur.Valid() && (fast ==> cur.dt.fastMode)
    requires bitD.Valid() && bitD.Loaded(cur.dt.cells[cur.state].nbBits)
    modifies cur, bitD
    ensures symbol == cur.dt.cells[old(cur.state)].symbol
  {
    if fast {
      symbol := cur.DecodeSymbolFast(bitD);
    } else {
      symbol := cur.DecodeSymbol(bitD);
    }
  }

  /** The result of the decompression method: the size of what was written, or the error. */
  ghost predicate Reports(r: Result<nat>, target: Result<seq<byte>>, dst: seq<byte>)
  {
    match target
    case Ok(out) => r == Ok(|out|) && out <= dst
    case Err(e) => r == Err(e)
  }

  /** FSE_decompress_usingDTable_generic. */
  method Decompress(dst: array<byte>, maxDstSize: nat, cSrc: seq<byte>, dt: DTable, fast: bool) returns (r: Result<nat>)
    requires maxDstSize <= dst.Length && DTableOk(dt) && (fast ==> dt.fastMode)
    modifies dst
    ensures Reports(r, Decode(dt, cSrc, maxDstSize), dst[..])
  {
    hide Value, BytesToBits, DecodeFrom, HighBit, Pow2;
    if |cSrc| < 1 {
      return Err(SrcSizeWrong);
    }
    if cSrc[|cSrc| - 1] == 0 {
      return Err(if |cSrc| >= REGISTER_BYTES then Generic else Corruption);
    }
    ghost var target := Decode(dt, cSrc, maxDstSize);
    var bitD := new DStream(cSrc);
    var state1 := new DState(dt, bitD);
    var state2 := new DState(dt, bitD);
    var status := bitD.Reload();
    if status == Overflow {
      return Err(Corruption);
    }
    Initially(dt, Unseal(cSrc).value, state1, state2, bitD, maxDstSize);
    r := DecodeLoop(dst, maxDstSize, state1, state2, bitD, fast, target);
  }

  lemma Initially(dt: DTable, bits: seq<bool>, state1: DState, state2: DState, bitD: DStream, capacity: nat)
    requires state1.Valid() && state2.Valid() && state1.dt == state2.dt == dt && bitD.Valid()
    requires var n := |bits| - dt.tableLog;
             && bitD.Left() == n - dt.tableLog >= 0 && bitD.Rest() == bits[..n][..n - dt.tableLog]
             && state1.state == Value(bits[n..]) && state2.state == Value(bits[..n][n - dt.tableLog..])
    ensures Decoding(DecodeBits(dt, bits, capacity), [], state1, state2, bitD, capacity)
  {
    hide Value, BytesToBits, DecodeFrom;
    var n := |bits| - dt.tableLog;
    assert bits[..n][..n - dt.tableLog] == bits[..n - dt.tableLog];
    assert bits[..n][n - dt.tableLog..] == bits[n - dt.tableLog..n];
    var res := DecodeFrom(dt, state1.state, state2.state, bitD.Rest(), capacity);
    assert Prepend([], res) == res by {
      if res.Ok? {
        assert [] + res.value == res.value;
      }
    }
  }

  /** Four symbols per round while the register can be refilled, then one at a time. */
  method DecodeLoop(dst: array<byte>, maxDstSize: nat, state1: DState, state2: DState, bitD: DStream, fast: bool,
                    ghost target: Result<seq<byte>>)
    returns (r: Result<nat>)
    requires maxDstSize <= dst.Length && state1 != state2 && (fast ==> state1.dt.fastMode)
    requires Decoding(target, [], state1, state2, bitD, maxDstSize)
    modifies dst, state1, state2, bitD
    ensures Reports(r, target, dst[..])
  {
    hide Value, BytesToBits, DecodeFrom, Decode, Pow2, Follow, Decoding, DTableOk, DStream.Valid, DState.Valid;
    var op := 0;
    DecodingStates(target, [], state1, state2, bitD, maxDstSize);
    var status := Refill(state1, state2, bitD, target, [], maxDstSize);
    assert dst[..0] == [];
    while status == Unfinished && op < maxDstSize - 3
      invariant op <= maxDstSize
      invariant Decoding(target, dst[..op], state1, state2, bitD, maxDstSize - op)
      invariant bitD.Loaded(56) && (status == Unfinished ==> bitD.bitsConsumed < 8 && bitD.Left() >= 57)
      decreases maxDstSize - op
    {
      FourSymbols(dst, op, state1, state2, bitD, fast, target, maxDstSize - op);
      op := op + 4;
      status := Refill(state1, state2, bitD, target, dst[..op], maxDstSize - op);
    }
    r := DecodeTail(dst, op, maxDstSize, state1, state2, bitD, fast, target);
  }

  /** One symbol at a time, until a state asks for more bits than are left. */
  method DecodeTail(dst: array<byte>, start: nat, maxDstSize: nat, state1: DState, state2: DState, bitD: DStream,
                    fast: bool, ghost target: Result<seq<byte>>) returns (r: Result<nat>)
    requires start <= maxDstSize <= dst.Length && state1 != state2 && (fast ==> state1.dt.fastMode)
    requires Decoding(target, dst[..start], state1, state2, bitD, maxDstSize - start) && bitD.Loaded(56)
    modifies dst, state1, state2, bitD
    ensures Reports(r, target, dst[..])
  {
    hide Value, BytesToBits, DecodeFrom, Decode, Pow2, Follow, Decoding, DTableOk, DStream.Valid, DState.Valid;
    var op := start;
    var status: Status;
    while true
      invariant op <= maxDstSize
      invariant Decoding(target, dst[..op], state1, state2, bitD, maxDstSize - op)
      invariant bitD.Loaded(56)
      decreases maxDstSize - op
    {
      if op > maxDstSize - 2 {
        OutOfSpace(target, dst[..op], state1, state2, bitD, maxDstSize - op);
        return Err(DstSizeTooSmall);
      }
      DecodingStates(target, dst[..op], state1, state2, bitD, maxDstSize - op);
      GetSymbol(dst, op, state1, state2, bitD, fast, target, maxDstSize - op);
      op := op + 1;
      status := Refill(state2, state1, bitD, target, dst[..op], maxDstSize - op);
      if status == Overflow {
        dst[op] := LastSymbol(state2, bitD, fast);
        op := op + 1;
        break;
      }
      if op > maxDstSize - 2 {
        OutOfSpace(target, dst[..op], state2, state1, bitD, maxDstSize - op);
        return Err(DstSizeTooSmall);
      }
      DecodingStates(target, dst[..op], state2, state1, bitD, maxDstSize - op);
      GetSymbol(dst, op, state2, state1, bitD, fast, target, maxDstSize - op);
      op := op + 1;
      status := Refill(state1, state2, bitD, target, dst[..op], maxDstSize - op);
      if status == Overflow {
        dst[op] := LastSymbol(state1, bitD, fast);
        op := op + 1;
        break;
      }
    }
    return Ok(op);
  }

  // ----- the round trip -----

  ghost predicate AllUndone(ct: CTable, dt: DTable, src: seq<byte>)
  {
    AllEncodable(ct, src) && DTableOk(dt) && ct.tableLog == dt.tableLog
    && forall k :: 0 <= k < |src| ==> Undoes(ct, dt, src[k])
  }

  /** Decoding from the first state of s needs at least one bit. */
  ghost predicate AsksForBit(ct: CTable, dt: DTable, s: nat)
    requires Undoes(ct, dt, s)
  {
    LowBound(First(ct, s), dt.tableLog);
    dt.cells[Low(First(ct, s), dt.tableLog)].nbBits >= 1
  }

  lemma EncodedStart(ct: CTable, src: seq<byte>, i: nat)
    requires AllEncodable(ct, src) && i + 2 == |src|
    ensures Encodable(ct, src[i]) && Encodable(ct, src[i + 1])
    ensures Encoded(ct, src, i) == Coded(First(ct, src[i]), First(ct, src[i + 1]), [])
  {
  }

  lemma EncodedStep(ct: CTable, src: seq<byte>, i: nat)
    requires AllEncodable(ct, src) && i + 2 < |src|
    ensures Encodable(ct, src[i]) && IsState(ct.tableLog, Encoded(ct, src, i + 1).other)
    ensures var c := Encoded(ct, src, i + 1);
            Encoded(ct, src, i) == Coded(Next(ct, src[i], c.other), c.cur, c.bits + Emitted(ct, src[i], c.other))
  {
  }

  /** What the decoder finds after the encoder's step with symbol s from state x. */
  lemma UndoneStep(ct: CTable, dt: DTable, s: nat, x: nat, bits: seq<bool>)
    requires Undoes(ct, dt, s) && IsState(ct.tableLog, x)
    ensures Low(Next(ct, s, x), dt.tableLog) < |dt.cells|
    ensures var y := Low(Next(ct, s, x), dt.tableLog);
            var all := bits + Emitted(ct, s, x);
            && dt.cells[y].symbol == s && dt.cells[y].nbBits == |all| - |bits|
            && all[..|all| - dt.cells[y].nbBits] == bits
            && Follow(dt, y, all) == Low(x, dt.tableLog)
  {
    hide Low, BitsOf, Value, Next, NbBitsOut, Pow2;
    assert StepUndone(ct, dt, s, x);
    LowBound(Next(ct, s, x), dt.tableLog);
    var nb := NbBitsOut(ct.symbolTT[s], x);
    var all := bits + BitsOf(x, nb);
    assert all[|all| - nb..] == BitsOf(x, nb);
    ValueOfBits(x, nb);
  }

  lemma UndoneFirst(ct: CTable, dt: DTable, s: nat)
    requires Undoes(ct, dt, s)
    ensures Low(First(ct, s), dt.tableLog) < |dt.cells|
    ensures dt.cells[Low(First(ct, s), dt.tableLog)].symbol == s
  {
    LowBound(First(ct, s), dt.tableLog);
  }

  lemma InTable(dt: DTable, x: nat)
    requires DTableOk(dt)
    ensures Low(x, dt.tableLog) < |dt.cells|
  {
    LowBound(x, dt.tableLog);
  }

  /** The decoder from the state the encoder is in after symbols i and above, when it knows where to stop. */
  lemma {:induction false} DecodeEncoded(ct: CTable, dt: DTable, src: seq<byte>, i: nat, capacity: nat)
    requires i + 2 <= |src| && AllUndone(ct, dt, src) && AsksForBit(ct, dt, src[|src| - 2])
    ensures var c := Encoded(ct, src, i);
            && Low(c.cur, dt.tableLog) < |dt.cells| && Low(c.other, dt.tableLog) < |dt.cells|
            && DecodeFrom(dt, Low(c.cur, dt.tableLog), Low(c.other, dt.tableLog), c.bits, capacity)
            == if capacity >= |src| - i then Ok(src[i..]) else Err(DstSizeTooSmall)
    decreases |src| - i
  {
    hide Encoded, DecodeFrom, Low, BitsOf, Value, Undoes, DTableOk, Encodable, Follow, Next, First, Emitted, IsState;
    var c, log := Encoded(ct, src, i), dt.tableLog;
    InTable(dt, c.cur);
    InTable(dt, c.other);
    DecodeStep(dt, Low(c.cur, log), Low(c.other, log), c.bits, capacity);
    if i + 2 == |src| {
      EncodedStart(ct, src, i);
      UndoneFirst(ct, dt, src[i]);
      UndoneFirst(ct, dt, src[i + 1]);
      assert src[i..] == [src[i], src[i + 1]];
    } else if capacity >= 2 {
      var before := Encoded(ct, src, i + 1);
      EncodedStep(ct, src, i);
      UndoneStep(ct, dt, src[i], before.other, before.bits);
      DecodeEncoded(ct, dt, src, i + 1, capacity - 1);
      assert [src[i]] + src[i + 1..] == src[i..];
    }
  }

  /** Whatever the encoder's stream is, the decoder returns the source, given room for it. */
  lemma PayloadRoundTrip(ct: CTable, dt: DTable, src: seq<byte>, capacity: nat)
    requires 2 <= |src| && AllUndone(ct, dt, src) && AsksForBit(ct, dt, src[|src| - 2])
    ensures Decode(dt, Seal(Payload(ct, src)), capacity)
         == if capacity >= |src| then Ok(src) else Err(DstSizeTooSmall)
  {
    hide Encoded, DecodeFrom, Low, BitsOf, Value, Undoes, DTableOk, Encodable, IsState, Seal, Unseal, AsksForBit;
    var c, log := Encoded(ct, src, 0), dt.tableLog;
    UnsealSeal(Payload(ct, src));
    DecodeEncoded(ct, dt, src, 0, capacity);
    SplitStates(c.bits, BitsOf(c.other, log), BitsOf(c.cur, log));
    ValueOfBits(c.other, log);
    ValueOfBits(c.cur, log);
    assert src[0..] == src;
  }

  lemma SplitStates(bits: seq<bool>, b: seq<bool>, a: seq<bool>)
    requires |a| == |b|
    ensures var all := bits + b + a; var n := |all| - |a|;
            all[n..] == a && all[n - |a|..n] == b && all[..n - |a|] == bits
  {
  }

  /** A decoder whose cells never ask for a bit never sees the end. */
  lemma {:induction false} NeverEnds(dt: DTable, cur: nat, other: nat, bits: seq<bool>, capacity: nat)
    requires DTableOk(dt) && cur < |dt.cells| && other < |dt.cells|
    requires forall u :: 0 <= u < |dt.cells| ==> dt.cells[u].nbBits == 0
    ensures DecodeFrom(dt, cur, other, bits, capacity) == Err(DstSizeTooSmall)
    decreases capacity
  {
    if capacity >= 2 {
      NeverEnds(dt, other, Follow(dt, cur, bits), bits[..|bits| - 0], capacity - 1);
    }
  }

  /** When one symbol fills the whole table, its cells hold no information. */
  lemma FullTable(dt: DTable, norm: seq<int>, tableLog: nat, t: seq<nat>, s: nat)
    requires ValidNorm(norm, tableLog) && IsSpread(norm, tableLog, t) && IsDTable(dt, norm, tableLog, t)
    requires s < |norm| && Abs(norm[s]) == Pow2(tableLog)
    ensures forall u :: 0 <= u < |dt.cells| ==> dt.cells[u].nbBits == 0
    ensures forall k :: 0 <= k < |norm| && k != s ==> norm[k] == 0
  {
    hide IsSpread, Pow2, Count, Start, HighBit, Shl;
    forall k | 0 <= k < |norm| && k != s
      ensures norm[k] == 0
    {
      StartZero(norm);
      StartMonotone(norm, 0, Min(k, s));
      StartMonotone(norm, Min(k, s), Max(k, s));
      StartMonotone(norm, Max(k, s), |norm|);
    }
    forall u | 0 <= u < |dt.cells|
      ensures dt.cells[u].nbBits == 0
    {
      SlotBounds(norm, tableLog, t, u);
      NextStateBounds(norm, tableLog, t, u);
      TopState(NextState(norm, t, u), tableLog);
    }
  }

  lemma TopState(next: nat, tableLog: nat)
    requires Pow2(tableLog) <= next < 2 * Pow2(tableLog)
    ensures HighBit(next) == tableLog
  {
    HighBitUnique(next, tableLog);
  }

  /**
    The tables both builders make from the same distribution, for every source of more than two
    symbols of non-zero probability: decompression returns the source exactly when there is room
    for it and no symbol fills the whole table.
   */
  lemma FseRoundTrip(norm: seq<int>, tableLog: nat, ct: CTable, t: seq<nat>, dt: DTable, t': seq<nat>,
                     src: seq<byte>, capacity: nat)
    requires Built(ct, norm, tableLog, t) && IsSpread(norm, tableLog, t') && IsDTable(dt, norm, tableLog, t')
    requires |src| > 2 && forall k :: 0 <= k < |src| ==> src[k] < |norm| && norm[src[k]] != 0
    ensures AllUndone(ct, dt, src)
    ensures Decode(dt, Seal(Payload(ct, src)), capacity) == Ok(src)
            <==> capacity >= |src| && forall s :: 0 <= s < |norm| ==> Abs(norm[s]) < Pow2(tableLog)
  {
    hide IsSpread, Pow2, Decode, Seal, Payload, Undoes, Encodable, DTableOk, ValidNorm;
    SpreadUnique(norm, tableLog, t, t');
    BuiltDTableOk(dt, norm, tableLog, t);
    forall k | 0 <= k < |src|
      ensures Encodable(ct, src[k]) && Undoes(ct, dt, src[k])
    {
      BuiltEncodable(ct, norm, tableLog, t, src[k]);
      TablesInverse(ct, dt, norm, tableLog, t, t', src[k]);
    }
    if s :| 0 <= s < |norm| && Abs(norm[s]) >= Pow2(tableLog) {
      FullTableFails(norm, tableLog, ct, t, dt, src, s, capacity);
    } else {
      FirstUndone(ct, dt, norm, tableLog, t, src[|src| - 2]);
      PayloadRoundTrip(ct, dt, src, capacity);
    }
  }

  /** Three times the only symbol of a distribution: encoding succeeds and no capacity is enough for decoding. */
  lemma OneSymbolFails(ct: CTable, t: seq<nat>, dt: DTable, t': seq<nat>, capacity: nat)
    requires Built(ct, [32], 5, t) && IsSpread([32], 5, t') && IsDTable(dt, [32], 5, t')
    ensures AllUndone(ct, dt, [0, 0, 0])
    ensures Decode(dt, Seal(Payload(ct, [0, 0, 0])), capacity) != Ok([0, 0, 0])
  {
    hide Built, IsSpread, IsDTable, Decode, Seal, Payload, AllUndone;
    FseRoundTrip([32], 5, ct, t, dt, t', [0, 0, 0], capacity);
    assert [32][0] == 32 && Pow2(5) == 32;
  }

  lemma FullTableFails(norm: seq<int>, tableLog: nat, ct: CTable, t: seq<nat>, dt: DTable, src: seq<byte>, s: nat,
                       capacity: nat)
    requires Built(ct, norm, tableLog, t) && IsDTable(dt, norm, tableLog, t)
    requires AllUndone(ct, dt, src) && |src| > 2
    requires s < |norm| && Abs(norm[s]) >= Pow2(tableLog)
    ensures Decode(dt, Seal(Payload(ct, src)), capacity) == Err(DstSizeTooSmall)
  {
    hide IsSpread, Pow2, DecodeFrom, Seal, Unseal, Undoes, Encodable, ValidNorm, Encoded, Value, BitsOf;
    WeightBound(norm, tableLog, s);
    FullTable(dt, norm, tableLog, t, s);
    UnsealSeal(Payload(ct, src));
    var bits := Payload(ct, src);
    var n := |bits| - dt.tableLog;
    ValueBound(bits[n..]);
    ValueBound(bits[n - dt.tableLog..n]);
    NeverEnds(dt, Value(bits[n..]), Value(bits[n - dt.tableLog..n]), bits[..n - dt.tableLog], capacity);
  }
}
