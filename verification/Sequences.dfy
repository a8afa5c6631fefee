/** ZSTD_encodeSequences: three interleaved FSE states and raw bits in one stream. */
module Sequences {
  // The decoder is the one of section 3.1.1.3.2.1 of RFC 8878: it reads the initial
  // states in the order literal length, offset, match length; for each sequence it
  // reads the extra bits of offset, match length and literal length; and between
  // sequences it updates the states of literal length, match length and offset.

  import opened Bits
  import opened Wrappers
  import opened Bitstream
  import opened BitWriter
  import opened FseTables
  import opened FseStep
  import opened FseState

  const LL_FSE_LOG := 9
  const ML_FSE_LOG := 9
  const OF_FSE_LOG := 8
  const MAX_OF_CODE := 31
  const STREAM_ACCUMULATOR_MIN := 57

  /** A stretch of a table with one value. */
  function Same(n: nat, value: nat): (s: seq<nat>)
    ensures |s| == n && forall i :: 0 <= i < n ==> s[i] == value
  {
    seq(n, _ => value)
  }

  /** A stretch of a table with consecutive values. */
  function Rising(n: nat, first: nat): (s: seq<nat>)
    ensures |s| == n && forall i :: 0 <= i < n ==> s[i] == first + i
  {
    seq(n, i => first + i)
  }

  /** LL_bits and ML_bits: the extra bits of literal length and match length codes. */
  const LL_BITS: seq<nat> :=
    Same(16, 0) + [1, 1, 1, 1, 2, 2, 3, 3, 4, 6, 7, 8, 9, 10, 11, 12, 13, 14, 15, 16]
  const ML_BITS: seq<nat> :=
    Same(32, 0) + [1, 1, 1, 1, 2, 2, 3, 3, 4, 4, 5, 7, 8, 9, 10, 11, 12, 13, 14, 15, 16]

  /** A sequence with its codes: litLength, mlBase and offBase carry the extra bits in their low bits. */
  datatype Sequence = Sequence(litLength: nat, mlBase: nat, offBase: nat, llCode: nat, mlCode: nat, ofCode: nat)
  {
    predicate Coded() { llCode < |LL_BITS| && mlCode < |ML_BITS| && ofCode <= MAX_OF_CODE }

    function LlBits(): nat requires Coded() { LL_BITS[llCode] }

    function MlBits(): nat requires Coded() { ML_BITS[mlCode] }

    /** What a decoder can know of the sequence: the codes and the extra bits. */
    function Visible(): Sequence
      requires Coded()
    {
      Sequence(Low(litLength, LlBits()), Low(mlBase, MlBits()), Low(offBase, ofCode), llCode, mlCode, ofCode)
    }
  }

  datatype Encoders = Encoders(ll: CTable, ml: CTable, of: CTable)

  /** The tables have room for every sequence, and no more state bits than the flush schedule reckons with. */
  ghost predicate Encodes(e: Encoders, seqs: seq<Sequence>)
  {
    && e.ll.tableLog <= LL_FSE_LOG && e.ml.tableLog <= ML_FSE_LOG && e.of.tableLog <= OF_FSE_LOG
    && (forall i :: 0 <= i < |seqs| ==>
          && seqs[i].Coded()
          && Encodable(e.ll, seqs[i].llCode) && Encodable(e.ml, seqs[i].mlCode) && Encodable(e.of, seqs[i].ofCode))
  }

  // ----- what the encoder writes -----

  /** The three states and the bits written when sequence i and those after it have been encoded. */
  datatype Run = Run(ll: nat, ml: nat, of: nat, bits: seq<bool>)

  ghost function ExtraBits(s: Sequence): (bits: seq<bool>)
    requires s.Coded()
  {
    BitsOf(s.litLength, s.LlBits()) + BitsOf(s.mlBase, s.MlBits()) + BitsOf(s.offBase, s.ofCode)
  }

  ghost predicate IsRun(e: Encoders, r: Run)
  {
    IsState(e.ll.tableLog, r.ll) && IsState(e.ml.tableLog, r.ml) && IsState(e.of.tableLog, r.of)
  }

  /** The bits after the state steps of one more sequence: offset, match length and literal length. */
  ghost function StepFront(e: Encoders, r: Run, s: Sequence): seq<bool>
    requires Encodes(e, [s])
  {
    EncodesOne(e, [s], 0);
    r.bits + Emitted(e.of, s.ofCode, r.of) + Emitted(e.ml, s.mlCode, r.ml) + Emitted(e.ll, s.llCode, r.ll)
  }

  /** One more sequence: the state steps, then the extra bits. */
  ghost function RunStep(e: Encoders, r: Run, s: Sequence): (q: Run)
    requires Encodes(e, [s]) && IsRun(e, r)
    ensures IsRun(e, q)
  {
    EncodesOne(e, [s], 0);
    Run(Next(e.ll, s.llCode, r.ll), Next(e.ml, s.mlCode, r.ml), Next(e.of, s.ofCode, r.of),
        StepFront(e, r, s) + ExtraBits(s))
  }

  lemma EncodesOne(e: Encoders, seqs: seq<Sequence>, i: nat)
    requires Encodes(e, seqs) && i < |seqs|
    ensures seqs[i].Coded() && Encodes(e, [seqs[i]])
    ensures Encodable(e.ll, seqs[i].llCode) && Encodable(e.ml, seqs[i].mlCode) && Encodable(e.of, seqs[i].ofCode)
    ensures e.ll.tableLog <= 9 && e.ml.tableLog <= 9 && e.of.tableLog <= 8
    ensures seqs[i].llCode < |e.ll.symbolTT| && seqs[i].mlCode < |e.ml.symbolTT| && seqs[i].ofCode < |e.of.symbolTT|
  {
    hide StepFits, Leads, IsState;
  }

  ghost function Encoded(e: Encoders, seqs: seq<Sequence>, i: nat): (r: Run)
    requires Encodes(e, seqs) && i < |seqs|
    ensures IsRun(e, r)
    decreases |seqs| - i
  {
    EncodesOne(e, seqs, i);
    if i == |seqs| - 1 then
      Run(First(e.ll, seqs[i].llCode), First(e.ml, seqs[i].mlCode), First(e.of, seqs[i].ofCode), ExtraBits(seqs[i]))
    else RunStep(e, Encoded(e, seqs, i + 1), seqs[i])
  }

  /** The whole stream: the bits of the sequences and the three final states. */
  ghost function Stream(e: Encoders, seqs: seq<Sequence>): seq<bool>
    requires Encodes(e, seqs) && seqs != []
  {
    var r := Encoded(e, seqs, 0);
    r.bits + BitsOf(r.ml, e.ml.tableLog) + BitsOf(r.of, e.of.tableLog) + BitsOf(r.ll, e.ll.tableLog)
  }

  // ----- encoding -----

  /** The stream and the states hold what has been encoded so far. */
  ghost predicate Holds(bitC: CStream, ll: CState, ml: CState, of: CState, r: Run)
    reads bitC, bitC.data, ll, ml, of
  {
    && bitC.Valid() && bitC.bits == r.bits && bitC.bitPos < 8
    && ll.value == r.ll && ml.value == r.ml && of.value == r.of
  }

  lemma BitsBounds(s: Sequence)
    requires s.Coded()
    ensures s.LlBits() <= 16 && s.MlBits() <= 16 && s.ofCode <= 31
  {
  }

  /**
    One round of the loop. The register has room at every step: 7 bits from the last flush, 26 from the
    states, and the extra bits under the two conditional flushes. On a 64-bit machine no offset is long.
   */
  method EncodeOne(bitC: CStream, ll: CState, ml: CState, of: CState, s: Sequence, longOffsets: bool, ghost e: Encoders,
                   ghost r: Run)
    requires e == Encoders(ll.ct, ml.ct, of.ct) && ll != ml && ml != of && ll != of
    requires Encodes(e, [s]) && IsRun(e, r) && Holds(bitC, ll, ml, of, r)
    modifies bitC, bitC.data, ll, ml, of
    ensures Holds(bitC, ll, ml, of, RunStep(e, r, s))
    ensures forall k :: 0 <= k < bitC.startPtr || bitC.endPtr + REGISTER_BYTES <= k < bitC.data.Length ==>
              bitC.data[k] == old(bitC.data[k])
  {
    hide CStream.Valid, Encodable, IsState, BitsOf, Next, Emitted, Shr, Sequence.LlBits, Sequence.MlBits, LL_BITS,
      ML_BITS;
    EncodesOne(e, [s], 0);
    BitsBounds(s);
    var llBits, ofBits, mlBits := s.LlBits(), s.ofCode, s.MlBits();
    of.Encode(bitC, s.ofCode);
    ml.Encode(bitC, s.mlCode);
    ll.Encode(bitC, s.llCode);
    if ofBits + mlBits + llBits >= 64 - 7 - (LL_FSE_LOG + ML_FSE_LOG + OF_FSE_LOG) {
      bitC.FlushBits();
    }
    bitC.AddBits(s.litLength, llBits);
    bitC.AddBits(s.mlBase, mlBits);
    if ofBits + mlBits + llBits > 56 {
      bitC.FlushBits();
    }
    if longOffsets {
      var extraBits := ofBits - Min(ofBits, STREAM_ACCUMULATOR_MIN - 1);
      assert extraBits == 0;
      NoShift(s.offBase);
      bitC.AddBits(Shr(s.offBase, extraBits), ofBits - extraBits);
    } else {
      bitC.AddBits(s.offBase, ofBits);
    }
    bitC.FlushBits();
    ConcatThree(StepFront(e, r, s), BitsOf(s.litLength, llBits), BitsOf(s.mlBase, mlBits), BitsOf(s.offBase, ofBits));
  }

  lemma NoShift(v: nat)
    ensures Shr(v, 0) == v
  {
  }

  lemma ConcatThree<T>(a: seq<T>, b: seq<T>, c: seq<T>, d: seq<T>)
    ensures ((a + b) + c) + d == a + (b + c + d)
  {
  }

  /** The last sequence, which starts the states and the stream: at most 63 bits before the first flush. */
  method EncodeLast(bitC: CStream, ll: CState, ml: CState, of: CState, s: Sequence, longOffsets: bool,
                    ghost e: Encoders)
    requires bitC.Valid() && bitC.bits == [] && bitC.bitPos == 0
    requires s.Coded() && Encodes(e, [s])
    modifies bitC, bitC.data
    ensures Holds(bitC, ll, ml, of, Run(ll.value, ml.value, of.value, ExtraBits(s)))
    ensures forall k :: 0 <= k < bitC.startPtr || bitC.endPtr + REGISTER_BYTES <= k < bitC.data.Length ==>
              bitC.data[k] == old(bitC.data[k])
  {
    hide CStream.Valid, Encodable, IsState, BitsOf, Next, Emitted, Shr, Sequence.LlBits, Sequence.MlBits, LL_BITS,
      ML_BITS;
    EncodesOne(e, [s], 0);
    BitsBounds(s);
    bitC.AddBits(s.litLength, s.LlBits());
    bitC.AddBits(s.mlBase, s.MlBits());
    if longOffsets {
      var extraBits := s.ofCode - Min(s.ofCode, STREAM_ACCUMULATOR_MIN - 1);
      assert extraBits == 0;
      NoShift(s.offBase);
      bitC.AddBits(Shr(s.offBase, extraBits), s.ofCode - extraBits);
    } else {
      bitC.AddBits(s.offBase, s.ofCode);
    }
    bitC.FlushBits();
    ConcatThree([], BitsOf(s.litLength, s.LlBits()), BitsOf(s.mlBase, s.MlBits()), BitsOf(s.offBase, s.ofCode));
    assert [] + ExtraBits(s) == ExtraBits(s);
  }

  /**
    ZSTD_encodeSequences: the sealed stream of all sequences, or dstSize_tooSmall when it does not fit.
   */
  method EncodeSequences(dst: array<byte>, start: nat, dstCapacity: nat, e: Encoders, seqs: seq<Sequence>,
                         longOffsets: bool) returns (r: Result<nat>)
    requires start + dstCapacity <= dst.Length && seqs != [] && Encodes(e, seqs)
    modifies dst
    ensures r == if dstCapacity <= REGISTER_BYTES then Err(DstSizeTooSmall)
                 else if ClosedSize(|Stream(e, seqs)|, dstCapacity) == 0 then Err(DstSizeTooSmall)
                 else Ok(ClosedSize(|Stream(e, seqs)|, dstCapacity))
    ensures r.Ok? ==> start + r.value <= dst.Length && dst[start..start + r.value] == Seal(Stream(e, seqs))
    ensures forall k :: 0 <= k < start || start + dstCapacity <= k < dst.Length ==> dst[k] == old(dst[k])
  {
    hide CStream.Valid, Encodable, IsState, BitsOf, Next, First, RunStep, Encoded, Encodes, ExtraBits, Seal, Holds,
      ClosedSize;
    if dstCapacity <= REGISTER_BYTES {
      return Err(DstSizeTooSmall);
    }
    var bitC := new CStream(dst, start, dstCapacity);
    var n: int := |seqs| - 1;
    EncodesOne(e, seqs, n);
    var ml := new CState(e.ml, seqs[n].mlCode);
    var of := new CState(e.of, seqs[n].ofCode);
    var ll := new CState(e.ll, seqs[n].llCode);
    EncodeLast(bitC, ll, ml, of, seqs[n], longOffsets, e);
    EncodedLast(e, seqs);
    while n > 0
      invariant 0 <= n < |seqs|
      invariant Holds(bitC, ll, ml, of, Encoded(e, seqs, n))
      invariant forall k :: 0 <= k < start || start + dstCapacity <= k < dst.Length ==> dst[k] == old(dst[k])
    {
      EncodesOne(e, seqs, n - 1);
      EncodedStep(e, seqs, n - 1);
      EncodeOne(bitC, ll, ml, of, seqs[n - 1], longOffsets, e, Encoded(e, seqs, n));
      n := n - 1;
    }
    r := Finish(bitC, ll, ml, of, e, Encoded(e, seqs, 0));
  }

  lemma EncodedLast(e: Encoders, seqs: seq<Sequence>)
    requires seqs != [] && Encodes(e, seqs)
    ensures var s := seqs[|seqs| - 1];
            && Encodable(e.ll, s.llCode) && Encodable(e.ml, s.mlCode) && Encodable(e.of, s.ofCode) && s.Coded()
            && Encoded(e, seqs, |seqs| - 1) ==
              Run(First(e.ll, s.llCode), First(e.ml, s.mlCode), First(e.of, s.ofCode), ExtraBits(s))
  {
    hide Encodable, First, ExtraBits;
    EncodesOne(e, seqs, |seqs| - 1);
  }

  lemma EncodedStep(e: Encoders, seqs: seq<Sequence>, i: nat)
    requires Encodes(e, seqs) && i + 1 < |seqs|
    ensures Encodes(e, [seqs[i]]) && IsRun(e, Encoded(e, seqs, i + 1))
    ensures Encoded(e, seqs, i) == RunStep(e, Encoded(e, seqs, i + 1), seqs[i])
  {
    hide Encodable, RunStep;
    EncodesOne(e, seqs, i);
  }

  /** Flushes the three states and closes the stream. */
  method Finish(bitC: CStream, ll: CState, ml: CState, of: CState, ghost e: Encoders, ghost run: Run)
    returns (r: Result<nat>)
    requires e == Encoders(ll.ct, ml.ct, of.ct) && ll.ct.tableLog <= 9 && ml.ct.tableLog <= 9 && of.ct.tableLog <= 8
    requires Holds(bitC, ll, ml, of, run)
    modifies bitC, bitC.data
    ensures var x, y, z := BitsOf(run.ml, e.ml.tableLog), BitsOf(run.of, e.of.tableLog), BitsOf(run.ll, e.ll.tableLog);
            var bits := run.bits + x + y + z;
            var capacity := bitC.endPtr + REGISTER_BYTES - bitC.startPtr;
            && (r == if capacity <= REGISTER_BYTES || ClosedSize(|bits|, capacity) == 0 then Err(DstSizeTooSmall)
                     else Ok(ClosedSize(|bits|, capacity)))
            && (r.Ok? ==>
                  && bitC.startPtr + r.value <= bitC.data.Length
                  && bitC.data[bitC.startPtr..bitC.startPtr + r.value] == Seal(bits))
    ensures forall k :: 0 <= k < bitC.startPtr || bitC.endPtr + REGISTER_BYTES <= k < bitC.data.Length ==>
              bitC.data[k] == old(bitC.data[k])
  {
    hide Seal, ClosedSize, BitsOf, Value, BytesToBits;
    ml.Flush(bitC);
    of.Flush(bitC);
    ll.Flush(bitC);
    var streamSize := bitC.Close();
    if streamSize == 0 {
      return Err(DstSizeTooSmall);
    }
    return Ok(streamSize);
  }
}
