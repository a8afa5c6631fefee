/** The codes of lengths and offsets (section 3.1.1.3.2.1.1 of RFC 8878), and round trips on the lengths themselves. */
module SequenceCodes {
  import opened Bits
  import opened Wrappers
  import opened Bitstream
  import opened Sequences
  import opened SeqStore
  import opened SequenceDecoder

  const MAX_LL := 35
  const MAX_ML := 52

  const LL_CODE: seq<nat> :=
    Rising(16, 0) +
    [16, 16, 17, 17, 18, 18, 19, 19, 20, 20, 20, 20, 21, 21, 21, 21] +
    [22, 22, 22, 22, 22, 22, 22, 22, 23, 23, 23, 23, 23, 23, 23, 23] +
    Same(16, 24)

  const ML_CODE: seq<nat> :=
    Rising(32, 0) +
    [32, 32, 33, 33, 34, 34, 35, 35, 36, 36, 36, 36, 37, 37, 37, 37] +
    [38, 38, 38, 38, 38, 38, 38, 38, 39, 39, 39, 39, 39, 39, 39, 39] +
    Same(16, 40) + Same(16, 41) + Same(32, 42)

  /** What the decoder adds to the extra bits. */
  const LL_BASE: seq<nat> :=
    Rising(16, 0) +
    [16, 18, 20, 22, 24, 28, 32, 40, 48, 64, 128, 256, 512, 1024, 2048, 4096, 8192, 16384, 32768, 65536]

  const ML_BASE: seq<nat> :=
    Rising(32, 3) +
    [35, 37, 39, 41, 43, 47, 51, 59, 67, 83, 99, 131, 259, 515, 1027, 2051, 4099, 8195, 16387, 32771, 65539]

  /** ZSTD_LLcode. */
  function LLCode(litLength: nat): nat
  {
    if litLength > 63 then HighBit(litLength) + 19 else LL_CODE[litLength]
  }

  /** ZSTD_MLcode. */
  function MLCode(mlBase: nat): nat
  {
    if mlBase > 127 then HighBit(mlBase) + 36 else ML_CODE[mlBase]
  }

  // ----- a code and its extra bits determine the length -----

  /** The lengths of a code are as many as its extra bits tell apart, from a multiple of that number on. */
  ghost predicate Spans(base: nat, bits: nat, value: nat)
  {
    base % Pow2(bits) == 0 && base <= value < base + Pow2(bits)
  }

  lemma SpanRead(base: nat, bits: nat, value: nat)
    requires Spans(base, bits, value)
    ensures base + Low(value, bits) == value
  {
    hide Low;
    var size := Pow2(bits);
    var hi := base / size;
    assert base == size * hi;
    ShrUnique(value, bits, hi, value - base);
  }

  lemma LongSpan(value: nat)
    requires value > 0
    ensures Spans(Pow2(HighBit(value)), HighBit(value), value)
  {
    MulDivCancel(1, Pow2(HighBit(value)));
  }

  ghost predicate LLSpans(value: nat)
  {
    && value < |LL_CODE| && LL_CODE[value] <= MAX_LL
    && Spans(LL_BASE[LL_CODE[value]], LL_BITS[LL_CODE[value]], value)
  }

  ghost predicate MLSpans(value: nat)
  {
    && value < |ML_CODE| && ML_CODE[value] <= MAX_ML
    && Spans(ML_BASE[ML_CODE[value]] - MINMATCH, ML_BITS[ML_CODE[value]], value)
  }

  lemma LLTable()
    ensures |LL_BASE| == |LL_BITS| == MAX_LL + 1
    ensures LL_BASE[16] == 16 && LL_BASE[17] == 18 && LL_BASE[18] == 20 && LL_BASE[19] == 22
    ensures LL_BASE[20] == 24 && LL_BASE[21] == 28 && LL_BASE[22] == 32 && LL_BASE[23] == 40
    ensures LL_BASE[24] == 48 && LL_BASE[25] == 64 && LL_BASE[26] == 128 && LL_BASE[27] == 256
    ensures LL_BASE[28] == 512 && LL_BASE[29] == 1024 && LL_BASE[30] == 2048 && LL_BASE[31] == 4096
    ensures LL_BASE[32] == 8192 && LL_BASE[33] == 16384 && LL_BASE[34] == 32768 && LL_BASE[35] == 65536
    ensures LL_BITS[16] == 1 && LL_BITS[17] == 1 && LL_BITS[18] == 1
    ensures LL_BITS[19] == 1 && LL_BITS[20] == 2 && LL_BITS[21] == 2
    ensures LL_BITS[22] == 3 && LL_BITS[23] == 3 && LL_BITS[24] == 4
    ensures LL_BITS[25] == 6 && LL_BITS[26] == 7 && LL_BITS[27] == 8
    ensures LL_BITS[28] == 9 && LL_BITS[29] == 10 && LL_BITS[30] == 11
    ensures LL_BITS[31] == 12 && LL_BITS[32] == 13 && LL_BITS[33] == 14
    ensures LL_BITS[34] == 15 && LL_BITS[35] == 16
  {
  }

  lemma LLLow(value: nat)
    requires 0 <= value < 16
    ensures LLSpans(value)
  {
    hide Pow2;
    Pow2Values();
    assert LL_CODE[value] == value;
  }

  lemma LLHigh(value: nat)
    requires 48 <= value < 64
    ensures LLSpans(value)
  {
    hide Pow2;
    Pow2Values();
    assert LL_CODE[value] == 24;
  }

  lemma LLRow0(value: nat)
    requires 16 <= value < 32
    ensures LLSpans(value)
  {
    hide Pow2, LL_BASE, LL_BITS;
    Pow2Values();
    LLTable();
    assert LLSpans(16) && LLSpans(17) && LLSpans(18) && LLSpans(19);
    assert LLSpans(20) && LLSpans(21) && LLSpans(22) && LLSpans(23);
    assert LLSpans(24) && LLSpans(25) && LLSpans(26) && LLSpans(27);
    assert LLSpans(28) && LLSpans(29) && LLSpans(30) && LLSpans(31);
  }

  lemma LLRow1(value: nat)
    requires 32 <= value < 48
    ensures LLSpans(value)
  {
    hide Pow2, LL_BASE, LL_BITS;
    Pow2Values();
    LLTable();
    assert LLSpans(32) && LLSpans(33) && LLSpans(34) && LLSpans(35);
    assert LLSpans(36) && LLSpans(37) && LLSpans(38) && LLSpans(39);
    assert LLSpans(40) && LLSpans(41) && LLSpans(42) && LLSpans(43);
    assert LLSpans(44) && LLSpans(45) && LLSpans(46) && LLSpans(47);
  }

  lemma MLBases()
    ensures |ML_BASE| == MAX_ML + 1
    ensures ML_BASE[32] == 35 && ML_BASE[33] == 37 && ML_BASE[34] == 39 && ML_BASE[35] == 41
    ensures ML_BASE[36] == 43 && ML_BASE[37] == 47 && ML_BASE[38] == 51 && ML_BASE[39] == 59
    ensures ML_BASE[40] == 67 && ML_BASE[41] == 83 && ML_BASE[42] == 99 && ML_BASE[43] == 131
    ensures ML_BASE[44] == 259 && ML_BASE[45] == 515 && ML_BASE[46] == 1027 && ML_BASE[47] == 2051
    ensures ML_BASE[48] == 4099 && ML_BASE[49] == 8195 && ML_BASE[50] == 16387 && ML_BASE[51] == 32771
    ensures ML_BASE[52] == 65539
  {
  }

  lemma MLTable()
    ensures |ML_BASE| == |ML_BITS| == MAX_ML + 1
    ensures ML_BASE[32] == 35 && ML_BASE[33] == 37 && ML_BASE[34] == 39 && ML_BASE[35] == 41
    ensures ML_BASE[36] == 43 && ML_BASE[37] == 47 && ML_BASE[38] == 51 && ML_BASE[39] == 59
    ensures ML_BASE[40] == 67 && ML_BASE[41] == 83 && ML_BASE[42] == 99 && ML_BASE[43] == 131
    ensures ML_BASE[44] == 259 && ML_BASE[45] == 515 && ML_BASE[46] == 1027 && ML_BASE[47] == 2051
    ensures ML_BASE[48] == 4099 && ML_BASE[49] == 8195 && ML_BASE[50] == 16387 && ML_BASE[51] == 32771
    ensures ML_BASE[52] == 65539
    ensures ML_BITS[32] == 1 && ML_BITS[33] == 1 && ML_BITS[34] == 1
    ensures ML_BITS[35] == 1 && ML_BITS[36] == 2 && ML_BITS[37] == 2
    ensures ML_BITS[38] == 3 && ML_BITS[39] == 3 && ML_BITS[40] == 4
    ensures ML_BITS[41] == 4 && ML_BITS[42] == 5 && ML_BITS[43] == 7
    ensures ML_BITS[44] == 8 && ML_BITS[45] == 9 && ML_BITS[46] == 10
    ensures ML_BITS[47] == 11 && ML_BITS[48] == 12 && ML_BITS[49] == 13
    ensures ML_BITS[50] == 14 && ML_BITS[51] == 15 && ML_BITS[52] == 16
  {
    hide ML_BASE;
    MLBases();
  }

  lemma MLLow(value: nat)
    requires 0 <= value < 32
    ensures MLSpans(value)
  {
    hide Pow2;
    Pow2Values();
    assert ML_CODE[value] == value;
  }

  lemma MLHigh0(value: nat)
    requires 64 <= value < 80
    ensures MLSpans(value)
  {
    hide Pow2;
    Pow2Values();
    assert ML_CODE[value] == 40;
  }

  lemma MLHigh1(value: nat)
    requires 80 <= value < 96
    ensures MLSpans(value)
  {
    hide Pow2;
    Pow2Values();
    assert ML_CODE[value] == 41;
  }

  lemma MLHigh2(value: nat)
    requires 96 <= value < 128
    ensures MLSpans(value)
  {
    hide Pow2;
    Pow2Values();
    assert ML_CODE[value] == 42;
  }

  lemma MLRow0(value: nat)
    requires 32 <= value < 48
    ensures MLSpans(value)
  {
    hide Pow2, ML_BASE, ML_BITS;
    Pow2Values();
    MLTable();
    assert MLSpans(32) && MLSpans(33) && MLSpans(34) && MLSpans(35);
    assert MLSpans(36) && MLSpans(37) && MLSpans(38) && MLSpans(39);
    assert MLSpans(40) && MLSpans(41) && MLSpans(42) && MLSpans(43);
    assert MLSpans(44) && MLSpans(45) && MLSpans(46) && MLSpans(47);
  }

  lemma MLRow1(value: nat)
    requires 48 <= value < 64
    ensures MLSpans(value)
  {
    hide Pow2, ML_BASE, ML_BITS;
    Pow2Values();
    MLTable();
    assert MLSpans(48) && MLSpans(49) && MLSpans(50) && MLSpans(51);
    assert MLSpans(52) && MLSpans(53) && MLSpans(54) && MLSpans(55);
    assert MLSpans(56) && MLSpans(57) && MLSpans(58) && MLSpans(59);
    assert MLSpans(60) && MLSpans(61) && MLSpans(62) && MLSpans(63);
  }

  lemma LLSpan(litLength: nat)
    requires litLength < 0x2_0000
    ensures LLCode(litLength) <= MAX_LL
    ensures Spans(LL_BASE[LLCode(litLength)], LL_BITS[LLCode(litLength)], litLength)
  {
    hide Pow2, HighBit, LL_CODE, LL_BASE, LL_BITS, Spans;
    if litLength < 16 {
      LLLow(litLength);
    } else if litLength < 32 {
      LLRow0(litLength);
    } else if litLength < 48 {
      LLRow1(litLength);
    } else if litLength < 64 {
      LLHigh(litLength);
    } else {
      Pow2Values();
      LongHighBit(litLength, 6);
      LongSpan(litLength);
      LLLong(HighBit(litLength));
    }
  }

  lemma MLSpan(mlBase: nat)
    requires mlBase < 0x2_0000
    ensures MLCode(mlBase) <= MAX_ML
    ensures Spans(ML_BASE[MLCode(mlBase)] - MINMATCH, ML_BITS[MLCode(mlBase)], mlBase)
  {
    hide Pow2, HighBit, ML_CODE, ML_BASE, ML_BITS, Spans;
    if mlBase < 32 {
      MLLow(mlBase);
    } else if mlBase < 48 {
      MLRow0(mlBase);
    } else if mlBase < 64 {
      MLRow1(mlBase);
    } else if mlBase < 80 {
      MLHigh0(mlBase);
    } else if mlBase < 96 {
      MLHigh1(mlBase);
    } else if mlBase < 128 {
      MLHigh2(mlBase);
    } else {
      Pow2Values();
      LongHighBit(mlBase, 7);
      LongSpan(mlBase);
      MLLong(HighBit(mlBase));
    }
  }

  lemma LongHighBit(value: nat, h: nat)
    requires Pow2(h) <= value < 0x2_0000
    ensures h <= HighBit(value) <= 16
  {
    Pow2Values();
    if HighBit(value) < h {
      Pow2Strict(HighBit(value), h);
    } else if HighBit(value) > 16 {
      Pow2Strict(16, HighBit(value));
    }
  }

  lemma LLLong(h: nat)
    requires 6 <= h <= 16
    ensures h + 19 < |LL_BASE| == |LL_BITS| && LL_BASE[h + 19] == Pow2(h) && LL_BITS[h + 19] == h
  {
    hide Pow2, LL_BASE, LL_BITS;
    Pow2Values();
    LLTable();
  }

  lemma MLLong(h: nat)
    requires 7 <= h <= 16
    ensures h + 36 < |ML_BASE| == |ML_BITS| && ML_BASE[h + 36] == Pow2(h) + MINMATCH && ML_BITS[h + 36] == h
  {
    hide Pow2, ML_BASE, ML_BITS;
    Pow2Values();
    MLTable();
  }

  /** For every literal length of a block: the base of its code and its extra bits make up the length. */
  lemma LLDetermined(litLength: nat)
    requires litLength < 0x2_0000
    ensures LLCode(litLength) < |LL_BASE| == |LL_BITS|
    ensures LL_BASE[LLCode(litLength)] + Low(litLength, LL_BITS[LLCode(litLength)]) == litLength
  {
    hide LLCode, LL_BASE, LL_BITS, Low;
    LLTable();
    LLSpan(litLength);
    SpanRead(LL_BASE[LLCode(litLength)], LL_BITS[LLCode(litLength)], litLength);
  }

  /** The same for every match length. */
  lemma MLDetermined(mlBase: nat)
    requires mlBase < 0x2_0000
    ensures MLCode(mlBase) < |ML_BASE| == |ML_BITS|
    ensures ML_BASE[MLCode(mlBase)] + Low(mlBase, ML_BITS[MLCode(mlBase)]) == mlBase + MINMATCH
  {
    hide MLCode, ML_BASE, ML_BITS, Low;
    MLTable();
    MLSpan(mlBase);
    SpanRead(ML_BASE[MLCode(mlBase)] - MINMATCH, ML_BITS[MLCode(mlBase)], mlBase);
  }

  /** The same for every offset: the code is its highest bit, and the extra bits are those below. */
  lemma OffsetDetermined(offBase: nat)
    requires offBase > 0
    ensures Pow2(HighBit(offBase)) + Low(offBase, HighBit(offBase)) == offBase
  {
    hide Low;
    LongSpan(offBase);
    SpanRead(Pow2(HighBit(offBase)), HighBit(offBase), offBase);
  }

  // ----- the codes of the stored sequences -----

  /** What a sequence of a block is: lengths of less than 128 KB, and an offset that fits into 32 bits. */
  predicate Codable(f: Found)
  {
    && f.litLength < 0x2_0000 && MINMATCH <= f.matchLength < 0x2_0000 + MINMATCH
    && 0 < f.offBase < 0x1_0000_0000
  }

  /** The 16-bit fields of a sequence with the codes of its true lengths. */
  function CodedOf(f: Found): (s: Sequence)
    requires Codable(f)
  {
    Sequence(f.litLength % 0x1_0000, (f.matchLength - MINMATCH) % 0x1_0000, f.offBase, LLCode(f.litLength),
             MLCode(f.matchLength - MINMATCH), HighBit(f.offBase))
  }

  /** What the decoder makes of a sequence: to each base it adds the extra bits. */
  function Restored(s: Sequence): Found
    requires s.llCode < |LL_BASE| && s.mlCode < |ML_BASE|
  {
    Found(LL_BASE[s.llCode] + s.litLength, Pow2(s.ofCode) + s.offBase, ML_BASE[s.mlCode] + s.mlBase)
  }

  lemma LowLow(v: nat, n: nat, m: nat)
    requires n <= m
    ensures Low(Low(v, m), n) == Low(v, n)
  {
    BitsOfLow(v, n, m);
    ValueOfBits(v, n);
    ValueOfBits(Low(v, m), n);
  }

  lemma LowOfStored(v: nat, n: nat)
    requires n <= 16
    ensures Low(v % 0x1_0000, n) == Low(v, n)
  {
    hide *;
    Pow2Values();
    ShrUnique(v, 16, v / 0x1_0000, v % 0x1_0000);
    LowLow(v, n, 16);
  }

  lemma OffsetCode(offBase: nat)
    requires 0 < offBase < 0x1_0000_0000
    ensures HighBit(offBase) <= MAX_OF_CODE
  {
    Pow2Values();
    if HighBit(offBase) > 31 {
      Pow2Mono(32, HighBit(offBase));
    }
  }

  /** A length above 16 bits has the greatest code. */
  lemma LongCodes(value: nat)
    requires 0x1_0000 <= value < 0x2_0000
    ensures LLCode(value) == MAX_LL && MLCode(value) == MAX_ML
  {
    Pow2Values();
    HighBitUnique(value, 16);
  }

  /** Nothing is lost: what the decoder can see of a coded sequence gives back its lengths and its offset. */
  lemma CodesRestore(f: Found)
    requires Codable(f)
    ensures CodedOf(f).Coded() && CodedOf(f).Visible().llCode < |LL_BASE| && CodedOf(f).Visible().mlCode < |ML_BASE|
    ensures Restored(CodedOf(f).Visible()) == f
  {
    hide LLCode, MLCode, LL_BASE, LL_BITS, ML_BASE, ML_BITS, Low, Pow2, HighBit;
    var s := CodedOf(f);
    LLDetermined(f.litLength);
    MLDetermined(f.matchLength - MINMATCH);
    OffsetDetermined(f.offBase);
    OffsetCode(f.offBase);
    LLTable();
    MLTable();
    BitsBounds(s);
    LowOfStored(f.litLength, s.LlBits());
    LowOfStored(f.matchLength - MINMATCH, s.MlBits());
  }

  /** Every stored sequence fits the codes. */
  lemma StoredCodable(found: seq<Found>, i: nat)
    requires Total(found) <= BLOCKSIZE_MAX && i < |found|
    requires found[i].matchLength >= MINMATCH && 0 < found[i].offBase < 0x1_0000_0000
    ensures Codable(found[i])
  {
    SizeWithin(found, i);
  }

  /**
    ZSTD_seqToCodes: with the codes it stores, the stored sequences are those of the true lengths. Only the one with a
    long length needs the correction, and on a 64-bit machine no offset is long.
   */
  method SeqToCodes(store: Store, llCode: array<byte>, ofCode: array<byte>, mlCode: array<byte>)
    requires store.Valid() && llCode != ofCode && llCode != mlCode && ofCode != mlCode
    requires |store.sequences| <= llCode.Length == ofCode.Length == mlCode.Length
    requires forall i :: 0 <= i < |store.found| ==> 0 < store.found[i].offBase < 0x1_0000_0000
    modifies llCode, ofCode, mlCode
    ensures forall i :: 0 <= i < |store.found| ==>
              && Codable(store.found[i])
              && Coded(store.sequences[i], llCode[i], mlCode[i], ofCode[i]) == CodedOf(store.found[i])
    ensures forall k :: |store.found| <= k < llCode.Length ==>
              llCode[k] == old(llCode[k]) && ofCode[k] == old(ofCode[k]) && mlCode[k] == old(mlCode[k])
  {
    hide LLCode, MLCode, HighBit, Total;
    var u := 0;
    while u < |store.sequences|
      invariant 0 <= u <= |store.sequences|
      invariant forall i :: 0 <= i < u ==> Codes16(store.sequences[i], llCode[i], mlCode[i], ofCode[i])
      invariant forall k :: u <= k < llCode.Length ==>
                  llCode[k] == old(llCode[k]) && ofCode[k] == old(ofCode[k]) && mlCode[k] == old(mlCode[k])
    {
      var llv, mlv := store.sequences[u].litLength, store.sequences[u].mlBase;
      assert store.Represents(u);
      SmallCodes(llv, mlv);
      OffsetCode(store.sequences[u].offBase);
      var code := HighBit(store.sequences[u].offBase);
      llCode[u], ofCode[u], mlCode[u] := LLCode(llv), code, MLCode(mlv);
      assert code < STREAM_ACCUMULATOR_MIN;
      u := u + 1;
    }
    if store.longLengthType == LiteralLength {
      llCode[store.longLengthPos] := MAX_LL;
    }
    if store.longLengthType == MatchLength {
      mlCode[store.longLengthPos] := MAX_ML;
    }
    forall i | 0 <= i < |store.found|
      ensures Codable(store.found[i])
      ensures Coded(store.sequences[i], llCode[i], mlCode[i], ofCode[i]) == CodedOf(store.found[i])
    {
      var f := store.found[i];
      assert store.Represents(i);
      StoredCodable(store.found, i);
      if f.LongLiteral() {
        LongCodes(f.litLength);
      }
      if f.LongMatch() {
        LongCodes(f.matchLength - MINMATCH);
      }
    }
  }

  /** A stored sequence together with its codes. */
  function Coded(q: SeqDef, ll: nat, ml: nat, of: nat): Sequence
  {
    Sequence(q.litLength, q.mlBase, q.offBase, ll, ml, of)
  }

  /** The codes of the 16-bit fields. */
  predicate Codes16(q: SeqDef, ll: nat, ml: nat, of: nat)
  {
    q.offBase > 0 && ll == LLCode(q.litLength) && ml == MLCode(q.mlBase) && of == HighBit(q.offBase)
  }

  lemma SmallCodes(litLength: nat, mlBase: nat)
    requires litLength < 0x1_0000 && mlBase < 0x1_0000
    ensures LLCode(litLength) <= MAX_LL && MLCode(mlBase) <= MAX_ML
  {
    hide LLCode, MLCode;
    LLSpan(litLength);
    MLSpan(mlBase);
  }

  // ----- the round trip on lengths and offsets -----

  function CodedAll(found: seq<Found>): (seqs: seq<Sequence>)
    requires forall i :: 0 <= i < |found| ==> Codable(found[i])
    ensures |seqs| == |found| && forall i :: 0 <= i < |seqs| ==> seqs[i] == CodedOf(found[i])
  {
    seq(|found|, i requires 0 <= i < |found| => CodedOf(found[i]))
  }

  /**
    For any sequences of a block, and any three distributions or single symbols that have their codes: the decoder
    recovers every literal length, match length and offset.
   */
  lemma LengthsRoundTrip(e: Encoders, d: Decoders, ll: Source, ml: Source, of: Source, found: seq<Found>)
    requires ll.Builds(e.ll, d.ll, LL_FSE_LOG) && ml.Builds(e.ml, d.ml, ML_FSE_LOG) && of.Builds(e.of, d.of, OF_FSE_LOG)
    requires found != [] && forall i :: 0 <= i < |found| ==> Codable(found[i])
    requires forall i :: 0 <= i < |found| ==>
               && ll.HasCode(CodedOf(found[i]).llCode) && ml.HasCode(CodedOf(found[i]).mlCode)
               && of.HasCode(CodedOf(found[i]).ofCode)
    ensures Encodes(e, CodedAll(found)) && Ready(d)
    ensures var r := Decode(d, Seal(Stream(e, CodedAll(found))), |found|);
            && r.Ok? && |r.value| == |found|
            && (forall i :: 0 <= i < |found| ==>
                  && r.value[i].llCode < |LL_BASE| && r.value[i].mlCode < |ML_BASE|
                  && Restored(r.value[i]) == found[i])
  {
    hide Source.Builds, Source.HasCode, Encodes, Ready, Decode, Stream, Seal, CodedOf, Restored, LL_BASE, ML_BASE,
      Sequence.Visible, Sequence.Coded, Codable;
    forall i | 0 <= i < |found|
      ensures CodedOf(found[i]).Coded()
      ensures CodedOf(found[i]).Visible().llCode < |LL_BASE| && CodedOf(found[i]).Visible().mlCode < |ML_BASE|
      ensures Restored(CodedOf(found[i]).Visible()) == found[i]
    {
      CodesRestore(found[i]);
    }
    BlockRoundTrip(e, d, ll, ml, of, CodedAll(found));
  }
}
