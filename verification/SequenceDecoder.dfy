/** The sequence decoder of RFC 8878 (sections 3.1.1.3.2.1 and 4.1), and the round trip. */
module SequenceDecoder {
  import opened Bits
  import opened Wrappers
  import opened Bitstream
  import opened FseTables
  import opened FseStep
  import opened FseSpread
  import FsePayload
  import opened Sequences

  datatype Decoders = Decoders(ll: DTable, ml: DTable, of: DTable)

  /** The states of the three decoders. */
  datatype States = States(ll: nat, ml: nat, of: nat)

  ghost predicate Ready(d: Decoders)
  {
    DTableOk(d.ll) && DTableOk(d.ml) && DTableOk(d.of)
  }

  ghost predicate Inside(d: Decoders, y: States)
  {
    Ready(d) && y.ll < |d.ll.cells| && y.ml < |d.ml.cells| && y.of < |d.of.cells|
  }

  /** The codes that the states show. */
  ghost function Codes(d: Decoders, y: States): Sequence
    requires Inside(d, y)
  {
    Sequence(0, 0, 0, d.ll.cells[y.ll].symbol, d.ml.cells[y.ml].symbol, d.of.cells[y.of].symbol)
  }

  /** The bits a state update reads. */
  ghost function UpdateBits(d: Decoders, y: States): nat
    requires Inside(d, y)
  {
    d.ll.cells[y.ll].nbBits + d.ml.cells[y.ml].nbBits + d.of.cells[y.of].nbBits
  }

  /** Updating the states: literal length, match length, offset. */
  ghost function Update(d: Decoders, y: States, bits: seq<bool>): (z: States)
    requires Inside(d, y) && UpdateBits(d, y) <= |bits|
    ensures Inside(d, z)
  {
    var b1 := bits[..|bits| - d.ll.cells[y.ll].nbBits];
    var b2 := b1[..|b1| - d.ml.cells[y.ml].nbBits];
    States(FsePayload.Follow(d.ll, y.ll, bits), FsePayload.Follow(d.ml, y.ml, b1), FsePayload.Follow(d.of, y.of, b2))
  }

  /** The sequence with these codes whose extra bits end the bit string: offset last, match length, literal length. */
  ghost function WithExtra(s: Sequence, bits: seq<bool>): Sequence
    requires s.Coded() && s.ofCode + s.MlBits() + s.LlBits() <= |bits|
  {
    var a := |bits| - s.ofCode;
    var b := a - s.MlBits();
    var c := b - s.LlBits();
    s.(offBase := Value(bits[a..]), mlBase := Value(bits[b..a]), litLength := Value(bits[c..b]))
  }

  /** Decodes n sequences, which must use up the bits. */
  ghost function DecodeSequences(d: Decoders, y: States, bits: seq<bool>, n: nat): Result<seq<Sequence>>
    requires Inside(d, y)
    decreases n
  {
    var codes := Codes(d, y);
    if n == 0 || !codes.Coded() then Err(Corruption)
    else
      var extra := codes.ofCode + codes.MlBits() + codes.LlBits();
      if |bits| < extra then Err(Corruption)
      else
        var s, rest := WithExtra(codes, bits), bits[..|bits| - extra];
        if n == 1 then (if rest == [] then Ok([s]) else Err(Corruption))
        else if |rest| < UpdateBits(d, y) then Err(Corruption)
        else
          var tail := DecodeSequences(d, Update(d, y, rest), rest[..|rest| - UpdateBits(d, y)], n - 1);
          if tail.Ok? then Ok([s] + tail.value) else tail
  }

  /** Decodes a whole stream: the initial states of literal length, offset and match length, then n sequences. */
  ghost function Decode(d: Decoders, src: seq<byte>, n: nat): Result<seq<Sequence>>
    requires Ready(d)
  {
    match Unseal(src)
    case Err(e) => Err(e)
    case Ok(bits) =>
      var a := |bits| - d.ll.tableLog;
      var b := a - d.of.tableLog;
      var c := b - d.ml.tableLog;
      if c < 0 then Err(Corruption)
      else
        ValueBound(bits[a..]);
        ValueBound(bits[b..a]);
        ValueBound(bits[c..b]);
        DecodeSequences(d, States(Value(bits[a..]), Value(bits[c..b]), Value(bits[b..a])), bits[..c], n)
  }

  // ----- the round trip -----

  /** Every code of every sequence is undone by its decoding table. */
  ghost predicate AllUndone(e: Encoders, d: Decoders, seqs: seq<Sequence>)
  {
    && Encodes(e, seqs) && Ready(d)
    && e.ll.tableLog == d.ll.tableLog && e.ml.tableLog == d.ml.tableLog && e.of.tableLog == d.of.tableLog
    && (forall i :: 0 <= i < |seqs| ==>
          Undoes(e.ll, d.ll, seqs[i].llCode) && Undoes(e.ml, d.ml, seqs[i].mlCode)
            && Undoes(e.of, d.of, seqs[i].ofCode))
  }

  /** The decoder states that stand for encoder states. */
  ghost function StatesOf(d: Decoders, r: Run): States
  {
    States(Low(r.ll, d.ll.tableLog), Low(r.ml, d.ml.tableLog), Low(r.of, d.of.tableLog))
  }

  ghost function Shown(seqs: seq<Sequence>): (v: seq<Sequence>)
    requires forall i :: 0 <= i < |seqs| ==> seqs[i].Coded()
    ensures |v| == |seqs| && forall i :: 0 <= i < |v| ==> v[i] == seqs[i].Visible()
  {
    seq(|seqs|, i requires 0 <= i < |seqs| => seqs[i].Visible())
  }

  lemma StatesInside(d: Decoders, r: Run)
    requires Ready(d)
    ensures Inside(d, StatesOf(d, r))
  {
    hide DTableOk, Low;
    FsePayload.InTable(d.ll, r.ll);
    FsePayload.InTable(d.ml, r.ml);
    FsePayload.InTable(d.of, r.of);
  }

  /** The extra bits of a sequence read back. */
  lemma ExtraRead(s: Sequence, codes: Sequence, front: seq<bool>)
    requires s.Coded() && codes == Sequence(0, 0, 0, s.llCode, s.mlCode, s.ofCode)
    ensures var bits := front + ExtraBits(s);
            var extra := codes.ofCode + codes.MlBits() + codes.LlBits();
            && extra <= |bits| && bits[..|bits| - extra] == front && WithExtra(codes, bits) == s.Visible()
  {
    hide Low, Value, BitsOf, LL_BITS, ML_BITS;
    var x, y, z := BitsOf(s.litLength, s.LlBits()), BitsOf(s.mlBase, s.MlBits()), BitsOf(s.offBase, s.ofCode);
    ThreeParts(front, x, y, z);
    ValueOfBits(s.litLength, s.LlBits());
    ValueOfBits(s.mlBase, s.MlBits());
    ValueOfBits(s.offBase, s.ofCode);
  }

  lemma ThreeParts(front: seq<bool>, x: seq<bool>, y: seq<bool>, z: seq<bool>)
    ensures var bits := front + (x + y + z);
            var a := |bits| - |z|;
            var b := a - |y|;
            var c := b - |x|;
            c == |front| && bits[a..] == z && bits[b..a] == y && bits[c..b] == x && bits[..c] == front
  {
  }

  /** The states after one more sequence show its codes, and lead back to the states before it. */
  lemma StatesUndone(e: Encoders, d: Decoders, s: Sequence, q: Run)
    requires AllUndone(e, d, [s]) && IsRun(e, q) && s.Coded()
    ensures Encodes(e, [s]) && Inside(d, StatesOf(d, RunStep(e, q, s)))
    ensures var y := StatesOf(d, RunStep(e, q, s));
            var front := StepFront(e, q, s);
            && Codes(d, y) == Sequence(0, 0, 0, s.llCode, s.mlCode, s.ofCode)
            && UpdateBits(d, y) <= |front| && front[..|front| - UpdateBits(d, y)] == q.bits
            && Update(d, y, front) == StatesOf(d, q)
  {
    hide Undoes, Encodable, Emitted, Low, DTableOk, FsePayload.Follow, Next, Value, IsState;
    EncodesOne(e, [s], 0);
    assert Undoes(e.ll, d.ll, [s][0].llCode) && Undoes(e.ml, d.ml, [s][0].mlCode) && Undoes(e.of, d.of, [s][0].ofCode);
    var b2 := q.bits + Emitted(e.of, s.ofCode, q.of);
    var b1 := b2 + Emitted(e.ml, s.mlCode, q.ml);
    FsePayload.UndoneStep(e.ll, d.ll, s.llCode, q.ll, b1);
    FsePayload.UndoneStep(e.ml, d.ml, s.mlCode, q.ml, b2);
    FsePayload.UndoneStep(e.of, d.of, s.ofCode, q.of, q.bits);
    assert RunStep(e, q, s).ll == Next(e.ll, s.llCode, q.ll);
  }

  /** One round of the decoder on what one round of the encoder appended. */
  lemma DecodeRound(d: Decoders, y: States, s: Sequence, front: seq<bool>, n: nat)
    requires Inside(d, y) && s.Coded() && Codes(d, y) == Sequence(0, 0, 0, s.llCode, s.mlCode, s.ofCode) && n > 0
    ensures n == 1 && front == [] ==> DecodeSequences(d, y, front + ExtraBits(s), n) == Ok([s.Visible()])
    ensures n > 1 && UpdateBits(d, y) <= |front| ==>
              var tail := DecodeSequences(d, Update(d, y, front), front[..|front| - UpdateBits(d, y)], n - 1);
              DecodeSequences(d, y, front + ExtraBits(s), n) ==
                if tail.Ok? then Ok([s.Visible()] + tail.value) else tail
  {
    hide DTableOk, FsePayload.Follow, ExtraBits, WithExtra, Codes, UpdateBits, Update;
    ExtraRead(s, Codes(d, y), front);
  }

  lemma OneUndone(e: Encoders, d: Decoders, seqs: seq<Sequence>, i: nat)
    requires AllUndone(e, d, seqs) && i < |seqs|
    ensures AllUndone(e, d, [seqs[i]]) && seqs[i].Coded()
  {
    hide Undoes, Encodable;
    EncodesOne(e, seqs, i);
  }

  /** The states that the last sequence starts. */
  lemma LastShown(e: Encoders, d: Decoders, s: Sequence)
    requires AllUndone(e, d, [s]) && s.Coded()
    requires Encodable(e.ll, s.llCode) && Encodable(e.ml, s.mlCode) && Encodable(e.of, s.ofCode)
    ensures var y := StatesOf(d,
                              Run(First(e.ll, s.llCode), First(e.ml, s.mlCode), First(e.of, s.ofCode), ExtraBits(s)));
            Inside(d, y) && Codes(d, y) == Sequence(0, 0, 0, s.llCode, s.mlCode, s.ofCode)
  {
    hide Undoes, Encodable, Low, DTableOk, First, ExtraBits;
    assert Undoes(e.ll, d.ll, [s][0].llCode) && Undoes(e.ml, d.ml, [s][0].mlCode) && Undoes(e.of, d.of, [s][0].ofCode);
    FsePayload.UndoneFirst(e.ll, d.ll, s.llCode);
    FsePayload.UndoneFirst(e.ml, d.ml, s.mlCode);
    FsePayload.UndoneFirst(e.of, d.of, s.ofCode);
  }

  /** From the encoder's state after sequence i, the decoder finds sequence i and all after it. */
  lemma {:induction false} DecodeEncoded(e: Encoders, d: Decoders, seqs: seq<Sequence>, i: nat)
    requires AllUndone(e, d, seqs) && i < |seqs|
    ensures Inside(d, StatesOf(d, Encoded(e, seqs, i)))
    ensures DecodeSequences(d, StatesOf(d, Encoded(e, seqs, i)), Encoded(e, seqs, i).bits, |seqs| - i) ==
              Ok(Shown(seqs)[i..])
    decreases |seqs| - i
  {
    hide Undoes, Encodable, Encoded, RunStep, StepFront, ExtraBits, Inside, Codes, UpdateBits, Update, DecodeSequences,
      StatesOf, IsRun;
    var s := seqs[i];
    var v := Shown(seqs);
    OneUndone(e, d, seqs, i);
    StatesInside(d, Encoded(e, seqs, i));
    EncodesOne(e, seqs, i);
    if i == |seqs| - 1 {
      EncodedLast(e, seqs);
      LastShown(e, d, s);
      DecodeRound(d, StatesOf(d, Encoded(e, seqs, i)), s, [], 1);
      assert [] + ExtraBits(s) == ExtraBits(s);
      assert v[i..] == [s.Visible()];
    } else {
      DecodeEncoded(e, d, seqs, i + 1);
      EncodedStep(e, seqs, i);
      var q := Encoded(e, seqs, i + 1);
      StatesUndone(e, d, s, q);
      RunBits(e, q, s);
      DecodeRound(d, StatesOf(d, Encoded(e, seqs, i)), s, StepFront(e, q, s), |seqs| - i);
      assert v[i..] == [s.Visible()] + v[i + 1..];
    }
  }

  lemma RunBits(e: Encoders, q: Run, s: Sequence)
    requires Encodes(e, [s]) && IsRun(e, q)
    ensures s == [s][0] && s.Coded() && RunStep(e, q, s).bits == StepFront(e, q, s) + ExtraBits(s)
  {
    EncodesOne(e, [s], 0);
  }

  /**
    Whatever sequences the encoder writes, the decoder recovers their codes and extra bits, all of them
    and in order, and uses up the stream.
   */
  lemma SequenceRoundTrip(e: Encoders, d: Decoders, seqs: seq<Sequence>)
    requires AllUndone(e, d, seqs) && seqs != []
    ensures Decode(d, Seal(Stream(e, seqs)), |seqs|) == Ok(Shown(seqs))
  {
    hide Undoes, Encodable, Encoded, DecodeSequences, Seal, Unseal, BitsOf, Value, Low, Ready;
    var r := Encoded(e, seqs, 0);
    UnsealSeal(Stream(e, seqs));
    DecodeEncoded(e, d, seqs, 0);
    StreamParts(r.bits, BitsOf(r.ml, e.ml.tableLog), BitsOf(r.of, e.of.tableLog), BitsOf(r.ll, e.ll.tableLog));
    ValueOfBits(r.ll, e.ll.tableLog);
    ValueOfBits(r.ml, e.ml.tableLog);
    ValueOfBits(r.of, e.of.tableLog);
    assert Shown(seqs)[0..] == Shown(seqs);
  }

  lemma StreamParts(front: seq<bool>, x: seq<bool>, y: seq<bool>, z: seq<bool>)
    ensures var bits := front + x + y + z;
            var a := |bits| - |z|;
            var b := a - |y|;
            var c := b - |x|;
            c == |front| && bits[a..] == z && bits[b..a] == y && bits[c..b] == x && bits[..c] == front
  {
  }

  // ----- run-length tables -----

  /** FSE_buildCTable_rle, with whatever the other entries of the table hold. */
  ghost predicate IsRleCTable(ct: CTable, symbol: nat)
  {
    && ct.tableLog == 0 && ct.stateTable == [0, 0]
    && symbol < |ct.symbolTT| && ct.symbolTT[symbol] == Transform(0, 0)
  }

  /** The table of RLE_Mode: one cell that takes no bits. */
  function RleDTable(symbol: byte): DTable
  {
    DTable(0, false, [DecodeCell(0, symbol, 0)])
  }

  /** A run-length table is undone like any other: every step writes nothing. */
  lemma RleUndone(ct: CTable, symbol: byte)
    requires IsRleCTable(ct, symbol)
    ensures Undoes(ct, RleDTable(symbol), symbol) && DTableOk(RleDTable(symbol))
  {
    var tt, dt := ct.symbolTT[symbol], RleDTable(symbol);
    assert FirstBits(tt) == 0 && FirstIndex(tt) == 0 && NbBitsOut(tt, 0) == 0 && StateIndex(tt, 0) == 0;
    assert Leads(ct, FirstIndex(tt)) && Leads(ct, StateIndex(tt, 0));
    forall x: nat | IsState(ct.tableLog, x)
      ensures StepFits(ct, symbol, x)
    {
      assert x == 0;
    }
    assert Encodable(ct, symbol);
    forall x: nat | IsState(ct.tableLog, x)
      ensures StepUndone(ct, dt, symbol, x)
    {
      assert Next(ct, symbol, 0) == 0;
    }
  }

  // ----- the tables of a block -----

  /** What both sides build their tables from: a distribution, laid out by each, or a single symbol. */
  datatype Source = Distribution(norm: seq<int>, tableLog: nat, t: seq<nat>, t': seq<nat>) | RunLength(symbol: byte)
  {
    ghost predicate Builds(ct: CTable, dt: DTable, maxLog: nat)
    {
      match this
      case Distribution(_, _, _, _) =>
        tableLog <= maxLog && Built(ct, norm, tableLog, t) && IsSpread(norm, tableLog, t')
          && IsDTable(dt, norm, tableLog, t')
      case RunLength(_) => IsRleCTable(ct, symbol) && dt == RleDTable(symbol)
    }

    predicate HasCode(s: nat)
    {
      match this
      case Distribution(_, _, _, _) => s < |norm| && norm[s] != 0
      case RunLength(_) => s == symbol as nat
    }
  }

  lemma SourceUndone(p: Source, ct: CTable, dt: DTable, maxLog: nat, s: nat)
    requires p.Builds(ct, dt, maxLog) && p.HasCode(s)
    ensures Undoes(ct, dt, s) && Encodable(ct, s) && DTableOk(dt) && ct.tableLog == dt.tableLog <= maxLog
  {
    hide Pow2, Start, IsSpread, IsTransform, StateIndex, NbBitsOut, FirstIndex, StepUndone, StepFits, IsRleCTable;
    match p
    case Distribution(norm, tableLog, t, t') =>
      SpreadUnique(norm, tableLog, t, t');
      BuiltDTableOk(dt, norm, tableLog, t);
      BuiltEncodable(ct, norm, tableLog, t, s);
      TablesInverse(ct, dt, norm, tableLog, t, t', s);
    case RunLength(symbol) =>
      RleUndone(ct, symbol);
      RleLog(ct, symbol);
  }

  lemma RleLog(ct: CTable, symbol: nat)
    requires IsRleCTable(ct, symbol)
    ensures ct.tableLog == 0
  {
  }

  /**
    For any three distributions or single symbols that both sides build tables from: whatever sequences with codes in
    them the encoder writes, the decoder recovers.
   */
  lemma BlockRoundTrip(e: Encoders, d: Decoders, ll: Source, ml: Source, of: Source, seqs: seq<Sequence>)
    requires ll.Builds(e.ll, d.ll, LL_FSE_LOG) && ml.Builds(e.ml, d.ml, ML_FSE_LOG) && of.Builds(e.of, d.of, OF_FSE_LOG)
    requires seqs != [] && forall i :: 0 <= i < |seqs| ==>
               seqs[i].Coded() && ll.HasCode(seqs[i].llCode) && ml.HasCode(seqs[i].mlCode) && of.HasCode(seqs[i].ofCode)
    ensures Encodes(e, seqs) && Ready(d)
    ensures Decode(d, Seal(Stream(e, seqs)), |seqs|) == Ok(Shown(seqs))
  {
    hide Undoes, Encodable, DTableOk, Seal, Unseal, Source.Builds, Source.HasCode, Decode, Stream;
    forall i | 0 <= i < |seqs|
      ensures Undoes(e.ll, d.ll, seqs[i].llCode) && Undoes(e.ml, d.ml, seqs[i].mlCode)
      ensures Undoes(e.of, d.of, seqs[i].ofCode)
      ensures Encodable(e.ll, seqs[i].llCode) && Encodable(e.ml, seqs[i].mlCode) && Encodable(e.of, seqs[i].ofCode)
    {
      SourceUndone(ll, e.ll, d.ll, LL_FSE_LOG, seqs[i].llCode);
      SourceUndone(ml, e.ml, d.ml, ML_FSE_LOG, seqs[i].mlCode);
      SourceUndone(of, e.of, d.of, OF_FSE_LOG, seqs[i].ofCode);
    }
    SourceUndone(ll, e.ll, d.ll, LL_FSE_LOG, seqs[0].llCode);
    SourceUndone(ml, e.ml, d.ml, ML_FSE_LOG, seqs[0].mlCode);
    SourceUndone(of, e.of, d.of, OF_FSE_LOG, seqs[0].ofCode);
    SequenceRoundTrip(e, d, seqs);
  }
}
