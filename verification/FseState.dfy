/** FSE_CState_t and FSE_DState_t: the coder states of common/fse.h. */
module FseState {
  import opened Bits
  import opened Bitstream
  import opened BitWriter
  import opened BitReader
  import opened FseSpread
  import opened FseTables
  import opened FseStep

  class CState {
    const ct: CTable
    var value: nat

    /** FSE_initCState2. */
    constructor (table: CTable, symbol: nat)
      requires Encodable(table, symbol)
      ensures ct == table && value == First(table, symbol)
    {
      var tt := table.symbolTT[symbol];
      ct := table;
      value := table.stateTable[FirstIndex(tt)];
    }

    /** FSE_encodeSymbol. */
    method Encode(bitC: CStream, symbol: nat)
      requires Encodable(ct, symbol) && IsState(ct.tableLog, value)
      requires bitC.Valid() && bitC.bitPos + ct.tableLog < REGISTER_BITS
      modifies this, bitC
      ensures bitC.Valid()
      ensures value == Next(ct, symbol, old(value))
      ensures bitC.bits == old(bitC.bits) + Emitted(ct, symbol, old(value))
      ensures bitC.bitPos <= old(bitC.bitPos) + ct.tableLog
    {
      assert StepFits(ct, symbol, value);
      hide Shr, NbBitsOut, Pow2, BitsOf;
      var tt := ct.symbolTT[symbol];
      var nbBitsOut := NbBitsOut(tt, value);
      bitC.AddBits(value, nbBitsOut);
      value := ct.stateTable[Shr(value, nbBitsOut) + tt.deltaFindState];
    }

    /** FSE_flushCState. */
    method Flush(bitC: CStream)
      requires ct.tableLog <= MAX_TABLELOG
      requires bitC.Valid() && bitC.bitPos + ct.tableLog < REGISTER_BITS
      modifies bitC, bitC.data
      ensures bitC.Valid() && bitC.bitPos < 8
      ensures bitC.bits == old(bitC.bits) + BitsOf(value, ct.tableLog)
      ensures forall k :: 0 <= k < bitC.startPtr || bitC.endPtr + REGISTER_BYTES <= k < bitC.data.Length ==>
                bitC.data[k] == old(bitC.data[k])
    {
      bitC.AddBits(value, ct.tableLog);
      bitC.FlushBits();
    }
  }

  class DState {
    const dt: DTable
    var state: nat

    ghost predicate Valid()
      reads this
    {
      DTableOk(dt) && state < |dt.cells|
    }

    /** FSE_initDState. */
    constructor (table: DTable, bitD: DStream)
      requires DTableOk(table) && bitD.Valid() && bitD.Loaded(table.tableLog)
      modifies bitD
      ensures Valid() && dt == table
      ensures bitD.Valid() && bitD.Loaded(56)
      ensures table.tableLog <= old(bitD.Left()) ==>
                && bitD.Left() == old(bitD.Left()) - table.tableLog && bitD.Rest() == old(bitD.Rest())[..bitD.Left()]
                && state == Value(old(bitD.Rest())[bitD.Left()..])
      ensures old(bitD.Left()) < table.tableLog ==> bitD.Left() < 0
    {
      hide Value, Pow2;
      dt := table;
      var value := bitD.ReadBits(table.tableLog);
      var status := bitD.Reload();
      state := value;
    }

    /** FSE_decodeSymbol. */
    method DecodeSymbol(bitD: DStream) returns (symbol: byte)
      requires Valid() && bitD.Valid() && bitD.Loaded(dt.cells[state].nbBits)
      modifies this, bitD
      ensures Valid() && bitD.Valid() && bitD.ptr == old(bitD.ptr)
      ensures bitD.bitsConsumed == old(bitD.bitsConsumed) + dt.cells[old(state)].nbBits
      ensures symbol == dt.cells[old(state)].symbol
      ensures var nb := dt.cells[old(state)].nbBits;
              if nb <= old(bitD.Left()) then
                && bitD.Left() == old(bitD.Left()) - nb && bitD.Rest() == old(bitD.Rest())[..bitD.Left()]
                && state == dt.cells[old(state)].newState + Value(old(bitD.Rest())[bitD.Left()..])
              else bitD.Left() < 0
    {
      hide Value, Pow2;
      var cell := dt.cells[state];
      var lowBits := bitD.ReadBits(cell.nbBits);
      state := cell.newState + lowBits;
      symbol := cell.symbol;
    }

    /** FSE_decodeSymbolFast: correct only because every cell asks for at least one bit. */
    method DecodeSymbolFast(bitD: DStream) returns (symbol: byte)
      requires Valid() && dt.fastMode && bitD.Valid() && bitD.Loaded(dt.cells[state].nbBits)
      modifies this, bitD
      ensures Valid() && bitD.Valid() && bitD.ptr == old(bitD.ptr)
      ensures bitD.bitsConsumed == old(bitD.bitsConsumed) + dt.cells[old(state)].nbBits
      ensures symbol == dt.cells[old(state)].symbol
      ensures var nb := dt.cells[old(state)].nbBits;
              if nb <= old(bitD.Left()) then
                && bitD.Left() == old(bitD.Left()) - nb && bitD.Rest() == old(bitD.Rest())[..bitD.Left()]
                && state == dt.cells[old(state)].newState + Value(old(bitD.Rest())[bitD.Left()..])
              else bitD.Left() < 0
    {
      hide Value, Pow2;
      var cell := dt.cells[state];
      var lowBits := bitD.ReadBitsFast(cell.nbBits);
      state := cell.newState + lowBits;
      symbol := cell.symbol;
    }
  }
}
