/** FSE_decompress_wksp: a distribution, its decoding table, and the payload. */
module FseDecompress {
  import opened Bits
  import opened Wrappers
  import opened Bitstream
  import opened FseSpread
  import opened FseTables
  import opened FseStep
  import opened FsePayload
  import opened NCountFormat
  import opened NCountReader

  /** A source that can be coded with a distribution whose last symbol is in use and which no symbol fills alone. */
  ghost predicate Codable(norm: seq<int>, tableLog: nat, src: seq<byte>)
  {
    && ValidNorm(norm, tableLog) && norm[|norm| - 1] != 0
    && |src| > 2 && (forall k :: 0 <= k < |src| ==> src[k] < |norm| && norm[src[k]] != 0)
    && (forall s :: 0 <= s < |norm| ==> Abs(norm[s]) < Pow2(tableLog))
  }

  /** The distribution and the payload of the source, as the compressor writes them one after the other. */
  ghost function Block(norm: seq<int>, tableLog: nat, ct: CTable, src: seq<byte>): seq<byte>
    requires ValidNorm(norm, tableLog) && AllEncodable(ct, src) && |src| >= 2
  {
    Pack(Header(norm, tableLog)) + Seal(Payload(ct, src))
  }

  /** The result of decompressing a block with room for `capacity` symbols. */
  ghost predicate Restores(r: Result<nat>, dst: seq<byte>, src: seq<byte>, capacity: nat)
  {
    capacity >= |src| ==> r == Ok(|src|) && src <= dst
  }

  lemma TableRestores(norm: seq<int>, tableLog: nat, ct: CTable, t: seq<nat>, dt: DTable, t': seq<nat>, src: seq<byte>,
                      capacity: nat, r: Result<nat>, dst: seq<byte>)
    requires Codable(norm, tableLog, src) && Built(ct, norm, tableLog, t)
    requires IsSpread(norm, tableLog, t') && IsDTable(dt, norm, tableLog, t') && DTableOk(dt)
    requires AllEncodable(ct, src) && Reports(r, Decode(dt, Seal(Payload(ct, src)), capacity), dst)
    ensures Restores(r, dst, src, capacity)
  {
    hide IsSpread, Pow2, Decode, Seal, Payload, Encodable, DTableOk, ValidNorm, Built, IsDTable;
    FseRoundTrip(norm, tableLog, ct, t, dt, t', src, capacity);
  }

  /** The part of an NCount reader's table that is in use is the distribution read. */
  lemma ReadIsValid(n: NCount, counts: seq<int>, srcSize: nat)
    requires WellFormed(n, counts, srcSize) && n.tableLog <= MAX_TABLELOG && |counts| <= 256
    ensures ValidNorm(counts[..n.maxSymbolValue + 1], n.tableLog)
  {
    hide Pow2, Start;
    StartPrefix(counts, counts[..n.maxSymbolValue + 1], n.maxSymbolValue + 1);
  }

  /** A block starts with its header. */
  lemma BlockParts(norm: seq<int>, tableLog: nat, ct: CTable, src: seq<byte>)
    requires Codable(norm, tableLog, src) && AllEncodable(ct, src)
    ensures IsHeader(Block(norm, tableLog, ct, src), norm, tableLog)
    ensures var size := (|Header(norm, tableLog)| + 7) / 8;
            size <= |Block(norm, tableLog, ct, src)| && Block(norm, tableLog, ct, src)[size..] == Seal(Payload(ct, src))
  {
    hide Header, Pack, Seal, Payload, IsHeader, AllEncodable, Start, Pow2;
    PackedIsHeader(norm, tableLog, Seal(Payload(ct, src)));
  }

  ghost predicate IsBlock(s: seq<byte>, norm: seq<int>, tableLog: nat, ct: CTable, t: seq<nat>, src: seq<byte>)
  {
    Codable(norm, tableLog, src) && Built(ct, norm, tableLog, t) && AllEncodable(ct, src)
      && s == Block(norm, tableLog, ct, src)
  }

  lemma {:induction false} DecodedFits(dt: DTable, cur: nat, other: nat, bits: seq<bool>, capacity: nat)
    requires DTableOk(dt) && cur < |dt.cells| && other < |dt.cells|
    ensures DecodeFrom(dt, cur, other, bits, capacity).Ok? ==>
              |DecodeFrom(dt, cur, other, bits, capacity).value| <= capacity
    decreases capacity
  {
    hide Value, Pow2;
    DecodeStep(dt, cur, other, bits, capacity);
    if capacity >= 2 && dt.cells[cur].nbBits <= |bits| {
      DecodedFits(dt, other, Follow(dt, cur, bits), bits[..|bits| - dt.cells[cur].nbBits], capacity - 1);
    }
  }

  lemma OutputFits(dt: DTable, s: seq<byte>, capacity: nat)
    requires DTableOk(dt)
    ensures Decode(dt, s, capacity).Ok? ==> |Decode(dt, s, capacity).value| <= capacity
  {
    hide DecodeFrom, Value, Unseal;
    if Unseal(s).Ok? && 2 * dt.tableLog <= |Unseal(s).value| {
      var bits := Unseal(s).value;
      var n := |bits| - dt.tableLog;
      ValueBound(bits[n..]);
      ValueBound(bits[n - dt.tableLog..n]);
      DecodedFits(dt, Value(bits[n..]), Value(bits[n - dt.tableLog..n]), bits[..n - dt.tableLog], capacity);
    }
  }

  /**
    FSE_decompress_wksp. On any input it fails or stays within the capacity; on a block whose table log is
    allowed it restores the source if there is room.
   */
  method DecompressWksp(dst: array<byte>, dstCapacity: nat, cSrc: seq<byte>, maxLog: nat, ghost norm: seq<int>,
                        ghost tableLog: nat, ghost ct: CTable, ghost t: seq<nat>, ghost src: seq<byte>)
    returns (r: Result<nat>)
    requires dstCapacity <= dst.Length && maxLog <= MAX_TABLELOG
    modifies dst
    ensures r.Ok? ==> r.value <= dstCapacity
    ensures IsBlock(cSrc, norm, tableLog, ct, t, src) && tableLog <= maxLog ==> Restores(r, dst[..], src, dstCapacity)
  {
    hide Pow2, Start, Header, Seal, Payload, IsHeader, DTableOk, IsSpread, IsDTable, Decode, Block, Pack, Encodable;
    ghost var isBlock := IsBlock(cSrc, norm, tableLog, ct, t, src) && tableLog <= maxLog;
    var ncount := new int[256];
    if isBlock {
      BlockParts(norm, tableLog, ct, src);
    }
    var n := ReadNCount(ncount, cSrc, norm, tableLog);
    if n.Err? {
      return Err(n.error);
    }
    if n.value.tableLog > maxLog {
      return Err(TableLogTooLarge);
    }
    ReadIsValid(n.value, ncount[..], |cSrc|);
    assert ncount[..][..n.value.maxSymbolValue + 1] == ncount[..n.value.maxSymbolValue + 1];
    if isBlock {
      assert ncount[..n.value.maxSymbolValue + 1] == norm;
    }
    var dt, u := BuildDTable(ncount[..n.value.maxSymbolValue + 1], n.value.tableLog);
    BuiltDTableOk(dt, ncount[..n.value.maxSymbolValue + 1], n.value.tableLog, u);
    var fastMode := dt.fastMode;
    r := Decompress(dst, dstCapacity, cSrc[n.value.size..], dt, fastMode);
    OutputFits(dt, cSrc[n.value.size..], dstCapacity);
    if isBlock {
      TableRestores(norm, tableLog, ct, t, dt, u, src, dstCapacity, r, dst[..]);
    }
  }
}
