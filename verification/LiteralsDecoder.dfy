/** A decoder for literals sections (section 3.1.1.3.1 of RFC 8878), and runs of blocks through encoder and decoder. */
module LiteralsDecoder {
  import opened Bits
  import opened Wrappers
  import FseTables
  import opened HufContainer
  import opened HufCodes
  import opened HufTable
  import opened HufWeights
  import opened HufReadTable
  import opened HufWriteTable
  import opened HufCompress
  import opened Literals

  /** The code a decoder has: none yet, or that of the last description it read. */
  datatype DecoderTable = NoCode | LastCode(lens: seq<nat>, tableLog: nat)

  datatype Decoded = Decoded(literals: seq<nat>, size: nat)

  /** The code lengths in a table. */
  method LengthsOf(ct: array<nat>, n: nat, tableLog: nat, ghost lens: seq<nat>) returns (r: seq<nat>)
    requires |lens| == n && Complete(lens, tableLog) && IsTable(ct[..], lens, tableLog)
    ensures r == lens
  {
    hide Elt, CodeOf, Used, Low;
    r := [];
    for s := 0 to n
      invariant r == lens[..s]
    {
      EltLength(lens, tableLog, s);
      assert ct[..][s] == Elt(CodeOf(lens, tableLog, s));
      r := r + [Low(ct[s], 8)];
    }
  }

  /** The table description in front of the streams: its size and the code. */
  method ReadDescription(s: seq<byte>, ghost d: Description, ghost lens: seq<nat>, ghost tableLog: nat)
    returns (r: Result<nat>, code: DecoderTable)
    ensures r.Ok? ==> r.value <= |s| && code.LastCode? && Complete(code.lens, code.tableLog)
    ensures Announces(s, d, lens, tableLog) ==> r == Ok(d.size) && code == LastCode(lens, tableLog)
  {
    hide Complete, IsTable, Describes, WholeTable, DescriptionSize;
    var ct := new nat[HW_SIZE];
    ghost var readLens;
    var info;
    info, readLens := ReadCTable(ct, HW_SIZE - 1, s, d.w, d.last, d.coding, tableLog);
    if info.Err? {
      return Err(info.error), NoCode;
    }
    var lens' := LengthsOf(ct, info.value.maxSymbolValue + 1, info.value.tableLog, readLens);
    return Ok(info.value.size), LastCode(lens', info.value.tableLog);
  }

  /** s starts with the section of `src`, and the decoder has the code that a treeless section goes by. */
  ghost predicate Expected(s: seq<byte>, section: seq<byte>, o: Outcome, lens: seq<nat>, tableLog: nat, src: seq<byte>,
                           fourStreams: bool, table: DecoderTable)
  {
    && section <= s && |src| <= BLOCKSIZE_MAX && IsSection(section, o, lens, tableLog, src, fourStreams)
    && (o.OldTable? ==> table == LastCode(lens, tableLog))
  }

  /** The header of a section, and where its payload lies. */
  lemma HeaderExpected(s: seq<byte>, section: seq<byte>, o: Outcome, lens: seq<nat>, tableLog: nat, src: seq<byte>,
                       fourStreams: bool, table: DecoderTable)
    requires Expected(s, section, o, lens, tableLog, src, fourStreams, table)
    ensures ReadHeader(s).Ok?
    ensures var h := ReadHeader(s).value;
            && h.regenerated == |src| && h.size <= |section| <= |s|
            && if o.GaveUp? then h.kind == SET_BASIC && s[h.size..|section|] == src && |section| == h.size + |src|
               else if o.SingleByte? then
                 h.kind == SET_RLE && |section| == h.size + 1 && Identical(src) && s[h.size] == src[0]
               else
                 && h.kind == (if o.OldTable? then SET_REPEAT else SET_COMPRESSED) && h.fourStreams == fourStreams
                 && |section| == h.size + h.compressed
                   && Transmits(s[h.size..|section|], o, lens, tableLog, src, fourStreams)
  {
    hide Transmits, PlainHeader, CompressedHeader, ReadHeader;
    var n := |src|;
    var rest := s[|section|..];
    assert s == section + rest;
    if o.GaveUp? || o.SingleByte? {
      var kind := if o.GaveUp? then SET_BASIC else SET_RLE;
      PlainHeaderSize(kind, n);
      var payload := section[FlSize(n)..];
      assert s == PlainHeader(kind, n) + (payload + rest);
      PlainHeaderRead(kind, n, payload + rest);
      assert s[FlSize(n)..|section|] == payload;
    } else {
      var kind := if o.OldTable? then SET_REPEAT else SET_COMPRESSED;
      var payload := section[LhSize(n)..];
      assert s == CompressedHeader(kind, fourStreams, n, |payload|) + (payload + rest);
      CompressedHeaderRead(kind, fourStreams, n, |payload|, payload + rest);
      assert s[LhSize(n)..|section|] == payload;
    }
  }

  lemma PlainHeaderSize(kind: nat, n: nat)
    ensures |PlainHeader(kind, n)| == FlSize(n)
  {
  }

  /** Decodes the section that s starts with; the result is also the code for the next treeless section. */
  method DecodeLiterals(s: seq<byte>, table: DecoderTable, ghost section: seq<byte>, ghost o: Outcome,
                        ghost lens: seq<nat>, ghost tableLog: nat, ghost src: seq<byte>, ghost fourStreams: bool)
    returns (r: Result<Decoded>, table': DecoderTable)
    ensures r.Ok? ==> r.value.size <= |s|
    ensures Expected(s, section, o, lens, tableLog, src, fourStreams, table) ==>
              r == Ok(Decoded(src, |section|)) && table' == if o.NewTable? then LastCode(lens, tableLog) else table
  {
    hide ReadHeader, Coded, Announces, IsSection, DecodeStreams;
    ghost var expected := Expected(s, section, o, lens, tableLog, src, fourStreams, table);
    if expected {
      HeaderExpected(s, section, o, lens, tableLog, src, fourStreams, table);
    }
    table' := table;
    var header := ReadHeader(s);
    if header.Err? {
      return Err(header.error), table;
    }
    var h := header.value;
    var end := h.size + if h.kind == SET_BASIC then h.regenerated else if h.kind == SET_RLE then 1 else h.compressed;
    if |s| < end {
      return Err(Corruption), table;
    }
    if h.kind == SET_BASIC {
      return Ok(Decoded(s[h.size..end], end)), table;
    }
    if h.kind == SET_RLE {
      var literals := seq(h.regenerated, _ => s[h.size]);
      assert expected ==> literals == src;
      return Ok(Decoded(literals, end)), table;
    }
    var at := h.size;
    if h.kind == SET_COMPRESSED {
      ghost var d := if o.NewTable? then o.description
        else Description(0, [], 0, Coding([], 0, FseTables.CTable(0, 0, [], []), []));
      var size;
      size, table' := ReadDescription(s[at..end], d, lens, tableLog);
      if size.Err? {
        return Err(size.error), table;
      }
      at := at + size.value;
    } else if table.NoCode? {
      return Err(Corruption), table;
    }
    var literals := DecodeStreams(table'.lens, table'.tableLog, s[at..end], h.regenerated, h.fourStreams);
    if expected {
      StreamsExpected(s[h.size..end], s[at..end], o, lens, tableLog, src, fourStreams);
    }
    if literals.Err? {
      return Err(literals.error), table';
    }
    r := Ok(Decoded(literals.value, end));
  }

  lemma StreamsExpected(payload: seq<byte>, streams: seq<byte>, o: Outcome, lens: seq<nat>, tableLog: nat,
                        src: seq<byte>, fourStreams: bool)
    requires Transmits(payload, o, lens, tableLog, src, fourStreams) && (o.OldTable? || o.NewTable?)
    requires o.OldTable? ==> streams == payload
    requires o.NewTable? ==> o.description.size <= |payload| && streams == payload[o.description.size..]
    ensures DecodeStreams(lens, tableLog, streams, |src|, fourStreams) == Ok(src)
  {
    hide Announces, Coded, DecodeStreams;
    CodedDecodes(streams, lens, tableLog, src, fourStreams);
  }
}
