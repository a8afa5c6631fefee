/** ZSTD_compressLiterals: the literals section of a block (section 3.1.1.3.1 of RFC 8878). */
module Literals {
  import opened Bits
  import opened Wrappers
  import opened Memory
  import opened HufCompress
  import HufStreams

  const SET_BASIC := 0
  const SET_RLE := 1
  const SET_COMPRESSED := 2
  const SET_REPEAT := 3

  // ----- headers -----

  datatype Header = Header(kind: nat, fourStreams: bool, regenerated: nat, compressed: nat, size: nat)

  /** The size of the header of raw and RLE literals. */
  function FlSize(n: nat): (size: nat)
    ensures 1 <= size <= 3
  {
    1 + (if n > 31 then 1 else 0) + (if n > 4095 then 1 else 0)
  }

  /** The size of the header of compressed literals. */
  function LhSize(n: nat): (size: nat)
    ensures 3 <= size <= 5
  {
    3 + (if n >= 1024 then 1 else 0) + (if n >= 16384 then 1 else 0)
  }

  function PlainHeader(kind: nat, n: nat): seq<byte>
  {
    match FlSize(n)
    case 1 => BytesOf(kind + n * 8, 1)
    case 2 => BytesOf(kind + 4 + n * 16, 2)
    case _ => BytesOf(kind + 12 + n * 16, 3)
  }

  function CompressedHeader(kind: nat, fourStreams: bool, n: nat, compressed: nat): seq<byte>
  {
    match LhSize(n)
    case 3 => BytesOf(kind + (if fourStreams then 4 else 0) + n * 16 + compressed * 0x4000, 3)
    case 4 => BytesOf(kind + 8 + n * 16 + compressed * 0x4_0000, 4)
    case _ => BytesOf(kind + 12 + n * 16 + compressed * 0x40_0000, 5)
  }

  /** Reads a header. */
  function ReadHeader(s: seq<byte>): Result<Header>
  {
    if s == [] then Err(Corruption)
    else
      var kind, format := s[0] % 4, s[0] / 4 % 4;
      if kind == SET_BASIC || kind == SET_RLE then ReadPlainHeader(s, kind, format)
      else ReadCompressedHeader(s, kind, format)
  }

  function ReadPlainHeader(s: seq<byte>, kind: nat, format: nat): Result<Header>
  {
    var size := if format % 2 == 0 then 1 else if format == 1 then 2 else 3;
    if |s| < size then Err(Corruption)
    else
      var v := LittleEndian(s[..size]);
      Ok(Header(kind, false, if size == 1 then v / 8 else v / 16, 0, size))
  }

  function ReadCompressedHeader(s: seq<byte>, kind: nat, format: nat): Result<Header>
  {
    var size := if format <= 1 then 3 else format + 2;
    if |s| < size then Err(Corruption)
    else
      var v := LittleEndian(s[..size]);
      match size
      case 3 => Ok(Header(kind, format == 1, v / 16 % 0x400, v / 16 / 0x400, 3))
      case 4 => Ok(Header(kind, true, v / 16 % 0x4000, v / 16 / 0x4000, 4))
      case _ => Ok(Header(kind, true, v / 16 % 0x4_0000, v / 16 / 0x4_0000, 5))
  }

  /** Where a reader finds a value of n bytes. */
  lemma Stored(v: nat, n: nat, rest: seq<byte>)
    requires 1 <= n && v < Pow2(8 * n)
    ensures var s := BytesOf(v, n) + rest; |s| >= n && s[0] == v % 256 && LittleEndian(s[..n]) == v
  {
    var s := BytesOf(v, n) + rest;
    HufStreams.LittleEndianOf(v, n);
    assert s[..n] == BytesOf(v, n);
  }

  /** The two lowest fields of a header. */
  lemma LowFields(v: nat, kind: nat, format: nat, x: nat)
    requires kind < 4 && format < 4 && v == kind + 4 * format + 16 * x
    ensures v % 256 % 4 == kind && v % 256 / 4 % 4 == format && v / 16 == x
  {
  }

  lemma OneByteFields(v: nat, kind: nat, x: nat)
    requires kind < 4 && v == kind + 8 * x < 256
    ensures v % 256 % 4 == kind && v % 256 / 4 % 4 % 2 == 0 && v / 8 == x
  {
    hide *;
    assert v % 256 == v;
    assert v / 4 == 2 * x;
    assert 2 * x % 4 == 2 * (x % 2);
  }

  /** The two sizes of a compressed section, in fields of `bits` bits. */
  lemma SizeFields(v: nat, kind: nat, format: nat, n: nat, compressed: nat, bits: nat)
    requires kind < 4 && format < 4 && n < Pow2(bits) && compressed < Pow2(bits)
    requires v == kind + 4 * format + 16 * n + 16 * (Pow2(bits) * compressed)
    ensures v % 256 % 4 == kind && v % 256 / 4 % 4 == format
    ensures v / 16 % Pow2(bits) == n && v / 16 / Pow2(bits) == compressed && v < Pow2(4 + bits + bits)
  {
    hide *;
    var x := n + Pow2(bits) * compressed;
    LowFields(v, kind, format, x);
    DivModUnique(x, Pow2(bits), compressed, n);
    Pow2Add(bits, bits);
    Pow2Add(4, bits + bits);
    Pow2Values();
    SizesBelow(n, compressed, Pow2(bits));
  }

  lemma SizesBelow(n: nat, compressed: nat, m: nat)
    requires n < m && compressed < m
    ensures n + m * compressed < m * m
  {
    assert m * compressed <= m * (m - 1);
  }

  lemma PlainHeaderRead(kind: nat, n: nat, rest: seq<byte>)
    requires kind <= 1 && n < 0x10_0000
    ensures ReadHeader(PlainHeader(kind, n) + rest) == Ok(Header(kind, false, n, 0, FlSize(n)))
  {
    hide BytesOf, LittleEndian, Pow2;
    Pow2Values();
    if FlSize(n) == 1 {
      OneByteFields(kind + n * 8, kind, n);
      Stored(kind + n * 8, 1, rest);
    } else if FlSize(n) == 2 {
      LowFields(kind + 4 + n * 16, kind, 1, n);
      Stored(kind + 4 + n * 16, 2, rest);
    } else {
      LowFields(kind + 12 + n * 16, kind, 3, n);
      Stored(kind + 12 + n * 16, 3, rest);
    }
  }

  lemma CompressedHeaderRead(kind: nat, fourStreams: bool, n: nat, compressed: nat, rest: seq<byte>)
    requires 2 <= kind <= 3 && compressed < n <= BLOCKSIZE_MAX && (n >= 1024 ==> fourStreams)
    ensures ReadHeader(CompressedHeader(kind, fourStreams, n, compressed) + rest) ==
              Ok(Header(kind, fourStreams, n, compressed, LhSize(n)))
  {
    hide BytesOf, LittleEndian, Pow2;
    FieldSizes();
    if LhSize(n) == 3 {
      var v := kind + (if fourStreams then 4 else 0) + n * 16 + compressed * 0x4000;
      SizeFields(v, kind, if fourStreams then 1 else 0, n, compressed, 10);
      Stored(v, 3, rest);
    } else if LhSize(n) == 4 {
      var v := kind + 8 + n * 16 + compressed * 0x4_0000;
      SizeFields(v, kind, 2, n, compressed, 14);
      Stored(v, 4, rest);
    } else {
      var v := kind + 12 + n * 16 + compressed * 0x40_0000;
      SizeFields(v, kind, 3, n, compressed, 18);
      Stored(v, 5, rest);
    }
  }

  /** The type of the section is in the two lowest bits: 0 raw, 1 RLE, 2 compressed, 3 without a table of its own. */
  lemma TypeFields(n: nat, compressed: nat, fourStreams: bool)
    ensures PlainHeader(SET_BASIC, n) != [] && PlainHeader(SET_BASIC, n)[0] % 4 == 0
    ensures PlainHeader(SET_RLE, n) != [] && PlainHeader(SET_RLE, n)[0] % 4 == 1
    ensures var s := CompressedHeader(SET_COMPRESSED, fourStreams, n, compressed); s != [] && s[0] % 4 == 2
    ensures var s := CompressedHeader(SET_REPEAT, fourStreams, n, compressed); s != [] && s[0] % 4 == 3
  {
    hide PlainHeader, CompressedHeader;
    PlainType(SET_BASIC, n);
    PlainType(SET_RLE, n);
    CompressedType(SET_COMPRESSED, fourStreams, n, compressed);
    CompressedType(SET_REPEAT, fourStreams, n, compressed);
  }

  lemma PlainType(kind: nat, n: nat)
    requires kind < 4
    ensures PlainHeader(kind, n) != [] && PlainHeader(kind, n)[0] as int % 4 == kind
  {
    hide BytesOf;
    TypeOf(kind + n * 8, kind, 2 * n, 1);
    TypeOf(kind + 4 + n * 16, kind, 1 + 4 * n, 2);
    TypeOf(kind + 12 + n * 16, kind, 3 + 4 * n, 3);
  }

  lemma CompressedType(kind: nat, fourStreams: bool, n: nat, compressed: nat)
    requires kind < 4
    ensures var s := CompressedHeader(kind, fourStreams, n, compressed); s != [] && s[0] as int % 4 == kind
  {
    hide BytesOf;
    var b := if fourStreams then 4 else 0;
    TypeOf(kind + b + n * 16 + compressed * 0x4000, kind, b / 4 + 4 * n + 0x1000 * compressed, 3);
    TypeOf(kind + 8 + n * 16 + compressed * 0x4_0000, kind, 2 + 4 * n + 0x1_0000 * compressed, 4);
    TypeOf(kind + 12 + n * 16 + compressed * 0x40_0000, kind, 3 + 4 * n + 0x10_0000 * compressed, 5);
  }

  lemma TypeOf(v: nat, kind: nat, x: nat, k: nat)
    requires kind < 4 && v == kind + 4 * x && k > 0
    ensures BytesOf(v, k) != [] && BytesOf(v, k)[0] as int % 4 == kind
  {
    LowestByte(v, k);
    DivModUnique(v, 4, x, kind);
  }

  lemma LowestByte(v: nat, k: nat)
    requires k > 0
    ensures BytesOf(v, k) != [] && BytesOf(v, k)[0] % 4 == v % 4
  {
  }

  lemma FieldSizes()
    ensures Pow2(10) == 0x400 && Pow2(14) == 0x4000 && Pow2(18) == 0x4_0000 && Pow2(40) == 0x100_0000_0000
    ensures Pow2(24) == 0x100_0000 && Pow2(32) == 0x1_0000_0000
  {
    Pow2Values();
    Pow2Add(9, 9);
    Pow2Add(32, 8);
  }

  // ----- raw and RLE literals -----

  method WritePlainHeader(dst: array<byte>, start: nat, kind: nat, n: nat)
    requires start + (if FlSize(n) == 3 then 4 else FlSize(n)) <= dst.Length
    modifies dst
    ensures dst[start..start + FlSize(n)] == PlainHeader(kind, n)
    ensures forall k :: 0 <= k < start || start + (if FlSize(n) == 3 then 4 else FlSize(n)) <= k < dst.Length ==>
              dst[k] == old(dst[k])
  {
    hide BytesOf;
    var flSize := FlSize(n);
    if flSize == 1 {
      dst[start] := (kind + n * 8) % 256;
      OneByte(kind + n * 8);
    } else if flSize == 2 {
      WriteLE16(dst, start, kind + 4 + n * 16);
    } else {
      WriteLE32(dst, start, kind + 12 + n * 16);
      ThreeOfFour(kind + 12 + n * 16);
      assert dst[start..start + 3] == dst[start..start + 4][..3];
    }
  }

  lemma OneByte(v: nat)
    ensures BytesOf(v, 1) == [v % 256]
  {
    assert BytesOf(v / 256, 0) == [];
  }

  lemma ThreeOfFour(v: nat)
    ensures BytesOf(v, 4)[..3] == BytesOf(v, 3)
  {
    assert BytesOf(v / 256 / 256, 2)[..1] == BytesOf(v / 256 / 256, 1);
    assert BytesOf(v / 256, 3)[..2] == BytesOf(v / 256, 2);
  }

  /** ZSTD_noCompressLiterals. */
  method NoCompressLiterals(dst: array<byte>, start: nat, dstCapacity: nat, src: seq<byte>) returns (r: Result<nat>)
    requires start + dstCapacity <= dst.Length
    modifies dst
    ensures r == if |src| + FlSize(|src|) > dstCapacity then Err(DstSizeTooSmall) else Ok(|src| + FlSize(|src|))
    ensures r.Ok? ==> dst[start..start + r.value] == PlainHeader(SET_BASIC, |src|) + src
    ensures forall k :: 0 <= k < start || start + dstCapacity <= k < dst.Length ==> dst[k] == old(dst[k])
  {
    hide PlainHeader;
    var flSize := FlSize(|src|);
    if |src| + flSize > dstCapacity {
      return Err(DstSizeTooSmall);
    }
    WritePlainHeader(dst, start, SET_BASIC, |src|);
    ghost var header := dst[start..start + flSize];
    forall k | start + flSize <= k < start + flSize + |src| {
      dst[k] := src[k - start - flSize];
    }
    assert dst[start..start + flSize] == header;
    assert dst[start + flSize..start + flSize + |src|] == src;
    HufStreams.Extend(dst[..], start, start + flSize, start + flSize + |src|);
    r := Ok(|src| + flSize);
  }

  method AllBytesIdentical(src: seq<byte>) returns (same: bool)
    requires |src| >= 1
    ensures same <==> Identical(src)
  {
    var b := src[0];
    for p := 1 to |src|
      invariant forall i :: 0 <= i < p ==> src[i] == b
    {
      if src[p] != b {
        return false;
      }
    }
    return true;
  }

  /** ZSTD_compressRleLiteralsBlock. */
  method CompressRleLiterals(dst: array<byte>, start: nat, dstCapacity: nat, src: seq<byte>) returns (size: nat)
    requires start + dstCapacity <= dst.Length && dstCapacity >= 4 && Identical(src)
    modifies dst
    ensures size == FlSize(|src|) + 1 && dst[start..start + size] == PlainHeader(SET_RLE, |src|) + [src[0]]
    ensures forall k :: 0 <= k < start || start + dstCapacity <= k < dst.Length ==> dst[k] == old(dst[k])
  {
    hide PlainHeader;
    var flSize := FlSize(|src|);
    WritePlainHeader(dst, start, SET_RLE, |src|);
    ghost var header := dst[start..start + flSize];
    dst[start + flSize] := src[0];
    assert dst[start..start + flSize + 1] == header + [src[0]];
    return flSize + 1;
  }

  // ----- compressed literals -----

  method WriteCompressedHeader(dst: array<byte>, start: nat, kind: nat, fourStreams: bool, n: nat, cLitSize: nat)
    requires start + LhSize(n) <= dst.Length && 2 <= kind <= 3 && cLitSize < n <= BLOCKSIZE_MAX
    modifies dst
    ensures dst[start..start + LhSize(n)] == CompressedHeader(kind, fourStreams, n, cLitSize)
    ensures forall k :: 0 <= k < start || start + LhSize(n) <= k < dst.Length ==> dst[k] == old(dst[k])
  {
    hide BytesOf;
    var lhSize := LhSize(n);
    if lhSize == 3 {
      WriteLE24(dst, start, kind + (if fourStreams then 4 else 0) + n * 16 + cLitSize * 0x4000);
    } else if lhSize == 4 {
      WriteLE32(dst, start, kind + 8 + n * 16 + cLitSize * 0x4_0000);
    } else {
      ghost var v := kind + 12 + n * 16 + cLitSize * 0x40_0000;
      WriteLE32(dst, start, kind + 12 + n * 16 + cLitSize * 0x40_0000);
      dst[start + 4] := cLitSize / 1024 % 256;
      FifthByte(kind + 12 + n * 16, cLitSize);
      assert dst[start..start + 5] == dst[start..start + 4] + [dst[start + 4]];
    }
  }

  /** The bits of the compressed size that do not fit into 32 bits are its bits from 10 on. */
  lemma FifthByte(low: nat, compressed: nat)
    requires low < 0x40_0000
    ensures BytesOf(low + compressed * 0x40_0000, 5) ==
              BytesOf(low + compressed * 0x40_0000, 4) + [compressed / 1024 % 256]
  {
    hide *;
    var v := low + compressed * 0x40_0000;
    DivModUnique(v, 0x1_0000_0000, compressed / 1024, low + compressed % 1024 * 0x40_0000);
    FiveBytes(v);
  }

  lemma {:induction false} LastOfBytes(v: nat, n: nat)
    ensures BytesOf(v, n + 1) == BytesOf(v, n) + [v / Pow2(8 * n) % 256]
  {
    if n == 0 {
      OneByte(v);
    } else {
      LastOfBytes(v / 256, n - 1);
      DivTwice(v, n);
    }
  }

  lemma DivTwice(v: nat, n: nat)
    requires n > 0
    ensures v / 256 / Pow2(8 * (n - 1)) == v / Pow2(8 * n)
  {
    hide *;
    ShrIsDiv(v, 8);
    ShrIsDiv(v, 8 * n);
    ShrIsDiv(Shr(v, 8), 8 * (n - 1));
    ShrShr(v, 8, 8 * (n - 1));
    Pow2Values();
  }

  lemma FiveBytes(v: nat)
    ensures BytesOf(v, 5) == BytesOf(v, 4) + [v / 0x1_0000_0000 % 256]
  {
    hide *;
    Pow2Values();
    LastOfBytes(v, 4);
  }

  // ----- the section -----

  /** ZSTD_minLiteralsToCompress. */
  function MinLiteralsToCompress(strategy: nat, repeat: Repeat): (n: nat)
    requires strategy <= 9
    ensures n >= 6
  {
    if repeat.RepeatValid? then 6
    else match Min(9 - strategy, 3) case 0 => 8 case 1 => 16 case 2 => 32 case _ => 64
  }

  /** ZSTD_minGain. */
  function MinGain(srcSize: nat, strategy: nat): nat
  {
    (if strategy == 8 then srcSize / 128 else if strategy > 8 then srcSize / 256 else srcSize / 64) + 2
  }

  /** Literals are left alone below 6 bytes if the table is known to fit, and otherwise below 8 to 64 bytes. */
  lemma LeastLiterals(strategy: nat, repeat: Repeat)
    requires 1 <= strategy <= 9
    ensures MinLiteralsToCompress(strategy, repeat) == if repeat.RepeatValid? then 6 else 8 * Pow2(Min(9 - strategy, 3))
  {
    Pow2Values();
  }

  /** The least gain: a 64th of the literals, a 128th and a 256th for the two highest strategies, and two bytes. */
  lemma LeastGain(n: nat, strategy: nat)
    requires 1 <= strategy <= 9
    ensures var size := Pow2(if strategy < 8 then 6 else strategy - 1);
            var gain := MinGain(n, strategy) - 2;
            gain * size <= n < (gain + 1) * size
  {
    Pow2Values();
  }

  /** The literals are coded as four streams unless they are few. */
  predicate FourStreamsFor(n: nat, repeat: Repeat)
  {
    n >= 256 && (repeat.RepeatValid? ==> n >= 1024)
  }

  /** What is made of a block coded in n bytes. */
  ghost predicate Kept(o: Outcome, coded: Outcome, n: nat, src: seq<byte>, strategy: nat)
  {
    if n == 0 || n + MinGain(|src|, strategy) >= |src| then o.GaveUp?
    else if n == 1 && (|src| >= 8 || Identical(src)) then o.SingleByte?
    else o == coded
  }

  /** The section follows what the block coder does, with four streams unless there are few literals. */
  ghost predicate Followed(o: Outcome, src: seq<byte>, room: nat, strategy: nat, suspected: bool, probedLog: nat,
                           repeat: Repeat, lens: seq<nat>, tableLog: nat)
  {
    var fourStreams, few := FourStreamsFor(|src|, repeat), strategy < 4 && |src| <= 1024;
    var depth := Depth(strategy >= 8, probedLog);
    exists coded: Outcome, n: nat ::
      Decided(coded, n, src, room, fourStreams, few, suspected, depth, repeat, lens, tableLog)
      && Kept(o, coded, n, src, strategy)
  }

  /**
    What section the literals get. They stay raw if literals are not to be compressed, if they are few, or if the
    block coder gives them up or gains too little.
   */
  ghost predicate SectionChosen(o: Outcome, src: seq<byte>, dstCapacity: nat, strategy: nat,
                                disableLiteralCompression: bool, suspected: bool, probedLog: nat, repeat: Repeat,
                                lens: seq<nat>, tableLog: nat)
    requires 1 <= strategy <= 9
  {
    if disableLiteralCompression || |src| < MinLiteralsToCompress(strategy, repeat)
       || dstCapacity < LhSize(|src|) + 1 then o.GaveUp?
    else Followed(o, src, dstCapacity - LhSize(|src|), strategy, suspected, probedLog, repeat, lens, tableLog)
  }

  /** s is the section for the literals src; treeless and compressed sections go by the code `lens`. */
  ghost predicate IsSection(s: seq<byte>, o: Outcome, lens: seq<nat>, tableLog: nat, src: seq<byte>, fourStreams: bool)
  {
    if o.GaveUp? then s == PlainHeader(SET_BASIC, |src|) + src
    else if o.SingleByte? then Identical(src) && s == PlainHeader(SET_RLE, |src|) + [src[0]]
    else
      var lhSize := LhSize(|src|);
      && lhSize <= |s| && |s| - lhSize < |src| && (|src| >= 1024 ==> fourStreams)
      && s[..lhSize] ==
        CompressedHeader(if o.OldTable? then SET_REPEAT else SET_COMPRESSED, fourStreams, |src|, |s| - lhSize)
      && Transmits(s[lhSize..], o, lens, tableLog, src, fourStreams)
  }

  /** The sections that need no table. */
  lemma PlainSections(src: seq<byte>)
    ensures forall lens, tableLog, f :: IsSection(PlainHeader(SET_BASIC, |src|) + src, GaveUp, lens, tableLog, src, f)
    ensures Identical(src) ==>
              forall lens, tableLog, f ::
                IsSection(PlainHeader(SET_RLE, |src|) + [src[0]], SingleByte, lens, tableLog, src, f)
  {
    hide PlainHeader;
  }

  /** A header and what follows it are a section. */
  lemma SectionOf(header: seq<byte>, payload: seq<byte>, o: Outcome, lens: seq<nat>, tableLog: nat, src: seq<byte>,
                  fourStreams: bool)
    requires (o.OldTable? || o.NewTable?) && |payload| < |src| && (|src| >= 1024 ==> fourStreams)
    requires header ==
               CompressedHeader(if o.OldTable? then SET_REPEAT else SET_COMPRESSED, fourStreams, |src|, |payload|)
    requires Transmits(payload, o, lens, tableLog, src, fourStreams)
    ensures IsSection(header + payload, o, lens, tableLog, src, fourStreams)
  {
    hide Transmits, BytesOf;
    var s := header + payload;
    assert s[..LhSize(|src|)] == header && s[LhSize(|src|)..] == payload;
  }

  /** Literals that are compressed at all are more than the least gain. */
  lemma SmallGain(n: nat, strategy: nat, repeat: Repeat)
    requires 1 <= strategy <= 9
    ensures n >= MinLiteralsToCompress(strategy, repeat) ==> n >= MinGain(n, strategy)
  {
  }

  /** The table after a section: the one that was sent, or the one before. */
  ghost predicate Carried(o: Outcome, prev: HufTables, next: HufTables)
    reads prev, prev.elts, next, next.elts
  {
    if o.NewTable? then next.repeatMode == RepeatCheck else next.SameTable(prev) && next.repeatMode == prev.repeatMode
  }

  /**
    A single byte that stands for eight or more, or is known to stand for equal ones; any other single byte is a
    stream.
   */
  lemma SingleIsIdentical(s: seq<byte>, o: Outcome, lens: seq<nat>, tableLog: nat, src: seq<byte>, fourStreams: bool,
                          repeat: Repeat)
    requires src != [] && Transmits(s, o, lens, tableLog, src, fourStreams) && Reports(Ok(|s|), repeat, o, src)
    ensures |s| == 1 && |src| >= 8 ==> Identical(src)
    ensures o.SingleByte? ==> Identical(src)
  {
    hide Coded, Announces;
  }

  /** The header before the streams that are already in place. */
  method FinishSection(dst: array<byte>, start: nat, src: seq<byte>, singleStream: bool, repeat: Repeat, cLitSize: nat,
                       ghost o: Outcome, ghost lens: seq<nat>, ghost tableLog: nat)
    requires start + LhSize(|src|) + cLitSize <= dst.Length && cLitSize < |src| <= BLOCKSIZE_MAX
    requires |src| >= 1024 ==> !singleStream
    requires Transmits(dst[start + LhSize(|src|)..start + LhSize(|src|) + cLitSize], o, lens, tableLog, src,
                       !singleStream)
    requires (o.OldTable? && !repeat.RepeatNone?) || (o.NewTable? && repeat.RepeatNone?)
    modifies dst
    ensures IsSection(dst[start..start + LhSize(|src|) + cLitSize], o, lens, tableLog, src, !singleStream)
    ensures forall k :: 0 <= k < start || start + LhSize(|src|) <= k < dst.Length ==> dst[k] == old(dst[k])
  {
    hide Transmits, CompressedHeader, PlainHeader, IsSection;
    var lhSize := LhSize(|src|);
    ghost var payload := dst[start + lhSize..start + lhSize + cLitSize];
    WriteCompressedHeader(dst, start, if repeat.RepeatNone? then SET_COMPRESSED else SET_REPEAT, !singleStream, |src|,
                          cLitSize);
    ghost var header := dst[start..start + lhSize];
    assert dst[start + lhSize..start + lhSize + cLitSize] == payload;
    HufStreams.Extend(dst[..], start, start + lhSize, start + lhSize + cLitSize);
    SectionOf(header, payload, o, lens, tableLog, src, !singleStream);
    assert dst[start..start + lhSize + cLitSize] == header + payload;
  }

  /** What ZSTD_compressLiterals makes of the coded block that lies behind the place for the header. */
  method KeepSection(dst: array<byte>, start: nat, dstCapacity: nat, src: seq<byte>, prev: HufTables, next: HufTables,
                     strategy: nat, singleStream: bool, cLitSize: Result<nat>, repeat: Repeat, ghost coded: Outcome)
    returns (r: Result<nat>, ghost o: Outcome)
    requires start + dstCapacity <= dst.Length && 6 <= |src| <= BLOCKSIZE_MAX && (|src| >= 1024 ==> !singleStream)
    requires prev.Valid() && prev != next && prev.elts != next.elts && next.elts.Length == 256
    requires |src| >= MinGain(|src|, strategy) && dstCapacity >= LhSize(|src|) + 1
    requires Reports(cLitSize, repeat, coded, src) && next.Usable(repeat)
    requires repeat == prev.repeatMode || repeat.RepeatNone?
    requires coded.SingleByte? || coded.OldTable? ==> next.SameTable(prev) && next.repeatMode == prev.repeatMode
    requires coded.NewTable? ==> IsCode(next.elts[..], next.tableLog, next.maxSymbolValue, next.lens)
    requires !coded.GaveUp? ==>
               var at := start + LhSize(|src|);
               && LhSize(|src|) + cLitSize.value <= dstCapacity
               && Transmits(dst[at..at + cLitSize.value], coded, next.lens, next.tableLog, src, !singleStream)
    modifies dst, next, next.elts
    ensures r == Err(DstSizeTooSmall) || r.Ok?
    ensures r.Err? <==> o.GaveUp? && dstCapacity < |src| + FlSize(|src|)
    ensures Kept(o, coded, SizeOf(cLitSize), src, strategy)
    ensures r.Ok? ==>
              r.value <= dstCapacity
                && IsSection(dst[start..start + r.value], o, next.lens, next.tableLog, src, !singleStream)
    ensures next.Valid() && Carried(o, prev, next) && (o.OldTable? ==> !prev.repeatMode.RepeatNone?)
    ensures forall k :: 0 <= k < start || start + dstCapacity <= k < dst.Length ==> dst[k] == old(dst[k])
  {
    hide PlainHeader, CompressedHeader, IsCode, Transmits, CoversAll, IsSection, Identical, MinGain;
    PlainSections(src);
    var lhSize := LhSize(|src|);
    if cLitSize.Err? || cLitSize.value == 0 || cLitSize.value >= |src| - MinGain(|src|, strategy) {
      o := GaveUp;
      next.CopyFrom(prev);
      r := NoCompressLiterals(dst, start, dstCapacity, src);
      return;
    }
    o := coded;
    SingleIsIdentical(dst[start + lhSize..start + lhSize + cLitSize.value], o, next.lens, next.tableLog, src,
                      !singleStream, repeat);
    if cLitSize.value == 1 {
      var same := false;
      if |src| < 8 {
        same := AllBytesIdentical(src);
      }
      if |src| >= 8 || same {
        o := SingleByte;
        next.CopyFrom(prev);
        var size := CompressRleLiterals(dst, start, dstCapacity, src);
        return Ok(size), o;
      }
    }
    if repeat.RepeatNone? {
      next.repeatMode := RepeatCheck;
    }
    FinishSection(dst, start, src, singleStream, repeat, cLitSize.value, o, next.lens, next.tableLog);
    r := Ok(lhSize + cLitSize.value);
  }

  /** The part of ZSTD_compressLiterals behind its first exits. */
  method CodeLiterals(dst: array<byte>, start: nat, dstCapacity: nat, src: seq<byte>, prev: HufTables,
                      next: HufTables, strategy: nat, suspectUncompressible: bool, probedLog: nat)
    returns (r: Result<nat>, ghost o: Outcome, ghost fourStreams: bool)
    requires start + dstCapacity <= dst.Length && 6 <= |src| <= BLOCKSIZE_MAX && 1 <= strategy <= 9
    requires prev.Valid() && prev != next && prev.elts != next.elts && next.elts.Length == 256
    requires next.SameTable(prev) && next.repeatMode == prev.repeatMode
    requires |src| >= MinGain(|src|, strategy) && dstCapacity >= LhSize(|src|) + 1
    modifies dst, next, next.elts
    ensures r == Err(DstSizeTooSmall) || r.Ok?
    ensures r.Err? <==> o.GaveUp? && dstCapacity < |src| + FlSize(|src|)
    ensures Followed(o, src, dstCapacity - LhSize(|src|), strategy, suspectUncompressible, probedLog, prev.repeatMode,
                     prev.lens, prev.tableLog)
    ensures fourStreams == FourStreamsFor(|src|, prev.repeatMode)
    ensures r.Ok? ==>
              r.value <= dstCapacity
                && IsSection(dst[start..start + r.value], o, next.lens, next.tableLog, src, fourStreams)
    ensures next.Valid() && Carried(o, prev, next) && (o.OldTable? ==> !prev.repeatMode.RepeatNone?)
    ensures forall k :: 0 <= k < start || start + dstCapacity <= k < dst.Length ==> dst[k] == old(dst[k])
  {
    hide IsCode, Transmits, CoversAll, IsSection, MinGain, Decided, Kept;
    var lhSize := LhSize(|src|);
    var singleStream := |src| < 256;
    if prev.repeatMode.RepeatValid? && lhSize == 3 {
      singleStream := true;
    }
    var cLitSize, repeat, coded := CompressInternal(dst, start + lhSize, dstCapacity - lhSize, src, !singleStream,
                                                    strategy < 4 && |src| <= 1024, strategy >= 8,
                                                    suspectUncompressible, probedLog, next, prev.repeatMode);
    fourStreams := !singleStream;
    r, o := KeepSection(dst, start, dstCapacity, src, prev, next, strategy, singleStream, cLitSize, repeat, coded);
  }

  /**
    ZSTD_compressLiterals. The section is raw, RLE, in the table carried over or in a new one; the table passed on is
    the new one if there is one in the section and otherwise, with its repeat mode, the one from before.
   */
  method CompressLiterals(dst: array<byte>, start: nat, dstCapacity: nat, src: seq<byte>, prev: HufTables,
                          next: HufTables, strategy: nat, disableLiteralCompression: bool, suspectUncompressible: bool,
                          probedLog: nat) returns (r: Result<nat>, ghost o: Outcome, ghost fourStreams: bool)
    requires start + dstCapacity <= dst.Length && |src| <= BLOCKSIZE_MAX && 1 <= strategy <= 9
    requires prev.Valid() && prev != next && prev.elts != next.elts && next.elts.Length == 256
    modifies dst, next, next.elts
    ensures r == Err(DstSizeTooSmall) || r.Ok?
    ensures r.Err? <==> o.GaveUp? && dstCapacity < |src| + FlSize(|src|)
    ensures SectionChosen(o, src, dstCapacity, strategy, disableLiteralCompression, suspectUncompressible, probedLog,
                          prev.repeatMode, prev.lens, prev.tableLog)
    ensures !o.GaveUp? ==> fourStreams == FourStreamsFor(|src|, prev.repeatMode)
    ensures r.Ok? ==>
              r.value <= dstCapacity
                && IsSection(dst[start..start + r.value], o, next.lens, next.tableLog, src, fourStreams)
    ensures next.Valid() && Carried(o, prev, next) && (o.OldTable? ==> !prev.repeatMode.RepeatNone?)
    ensures forall k :: 0 <= k < start || start + dstCapacity <= k < dst.Length ==> dst[k] == old(dst[k])
  {
    hide PlainHeader, CompressedHeader, IsCode, CoversAll, IsSection, MinGain, MinLiteralsToCompress, Followed;
    SmallGain(|src|, strategy, prev.repeatMode);
    PlainSections(src);
    var lhSize := LhSize(|src|);
    o, fourStreams := GaveUp, false;
    next.CopyFrom(prev);
    if disableLiteralCompression {
      r := NoCompressLiterals(dst, start, dstCapacity, src);
      return;
    }
    if |src| < MinLiteralsToCompress(strategy, prev.repeatMode) {
      r := NoCompressLiterals(dst, start, dstCapacity, src);
      return;
    }
    if dstCapacity < lhSize + 1 {
      return Err(DstSizeTooSmall), GaveUp, false;
    }
    r, o, fourStreams := CodeLiterals(dst, start, dstCapacity, src, prev, next, strategy, suspectUncompressible,
                                      probedLog);
  }
}
