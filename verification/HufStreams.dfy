/** One and four Huffman streams (sections 3.1.1.3.1.6 and 4.2.2 of RFC 8878). */
module HufStreams {
  import opened Bits
  import opened Wrappers
  import opened Bitstream
  import opened Memory
  import opened BitWriter
  import opened HufContainer
  import opened HufEncoder
  import opened HufCodes

  const JUMP_TABLE_SIZE := 6

  /** Decodes one stream of n symbols. */
  function DecodeStream(lens: seq<nat>, tableLog: nat, s: seq<byte>, n: nat): Result<seq<nat>>
  {
    var bits := Unseal(s);
    if bits.Err? then Err(bits.error) else HufCodes.Decode(lens, tableLog, bits.value, n)
  }

  /** The size of each of the first three segments. */
  function SegmentSize(n: nat): nat
  {
    (n + 3) / 4
  }

  /** The first three segments are as long as each other, and the last one is shorter by three symbols at most. */
  lemma FourSegments(n: nat)
    ensures n <= 4 * SegmentSize(n) < n + 4
    ensures n >= 6 ==> SegmentSize(n) - 3 <= n - 3 * SegmentSize(n) <= SegmentSize(n)
  {
  }

  /** What the encoder writes for src as one stream. */
  ghost function OneStream(codes: seq<Code>, src: seq<byte>): seq<byte>
    requires Encodable(src, codes)
  {
    Seal(HufBits(codes, src))
  }

  /** The stream for src leaves the encoder's register in a room of this size, and its size fits into 16 bits. */
  ghost predicate StreamFits(codes: seq<Code>, src: seq<byte>, room: int)
    requires Encodable(src, codes)
  {
    room > REGISTER_BYTES && (|HufBits(codes, src)| + 1) / 8 < room - REGISTER_BYTES
  }

  ghost predicate SegmentFits(codes: seq<Code>, src: seq<byte>, room: int)
    requires Encodable(src, codes)
  {
    StreamFits(codes, src, room) && |OneStream(codes, src)| < 0x1_0000
  }

  lemma SegmentSizes(codes: seq<Code>, src: seq<byte>, room: nat)
    requires Encodable(src, codes)
    ensures |OneStream(codes, src)| == |HufBits(codes, src)| / 8 + 1
    ensures StreamFits(codes, src, room) <==> room > REGISTER_BYTES && ClosedSize(|HufBits(codes, src)|, room) > 0
    ensures StreamFits(codes, src, room) ==> ClosedSize(|HufBits(codes, src)|, room) == |OneStream(codes, src)| < room
  {
    hide HufBits;
    SealSize(HufBits(codes, src));
  }

  lemma SealSize(bits: seq<bool>)
    ensures |Seal(bits)| == |bits| / 8 + 1
  {
  }

  /** The jump table and four streams. */
  function Joined(s1: seq<byte>, s2: seq<byte>, s3: seq<byte>, s4: seq<byte>): seq<byte>
  {
    BytesOf(|s1|, 2) + BytesOf(|s2|, 2) + BytesOf(|s3|, 2) + s1 + s2 + s3 + s4
  }

  /** Decodes four streams of n symbols in all. */
  function DecodeFour(lens: seq<nat>, tableLog: nat, s: seq<byte>, n: nat): Result<seq<nat>>
  {
    var k := SegmentSize(n);
    if |s| < JUMP_TABLE_SIZE || n < 3 * k then Err(Corruption)
    else
      var e1 := JUMP_TABLE_SIZE + LittleEndian(s[0..2]);
      var e2 := e1 + LittleEndian(s[2..4]);
      var e3 := e2 + LittleEndian(s[4..6]);
      if |s| < e3 then Err(Corruption)
      else
        var a, b, c, d :=
          DecodeStream(lens, tableLog, s[JUMP_TABLE_SIZE..e1], k),
          DecodeStream(lens, tableLog, s[e1..e2], k),
          DecodeStream(lens, tableLog, s[e2..e3], k),
          DecodeStream(lens, tableLog, s[e3..], n - 3 * k);
        if a.Ok? && b.Ok? && c.Ok? && d.Ok? then Ok(a.value + b.value + c.value + d.value) else Err(Corruption)
  }

  lemma {:induction false} LittleEndianOf(v: nat, n: nat)
    requires v < Pow2(8 * n)
    ensures LittleEndian(BytesOf(v, n)) == v
  {
    if n > 0 {
      Pow2Add(8, 8 * (n - 1));
      Pow2Values();
      LittleEndianOf(v / 256, n - 1);
    }
  }

  /** The parts of joined streams are where the jump table says. */
  lemma JoinedParts(s1: seq<byte>, s2: seq<byte>, s3: seq<byte>, s4: seq<byte>)
    requires |s1| < 0x1_0000 && |s2| < 0x1_0000 && |s3| < 0x1_0000
    ensures var s := Joined(s1, s2, s3, s4);
            var e1, e2, e3 := 6 + |s1|, 6 + |s1| + |s2|, 6 + |s1| + |s2| + |s3|;
            && |s| == e3 + |s4|
            && LittleEndian(s[0..2]) == |s1| && LittleEndian(s[2..4]) == |s2| && LittleEndian(s[4..6]) == |s3|
            && s[6..e1] == s1 && s[e1..e2] == s2 && s[e2..e3] == s3 && s[e3..] == s4
  {
    hide LittleEndian, BytesOf, Pow2;
    var s := Joined(s1, s2, s3, s4);
    Pow2Values();
    LittleEndianOf(|s1|, 2);
    LittleEndianOf(|s2|, 2);
    LittleEndianOf(|s3|, 2);
    assert s[0..2] == BytesOf(|s1|, 2) && s[2..4] == BytesOf(|s2|, 2) && s[4..6] == BytesOf(|s3|, 2);
  }

  lemma OneStreamDecodes(lens: seq<nat>, tableLog: nat, codes: seq<Code>, src: seq<byte>)
    requires Complete(lens, tableLog) && codes == CodesOf(lens, tableLog) && Encodable(src, codes)
    ensures DecodeStream(lens, tableLog, OneStream(codes, src), |src|) == Ok(src)
  {
    hide HufCodes.Decode, HufBits, Seal, Unseal, Used;
    HuffmanRoundTrip(lens, tableLog, src);
    UnsealSeal(HufBits(codes, src));
  }

  /** What the encoder writes for src as four streams. */
  ghost function FourStreams(codes: seq<Code>, src: seq<byte>): seq<byte>
    requires Encodable(src, codes) && |src| >= 12
  {
    var k := SegmentSize(|src|);
    Joined(OneStream(codes, src[..k]), OneStream(codes, src[k..2 * k]), OneStream(codes, src[2 * k..3 * k]),
           OneStream(codes, src[3 * k..]))
  }

  /** Decoding four streams gives back the source. */
  lemma FourStreamsDecode(lens: seq<nat>, tableLog: nat, codes: seq<Code>, src: seq<byte>)
    requires Complete(lens, tableLog) && codes == CodesOf(lens, tableLog) && Encodable(src, codes) && |src| >= 12
    requires var k := SegmentSize(|src|);
             && |OneStream(codes, src[..k])| < 0x1_0000 && |OneStream(codes, src[k..2 * k])| < 0x1_0000
             && |OneStream(codes, src[2 * k..3 * k])| < 0x1_0000
    ensures DecodeFour(lens, tableLog, FourStreams(codes, src), |src|) == Ok(src)
  {
    hide DecodeStream, OneStream, LittleEndian, Used, Joined, Complete;
    var k := SegmentSize(|src|);
    var p1, p2, p3, p4 := src[..k], src[k..2 * k], src[2 * k..3 * k], src[3 * k..];
    OneStreamDecodes(lens, tableLog, codes, p1);
    OneStreamDecodes(lens, tableLog, codes, p2);
    OneStreamDecodes(lens, tableLog, codes, p3);
    OneStreamDecodes(lens, tableLog, codes, p4);
    JoinedParts(OneStream(codes, p1), OneStream(codes, p2), OneStream(codes, p3), OneStream(codes, p4));
    assert p1 + p2 + p3 + p4 == src;
  }

  // ----- writing four streams -----

  /** Encodes one segment at op and enters its size into the jump table at `entry`. */
  method EncodeSegment(dst: array<byte>, entry: nat, op: nat, oend: nat, src: seq<byte>, ct: seq<nat>, tableLog: nat,
                       ghost codes: seq<Code>) returns (cSize: nat)
    requires entry + 2 <= op <= oend <= dst.Length && Table(ct, codes, tableLog) && Encodable(src, codes)
    modifies dst
    ensures cSize > 0 <==> SegmentFits(codes, src, oend - op)
    ensures cSize == if SegmentFits(codes, src, oend - op) then |OneStream(codes, src)| else 0
    ensures cSize > 0 ==> cSize < 0x1_0000 && op + cSize <= oend
    ensures cSize > 0 ==> dst[op..op + cSize] == OneStream(codes, src) && dst[entry..entry + 2] == BytesOf(cSize, 2)
    ensures forall k :: 0 <= k < entry || entry + 2 <= k < op || oend <= k < dst.Length ==> dst[k] == old(dst[k])
  {
    hide Table, BytesOf, Seal, HufBits, ClosedSize, Encodable;
    SegmentSizes(codes, src, oend - op);
    cSize := Compress1X(dst, op, oend - op, src, ct, tableLog, codes);
    if cSize == 0 || cSize > 65535 {
      return 0;
    }
    ghost var stream := dst[op..op + cSize];
    WriteLE16(dst, entry, cSize);
    assert dst[op..op + cSize] == stream;
  }

  /** The jump table and three streams, as they lie in memory. */
  lemma JoinThree(m: seq<byte>, b0: nat, b2: nat, b4: nat, b6: nat, e1: nat, e2: nat, e3: nat,
                  j1: seq<byte>, j2: seq<byte>, j3: seq<byte>, s1: seq<byte>, s2: seq<byte>, s3: seq<byte>)
    requires b0 <= b2 <= b4 <= b6 <= e1 <= e2 <= e3 <= |m|
    requires m[b0..b2] == j1 && m[b2..b4] == j2 && m[b4..b6] == j3 && m[b6..e1] == s1 && m[e1..e2] == s2
    requires m[e2..e3] == s3
    ensures m[b0..e3] == j1 + j2 + j3 + s1 + s2 + s3
  {
    Extend(m, b0, b2, b4);
    Extend(m, b0, b4, b6);
    Extend(m, b0, b6, e1);
    Extend(m, b0, e1, e2);
    Extend(m, b0, e2, e3);
  }

  lemma Extend<T>(m: seq<T>, a: nat, b: nat, c: nat)
    requires a <= b <= c <= |m|
    ensures m[a..c] == m[a..b] + m[b..c]
  {
  }

  /** One after the other, three streams fit into a room. */
  ghost predicate ThreeFit(codes: seq<Code>, p1: seq<byte>, p2: seq<byte>, p3: seq<byte>, room: int)
    requires Encodable(p1, codes) && Encodable(p2, codes) && Encodable(p3, codes)
  {
    var n1, n2 := |OneStream(codes, p1)|, |OneStream(codes, p2)|;
    SegmentFits(codes, p1, room) && SegmentFits(codes, p2, room - n1) && SegmentFits(codes, p3, room - n1 - n2)
  }

  /** The jump table and four streams fit into a room. */
  ghost predicate FourFit(codes: seq<Code>, src: seq<byte>, room: int)
    requires Encodable(src, codes)
  {
    && |src| >= 12 && room >= JUMP_TABLE_SIZE + 1 + 1 + 1 + 8
    && var k := SegmentSize(|src|);
    var p1, p2, p3, p4 := src[..k], src[k..2 * k], src[2 * k..3 * k], src[3 * k..];
    var used := JUMP_TABLE_SIZE + |OneStream(codes, p1)| + |OneStream(codes, p2)| + |OneStream(codes, p3)|;
    ThreeFit(codes, p1, p2, p3, room - JUMP_TABLE_SIZE) && SegmentFits(codes, p4, room - used)
  }

  /** The first two streams with their entries; the result is where the third one starts, or 0. */
  method CompressTwo(dst: array<byte>, start: nat, oend: nat, p1: seq<byte>, p2: seq<byte>, ct: seq<nat>, tableLog: nat,
                     ghost codes: seq<Code>) returns (e2: nat)
    requires start + JUMP_TABLE_SIZE <= oend <= dst.Length && Table(ct, codes, tableLog)
    requires Encodable(p1, codes) && Encodable(p2, codes)
    modifies dst
    ensures var room, n1 := oend - start - JUMP_TABLE_SIZE, |OneStream(codes, p1)|;
            e2 > 0 <==> SegmentFits(codes, p1, room) && SegmentFits(codes, p2, room - n1)
    ensures e2 > 0 ==>
              var s1, s2 := OneStream(codes, p1), OneStream(codes, p2);
              var e1 := start + JUMP_TABLE_SIZE + |s1|;
              && |s1| < 0x1_0000 && |s2| < 0x1_0000 && e1 + |s2| == e2 <= oend
              && dst[start..start + 2] == BytesOf(|s1|, 2) && dst[start + 2..start + 4] == BytesOf(|s2|, 2)
              && dst[start + JUMP_TABLE_SIZE..e1] == s1 && dst[e1..e2] == s2
    ensures forall k :: 0 <= k < start || oend <= k < dst.Length ==> dst[k] == old(dst[k])
  {
    hide Table, BytesOf, OneStream, Encodable, SegmentFits;
    var op := start + JUMP_TABLE_SIZE;
    var c1 := EncodeSegment(dst, start, op, oend, p1, ct, tableLog, codes);
    if c1 == 0 {
      return 0;
    }
    var e1 := op + c1;
    assert oend - e1 == oend - start - JUMP_TABLE_SIZE - |OneStream(codes, p1)|;
    var c2 := EncodeSegment(dst, start + 2, e1, oend, p2, ct, tableLog, codes);
    if c2 == 0 {
      return 0;
    }
    assert dst[start..start + 2] == BytesOf(c1, 2) && dst[op..e1] == OneStream(codes, p1);
    e2 := e1 + c2;
  }

  /** The third stream and its entry leave what lies before them in place. */
  lemma ThirdJoins(before: seq<byte>, m: seq<byte>, start: nat, e1: nat, e2: nat, e3: nat, j1: seq<byte>, j2: seq<byte>,
                   j3: seq<byte>, s1: seq<byte>, s2: seq<byte>, s3: seq<byte>)
    requires |m| == |before| && start + JUMP_TABLE_SIZE <= e1 <= e2 <= e3 <= |m|
    requires forall k :: 0 <= k < start + 4 || start + JUMP_TABLE_SIZE <= k < e2 ==> m[k] == before[k]
    requires before[start..start + 2] == j1 && before[start + 2..start + 4] == j2
    requires before[start + JUMP_TABLE_SIZE..e1] == s1 && before[e1..e2] == s2
    requires m[start + 4..start + JUMP_TABLE_SIZE] == j3 && m[e2..e3] == s3
    ensures m[start..e3] == j1 + j2 + j3 + s1 + s2 + s3
  {
    assert m[start..start + 2] == j1 && m[start + 2..start + 4] == j2;
    assert m[start + JUMP_TABLE_SIZE..e1] == s1 && m[e1..e2] == s2;
    JoinThree(m, start, start + 2, start + 4, start + JUMP_TABLE_SIZE, e1, e2, e3, j1, j2, j3, s1, s2, s3);
  }

  /** The three streams that the jump table lists; the result is where the fourth one starts, or 0. */
  method CompressThree(dst: array<byte>, start: nat, oend: nat, p1: seq<byte>, p2: seq<byte>, p3: seq<byte>,
                       ct: seq<nat>, tableLog: nat, ghost codes: seq<Code>) returns (op: nat)
    requires start + JUMP_TABLE_SIZE <= oend <= dst.Length && Table(ct, codes, tableLog)
    requires Encodable(p1, codes) && Encodable(p2, codes) && Encodable(p3, codes)
    modifies dst
    ensures op > 0 <==> ThreeFit(codes, p1, p2, p3, oend - start - JUMP_TABLE_SIZE)
    ensures op > 0 ==> start <= op <= oend
    ensures op > 0 ==> var s1, s2, s3 := OneStream(codes, p1), OneStream(codes, p2), OneStream(codes, p3);
                       && |s1| < 0x1_0000 && |s2| < 0x1_0000 && |s3| < 0x1_0000
                       && dst[start..op] == BytesOf(|s1|, 2) + BytesOf(|s2|, 2) + BytesOf(|s3|, 2) + s1 + s2 + s3
    ensures forall k :: 0 <= k < start || oend <= k < dst.Length ==> dst[k] == old(dst[k])
  {
    hide Table, BytesOf, OneStream, Encodable, SegmentFits;
    var e2 := CompressTwo(dst, start, oend, p1, p2, ct, tableLog, codes);
    if e2 == 0 {
      return 0;
    }
    ghost var s1, s2, o := OneStream(codes, p1), OneStream(codes, p2), start + JUMP_TABLE_SIZE;
    assert oend - e2 == oend - start - JUMP_TABLE_SIZE - |s1| - |s2|;
    ghost var before := dst[..];
    var c3 := EncodeSegment(dst, start + 4, e2, oend, p3, ct, tableLog, codes);
    if c3 == 0 {
      return 0;
    }
    ThirdJoins(before, dst[..], start, o + |s1|, e2, e2 + c3, BytesOf(|s1|, 2), BytesOf(|s2|, 2), BytesOf(c3, 2), s1,
               s2, OneStream(codes, p3));
    op := e2 + c3;
  }

  /**
    HUF_compress4X_usingCTable: the size of the jump table and four streams, whose bytes are in place, or 0 exactly if
    they do not fit.
   */
  method Compress4X(dst: array<byte>, start: nat, dstSize: nat, src: seq<byte>, ct: seq<nat>, tableLog: nat,
                    ghost codes: seq<Code>) returns (size: nat)
    requires start + dstSize <= dst.Length && Table(ct, codes, tableLog) && Encodable(src, codes)
    modifies dst
    ensures size > 0 <==> FourFit(codes, src, dstSize)
    ensures size > 0 ==> |src| >= 12 && size == |FourStreams(codes, src)| <= dstSize
    ensures size > 0 ==> dst[start..start + size] == FourStreams(codes, src)
    ensures size > 0 ==> var k := SegmentSize(|src|);
                         && |OneStream(codes, src[..k])| < 0x1_0000 && |OneStream(codes, src[k..2 * k])| < 0x1_0000
                         && |OneStream(codes, src[2 * k..3 * k])| < 0x1_0000
    ensures forall k :: 0 <= k < start || start + dstSize <= k < dst.Length ==> dst[k] == old(dst[k])
  {
    hide Table, BytesOf, HufBits, OneStream, ClosedSize, ThreeFit, StreamFits;
    var segmentSize := (|src| + 3) / 4;
    if dstSize < 6 + 1 + 1 + 1 + 8 {
      return 0;
    }
    if |src| < 12 {
      return 0;
    }
    var oend := start + dstSize;
    var op := CompressThree(dst, start, oend, src[..segmentSize], src[segmentSize..2 * segmentSize],
                            src[2 * segmentSize..3 * segmentSize], ct, tableLog, codes);
    if op == 0 {
      return 0;
    }
    ghost var front := dst[start..op];
    SegmentSizes(codes, src[3 * segmentSize..], oend - op);
    var cSize := Compress1X(dst, op, oend - op, src[3 * segmentSize..], ct, tableLog, codes);
    if cSize == 0 || cSize > 65535 {
      return 0;
    }
    StreamIs(codes, src[3 * segmentSize..]);
    assert dst[start..op] == front;
    Extend(dst[..], start, op, op + cSize);
    op := op + cSize;
    size := op - start;
  }

  lemma StreamIs(codes: seq<Code>, src: seq<byte>)
    requires Encodable(src, codes)
    ensures Seal(HufBits(codes, src)) == OneStream(codes, src)
  {
  }
}
