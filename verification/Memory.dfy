/** Unaligned little-endian stores of common/mem.h. */
module Memory {
  import opened Bits

  /** MEM_write64 (and MEM_writeLEST on a 64-bit little-endian machine). */
  method WriteLE64(dst: array<byte>, at: nat, v: nat)
    requires at + 8 <= dst.Length
    modifies dst
    ensures forall k :: at <= k < at + 8 ==> dst[k] == BytesOf(v, 8)[k - at]
    ensures forall k :: 0 <= k < at || at + 8 <= k < dst.Length ==> dst[k] == old(dst[k])
  {
    var bytes := BytesOf(v, 8);
    forall i | 0 <= i < 8 {
      dst[at + i] := bytes[i];
    }
  }

  /** MEM_writeLE16. */
  method WriteLE16(dst: array<byte>, at: nat, v: nat)
    requires at + 2 <= dst.Length
    modifies dst
    ensures dst[at..at + 2] == BytesOf(v, 2)
    ensures forall k :: 0 <= k < at || at + 2 <= k < dst.Length ==> dst[k] == old(dst[k])
  {
    var bytes := BytesOf(v, 2);
    dst[at] := bytes[0];
    dst[at + 1] := bytes[1];
  }

  /** MEM_writeLE24: a 16-bit store and a byte. */
  method WriteLE24(dst: array<byte>, at: nat, v: nat)
    requires at + 3 <= dst.Length
    modifies dst
    ensures dst[at..at + 3] == BytesOf(v, 3)
    ensures forall k :: 0 <= k < at || at + 3 <= k < dst.Length ==> dst[k] == old(dst[k])
  {
    WriteLE16(dst, at, v);
    dst[at + 2] := v / 65536 % 256;
    ThreeBytes(v);
    assert dst[at..at + 3] == dst[at..at + 2] + [dst[at + 2]];
  }

  lemma ThreeBytes(v: nat)
    ensures BytesOf(v, 3) == BytesOf(v, 2) + [v / 65536 % 256]
  {
    assert BytesOf(v / 256 / 256, 1) == [v / 65536 % 256];
    assert BytesOf(v / 256, 2) == [v / 256 % 256] + BytesOf(v / 256 / 256, 1);
    assert BytesOf(v, 2) == [v % 256] + BytesOf(v / 256, 1);
  }

  /** MEM_writeLE32. */
  method WriteLE32(dst: array<byte>, at: nat, v: nat)
    requires at + 4 <= dst.Length
    modifies dst
    ensures dst[at..at + 4] == BytesOf(v, 4)
    ensures forall k :: 0 <= k < at || at + 4 <= k < dst.Length ==> dst[k] == old(dst[k])
  {
    var bytes := BytesOf(v, 4);
    forall i | 0 <= i < 4 {
      dst[at + i] := bytes[i];
    }
    assert dst[at..at + 4] == bytes;
  }
}
