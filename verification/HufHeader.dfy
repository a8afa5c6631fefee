/** Writing the description of a Huffman table and reading it back. */
module HufHeader {
  import opened Bits
  import opened Wrappers
  import opened FseDecompress
  import opened HufContainer
  import opened HufCodes
  import opened HufTable
  import opened HufWeights
  import opened HufReadTable
  import opened HufWriteTable

  /** A description describes the same with anything after it. */
  lemma DescribesMore(s: seq<byte>, rest: seq<byte>, w: seq<byte>, c: Coding)
    requires |s| >= 1 && Describes(s, w, c) && DescriptionSize(s) == |s|
    ensures Describes(s + rest, w, c) && DescriptionSize(s + rest) == |s|
  {
    hide IsBlock;
    if s[0] < 128 {
      assert (s + rest)[1..1 + s[0]] == s[1..1 + s[0]];
    } else {
      forall n | 0 <= n < |w|
        ensures Nibble(s + rest, n) == w[n]
      {
        assert Nibble(s, n) == w[n];
      }
    }
  }

  /** The last weight, which is not written, and what all weights together stand for. */
  lemma ImpliedWeight(lens: seq<nat>, tableLog: nat, w: seq<byte>, longest: nat) returns (last: byte)
    requires Complete(lens, tableLog) && |lens| >= 2 && lens[|lens| - 1] > 0
    requires longest < |lens| && lens[longest] == tableLog
    requires w == Weights(lens, tableLog)[..|lens| - 1]
    ensures WholeTable(w + [last], tableLog) && LensOfWeights(w + [last], tableLog) == lens
  {
    hide Used, WeightSum;
    var all := Weights(lens, tableLog);
    CompleteWeights(lens, tableLog, longest);
    WeightsTwice(lens, tableLog);
    last := all[|lens| - 1];
    assert w + [last] == all;
  }

  /** Equal lengths make equal tables. */
  lemma SameTable(a: seq<nat>, b: seq<nat>, lens: seq<nat>, tableLog: nat)
    requires IsTable(a, lens, tableLog) && IsTable(b, lens, tableLog)
    ensures a[..|lens|] == b[..|lens|]
  {
    hide Elt, CodeOf;
  }

  /**
    For every complete table whose last symbol is in use and whose table log is its greatest length: if the
    description can be written, then reading it, whatever bytes follow, gives the header and the elements back.
   */
  method WriteThenRead(dst: array<byte>, ct: array<nat>, ct': array<nat>, maxSymbolValue: nat, huffLog: nat,
                       rest: seq<byte>, ghost lens: seq<nat>, ghost longest: nat)
    returns (written: Result<nat>, read: Result<TableInfo>)
    requires |lens| == maxSymbolValue + 1 && Complete(lens, huffLog) && IsTable(ct[..], lens, huffLog)
    requires lens[maxSymbolValue] > 0 && longest <= maxSymbolValue && lens[longest] == huffLog
    requires ct != ct' && ct'.Length >= HW_SIZE
    modifies dst, ct'
    ensures written.Ok? ==>
              read == Ok(TableInfo(written.value, huffLog, maxSymbolValue, exists s :: 0 <= s < |lens| && lens[s] == 0))
    ensures written.Ok? ==> IsTable(ct'[..], lens, huffLog) && ct'[..maxSymbolValue + 1] == ct[..maxSymbolValue + 1]
  {
    hide Complete, IsTable, Describes, WholeTable, LensOfWeights, Weights;
    TwoSymbols(lens, huffLog);
    ghost var w, c;
    written, w, c := WriteCTable(dst, 0, dst.Length, ct, maxSymbolValue, huffLog, lens);
    if written.Err? {
      return written, Err(Generic);
    }
    var s := dst[..written.value];
    assert dst[0..0 + dst.Length][..written.value] == s;
    ghost var last := ImpliedWeight(lens, huffLog, w, longest);
    DescribesMore(s, rest, w, c);
    ghost var lens';
    read, lens' := ReadCTable(ct', maxSymbolValue, s + rest, w, last, c, huffLog);
    SameTable(ct[..], ct'[..], lens, huffLog);
    TableLengths(ct, ct', maxSymbolValue + 1, lens, huffLog);
  }

  lemma TableLengths(a: array<nat>, b: array<nat>, n: nat, lens: seq<nat>, tableLog: nat)
    requires IsTable(a[..], lens, tableLog) && IsTable(b[..], lens, tableLog) && |lens| == n
    ensures n <= a.Length && n <= b.Length && a[..n] == a[..][..n] && b[..n] == b[..][..n]
  {
    hide Elt, CodeOf;
  }
}
