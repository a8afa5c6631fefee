/** The encoding table: code values from code lengths, and the table of a finished tree. */
module HufTable {
  import opened Bits
  import opened Counting
  import opened Kraft
  import opened HufNodes
  import opened HufContainer
  import opened HufCodes

  /** The table of the canonical code with these lengths. */
  ghost predicate IsTable(ct: seq<nat>, lens: seq<nat>, tableLog: nat)
  {
    && |lens| <= |ct| && tableLog <= TABLELOG_MAX
    && (forall s :: 0 <= s < |lens| ==> lens[s] <= tableLog && ct[s] == Elt(CodeOf(lens, tableLog, s)))
  }

  /** valPerRank before symbol n gets its value. */
  ghost predicate Values(val: seq<nat>, lens: seq<nat>, tableLog: nat, n: nat)
  {
    && tableLog < |val| && n <= |lens|
    && (forall k :: 1 <= k <= tableLog ==> val[k] == StartValue(lens, tableLog, k) + Count(lens, k, n))
  }

  /** The first value of every length, from nbPerRank. */
  method FirstValues(nbPerRank: array<nat>, valPerRank: array<nat>, tableLog: nat, ghost lens: seq<nat>)
    requires nbPerRank != valPerRank && tableLog < nbPerRank.Length && tableLog < valPerRank.Length
    requires forall k :: 1 <= k <= tableLog ==> nbPerRank[k] == Count(lens, k, |lens|)
    modifies valPerRank
    ensures Values(valPerRank[..], lens, tableLog, 0)
  {
    hide Count;
    var min := 0;
    var n := tableLog;
    while n > 0
      invariant 0 <= n <= tableLog && min == StartValue(lens, tableLog, n)
      invariant forall k :: n < k <= tableLog ==> valPerRank[k] == StartValue(lens, tableLog, k)
    {
      valPerRank[n] := min;
      min := min + nbPerRank[n];
      min := min / 2;
      n := n - 1;
    }
    NoneYet(lens);
  }

  lemma NoneYet(lens: seq<nat>)
    ensures forall k :: Count(lens, k, 0) == 0
  {
  }

  /** Gives every symbol of a table that holds only lengths its value, in symbol order within each length. */
  method AssignValues(ct: array<nat>, valPerRank: array<nat>, tableLog: nat, ghost lens: seq<nat>, alphabetSize: nat)
    requires ct != valPerRank && |lens| == alphabetSize <= ct.Length && Complete(lens, tableLog)
    requires forall s :: 0 <= s < |lens| ==> ct[s] == lens[s]
    requires Values(valPerRank[..], lens, tableLog, 0)
    modifies ct, valPerRank
    ensures IsTable(ct[..], lens, tableLog)
    ensures forall s :: |lens| <= s < ct.Length ==> ct[s] == old(ct[s])
  {
    hide StartValue, Used, Elt, CodeOf;
    for n := 0 to alphabetSize
      invariant Values(valPerRank[..], lens, tableLog, n)
      invariant forall s :: 0 <= s < n ==> ct[s] == Elt(CodeOf(lens, tableLog, s))
      invariant forall s :: n <= s < |lens| ==> ct[s] == lens[s]
      invariant forall s :: |lens| <= s < ct.Length ==> ct[s] == old(ct[s])
    {
      SmallLength(lens[n]);
      var nbBits := Low(ct[n], 8);
      var value := valPerRank[nbBits];
      ValueSet(lens, tableLog, n, value);
      valPerRank[nbBits] := valPerRank[nbBits] + 1;
      if nbBits > 0 {
        ct[n] := BitOr(ct[n], Shl(value, 64 - nbBits));
      }
    }
  }

  lemma SmallLength(len: nat)
    requires len <= TABLELOG_MAX
    ensures Low(len, 8) == len
  {
    Pow2Values();
    LowSmall(len, 8);
  }

  /** HUF_setValue on a symbol that has its length. */
  lemma ValueSet(lens: seq<nat>, tableLog: nat, n: nat, value: nat)
    requires Complete(lens, tableLog) && n < |lens| && lens[n] <= tableLog
    requires lens[n] > 0 ==> value == StartValue(lens, tableLog, lens[n]) + Count(lens, lens[n], n)
    ensures lens[n] <= TABLELOG_MAX
    ensures lens[n] == 0 ==> Elt(CodeOf(lens, tableLog, n)) == 0
    ensures lens[n] > 0 ==> Elt(CodeOf(lens, tableLog, n)) == BitOr(lens[n], Shl(value, 64 - lens[n]))
    ensures lens[n] > 0 ==> Shr(value, lens[n]) == 0
  {
    hide StartValue, Count, Used, BitOr, Shl, Shr, Pow2;
    if lens[n] > 0 {
      CodePosition(lens, tableLog, n);
      LowSmall(value, lens[n]);
    }
  }

  // ----- the lengths of the symbols of a tree -----

  /** The first n nodes are the symbols below n, each once; a symbol's length is that of its node. */
  ghost predicate Assigns(nodes: seq<Node>, lens: seq<nat>)
  {
    && |lens| <= |nodes|
    && (forall i :: 0 <= i < |lens| ==> nodes[i].symbol < |lens| && lens[nodes[i].symbol] == nodes[i].nbBits)
    && (forall i, j :: 0 <= i < j < |lens| ==> nodes[i].symbol != nodes[j].symbol)
  }

  ghost function Symbols(nodes: seq<Node>, size: nat): (v: seq<nat>)
    requires size <= |nodes|
    ensures |v| == size && forall i :: 0 <= i < size ==> v[i] == nodes[i].symbol
  {
    seq(size, i requires 0 <= i < size => nodes[i].symbol)
  }

  /** A length occurs as often among the symbols as among the nodes. */
  lemma SameCounts(nodes: seq<Node>, lens: seq<nat>, k: nat)
    requires Assigns(nodes, lens)
    ensures Count(lens, k, |lens|) == Count(Lengths(nodes, |lens|), k, |lens|)
  {
    var v := Symbols(nodes, |lens|);
    Pigeonhole(v, |lens|);
    CountAlong(lens, v, Lengths(nodes, |lens|), |lens|, k);
  }

  /** The entries used, length by length. */
  function ByLength(lens: seq<nat>, tableLog: nat, m: nat, k: nat): nat
    requires m <= |lens|
  {
    if k == 0 then 0 else ByLength(lens, tableLog, m, k - 1) + Count(lens, k, m) * Entries(tableLog, k)
  }

  lemma {:induction false} ByLengthStep(lens: seq<nat>, tableLog: nat, m: nat, k: nat)
    requires 0 < m <= |lens|
    ensures ByLength(lens, tableLog, m, k) ==
            ByLength(lens, tableLog, m - 1, k) + (if 0 < lens[m - 1] <= k then Entries(tableLog, lens[m - 1]) else 0)
  {
    if k > 0 {
      ByLengthStep(lens, tableLog, m, k - 1);
      MulNext(Count(lens, k, m - 1), Entries(tableLog, k));
    }
  }

  lemma {:induction false} ByLengthZero(lens: seq<nat>, tableLog: nat, k: nat)
    ensures ByLength(lens, tableLog, 0, k) == 0
  {
    if k > 0 {
      ByLengthZero(lens, tableLog, k - 1);
    }
  }

  lemma {:induction false} UsedByLength(lens: seq<nat>, tableLog: nat, m: nat)
    requires m <= |lens|
    ensures Used(lens, tableLog, m) == ByLength(lens, tableLog, m, tableLog)
  {
    if m == 0 {
      ByLengthZero(lens, tableLog, tableLog);
    } else {
      UsedByLength(lens, tableLog, m - 1);
      ByLengthStep(lens, tableLog, m, tableLog);
    }
  }

  lemma {:induction false} SameByLength(a: seq<nat>, b: seq<nat>, tableLog: nat, k: nat)
    requires |a| == |b| && forall n :: Count(a, n, |a|) == Count(b, n, |b|)
    ensures ByLength(a, tableLog, |a|, k) == ByLength(b, tableLog, |b|, k)
  {
    if k > 0 {
      SameByLength(a, b, tableLog, k - 1);
    }
  }

  /** The Kraft sum of the codes in use is the number of table entries used. */
  lemma {:induction false} SumIsUsed(b: seq<nat>, m: nat, tableLog: nat)
    requires m <= |b| && forall i :: 0 <= i < m ==> 1 <= b[i] <= tableLog
    ensures Kraft.Sum(b[..m], tableLog) == Used(b, tableLog, m)
  {
    if m > 0 {
      SumIsUsed(b, m - 1, tableLog);
      assert b[..m][..m - 1] == b[..m - 1];
    }
  }

  lemma {:induction false} UnusedTail(b: seq<nat>, m: nat, n: nat, tableLog: nat)
    requires m <= n <= |b| && forall i :: m <= i < n ==> b[i] == 0
    ensures Used(b, tableLog, n) == Used(b, tableLog, m)
  {
    if m < n {
      UnusedTail(b, m, n - 1, tableLog);
    }
  }

  /** The lengths of a complete tree make the symbols a complete code. */
  lemma TreeLengths(nodes: seq<Node>, lens: seq<nat>, used: nat, tableLog: nat)
    requires Assigns(nodes, lens) && 0 < used <= |lens| && 1 <= tableLog <= TABLELOG_MAX
    requires CompleteCode(Lengths(nodes, used), tableLog)
    requires forall i :: used <= i < |lens| ==> nodes[i].nbBits == 0
    ensures Complete(lens, tableLog)
  {
    var b := Lengths(nodes, |lens|);
    assert b[..used] == Lengths(nodes, used);
    assert forall i :: 0 <= i < used ==> b[i] == b[..used][i];
    SumIsUsed(b, used, tableLog);
    UnusedTail(b, used, |lens|, tableLog);
    hide Count, Used, Kraft.Sum;
    forall k
      ensures Count(lens, k, |lens|) == Count(b, k, |b|)
    {
      SameCounts(nodes, lens, k);
    }
    SameByLength(lens, b, tableLog, tableLog);
    UsedByLength(lens, tableLog, |lens|);
    UsedByLength(b, tableLog, |b|);
    var v := Symbols(nodes, |lens|);
    Pigeonhole(v, |lens|);
    forall s | 0 <= s < |lens|
      ensures lens[s] <= tableLog
    {
      assert s in v;
      var i :| 0 <= i < |v| && v[i] == s;
      assert lens[nodes[i].symbol] == nodes[i].nbBits;
      if i < used {
        assert b[..used][i] <= b[..used][used - 1];
      }
    }
  }

  /** HUF_buildCTableFromTree. */
  method BuildCTableFromTree(ct: array<nat>, huffNode: array<Node>, nonNullRank: nat, maxSymbolValue: nat,
                             maxNbBits: nat, ghost lens: seq<nat>)
    requires nonNullRank <= maxSymbolValue && maxSymbolValue + 1 == |lens| <= ct.Length && |lens| <= huffNode.Length
    requires 1 <= maxNbBits <= TABLELOG_MAX && Assigns(huffNode[..], lens)
    requires CompleteCode(Lengths(huffNode[..], nonNullRank + 1), maxNbBits)
    requires forall i :: nonNullRank < i < |lens| ==> huffNode[i].nbBits == 0
    modifies ct
    ensures Complete(lens, maxNbBits) && IsTable(ct[..], lens, maxNbBits)
    ensures forall s :: |lens| <= s < ct.Length ==> ct[s] == old(ct[s])
  {
    hide StartValue, Used, CompleteCode, Assigns, IsTable;
    ghost var nodes := huffNode[..];
    TreeLengths(nodes, lens, nonNullRank + 1, maxNbBits);
    var nbPerRank := new nat[TABLELOG_MAX + 1](i => 0);
    var valPerRank := new nat[TABLELOG_MAX + 1](i => 0);
    CountLengths(huffNode, nonNullRank, nbPerRank, maxNbBits, lens);
    FirstValues(nbPerRank, valPerRank, maxNbBits, lens);
    SetLengths(ct, huffNode, maxSymbolValue + 1, lens);
    AssignValues(ct, valPerRank, maxNbBits, lens, maxSymbolValue + 1);
  }

  /** How many nodes have each length. */
  method CountLengths(huffNode: array<Node>, nonNullRank: nat, nbPerRank: array<nat>, tableLog: nat,
                      ghost lens: seq<nat>)
    requires nonNullRank < |lens| <= huffNode.Length && Assigns(huffNode[..], lens) && Complete(lens, tableLog)
    requires forall i :: nonNullRank < i < |lens| ==> huffNode[i].nbBits == 0
    requires nbPerRank.Length == TABLELOG_MAX + 1 && forall k :: 0 <= k < nbPerRank.Length ==> nbPerRank[k] == 0
    modifies nbPerRank
    ensures forall k :: 1 <= k <= tableLog ==> nbPerRank[k] == Count(lens, k, |lens|)
  {
    hide Used;
    ghost var nodes := huffNode[..];
    ghost var b := Lengths(nodes, |lens|);
    for n := 0 to nonNullRank + 1
      invariant forall k :: 0 <= k < nbPerRank.Length ==> nbPerRank[k] == Count(b, k, n)
    {
      assert lens[nodes[n].symbol] == b[n];
      nbPerRank[huffNode[n].nbBits] := nbPerRank[huffNode[n].nbBits] + 1;
    }
    forall k | 1 <= k <= tableLog
      ensures nbPerRank[k] == Count(lens, k, |lens|)
    {
      CountNone(b, k, nonNullRank + 1, |lens|);
      SameCounts(nodes, lens, k);
    }
  }

  /** Pushes the length of every symbol, in symbol order. */
  method SetLengths(ct: array<nat>, huffNode: array<Node>, alphabetSize: nat, ghost lens: seq<nat>)
    requires alphabetSize == |lens| <= ct.Length && |lens| <= huffNode.Length && Assigns(huffNode[..], lens)
    modifies ct
    ensures forall s :: 0 <= s < |lens| ==> ct[s] == lens[s]
    ensures forall s :: |lens| <= s < ct.Length ==> ct[s] == old(ct[s])
  {
    ghost var v := Symbols(huffNode[..], |lens|);
    for n := 0 to alphabetSize
      invariant forall i :: 0 <= i < n ==> v[i] < |lens| && ct[v[i]] == lens[v[i]]
      invariant forall s :: |lens| <= s < ct.Length ==> ct[s] == old(ct[s])
    {
      assert lens[v[n]] == huffNode[n].nbBits && v[n] == huffNode[n].symbol;
      ct[huffNode[n].symbol] := huffNode[n].nbBits;
    }
    Pigeonhole(v, |lens|);
    forall s | 0 <= s < |lens|
      ensures ct[s] == lens[s]
    {
      assert s in v;
    }
  }
}
