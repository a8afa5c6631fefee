/** The array of tree nodes that the Huffman builder works on. */
module HufNodes {

  /** nodeElt. */
  datatype Node = Node(count: nat, parent: nat, symbol: nat, nbBits: nat)

  ghost function Lengths(nodes: seq<Node>, size: nat): (b: seq<nat>)
    requires size <= |nodes|
  {
    seq(size, i requires 0 <= i < size => nodes[i].nbBits)
  }

  ghost function Counts(nodes: seq<Node>, size: nat): (w: seq<nat>)
    requires size <= |nodes|
  {
    seq(size, i requires 0 <= i < size => nodes[i].count)
  }

  ghost function Parents(nodes: seq<Node>, size: nat): (p: seq<nat>)
    requires size <= |nodes|
  {
    seq(size, i requires 0 <= i < size => nodes[i].parent)
  }

  /** `nodes` is `before` with the lengths b in its first |b| entries. */
  ghost predicate Relabelled(nodes: seq<Node>, before: seq<Node>, b: seq<nat>)
  {
    && |nodes| == |before| >= |b|
    && (forall i :: 0 <= i < |b| ==> nodes[i] == before[i].(nbBits := b[i]))
    && (forall i :: |b| <= i < |nodes| ==> nodes[i] == before[i])
  }
}
