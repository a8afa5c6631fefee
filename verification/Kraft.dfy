/** Code lengths and their Kraft sums, scaled by a power of two to stay whole. */
module Kraft {
  import opened Bits

  /** What one code of length `len` takes of a space of 2^scale codes. */
  function Share(scale: nat, len: nat): nat
  {
    if len <= scale then Pow2(scale - len) else 0
  }

  function Sum(b: seq<nat>, scale: nat): nat
  {
    if b == [] then 0 else Sum(b[..|b| - 1], scale) + Share(scale, b[|b| - 1])
  }

  ghost predicate Ascending(b: seq<nat>)
  {
    forall i, j :: 0 <= i < j < |b| ==> b[i] <= b[j]
  }

  lemma {:induction false} SumConcat(a: seq<nat>, b: seq<nat>, scale: nat)
    ensures Sum(a + b, scale) == Sum(a, scale) + Sum(b, scale)
  {
    if b == [] {
      assert a + b == a;
    } else {
      assert (a + b)[..|a + b| - 1] == a + b[..|b| - 1];
      SumConcat(a, b[..|b| - 1], scale);
    }
  }

  lemma {:induction false} SumUpdate(b: seq<nat>, i: nat, v: nat, scale: nat)
    requires i < |b|
    ensures Sum(b[i := v], scale) == Sum(b, scale) - Share(scale, b[i]) + Share(scale, v)
  {
    var c, m := b[i := v], |b| - 1;
    if i == m {
      assert c[..m] == b[..m];
    } else {
      assert c[..m] == b[..m][i := v];
      SumUpdate(b[..m], i, v, scale);
    }
  }

  lemma {:induction false} SumScale(b: seq<nat>, k: nat, scale: nat)
    requires forall i :: 0 <= i < |b| ==> b[i] <= scale
    ensures Sum(b, k + scale) == Pow2(k) * Sum(b, scale)
  {
    if b != [] {
      var m := |b| - 1;
      SumScale(b[..m], k, scale);
      Pow2Add(k, scale - b[m]);
      Spread(Pow2(k), Sum(b[..m], scale), Share(scale, b[m]));
    }
  }

  /** No more than |b| codes of the shortest length. */
  lemma {:induction false} SumAtMost(b: seq<nat>, lo: nat, scale: nat)
    requires lo <= scale && forall i :: 0 <= i < |b| ==> lo <= b[i]
    ensures Sum(b, scale) <= |b| * Pow2(scale - lo)
  {
    if b != [] {
      var m := |b| - 1;
      SumAtMost(b[..m], lo, scale);
      ShareAtMost(b[m], lo, scale);
      hide Share, Pow2;
      assert Sum(b, scale) == Sum(b[..m], scale) + Share(scale, b[m]);
      hide Sum;
      MulNext(m, Pow2(scale - lo));
    }
  }

  lemma ShareAtMost(len: nat, lo: nat, scale: nat)
    requires lo <= scale && lo <= len
    ensures Share(scale, len) <= Pow2(scale - lo)
  {
    if len <= scale {
      Pow2Mono(scale - len, scale - lo);
    }
  }

  lemma {:induction false} SumFlat(b: seq<nat>, len: nat, scale: nat)
    requires len <= scale && forall i :: 0 <= i < |b| ==> b[i] == len
    ensures Sum(b, scale) == |b| * Pow2(scale - len)
  {
    if b != [] {
      var m := |b| - 1;
      SumFlat(b[..m], len, scale);
      MulNext(m, Pow2(scale - len));
    }
  }

  /** The codes before z and the full-length ones from z on. */
  lemma SumTail(b: seq<nat>, z: nat, scale: nat)
    requires z <= |b| && forall i :: z <= i < |b| ==> b[i] == scale
    ensures Sum(b, scale) == Sum(b[..z], scale) + (|b| - z)
  {
    SumFlat(b[z..], scale, scale);
    SumConcat(b[..z], b[z..], scale);
    assert b == b[..z] + b[z..];
  }

  /** The bits it takes to write every symbol as often as it occurs. */
  function Weighted(counts: seq<nat>, b: seq<nat>): nat
    requires |counts| == |b|
  {
    if b == [] then 0
    else Weighted(counts[..|b| - 1], b[..|b| - 1]) + counts[|b| - 1] * b[|b| - 1]
  }

  /** A complete prefix code whose lengths ascend, with at least one code of the greatest length. */
  ghost predicate CompleteCode(b: seq<nat>, largest: nat)
  {
    && b != [] && Ascending(b) && b[|b| - 1] == largest
    && (forall i :: 0 <= i < |b| ==> 1 <= b[i])
    && Sum(b, largest) == Pow2(largest)
  }
}
