/** Prefix codes and the Kraft inequality. */
module PrefixCode {
  import opened Bits
  import opened Kraft

  /** Neither code is the beginning of the other. */
  predicate Apart(a: seq<bool>, b: seq<bool>)
  {
    !(a <= b) && !(b <= a)
  }

  ghost predicate PrefixFree(codes: seq<seq<bool>>)
  {
    forall i, j :: 0 <= i < j < |codes| ==> Apart(codes[i], codes[j])
  }

  ghost function LengthsOf(codes: seq<seq<bool>>): (b: seq<nat>)
    ensures |b| == |codes| && forall i :: 0 <= i < |b| ==> b[i] == |codes[i]|
  {
    seq(|codes|, i requires 0 <= i < |codes| => |codes[i]|)
  }

  /** No prefix code takes fewer bits than lengths b for symbols with these counts. */
  ghost predicate Optimal(counts: seq<nat>, b: seq<nat>)
    requires |counts| == |b|
  {
    forall codes: seq<seq<bool>> :: |codes| == |counts| && PrefixFree(codes) ==>
      Weighted(counts, b) <= Weighted(counts, LengthsOf(codes))
  }

  /** What follows `bit` in the codes that start with it. */
  ghost function Tails(codes: seq<seq<bool>>, bit: bool): seq<seq<bool>>
  {
    if codes == [] then []
    else
      var last := codes[|codes| - 1];
      Tails(codes[..|codes| - 1], bit) + (if last != [] && last[0] == bit then [last[1..]] else [])
  }

  lemma {:induction false} TailsMembers(codes: seq<seq<bool>>, bit: bool, t: seq<bool>)
    requires t in Tails(codes, bit)
    ensures [bit] + t in codes
  {
    var front, last := codes[..|codes| - 1], codes[|codes| - 1];
    if t in Tails(front, bit) {
      TailsMembers(front, bit, t);
    } else {
      assert [bit] + t == last;
    }
  }

  lemma ExtendFree(front: seq<seq<bool>>, last: seq<bool>)
    requires PrefixFree(front) && forall i :: 0 <= i < |front| ==> Apart(front[i], last)
    ensures PrefixFree(front + [last])
  {
  }

  lemma TailApart(bit: bool, t: seq<bool>, last: seq<bool>)
    requires last != [] && last[0] == bit && Apart([bit] + t, last)
    ensures Apart(t, last[1..])
  {
    var c := [bit] + t;
    assert t <= last[1..] ==> c <= last;
    assert last[1..] <= t ==> last <= c;
  }

  lemma {:induction false} TailsFree(codes: seq<seq<bool>>, bit: bool)
    requires PrefixFree(codes)
    ensures PrefixFree(Tails(codes, bit))
  {
    if codes != [] {
      var front, last := codes[..|codes| - 1], codes[|codes| - 1];
      var tails := Tails(front, bit);
      TailsFree(front, bit);
      if last != [] && last[0] == bit {
        forall i | 0 <= i < |tails|
          ensures Apart(tails[i], last[1..])
        {
          TailsMembers(front, bit, tails[i]);
          var k :| 0 <= k < |front| && front[k] == [bit] + tails[i];
          assert Apart(codes[k], codes[|codes| - 1]);
          TailApart(bit, tails[i], last);
        }
        ExtendFree(tails, last[1..]);
      }
    }
  }

  lemma {:induction false} TailsShare(codes: seq<seq<bool>>, scale: nat)
    requires forall i :: 0 <= i < |codes| ==> codes[i] != []
    ensures Sum(LengthsOf(codes), scale + 1) ==
            Sum(LengthsOf(Tails(codes, false)), scale) + Sum(LengthsOf(Tails(codes, true)), scale)
  {
    if codes != [] {
      var front, last := codes[..|codes| - 1], codes[|codes| - 1];
      TailsShare(front, scale);
      assert LengthsOf(codes)[..|codes| - 1] == LengthsOf(front);
      OneMore(Tails(front, last[0]), last[1..], scale);
      assert Tails(codes, last[0]) == Tails(front, last[0]) + [last[1..]];
      assert Tails(codes, !last[0]) == Tails(front, !last[0]);
      assert Share(scale + 1, |last|) == Share(scale, |last[1..]|);
    }
  }

  lemma OneMore(front: seq<seq<bool>>, last: seq<bool>, scale: nat)
    ensures Sum(LengthsOf(front + [last]), scale) == Sum(LengthsOf(front), scale) + Share(scale, |last|)
  {
    hide Share;
    assert LengthsOf(front + [last])[..|front|] == LengthsOf(front);
  }

  lemma NothingBeside(codes: seq<seq<bool>>, i: nat)
    requires PrefixFree(codes) && i < |codes| && codes[i] == []
    ensures |codes| == 1
  {
    var first, last := codes[0], codes[|codes| - 1];
    assert !Apart(first, []) && !Apart([], last);
    AllApart(codes, 0, i);
    AllApart(codes, i, |codes| - 1);
  }

  lemma AllApart(codes: seq<seq<bool>>, i: nat, j: nat)
    requires PrefixFree(codes)
    ensures i < j < |codes| ==> Apart(codes[i], codes[j])
  {
  }

  /** The Kraft inequality. */
  lemma {:induction false} KraftInequality(codes: seq<seq<bool>>, scale: nat)
    requires PrefixFree(codes)
    ensures Sum(LengthsOf(codes), scale) <= Pow2(scale)
    decreases scale
  {
    if i :| 0 <= i < |codes| && codes[i] == [] {
      NothingBeside(codes, i);
      assert LengthsOf(codes) == [0];
      assert Sum([0], scale) == Share(scale, 0);
    } else if scale == 0 {
      NoRoom(LengthsOf(codes));
    } else {
      TailsShare(codes, scale - 1);
      TailsFree(codes, false);
      TailsFree(codes, true);
      KraftInequality(Tails(codes, false), scale - 1);
      KraftInequality(Tails(codes, true), scale - 1);
    }
  }

  lemma {:induction false} NoRoom(b: seq<nat>)
    requires forall i :: 0 <= i < |b| ==> b[i] > 0
    ensures Sum(b, 0) == 0
  {
    if b != [] {
      NoRoom(b[..|b| - 1]);
    }
  }

  lemma LongestOf(b: seq<nat>) returns (scale: nat)
    ensures forall i :: 0 <= i < |b| ==> b[i] <= scale
  {
    scale := 0;
    for k := 0 to |b|
      invariant forall i :: 0 <= i < k ==> b[i] <= scale
    {
      scale := Max(scale, b[k]);
    }
  }

  /** Lengths that no lengths within the Kraft inequality beat are optimal among prefix codes. */
  lemma OptimalByKraft(counts: seq<nat>, b: seq<nat>)
    requires |counts| == |b|
    requires forall L: seq<nat>, scale: nat ::
               |L| == |b| && (forall i :: 0 <= i < |L| ==> L[i] <= scale) && Sum(L, scale) <= Pow2(scale) ==>
                 Weighted(counts, b) <= Weighted(counts, L)
    ensures Optimal(counts, b)
  {
    forall codes: seq<seq<bool>> | |codes| == |counts| && PrefixFree(codes)
      ensures Weighted(counts, b) <= Weighted(counts, LengthsOf(codes))
    {
      var scale := LongestOf(LengthsOf(codes));
      KraftInequality(codes, scale);
    }
  }
}
