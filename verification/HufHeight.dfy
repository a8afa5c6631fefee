/** HUF_setMaxHeight: limits the lengths of a Huffman code and makes the code complete again. */
module HufHeight {
  import opened Bits
  import opened Kraft
  import opened HufNodes
  import opened HufContainer

  const NO_SYMBOL := 0xF0F0F0F0

  // ----- the state while the cost is repaid -----

  /**
    Lengths between 1 and target, ascending; those from z on are `target` long (rank 0).
    They take `cost` more than the whole space of codes, and rank 0 has more symbols than |cost|.
   */
  ghost predicate Level(b: seq<nat>, target: nat, z: nat, cost: int)
  {
    && Ascending(b)
    && z <= |b|
    && (forall i :: 0 <= i < |b| ==> 1 <= b[i] <= target)
    && (forall i :: 0 <= i < |b| ==> (b[i] == target <==> z <= i))
    && Sum(b, target) == Pow2(target) + cost
    && |b| - z > Abs(cost)
  }

  /** `last` is the last symbol of rank r, that is, with length target - r. */
  ghost predicate RankEnd(b: seq<nat>, target: nat, r: nat, last: nat)
  {
    if last == NO_SYMBOL then
      forall i :: 0 <= i < |b| ==> b[i] + r != target
    else
      && last < |b| && b[last] + r == target
      && (forall i :: last < i < |b| ==> b[i] + r > target)
  }

  ghost predicate RankEnds(b: seq<nat>, target: nat, rankLast: seq<nat>)
  {
    && |rankLast| == TABLELOG_MAX + 2
    && (forall r :: 1 <= r < |rankLast| ==> RankEnd(b, target, r, rankLast[r]))
  }

  /** As long as there is something to repay, some code is shorter than target. */
  lemma SomeShorter(b: seq<nat>, target: nat, z: nat, cost: int)
    requires Level(b, target, z, cost) && cost > 0 && |b| <= Pow2(target)
    ensures z > 0
  {
    SumTail(b, z, target);
    assert Sum(b[..0], target) == 0;
  }

  /**
    Why there are enough rank 0 symbols to give back an overshoot: k is the rank popped when the
    gain 2^(k-1) exceeds the cost, with ranks 1 to k - 1 empty.
   */
  lemma EnoughRankZero(b: seq<nat>, target: nat, z: nat, cost: int, k: nat)
    requires Level(b, target, z, cost) && 1 <= k <= target && 0 < cost < Pow2(k - 1)
    requires forall i :: 0 <= i < z ==> b[i] + k <= target
    ensures var overshoot := Pow2(k - 1) - cost;
            && 0 < overshoot < Pow2(k - 1)
            && (|b| - z + overshoot) % Pow2(k - 1) == 0
            && |b| - z > overshoot
  {
    hide *;
    var d := RankZeroSurplus(b, target, z, cost, k);
    TwiceHalf(k);
    SurplusRepays(|b| - z, Pow2(k - 1), d, cost);
  }

  /** What rank 0 has beyond the cost is a positive multiple of 2^k, because all other codes are k shorter. */
  lemma RankZeroSurplus(b: seq<nat>, target: nat, z: nat, cost: int, k: nat) returns (d: nat)
    requires Level(b, target, z, cost) && 1 <= k <= target && 0 < cost
    requires forall i :: 0 <= i < z ==> b[i] + k <= target
    ensures z <= |b| && d >= 1 && |b| - z - cost == Pow2(k) * d
  {
    hide Sum, Pow2, Ascending;
    var front := b[..z];
    SumTail(b, z, target);
    SumScale(front, k, target - k);
    Pow2Add(k, target - k);
    var whole, used := Pow2(target - k), Sum(front, target - k);
    MultipleOf(Pow2(k), whole, used, |b| - z - cost);
    d := whole - used;
  }

  lemma MultipleOf(unit: nat, whole: nat, used: nat, surplus: int)
    requires unit > 0 && surplus > 0 && unit * used + surplus == unit * whole
    ensures whole > used && surplus == unit * (whole - used)
  {
    hide *;
    Spread(unit, whole - used, used);
    MulCommutes(unit, whole - used);
    if whole <= used {
      MulAtLeast(used - whole, unit);
      MulCommutes(unit, used - whole);
      Spread(unit, used - whole, whole);
    }
  }

  lemma SurplusRepays(n: int, half: nat, d: nat, cost: int)
    requires half > 0 && d >= 1 && 0 < cost < half && n - cost == (2 * half) * d
    ensures (n + (half - cost)) % half == 0 && n > half - cost
  {
    hide *;
    MulCommutes(2 * half, d);
    MulAssoc(d, 2, half);
    MulCommutes(d, 2);
    MulAtLeast(2 * d, half);
    MulCommutes(half, 2 * d);
    Spread(half, 2 * d, 1);
    MulCommutes(half, 2 * d + 1);
    MulDivCancel(2 * d + 1, half);
  }

  // ----- one step of the repayment -----

  /** Moving the last symbol of rank k one rank down gains 2^(k-1). */
  lemma MoveDownKeeps(b: seq<nat>, target: nat, z: nat, cost: int, k: nat, at: nat)
    requires Level(b, target, z, cost) && cost > 0 && 1 <= k
    requires at < |b| && b[at] + k == target
    requires forall i :: at < i < |b| ==> b[i] + k > target
    requires |b| - z > Abs(cost - Pow2(k - 1))
    ensures Level(b[at := b[at] + 1], target, if k == 1 then at else z, cost - Pow2(k - 1))
  {
    hide Pow2, Sum;
    SumUpdate(b, at, b[at] + 1, target);
    TwiceHalf(k);
    var c := b[at := b[at] + 1];
    assert Ascending(c);
  }

  /** A rank 0 symbol, the first one, becomes a rank 1 symbol. */
  lemma GiveBackKeeps(b: seq<nat>, target: nat, z: nat, cost: int)
    requires Level(b, target, z, cost) && cost < 0 && z > 0
    ensures b[z] == target && b[z - 1] < target
    ensures Level(b[z := target - 1], target, z + 1, cost + 1)
  {
    hide Sum;
    SumUpdate(b, z, target - 1, target);
  }

  /** rankLast after the last symbol of rank k has moved to rank k - 1. */
  function RankLastMoved(rankLast: seq<nat>, k: nat, moved: bool): seq<nat>
    requires 1 <= k < |rankLast|
  {
    var at := rankLast[k];
    var lower := if rankLast[k - 1] == NO_SYMBOL then at else rankLast[k - 1];
    rankLast[k - 1 := lower][k := if moved && at > 0 then at - 1 else NO_SYMBOL]
  }

  lemma MoveDownRanks(b: seq<nat>, target: nat, rankLast: seq<nat>, k: nat)
    requires Ascending(b) && RankEnds(b, target, rankLast) && |b| < NO_SYMBOL
    requires 1 <= k < |rankLast| && rankLast[k] != NO_SYMBOL
    ensures var at := rankLast[k];
            var c := b[at := b[at] + 1];
            RankEnds(c, target, RankLastMoved(rankLast, k, at > 0 && c[at - 1] + k == target))
  {
    var at := rankLast[k];
    assert RankEnd(b, target, k, at);
    var c := b[at := b[at] + 1];
    var ends := RankLastMoved(rankLast, k, at > 0 && c[at - 1] + k == target);
    forall r | 1 <= r < |ends|
      ensures RankEnd(c, target, r, ends[r])
    {
      assert RankEnd(b, target, r, rankLast[r]);
    }
  }

  // ----- clamping -----

  function Clamped(b: seq<nat>, target: nat): (c: seq<nat>)
    ensures |c| == |b| && forall i :: 0 <= i < |b| ==> c[i] == if b[i] > target then target else b[i]
  {
    seq(|b|, i requires 0 <= i < |b| => if b[i] > target then target else b[i])
  }

  /** Not every code can be longer than target, because there are at most 2^target of them. */
  lemma SomeFit(b: seq<nat>, largest: nat, target: nat)
    requires CompleteCode(b, largest) && target < largest && |b| <= Pow2(target)
    ensures b[0] <= target
  {
    if b[0] > target {
      SumAtMost(b, target + 1, largest);
      Pow2Add(target, largest - target - 1);
      TwiceHalf(largest);
      hide *;
      MulMono(|b|, Pow2(target), Pow2(largest - target - 1));
    }
  }

  /** Lengths that take more than the space cannot all be `target`. */
  lemma SomeStayShorter(c: seq<nat>, target: nat, k: nat, cost: int)
    requires c != [] && |c| <= Pow2(target) && Ascending(c) && forall i :: 0 <= i < |c| ==> c[i] <= target
    requires cost > 0 && Sum(c, k + target) == Pow2(k + target) + cost
    ensures c[0] < target
  {
    if c[0] == target {
      SumFlat(c, target, k + target);
      Pow2Add(target, k);
      hide *;
      MulMono(|c|, Pow2(target), Pow2(k));
    }
  }

  /** The cost is a multiple of 2^k, and dividing it renormalizes it from 2^(k+target) to 2^target. */
  lemma CostIsMultiple(c: seq<nat>, target: nat, k: nat, cost: int)
    requires cost > 0 && forall i :: 0 <= i < |c| ==> c[i] <= target
    requires Sum(c, k + target) == Pow2(k + target) + cost
    ensures Low(cost, k) == 0 && Shr(cost, k) > 0
    ensures Sum(c, target) == Pow2(target) + Shr(cost, k)
    ensures Shr(cost, k) * Pow2(k) == cost
  {
    SumScale(c, k, target);
    Pow2Add(k, target);
    hide *;
    var d := Sum(c, target) - Pow2(target);
    Spread(Pow2(k), d, Pow2(target));
    assert cost == Pow2(k) * d;
    MulCommutes(Pow2(k), d);
    MulAtLeast(d, Pow2(k));
    assert d >= 1 by {
      if d == 0 {
      }
    }
    ShrUnique(cost, k, d, 0);
  }

  lemma CostBelowClamped(cost: int, clamped: nat, base: nat, unit: int)
    requires cost * base == unit && unit < clamped * base
    ensures cost < clamped
  {
    if clamped <= cost {
      MulMono(clamped, cost, base);
    }
  }

  /** Clamping one more length to target. */
  lemma ClampStep(cur: seq<nat>, n: nat, target: nat, largest: nat, totalCost: int)
    requires n < |cur| && target < cur[n] <= largest
    requires Sum(cur, largest) == Pow2(largest) + totalCost
    ensures Sum(cur[n := target], largest) ==
              Pow2(largest) + totalCost + (Pow2(largest - target) - Pow2(largest - cur[n]))
    ensures Pow2(largest - cur[n]) < Pow2(largest - target)
  {
    SumUpdate(cur, n, target, largest);
    Pow2Strict(largest - cur[n], largest - target);
  }

  lemma CompleteAscends(b: seq<nat>, largest: nat)
    requires CompleteCode(b, largest)
    ensures Ascending(b) && Sum(b, largest) == Pow2(largest) && forall i :: 0 <= i < |b| ==> b[i] <= largest
  {
    assert forall i :: 0 <= i < |b| ==> b[i] <= b[|b| - 1];
  }

  /**
    Clamps the lengths above target, from the last symbol up, and adds up what that costs in units of 2^-largest.
    `peak` is the largest number on the way.
   */
  method ClampLong(huffNode: array<Node>, size: nat, target: nat) returns (n: int, totalCost: int, ghost peak: nat)
    requires 1 <= size <= huffNode.Length && size <= Pow2(target)
    requires CompleteCode(Lengths(huffNode[..], size), huffNode[size - 1].nbBits) && target < huffNode[size - 1].nbBits
    modifies huffNode
    ensures 0 <= n < size - 1
    ensures var b, largest := Lengths(old(huffNode[..]), size), old(huffNode[size - 1].nbBits);
            var c := Clamped(b, target);
            && Relabelled(huffNode[..], old(huffNode[..]), c)
            && Sum(c, largest) == Pow2(largest) + totalCost
            && 0 < totalCost < (size - 1 - n) * Pow2(largest - target)
            && (forall i :: n < i < size ==> c[i] == target)
    ensures peak <= Pow2(old(huffNode[size - 1].nbBits))
  {
    hide Sum, Pow2, CompleteCode;
    ghost var before := huffNode[..];
    ghost var b := Lengths(before, size);
    var largestBits := huffNode[size - 1].nbBits;
    SomeFit(b, largestBits, target);
    CompleteAscends(b, largestBits);
    totalCost := 0;
    var baseCost := Pow2(largestBits - target);
    n := size - 1;
    peak := baseCost;
    WholeSpace(size, target, largestBits);
    ghost var cur: seq<nat> := b;
    while huffNode[n].nbBits > target
      invariant 0 <= n < size && |cur| == size
      invariant Relabelled(huffNode[..], before, cur)
      invariant forall i :: 0 <= i <= n ==> cur[i] == b[i]
      invariant forall i :: n < i < size ==> cur[i] == target && target < b[i]
      invariant Sum(cur, largestBits) == Pow2(largestBits) + totalCost
      invariant n < size - 1 ==> 0 < totalCost < (size - 1 - n) * baseCost
      invariant n == size - 1 ==> totalCost == 0
      invariant peak <= Pow2(largestBits)
      decreases n
    {
      ClampStep(cur, n, target, largestBits, totalCost);
      MulNext(size - 1 - n, baseCost);
      var shifted := Pow2(largestBits - huffNode[n].nbBits);
      totalCost := totalCost + (baseCost - shifted);
      MulMono(size - n, size, baseCost);
      peak := Max(peak, Max(shifted, totalCost));
      huffNode[n] := huffNode[n].(nbBits := target);
      cur := cur[n := target];
      n := n - 1;
    }
    assert cur == Clamped(b, target);
  }

  /** All symbols together cost no more than the whole space. */
  lemma WholeSpace(size: nat, target: nat, largest: nat)
    requires size <= Pow2(target) && target <= largest
    ensures size * Pow2(largest - target) <= Pow2(largest) && Pow2(largest - target) <= Pow2(largest)
  {
    hide *;
    Pow2Add(target, largest - target);
    Pow2Mono(largest - target, largest);
    MulMono(size, Pow2(target), Pow2(largest - target));
  }

  /** Clamping, and the cost renormalized to units of 2^-target; n is the last symbol with a shorter code. */
  method Clamp(huffNode: array<Node>, size: nat, target: nat) returns (n: int, totalCost: int, ghost peak: nat)
    requires 1 <= size <= huffNode.Length && size <= Pow2(target)
    requires CompleteCode(Lengths(huffNode[..], size), huffNode[size - 1].nbBits) && target < huffNode[size - 1].nbBits
    modifies huffNode
    ensures var c := Clamped(Lengths(old(huffNode[..]), size), target);
            && Relabelled(huffNode[..], old(huffNode[..]), c)
            && 0 <= n < size && totalCost > 0 && Level(c, target, n + 1, totalCost)
    ensures peak <= Pow2(old(huffNode[size - 1].nbBits))
  {
    hide Sum, Pow2, CompleteCode, Level, Ascending;
    var largestBits := huffNode[size - 1].nbBits;
    ghost var b := Lengths(huffNode[..], size);
    ghost var c := Clamped(b, target);
    n, totalCost, peak := ClampLong(huffNode, size, target);
    ghost var clamped := size - 1 - n;
    var k := largestBits - target;
    ClampedAscends(b, target, largestBits);
    SomeStayShorter(c, target, k, totalCost);
    while huffNode[n].nbBits == target
      invariant 0 <= n < size && n <= size - 1 - clamped
      invariant forall i :: n < i < size ==> c[i] == target
      decreases n
    {
      n := n - 1;
    }
    ClampedLevel(b, target, largestBits, n, clamped, totalCost);
    totalCost := Shr(totalCost, k);
  }

  /** The clamped lengths and the renormalized cost are a level of the repayment. */
  lemma ClampedLevel(b: seq<nat>, target: nat, largest: nat, n: nat, clamped: nat, totalCost: int)
    requires CompleteCode(b, largest) && target < largest && n < |b| && n + 1 + clamped <= |b| && target >= 1
    requires var c := Clamped(b, target);
             && Sum(c, largest) == Pow2(largest) + totalCost && 0 < totalCost < clamped * Pow2(largest - target)
             && c[n] != target && (forall i :: n < i < |b| ==> c[i] == target)
    ensures var cost := Shr(totalCost, largest - target); cost > 0 && Level(Clamped(b, target), target, n + 1, cost)
  {
    hide Sum, Pow2, CompleteCode, Shr;
    var c, k := Clamped(b, target), largest - target;
    CompleteAscends(b, largest);
    CompletePositive(b, largest);
    CostIsMultiple(c, target, k, totalCost);
    CostBelowClamped(Shr(totalCost, k), clamped, Pow2(k), totalCost);
  }

  lemma ClampedAscends(b: seq<nat>, target: nat, largest: nat)
    requires CompleteCode(b, largest)
    ensures Ascending(Clamped(b, target))
  {
    hide Sum, Pow2;
  }

  lemma CompletePositive(b: seq<nat>, largest: nat)
    requires CompleteCode(b, largest)
    ensures forall i :: 0 <= i < |b| ==> 1 <= b[i]
  {
  }

  // ----- the last symbol of each rank -----

  /** Fills rankLast by a scan down from n, the last symbol whose code is shorter than target. */
  method FindRankEnds(huffNode: array<Node>, n: int, target: nat, rankLast: array<nat>, ghost b: seq<nat>)
    requires 0 <= n < |b| <= huffNode.Length && |b| < NO_SYMBOL && Ascending(b)
    requires forall i :: 0 <= i < |b| ==> huffNode[i].nbBits == b[i] && 1 <= b[i] <= target
    requires b[n] < target <= TABLELOG_MAX && forall i :: n < i < |b| ==> b[i] == target
    requires rankLast.Length == TABLELOG_MAX + 2
    modifies rankLast
    ensures RankEnds(b, target, rankLast[..])
  {
    forall r | 0 <= r < rankLast.Length {
      rankLast[r] := NO_SYMBOL;
    }
    var currentNbBits := target;
    var pos := n;
    while pos >= 0
      invariant -1 <= pos <= n && 1 <= currentNbBits <= target
      invariant currentNbBits < target ==> pos + 1 < |b| && b[pos + 1] == currentNbBits
      invariant currentNbBits == target ==> pos == n
      invariant forall r :: 1 <= r < rankLast.Length ==>
        if r + currentNbBits > target then rankLast[r] == NO_SYMBOL else RankEnd(b, target, r, rankLast[r])
      decreases pos
    {
      if huffNode[pos].nbBits < currentNbBits {
        forall r | 1 <= r < rankLast.Length && r + huffNode[pos].nbBits < target < r + currentNbBits
          ensures RankEnd(b, target, r, NO_SYMBOL)
        {
        }
        currentNbBits := huffNode[pos].nbBits;
        rankLast[target - currentNbBits] := pos;
      }
      pos := pos - 1;
    }
  }

  // ----- repaying -----

  /** A cost to repay is below 2^target, so its rank is one that rankLast has. */
  lemma FirstRank(size: nat, target: nat, cost: int)
    requires 0 < cost < size <= Pow2(target) && target <= TABLELOG_MAX
    ensures HighBit(cost) + 1 <= target
  {
    if HighBit(cost) >= target {
      Pow2Mono(target, HighBit(cost));
    }
  }

  /** It is no dearer to lengthen the last code of rank r than the last two of the next lower rank. */
  ghost predicate Pays(nodes: seq<Node>, size: nat, rankLast: seq<nat>, r: nat)
  {
    && 1 < r < |rankLast| && rankLast[r] < size <= |nodes|
    && (rankLast[r - 1] < size ==> nodes[rankLast[r]].count <= 2 * nodes[rankLast[r - 1]].count)
  }

  lemma PaysMeans(nodes: seq<Node>, size: nat, rankLast: seq<nat>, r: nat)
    requires 1 < r < |rankLast| && size <= |nodes|
    ensures rankLast[r] >= size ==> !Pays(nodes, size, rankLast, r)
    ensures rankLast[r] < size <= rankLast[r - 1] ==> Pays(nodes, size, rankLast, r)
    ensures rankLast[r] < size && rankLast[r - 1] < size ==>
              (Pays(nodes, size, rankLast, r) <==> nodes[rankLast[r]].count <= 2 * nodes[rankLast[r - 1]].count)
  {
  }

  /**
    The rank to take a symbol from. Either it has a gain within the cost,
    or all the ranks below it are empty.
   */
  method ChooseRank(huffNode: array<Node>, rankLast: array<nat>, totalCost: int, target: nat, ghost b: seq<nat>,
                    ghost z: nat) returns (nBitsToDecrease: nat)
    requires |b| <= huffNode.Length && |b| < NO_SYMBOL && |b| <= Pow2(target) && target <= TABLELOG_MAX
    requires Level(b, target, z, totalCost) && totalCost > 0
    requires RankEnds(b, target, rankLast[..])
    ensures 1 <= nBitsToDecrease <= TABLELOG_MAX && rankLast[nBitsToDecrease] != NO_SYMBOL
    ensures Pow2(nBitsToDecrease - 1) <= totalCost || forall r :: 1 <= r < nBitsToDecrease ==> rankLast[r] == NO_SYMBOL
    ensures forall r :: nBitsToDecrease < r <= HighBit(totalCost) + 1 ==> !Pays(huffNode[..], |b|, rankLast[..], r)
    ensures Pays(huffNode[..], |b|, rankLast[..], nBitsToDecrease)
            || forall r :: 1 <= r < nBitsToDecrease ==> rankLast[r] == NO_SYMBOL
  {
    hide Sum, Pow2, HighBit, Pays, Ascending;
    SomeShorter(b, target, z, totalCost);
    FirstRank(|b|, target, totalCost);
    assert forall r :: 1 <= r < TABLELOG_MAX + 2 ==> RankEnd(b, target, r, rankLast[r]);
    ghost var deepest := target - b[z - 1];
    assert rankLast[deepest] != NO_SYMBOL;
    var first := HighBit(totalCost) + 1;
    nBitsToDecrease := first;
    hide Level, RankEnds, RankEnd;
    while nBitsToDecrease > 1
      invariant 1 <= nBitsToDecrease <= first
      invariant rankLast[nBitsToDecrease] == NO_SYMBOL ==>
                  forall r :: nBitsToDecrease <= r <= first ==> rankLast[r] == NO_SYMBOL
      invariant forall r :: nBitsToDecrease < r <= first ==> !Pays(huffNode[..], |b|, rankLast[..], r)
    {
      PaysMeans(huffNode[..], |b|, rankLast[..], nBitsToDecrease);
      var highPos, lowPos := rankLast[nBitsToDecrease], rankLast[nBitsToDecrease - 1];
      if highPos != NO_SYMBOL {
        SymbolInRange(b, target, rankLast[..], nBitsToDecrease);
        if lowPos == NO_SYMBOL {
          break;
        }
        SymbolInRange(b, target, rankLast[..], nBitsToDecrease - 1);
        var highTotal, lowTotal := huffNode[highPos].count, 2 * huffNode[lowPos].count;
        if highTotal <= lowTotal {
          break;
        }
      }
      nBitsToDecrease := nBitsToDecrease - 1;
    }
    ghost var chosen := nBitsToDecrease;
    while nBitsToDecrease <= TABLELOG_MAX && rankLast[nBitsToDecrease] == NO_SYMBOL
      invariant chosen <= nBitsToDecrease
      invariant nBitsToDecrease == chosen || nBitsToDecrease <= deepest
      invariant nBitsToDecrease > chosen ==> chosen == 1 && rankLast[1] == NO_SYMBOL
      invariant forall r :: chosen <= r < nBitsToDecrease ==> rankLast[r] == NO_SYMBOL
    {
      nBitsToDecrease := nBitsToDecrease + 1;
    }
    if nBitsToDecrease <= first {
      Pow2Mono(nBitsToDecrease - 1, HighBit(totalCost));
    }
  }

  lemma SymbolInRange(b: seq<nat>, target: nat, rankLast: seq<nat>, r: nat)
    requires RankEnds(b, target, rankLast) && 1 <= r < |rankLast| && rankLast[r] != NO_SYMBOL
    ensures rankLast[r] < |b| && b[rankLast[r]] + r == target
    ensures forall i :: rankLast[r] < i < |b| ==> b[i] + r > target
  {
    assert RankEnd(b, target, r, rankLast[r]);
  }

  /** After any choice of ChooseRank rank 0 still has more symbols than there is to give back. */
  lemma EnoughLeft(b: seq<nat>, target: nat, z: nat, cost: int, rankLast: seq<nat>, k: nat)
    requires Level(b, target, z, cost) && cost > 0 && RankEnds(b, target, rankLast) && target <= TABLELOG_MAX
    requires 1 <= k <= TABLELOG_MAX && rankLast[k] != NO_SYMBOL
    requires Pow2(k - 1) <= cost || forall r :: 1 <= r < k ==> rankLast[r] == NO_SYMBOL
    ensures |b| - z > Abs(cost - Pow2(k - 1))
  {
    hide Sum, Pow2;
    SymbolInRange(b, target, rankLast, k);
    if cost < Pow2(k - 1) {
      forall i | 0 <= i < z
        ensures b[i] + k <= target
      {
        assert RankEnd(b, target, target - b[i], rankLast[target - b[i]]);
      }
      EnoughRankZero(b, target, z, cost, k);
    }
  }

  /** The last symbol of rank k gets one bit more, and rankLast follows. */
  method MoveDown(huffNode: array<Node>, rankLast: array<nat>, k: nat, target: nat, ghost b: seq<nat>, ghost z: nat)
    returns (ghost c: seq<nat>, ghost y: nat)
    requires |b| <= huffNode.Length && |b| < NO_SYMBOL && 1 <= k < rankLast.Length && rankLast[k] < |b|
    requires forall i :: 0 <= i < |b| ==> huffNode[i].nbBits == b[i]
    requires Ascending(b) && RankEnds(b, target, rankLast[..])
    modifies huffNode, rankLast
    ensures var at := old(rankLast[k]);
            && c == b[at := b[at] + 1] && y == (if k == 1 then at else z)
            && RankEnds(c, target, rankLast[..])
            && huffNode[..] == old(huffNode[..])[at := old(huffNode[at]).(nbBits := c[at])]
  {
    ghost var before := rankLast[..];
    var at := rankLast[k];
    c, y := b[at := b[at] + 1], if k == 1 then at else z;
    MoveDownRanks(b, target, before, k);
    hide RankEnds, RankEnd, Ascending;
    huffNode[at] := huffNode[at].(nbBits := huffNode[at].nbBits + 1);
    if rankLast[k - 1] == NO_SYMBOL {
      rankLast[k - 1] := rankLast[k];
    }
    if rankLast[k] == 0 {
      rankLast[k] := NO_SYMBOL;
    } else {
      rankLast[k] := rankLast[k] - 1;
      if huffNode[rankLast[k]].nbBits + k != target {
        rankLast[k] := NO_SYMBOL;
      }
    }
    assert rankLast[..] == RankLastMoved(before, k, at > 0 && b[at - 1] + k == target);
  }

  lemma RelabelOne(nodes: seq<Node>, before: seq<Node>, b: seq<nat>, at: nat, len: nat)
    requires Relabelled(nodes, before, b) && at < |b|
    ensures Relabelled(nodes[at := nodes[at].(nbBits := len)], before, b[at := len])
    ensures nodes[at].nbBits == b[at]
  {
  }

  /** Takes symbols out of the ranks until the cost is repaid, perhaps by too much. */
  method Repay(huffNode: array<Node>, rankLast: array<nat>, cost: int, target: nat, ghost b: seq<nat>, ghost z: nat)
    returns (totalCost: int, ghost c: seq<nat>, ghost y: nat)
    requires |b| <= huffNode.Length && |b| < NO_SYMBOL && |b| <= Pow2(target) && target <= TABLELOG_MAX
    requires Relabelled(huffNode[..], huffNode[..], b)
    requires Level(b, target, z, cost) && cost > 0 && RankEnds(b, target, rankLast[..])
    modifies huffNode, rankLast
    ensures totalCost <= 0 && |c| == |b| && Level(c, target, y, totalCost) && RankEnds(c, target, rankLast[..])
    ensures Relabelled(huffNode[..], old(huffNode[..]), c) && y <= z && (totalCost != 0 ==> y > 0)
  {
    hide *;
    totalCost, c, y := cost, b, z;
    SomeShorter(b, target, z, cost);
    RankCount(b, target, rankLast[..]);
    while totalCost > 0
      invariant |c| == |b| && Level(c, target, y, totalCost)
      invariant rankLast.Length == TABLELOG_MAX + 2 && RankEnds(c, target, rankLast[..])
      invariant Relabelled(huffNode[..], old(huffNode[..]), c) && y <= z && (totalCost != 0 ==> y > 0)
      decreases totalCost
    {
      ghost var now := huffNode[..];
      var k := ChooseRank(huffNode, rankLast, totalCost, target, c, y);
      RepayStep(c, target, y, totalCost, rankLast[..], k);
      RelabelledLengths(now, old(huffNode[..]), c);
      RelabelOne(now, old(huffNode[..]), c, rankLast[k], c[rankLast[k]] + 1);
      totalCost := totalCost - Pow2(k - 1);
      c, y := MoveDown(huffNode, rankLast, k, target, c, y);
    }
  }

  /** One round of the repayment. */
  lemma RepayStep(b: seq<nat>, target: nat, z: nat, cost: int, rankLast: seq<nat>, k: nat)
    requires Level(b, target, z, cost) && cost > 0 && RankEnds(b, target, rankLast) && target <= TABLELOG_MAX
    requires |b| <= Pow2(target)
    requires 1 <= k <= TABLELOG_MAX && rankLast[k] != NO_SYMBOL
    requires Pow2(k - 1) <= cost || forall r :: 1 <= r < k ==> rankLast[r] == NO_SYMBOL
    ensures Ascending(b) && rankLast[k] < |b|
    ensures var at, paid := rankLast[k], cost - Pow2(k - 1);
            var y := if k == 1 then at else z;
            && Level(b[at := b[at] + 1], target, y, paid)
            && y <= z && (paid != 0 ==> y > 0)
  {
    var at, paid := rankLast[k], cost - Pow2(k - 1);
    var y := if k == 1 then at else z;
    assert Pow2(0) == 1;
    SomeShorter(b, target, z, cost);
    SymbolInRange(b, target, rankLast, k);
    EnoughLeft(b, target, z, cost, rankLast, k);
    MoveDownKeeps(b, target, z, cost, k, at);
    assert Ascending(b);
    assert y <= z;
    if paid > 0 {
      SomeShorter(b[at := b[at] + 1], target, y, paid);
    }
  }

  lemma RankCount(b: seq<nat>, target: nat, rankLast: seq<nat>)
    requires RankEnds(b, target, rankLast)
    ensures |rankLast| == TABLELOG_MAX + 2
  {
  }

  lemma RelabelledLengths(nodes: seq<Node>, before: seq<Node>, b: seq<nat>)
    requires Relabelled(nodes, before, b)
    ensures |b| <= |nodes| && forall i :: 0 <= i < |b| ==> nodes[i].nbBits == b[i]
  {
  }

  // ----- giving back an overshoot -----

  /** The first rank 0 symbol follows the last rank 1 symbol, or the last shorter one if there is none. */
  lemma FirstRankZero(b: seq<nat>, target: nat, z: nat, cost: int, last: nat)
    requires Level(b, target, z, cost) && cost < 0 && z > 0
    requires RankEnd(b, target, 1, last) && last != NO_SYMBOL
    ensures last + 1 == z
  {
    assert b[z - 1] < target;
  }

  /** Moves the largest rank 0 symbols to rank 1 until nothing is overpaid any more. */
  method GiveBack(huffNode: array<Node>, rankLast: array<nat>, last: int, cost: int, target: nat, ghost b: seq<nat>,
                  ghost z: nat) returns (ghost c: seq<nat>, ghost y: nat)
    requires |b| <= huffNode.Length && |b| < NO_SYMBOL && rankLast.Length > 1
    requires Relabelled(huffNode[..], huffNode[..], b)
    requires Level(b, target, z, cost) && cost <= 0 && (cost < 0 ==> z > 0)
    requires RankEnd(b, target, 1, rankLast[1])
    requires z <= last + 1 <= |b|
    modifies huffNode, rankLast
    ensures |c| == |b| && Level(c, target, y, 0)
    ensures Relabelled(huffNode[..], old(huffNode[..]), c)
  {
    hide Sum;
    var n, totalCost := last, cost;
    c, y := b, z;
    while totalCost < 0
      invariant |c| == |b| && Level(c, target, y, totalCost) && totalCost <= 0
      invariant totalCost < 0 ==> y > 0
      invariant RankEnd(c, target, 1, rankLast[1])
      invariant rankLast[1] == NO_SYMBOL ==> y <= n + 1 <= |c|
      invariant Relabelled(huffNode[..], old(huffNode[..]), c)
      decreases -totalCost
    {
      GiveBackKeeps(c, target, y, totalCost);
      RelabelOne(huffNode[..], old(huffNode[..]), c, y, target - 1);
      if rankLast[1] == NO_SYMBOL {
        while huffNode[n].nbBits == target
          invariant y <= n + 1 <= |c|
          decreases n
        {
          n := n - 1;
        }
        assert n + 1 == y;
        huffNode[n + 1] := huffNode[n + 1].(nbBits := huffNode[n + 1].nbBits - 1);
        rankLast[1] := n + 1;
      } else {
        FirstRankZero(c, target, y, totalCost, rankLast[1]);
        huffNode[rankLast[1] + 1] := huffNode[rankLast[1] + 1].(nbBits := huffNode[rankLast[1] + 1].nbBits - 1);
        rankLast[1] := rankLast[1] + 1;
      }
      totalCost := totalCost + 1;
      c, y := c[y := target - 1], y + 1;
    }
  }

  lemma LevelIsComplete(b: seq<nat>, target: nat, z: nat)
    requires Level(b, target, z, 0)
    ensures CompleteCode(b, target)
  {
  }

  lemma RelabelTwice(nodes: seq<Node>, middle: seq<Node>, before: seq<Node>, b: seq<nat>, c: seq<nat>)
    requires Relabelled(middle, before, b) && Relabelled(nodes, middle, c) && |b| == |c|
    ensures Relabelled(nodes, before, c) && Relabelled(middle, middle, b) && Lengths(nodes, |c|) == c
  {
  }

  /**
    HUF_setMaxHeight: from any complete code with ascending lengths and no more than 2^target symbols,
    the same symbols get a complete code with ascending lengths of at most target bits. `peak` bounds
    the numbers of the clamping; the costs after it stay below the number of symbols, as Level says.
   */
  method SetMaxHeight(huffNode: array<Node>, lastNonNull: nat, targetNbBits: nat)
    returns (maxNbBits: nat, ghost peak: nat)
    requires lastNonNull < huffNode.Length && targetNbBits <= TABLELOG_MAX && lastNonNull + 1 <= Pow2(targetNbBits)
    requires CompleteCode(Lengths(huffNode[..], lastNonNull + 1), huffNode[lastNonNull].nbBits)
    modifies huffNode
    ensures maxNbBits == Min(targetNbBits, old(huffNode[lastNonNull].nbBits))
    ensures var lengths := Lengths(huffNode[..], lastNonNull + 1);
            && CompleteCode(lengths, maxNbBits)
            && Relabelled(huffNode[..], old(huffNode[..]), lengths)
    ensures old(huffNode[lastNonNull].nbBits) <= targetNbBits ==> huffNode[..] == old(huffNode[..])
    ensures peak <= Pow2(old(huffNode[lastNonNull].nbBits))
  {
    var largestBits := huffNode[lastNonNull].nbBits;
    if largestBits <= targetNbBits {
      return largestBits, 0;
    }
    ghost var before := huffNode[..];
    var size := lastNonNull + 1;
    FewSymbols(size, targetNbBits);
    hide Sum, Pow2, RankEnd, RankEnds, CompleteCode, Relabelled;
    var n, totalCost;
    n, totalCost, peak := Clamp(huffNode, size, targetNbBits);
    ghost var c := Clamped(Lengths(before, size), targetNbBits);
    ghost var y: nat := n + 1;
    ClampedRanks(c, targetNbBits, y, totalCost, huffNode[..], before);
    hide Level;
    var rankLast := new nat[TABLELOG_MAX + 2];
    FindRankEnds(huffNode, n, targetNbBits, rankLast, c);
    ghost var clamped := huffNode[..];
    totalCost, c, y := Repay(huffNode, rankLast, totalCost, targetNbBits, c, y);
    RelabelTwice(huffNode[..], clamped, before, Lengths(clamped, size), c);
    RankOne(c, targetNbBits, rankLast[..]);
    clamped := huffNode[..];
    c, y := GiveBack(huffNode, rankLast, n, totalCost, targetNbBits, c, y);
    RelabelTwice(huffNode[..], clamped, before, Lengths(clamped, size), c);
    LevelIsComplete(c, targetNbBits, y);
    return targetNbBits, peak;
  }

  lemma ClampedRanks(c: seq<nat>, target: nat, z: nat, cost: int, nodes: seq<Node>, before: seq<Node>)
    requires Level(c, target, z, cost) && Relabelled(nodes, before, c) && cost > 0 && |c| <= Pow2(target)
    ensures 0 < z && Ascending(c) && c[z - 1] < target
    ensures forall i :: 0 <= i < |c| ==> nodes[i].nbBits == c[i] && 1 <= c[i] <= target
    ensures forall i :: z <= i < |c| ==> c[i] == target
    ensures Relabelled(nodes, nodes, c) && Lengths(nodes, |c|) == c
  {
    SomeShorter(c, target, z, cost);
  }

  lemma RankOne(b: seq<nat>, target: nat, rankLast: seq<nat>)
    requires RankEnds(b, target, rankLast)
    ensures |rankLast| > 1 && RankEnd(b, target, 1, rankLast[1])
  {
  }

  lemma FewSymbols(size: nat, target: nat)
    requires target <= TABLELOG_MAX && size <= Pow2(target)
    ensures size < NO_SYMBOL
  {
    Pow2Mono(target, TABLELOG_MAX);
    Pow2Values();
  }
}
