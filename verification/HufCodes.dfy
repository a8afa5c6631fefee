/** Canonical Huffman codes (section 4.2.1.3 of RFC 8878) and a decoder for them (section 4.2.2). */
module HufCodes {
  import opened Bits
  import opened Wrappers
  import opened Counting
  import opened HufContainer
  import opened HufEncoder
  import Kraft

  /** The part of the 2^tableLog table entries that a code of this length takes; length 0 means no code. */
  function Entries(tableLog: nat, len: nat): nat
  {
    if len == 0 then 0 else Kraft.Share(tableLog, len)
  }

  /** The table entries of the first m symbols. */
  function Used(lens: seq<nat>, tableLog: nat, m: nat): nat
    requires m <= |lens|
  {
    if m == 0 then 0 else Used(lens, tableLog, m - 1) + Entries(tableLog, lens[m - 1])
  }

  /** The table entries of those among the first m symbols that have codes longer than n. */
  function Longer(lens: seq<nat>, tableLog: nat, n: nat, m: nat): nat
    requires m <= |lens|
  {
    if m == 0 then 0
    else Longer(lens, tableLog, n, m - 1) + (if lens[m - 1] > n then Entries(tableLog, lens[m - 1]) else 0)
  }

  /** Code lengths of a complete prefix code. */
  ghost predicate Complete(lens: seq<nat>, tableLog: nat)
  {
    && 1 <= tableLog <= TABLELOG_MAX
    && (forall s :: 0 <= s < |lens| ==> lens[s] <= tableLog)
    && Used(lens, tableLog, |lens|) == Pow2(tableLog)
  }

  /** The first table entry of symbol s: longer codes come first, and codes of one length go by symbol. */
  function Position(lens: seq<nat>, tableLog: nat, s: nat): nat
    requires s < |lens|
  {
    Longer(lens, tableLog, lens[s], |lens|) + Count(lens, lens[s], s) * Entries(tableLog, lens[s])
  }

  /** Table entry v belongs to symbol s. */
  predicate Owns(lens: seq<nat>, tableLog: nat, s: nat, v: nat)
  {
    && s < |lens|
    && Position(lens, tableLog, s) <= v < Position(lens, tableLog, s) + Entries(tableLog, lens[s])
  }

  // ----- the table is divided up -----

  lemma {:induction false} LongerStep(lens: seq<nat>, tableLog: nat, n: nat, m: nat)
    requires m <= |lens| && n > 0
    ensures Longer(lens, tableLog, n - 1, m) == Longer(lens, tableLog, n, m) + Count(lens, n, m) * Entries(tableLog, n)
  {
    if m > 0 {
      LongerStep(lens, tableLog, n, m - 1);
      MulNext(Count(lens, n, m - 1), Entries(tableLog, n));
    }
  }

  lemma {:induction false} LongerMonotone(lens: seq<nat>, tableLog: nat, n: nat, k: nat, m: nat)
    requires m <= |lens| && n <= k
    ensures Longer(lens, tableLog, k, m) <= Longer(lens, tableLog, n, m) <= Used(lens, tableLog, m)
  {
    if m > 0 {
      LongerMonotone(lens, tableLog, n, k, m - 1);
    }
  }

  /** The codes of length n end where those of length n - 1 start. */
  lemma EntriesOf(lens: seq<nat>, tableLog: nat, s: nat)
    requires s < |lens| && lens[s] > 0
    ensures Position(lens, tableLog, s) + Entries(tableLog, lens[s]) <= Longer(lens, tableLog, lens[s] - 1, |lens|)
    ensures Longer(lens, tableLog, lens[s], |lens|) <= Position(lens, tableLog, s)
  {
    var n := lens[s];
    LongerStep(lens, tableLog, n, |lens|);
    CountMonotone(lens, n, s, |lens|);
    MulNext(Count(lens, n, s), Entries(tableLog, n));
    MulMono(Count(lens, n, s) + 1, Count(lens, n, |lens|), Entries(tableLog, n));
  }

  /** No table entry belongs to two symbols. */
  lemma OneOwner(lens: seq<nat>, tableLog: nat, s: nat, t: nat, v: nat)
    requires Owns(lens, tableLog, s, v) && Owns(lens, tableLog, t, v)
    ensures s == t
  {
    hide Position, Longer, Count;
    OwnerHasCode(lens, tableLog, s, v);
    OwnerHasCode(lens, tableLog, t, v);
    if lens[s] == lens[t] {
      if s < t {
        SameLengthApart(lens, tableLog, s, t);
      } else if t < s {
        SameLengthApart(lens, tableLog, t, s);
      }
    } else if lens[s] > lens[t] {
      LongerApart(lens, tableLog, s, t);
    } else {
      LongerApart(lens, tableLog, t, s);
    }
  }

  lemma OwnerHasCode(lens: seq<nat>, tableLog: nat, s: nat, v: nat)
    requires Owns(lens, tableLog, s, v)
    ensures s < |lens| && 0 < lens[s] <= tableLog
  {
    hide Position;
  }

  lemma SameLengthApart(lens: seq<nat>, tableLog: nat, s: nat, t: nat)
    requires s < t < |lens| && lens[s] == lens[t]
    ensures Position(lens, tableLog, s) + Entries(tableLog, lens[s]) <= Position(lens, tableLog, t)
  {
    hide Longer, Entries;
    var n := lens[s];
    CountMonotone(lens, n, s, t);
    hide Count;
    MulNext(Count(lens, n, s), Entries(tableLog, n));
    MulMono(Count(lens, n, s) + 1, Count(lens, n, t), Entries(tableLog, n));
  }

  lemma LongerApart(lens: seq<nat>, tableLog: nat, s: nat, t: nat)
    requires s < |lens| && t < |lens| && 0 < lens[t] < lens[s]
    ensures Position(lens, tableLog, s) + Entries(tableLog, lens[s]) <= Position(lens, tableLog, t)
  {
    hide *;
    EntriesOf(lens, tableLog, s);
    EntriesOf(lens, tableLog, t);
    LongerMonotone(lens, tableLog, lens[t], lens[s] - 1, |lens|);
  }

  // ----- the values of the codes -----

  /** The first value of the codes of length n, as the source computes it from the longest codes up. */
  function StartValue(lens: seq<nat>, tableLog: nat, n: nat): nat
    requires n <= tableLog
    decreases tableLog - n
  {
    if n == tableLog then 0 else (StartValue(lens, tableLog, n + 1) + Count(lens, n + 1, |lens|)) / 2
  }

  /** Codes no longer than n take whole units of 2^(tableLog-n) entries. */
  lemma {:induction false} ShorterMultiple(lens: seq<nat>, tableLog: nat, n: nat, m: nat) returns (z: nat)
    requires m <= |lens| && n <= tableLog && forall s :: 0 <= s < m ==> lens[s] <= tableLog
    ensures Used(lens, tableLog, m) == Longer(lens, tableLog, n, m) + z * Pow2(tableLog - n)
  {
    if m == 0 {
      z := 0;
    } else {
      z := ShorterMultiple(lens, tableLog, n, m - 1);
      var len := lens[m - 1];
      if 0 < len <= n {
        Pow2Add(n - len, tableLog - n);
        hide Pow2;
        MulSum(z, Pow2(n - len), Pow2(tableLog - n));
        z := z + Pow2(n - len);
      }
    }
  }

  /** The values start where the table entries of the longer codes end. */
  lemma {:induction false} StartIs(lens: seq<nat>, tableLog: nat, n: nat)
    requires Complete(lens, tableLog) && n <= tableLog
    ensures StartValue(lens, tableLog, n) * Pow2(tableLog - n) == Longer(lens, tableLog, n, |lens|)
    decreases tableLog - n
  {
    if n == tableLog {
      LongerNone(lens, tableLog, |lens|);
    } else {
      StartIs(lens, tableLog, n + 1);
      LongerStep(lens, tableLog, n + 1, |lens|);
      var z := ShorterMultiple(lens, tableLog, n, |lens|);
      Pow2Add(n, tableLog - n);
      TwiceHalf(tableLog - n);
      assert Entries(tableLog, n + 1) == Pow2(tableLog - n - 1);
      var a, b, half := StartValue(lens, tableLog, n + 1), Count(lens, n + 1, |lens|), Pow2(tableLog - n - 1);
      var d := Pow2(n) - z;
      assert StartValue(lens, tableLog, n) == (a + b) / 2;
      StartHalves(a, b, half, Longer(lens, tableLog, n, |lens|), z, Pow2(n));
    }
  }

  lemma StartHalves(a: nat, b: nat, half: nat, longer: nat, z: int, whole: int)
    requires half > 0 && a * half + b * half == longer && longer + z * (2 * half) == whole * (2 * half)
    ensures ((a + b) / 2) * (2 * half) == longer
  {
    MulSum(a, b, half);
    MulSum(whole - z, z, 2 * half);
    var d := whole - z;
    assert d * (2 * half) == longer;
    MulAssoc(d, 2, half);
    assert (2 * d) * half == (a + b) * half;
    SameFactor(2 * d, a + b, half);
  }

  lemma SameFactor(x: int, y: int, c: nat)
    requires c > 0 && x * c == y * c
    ensures x == y
  {
    MulSum(x - y, y, c);
    MulAtLeast(x - y, c);
  }

  lemma {:induction false} LongerNone(lens: seq<nat>, tableLog: nat, m: nat)
    requires m <= |lens| && forall s :: 0 <= s < m ==> lens[s] <= tableLog
    ensures Longer(lens, tableLog, tableLog, m) == 0
  {
    if m > 0 {
      LongerNone(lens, tableLog, m - 1);
    }
  }

  /** The code of symbol s: the start of its length plus the symbols of that length before it. */
  function CodeOf(lens: seq<nat>, tableLog: nat, s: nat): (c: Code)
    requires s < |lens| && lens[s] <= tableLog
    ensures c.nbBits == lens[s]
  {
    if lens[s] == 0 then Code(0, 0)
    else Code(lens[s], StartValue(lens, tableLog, lens[s]) + Count(lens, lens[s], s))
  }

  /** A code is the number of its table entries, in units of its length. */
  lemma CodePosition(lens: seq<nat>, tableLog: nat, s: nat)
    requires Complete(lens, tableLog) && s < |lens| && lens[s] > 0
    ensures lens[s] <= tableLog && CodeOf(lens, tableLog, s).nbBits == lens[s]
    ensures CodeOf(lens, tableLog, s).value * Pow2(tableLog - lens[s]) == Position(lens, tableLog, s)
    ensures CodeOf(lens, tableLog, s).Valid()
  {
    hide StartValue, Count, Longer, Used, Pow2;
    var n := lens[s];
    StartIs(lens, tableLog, n);
    MulSum(StartValue(lens, tableLog, n), Count(lens, n, s), Pow2(tableLog - n));
    EntriesOf(lens, tableLog, s);
    LongerMonotone(lens, tableLog, n - 1, n - 1, |lens|);
    Pow2Add(n, tableLog - n);
    var v := CodeOf(lens, tableLog, s).value;
    if v >= Pow2(n) {
      MulMono(Pow2(n), v, Pow2(tableLog - n));
    }
  }

  // ----- decoding -----

  /** The symbol, from s on, that table entry v belongs to. */
  function Find(lens: seq<nat>, tableLog: nat, v: nat, s: nat): (r: Option<nat>)
    requires s <= |lens|
    ensures r.Some? ==> Owns(lens, tableLog, r.value, v)
    ensures r.None? ==> forall t :: s <= t < |lens| ==> !Owns(lens, tableLog, t, v)
    decreases |lens| - s
  {
    if s == |lens| then None
    else if Owns(lens, tableLog, s, v) then Some(s)
    else Find(lens, tableLog, v, s + 1)
  }

  /** The next tableLog bits of a stream that is read from its end, as a table index; zeros follow the stream. */
  function Peek(rest: seq<bool>, tableLog: nat): nat
  {
    if |rest| >= tableLog then Value(rest[|rest| - tableLog..])
    else Shl(Value(rest), tableLog - |rest|)
  }

  /** Decodes n symbols, which must use up the stream. */
  function Decode(lens: seq<nat>, tableLog: nat, rest: seq<bool>, n: nat): Result<seq<nat>>
    decreases n
  {
    if n == 0 then (if rest == [] then Ok([]) else Err(Corruption))
    else
      match Find(lens, tableLog, Peek(rest, tableLog), 0)
      case None => Err(Corruption)
      case Some(s) =>
        if lens[s] > |rest| then Err(Corruption)
        else
          var tail := Decode(lens, tableLog, rest[..|rest| - lens[s]], n - 1);
          if tail.Ok? then Ok([s] + tail.value) else tail
  }

  /** What follows a code in the stream does not lead out of the table entries of the code. */
  lemma PeekCode(x: seq<bool>, c: Code, tableLog: nat)
    requires c.Valid() && c.nbBits <= tableLog
    ensures c.value * Pow2(tableLog - c.nbBits) <= Peek(x + c.Stream(), tableLog)
    ensures Peek(x + c.Stream(), tableLog) < (c.value + 1) * Pow2(tableLog - c.nbBits)
  {
    hide *;
    StreamValue(c);
    var n, k := c.nbBits, tableLog - c.nbBits;
    MulNext(c.value, Pow2(k));
    if |x| >= k {
      var low := x[|x| - k..];
      ValueBound(low);
      ValueConcat(low, c.Stream());
      PeekLong(x, c.Stream(), tableLog, k);
      MulCommutes(Pow2(k), c.value);
    } else {
      var pad := k - |x|;
      ValueBound(x);
      ValueConcat(x, c.Stream());
      PeekShort(x, c.Stream(), tableLog, pad);
      ShlIsMul(Value(x) + Pow2(|x|) * c.value, pad);
      Pow2Add(|x|, pad);
      ShiftedCode(Value(x), Pow2(|x|), c.value, Pow2(pad));
    }
  }

  lemma ShiftedCode(x: nat, size: nat, v: nat, unit: nat)
    requires x < size && unit > 0
    ensures v * (size * unit) <= (x + size * v) * unit < v * (size * unit) + size * unit
  {
    assert (x + size * v) * unit == x * unit + v * (size * unit);
    assert (x + 1) * unit <= size * unit;
  }

  lemma PeekLong(x: seq<bool>, y: seq<bool>, tableLog: nat, k: nat)
    requires |y| + k == tableLog && k <= |x|
    ensures Peek(x + y, tableLog) == Value(x[|x| - k..] + y)
  {
    hide Value;
    assert (x + y)[|x + y| - tableLog..] == x[|x| - k..] + y;
  }

  lemma PeekShort(x: seq<bool>, y: seq<bool>, tableLog: nat, pad: nat)
    requires |x| + |y| + pad == tableLog && pad > 0
    ensures Peek(x + y, tableLog) == Shl(Value(x + y), pad)
  {
    hide Value, Shl;
  }

  /** Every symbol is recognized by the bits of its code, whatever comes after them in the stream. */
  lemma FindCode(lens: seq<nat>, tableLog: nat, s: nat, x: seq<bool>)
    requires Complete(lens, tableLog) && s < |lens| && 0 < lens[s] <= tableLog
    ensures Find(lens, tableLog, Peek(x + CodeOf(lens, tableLog, s).Stream(), tableLog), 0) == Some(s)
  {
    hide Position, CodeOf, Pow2, Code.Stream, Used, Peek;
    var c := CodeOf(lens, tableLog, s);
    CodePosition(lens, tableLog, s);
    PeekCode(x, c, tableLog);
    MulNext(c.value, Pow2(tableLog - lens[s]));
    var v := Peek(x + c.Stream(), tableLog);
    assert Owns(lens, tableLog, s, v);
    hide Owns, Find;
    var r := Find(lens, tableLog, v, 0);
    assert r.Some?;
    OneOwner(lens, tableLog, s, r.value, v);
  }

  ghost function CodesOf(lens: seq<nat>, tableLog: nat): (codes: seq<Code>)
    requires forall s :: 0 <= s < |lens| ==> lens[s] <= tableLog
    ensures |codes| == |lens| && forall s :: 0 <= s < |codes| ==> codes[s] == CodeOf(lens, tableLog, s)
  {
    seq(|lens|, s requires 0 <= s < |lens| => CodeOf(lens, tableLog, s))
  }

  lemma DecodeStep(lens: seq<nat>, tableLog: nat, x: seq<bool>, y: seq<bool>, s: nat, n: nat)
    requires s < |lens| && lens[s] == |y| && Find(lens, tableLog, Peek(x + y, tableLog), 0) == Some(s)
    requires Decode(lens, tableLog, x, n).Ok?
    ensures Decode(lens, tableLog, x + y, n + 1) == Ok([s] + Decode(lens, tableLog, x, n).value)
  {
    hide Peek, Find;
    assert (x + y)[..|x + y| - lens[s]] == x;
  }

  lemma HufBitsHead(codes: seq<Code>, src: seq<byte>)
    requires src != [] && forall i :: 0 <= i < |src| ==> src[i] < |codes|
    ensures HufBits(codes, src) == HufBits(codes, src[1..]) + codes[src[0]].Stream()
  {
  }

  /** Decoding what the encoder appended gives back the source. */
  lemma {:induction false} HuffmanRoundTrip(lens: seq<nat>, tableLog: nat, src: seq<byte>)
    requires Complete(lens, tableLog) && forall i :: 0 <= i < |src| ==> src[i] < |lens| && lens[src[i]] > 0
    ensures Decode(lens, tableLog, HufBits(CodesOf(lens, tableLog), src), |src|) == Ok(src)
  {
    hide Peek, Find, CodeOf, Used, Decode, HufBits, Code.Stream;
    var codes := CodesOf(lens, tableLog);
    if src == [] {
      DecodeNothing(lens, tableLog, codes);
    } else {
      HuffmanRoundTrip(lens, tableLog, src[1..]);
      var x, c := HufBits(codes, src[1..]), codes[src[0]];
      FindCode(lens, tableLog, src[0], x);
      CodePosition(lens, tableLog, src[0]);
      HufBitsHead(codes, src);
      DecodeStep(lens, tableLog, x, c.Stream(), src[0], |src| - 1);
      assert src == [src[0]] + src[1..];
    }
  }

  lemma DecodeNothing(lens: seq<nat>, tableLog: nat, codes: seq<Code>)
    ensures Decode(lens, tableLog, HufBits(codes, []), 0) == Ok([])
  {
  }
}
