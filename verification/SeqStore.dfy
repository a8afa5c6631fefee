/** The sequence store: 16-bit lengths, and one place for a single longer one. */
module SeqStore {
  const MINMATCH := 3
  const BLOCKSIZE_MAX := 0x20000

  /** SeqDef; litLength and mlBase are 16 bits wide. */
  datatype SeqDef = SeqDef(offBase: nat, litLength: nat, mlBase: nat)

  datatype LongLengthType = None | LiteralLength | MatchLength

  /** A sequence as the match finder hands it over. */
  datatype Found = Found(litLength: nat, offBase: nat, matchLength: nat)
  {
    function Size(): nat { litLength + matchLength }

    predicate LongLiteral() { litLength > 0xFFFF }

    predicate LongMatch() { matchLength - MINMATCH > 0xFFFF }

    /** How many of its lengths do not fit into 16 bits. */
    function Longs(): nat { (if LongLiteral() then 1 else 0) + (if LongMatch() then 1 else 0) }
  }

  function Total(found: seq<Found>): nat
  {
    if found == [] then 0 else Total(found[..|found| - 1]) + found[|found| - 1].Size()
  }

  function Longs(found: seq<Found>): nat
  {
    if found == [] then 0 else Longs(found[..|found| - 1]) + found[|found| - 1].Longs()
  }

  /** Every long length takes at least half a block. */
  lemma {:induction false} LongsAreLong(found: seq<Found>)
    requires forall i :: 0 <= i < |found| ==> found[i].matchLength >= MINMATCH
    ensures Longs(found) * 0x10000 + |found| * MINMATCH <= Total(found)
  {
    if found != [] {
      LongsAreLong(found[..|found| - 1]);
    }
  }

  /** A block has one long length at most. */
  lemma OneLong(found: seq<Found>)
    requires Total(found) <= BLOCKSIZE_MAX && forall i :: 0 <= i < |found| ==> found[i].matchLength >= MINMATCH
    ensures Longs(found) <= 1
  {
    LongsAreLong(found);
  }

  lemma {:induction false} NoLongs(found: seq<Found>, i: nat)
    requires Longs(found) == 0 && i < |found|
    ensures found[i].Longs() == 0
  {
    if i < |found| - 1 {
      NoLongs(found[..|found| - 1], i);
    }
  }

  class Store {
    var sequences: seq<SeqDef>
    var longLengthType: LongLengthType
    var longLengthPos: nat
    /** The sequences as they were handed over. */
    ghost var found: seq<Found>

    /** The stored form of the i-th sequence. */
    ghost predicate Represents(i: nat)
      requires i < |found| && i < |sequences|
      reads this
    {
      var f, q := found[i], sequences[i];
      && q == SeqDef(f.offBase, f.litLength % 0x10000, (f.matchLength - MINMATCH) % 0x10000)
      && (f.LongLiteral() <==> longLengthType == LiteralLength && longLengthPos == i)
      && (f.LongMatch() <==> longLengthType == MatchLength && longLengthPos == i)
    }

    ghost predicate Valid()
      reads this
    {
      && |sequences| == |found|
      && (forall i :: 0 <= i < |found| ==> found[i].matchLength >= MINMATCH)
      && Total(found) <= BLOCKSIZE_MAX
      && (longLengthType == None <==> Longs(found) == 0)
      && (longLengthType != None ==> longLengthPos < |found|)
      && (forall i :: 0 <= i < |found| ==> Represents(i))
    }

    /** An empty store. */
    constructor ()
      ensures Valid() && found == []
    {
      sequences, longLengthType, longLengthPos, found := [], None, 0, [];
    }

    /**
      ZSTD_storeSeqOnly. As long as the block stays within its limit, the place for a long length is
      free whenever it is needed.
     */
    method StoreSeqOnly(litLength: nat, offBase: nat, matchLength: nat)
      requires Valid() && matchLength >= MINMATCH
      requires Total(found) + litLength + matchLength <= BLOCKSIZE_MAX
      modifies this
      ensures Valid() && found == old(found) + [Found(litLength, offBase, matchLength)]
    {
      ghost var f := Found(litLength, offBase, matchLength);
      ghost var before := found;
      found := found + [f];
      assert found[..|before|] == before;
      OneLong(found);
      forall i | 0 <= i < |before| && Longs(before) == 0
        ensures before[i].Longs() == 0
      {
        NoLongs(before, i);
      }
      if litLength > 0xFFFF {
        assert longLengthType == None;
        longLengthType := LiteralLength;
        longLengthPos := |sequences|;
      }
      var mlBase := matchLength - MINMATCH;
      if mlBase > 0xFFFF {
        assert longLengthType == None;
        longLengthType := MatchLength;
        longLengthPos := |sequences|;
      }
      sequences := sequences + [SeqDef(offBase, litLength % 0x10000, mlBase % 0x10000)];
      forall i | 0 <= i < |found|
        ensures Represents(i)
      {
        if i < |before| {
          assert old(Represents(i));
        }
      }
    }

    /** ZSTD_getSequenceLength gives the lengths that were stored. */
    method GetSequenceLength(i: nat) returns (litLength: nat, matchLength: nat)
      requires Valid() && i < |sequences|
      ensures litLength == found[i].litLength && matchLength == found[i].matchLength
    {
      assert Represents(i);
      SizeWithin(found, i);
      litLength, matchLength := sequences[i].litLength, sequences[i].mlBase + MINMATCH;
      if longLengthPos == i {
        if longLengthType == LiteralLength {
          litLength := litLength + 0x10000;
        }
        if longLengthType == MatchLength {
          matchLength := matchLength + 0x10000;
        }
      }
    }
  }

  lemma {:induction false} SizeWithin(found: seq<Found>, i: nat)
    requires i < |found|
    ensures found[i].Size() <= Total(found)
  {
    if i < |found| - 1 {
      SizeWithin(found[..|found| - 1], i);
    }
  }
}
