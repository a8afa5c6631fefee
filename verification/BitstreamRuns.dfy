/** Runs of writes, and of reads of what was written: the stream is a stack of bit fields. */
module BitstreamRuns {
  import opened Bits
  import opened Bitstream
  import opened Wrappers
  import opened BitWriter
  import opened BitReader

  /** A field to write, and whether a flush follows it. */
  datatype Field = Field(value: nat, nbBits: nat, flush: bool)

  /** How a field is read: whether by the fast form, where that is allowed, and whether a reload follows. */
  datatype Reading = Reading(fast: bool, reload: bool)

  /** The register position after the first n fields. */
  ghost function Position(fields: seq<Field>, n: nat): int
    requires n <= |fields|
  {
    if n == 0 then 0
    else
      var pos := Position(fields, n - 1) + fields[n - 1].nbBits;
      if fields[n - 1].flush then pos % 8 else pos
  }

  /** The fields and the end mark never overflow the register. */
  ghost predicate Writable(fields: seq<Field>)
  {
    && (forall n :: 0 <= n < |fields| ==>
          fields[n].nbBits < 32 && Position(fields, n) + fields[n].nbBits < REGISTER_BITS)
    && Position(fields, |fields|) + 1 < REGISTER_BITS
  }

  /** The bits of the first n fields, in the order they were added. */
  ghost function Written(fields: seq<Field>, n: nat): seq<bool>
    requires n <= |fields|
  {
    if n == 0 then [] else Written(fields, n - 1) + BitsOf(fields[n - 1].value, fields[n - 1].nbBits)
  }

  /** The bits read since the last reload, when all fields from n on have been read. */
  ghost function Taken(fields: seq<Field>, readings: seq<Reading>, n: nat): nat
    requires n <= |fields| == |readings|
    decreases |fields| - n
  {
    if n == |fields| then 0
    else if readings[n].reload then 0
    else Taken(fields, readings, n + 1) + fields[n].nbBits
  }

  /** Between reloads at most 56 bits are read. */
  ghost predicate Readable(fields: seq<Field>, readings: seq<Reading>)
  {
    && |readings| == |fields|
    && (forall n :: 0 <= n < |fields| ==>
          fields[n].nbBits < 32 && Taken(fields, readings, n + 1) + fields[n].nbBits <= 56)
  }

  lemma NoFields(fields: seq<Field>)
    ensures Written(fields, 0) == [] && Position(fields, 0) == 0
  {
  }

  lemma RoomForMark(fields: seq<Field>)
    requires Writable(fields)
    ensures Position(fields, |fields|) + 1 < REGISTER_BITS
  {
  }

  lemma NextField(fields: seq<Field>, n: nat)
    requires n < |fields| && Writable(fields)
    ensures fields[n].nbBits < 32 && Position(fields, n) + fields[n].nbBits < REGISTER_BITS
    ensures var pos := Position(fields, n) + fields[n].nbBits;
            Position(fields, n + 1) == if fields[n].flush then pos % 8 else pos
    ensures Written(fields, n + 1) == Written(fields, n) + BitsOf(fields[n].value, fields[n].nbBits)
  {
    hide BitsOf;
  }

  /** One field and the flush after it. */
  method WriteField(s: CStream, fields: seq<Field>, n: nat)
    requires s.Valid() && n < |fields| && Writable(fields)
    requires s.bits == Written(fields, n) && s.bitPos == Position(fields, n)
    modifies s, s.data
    ensures s.Valid() && s.bits == Written(fields, n + 1) && s.bitPos == Position(fields, n + 1)
    ensures forall k :: 0 <= k < s.startPtr || s.endPtr + REGISTER_BYTES <= k < s.data.Length ==>
              s.data[k] == old(s.data[k])
  {
    hide CStream.Valid, BitsOf, Written, Position, Writable;
    NextField(fields, n);
    s.AddBits(fields[n].value, fields[n].nbBits);
    if fields[n].flush {
      s.FlushBits();
    }
  }

  /** Any run of BIT_addBits and BIT_flushBits that respects the register, then BIT_closeCStream. */
  method WriteFields(dst: array<byte>, start: nat, dstCapacity: nat, fields: seq<Field>) returns (size: nat)
    requires dstCapacity > REGISTER_BYTES && start + dstCapacity <= dst.Length && Writable(fields)
    modifies dst
    ensures size == ClosedSize(|Written(fields, |fields|)|, dstCapacity)
    ensures size > 0 ==> size < dstCapacity && dst[start..start + size] == Seal(Written(fields, |fields|))
    ensures forall k :: 0 <= k < start || start + dstCapacity <= k < dst.Length ==> dst[k] == old(dst[k])
  {
    hide CStream.Valid, Seal, BitsOf, ClosedSize, Writable, Written, Position;
    var s := new CStream(dst, start, dstCapacity);
    NoFields(fields);
    for n := 0 to |fields|
      invariant s.Valid() && s.data == dst && s.startPtr == start && s.endPtr == start + dstCapacity - REGISTER_BYTES
      invariant s.bits == Written(fields, n) && s.bitPos == Position(fields, n)
      invariant forall k :: 0 <= k < start || start + dstCapacity <= k < dst.Length ==> dst[k] == old(dst[k])
    {
      WriteField(s, fields, n);
    }
    RoomForMark(fields);
    size := s.Close();
  }

  /**
    What the reads of a run return: the values from the last field down, and whether the stream had ended after
    each.
   */
  ghost predicate Unwound(fields: seq<Field>, values: seq<nat>, ended: seq<bool>, n: nat)
    requires n <= |fields|
  {
    && |values| == |ended| == |fields| - n
    && (forall k :: n <= k < |fields| ==> values[|fields| - 1 - k] == Low(fields[k].value, fields[k].nbBits))
    && (forall k :: n <= k < |fields| ==> (ended[|fields| - 1 - k] <==> Written(fields, k) == []))
  }

  /** One read from the end of what is left. */
  lemma LastField(fields: seq<Field>, n: nat)
    requires n < |fields|
    ensures var all, k := Written(fields, n + 1), fields[n].nbBits;
            && k <= |all| && all[..|all| - k] == Written(fields, n)
            && Value(all[|all| - k..]) == Low(fields[n].value, k)
  {
    hide BitsOf, Value, Low;
    var field := BitsOf(fields[n].value, fields[n].nbBits);
    var all := Written(fields, n + 1);
    assert all == Written(fields, n) + field;
    assert all[|all| - |field|..] == field;
    ValueOfBits(fields[n].value, fields[n].nbBits);
  }

  /**
    The widths read in reverse give the fields back, each cut to its width, whatever legal reloads happen in
    between, and BIT_endOfDStream holds exactly when nothing is left.
   */
  method ReadFields(src: seq<byte>, fields: seq<Field>, readings: seq<Reading>)
    returns (values: seq<nat>, ended: seq<bool>)
    requires Unseal(src) == Ok(Written(fields, |fields|)) && Readable(fields, readings)
    ensures Unwound(fields, values, ended, 0)
  {
    hide DStream.Valid, DStream.Rest, Unseal, Written, Taken, Readable, Unwound;
    var d := new DStream(src);
    TakenNone(fields, readings);
    UnwoundNone(fields);
    values, ended := [], [];
    var n := |fields|;
    while n > 0
      invariant 0 <= n <= |fields| && fresh(d)
      invariant d.Valid() && d.Left() == |Written(fields, n)| && d.Rest() == Written(fields, n)
      invariant d.ptr <= 0 || d.bitsConsumed <= 8 + Taken(fields, readings, n)
      invariant Unwound(fields, values, ended, n)
    {
      n := n - 1;
      var value, end := ReadField(d, fields, readings, n);
      UnwoundMore(fields, values, ended, n, value, end);
      values, ended := values + [value], ended + [end];
    }
  }

  lemma UnwoundNone(fields: seq<Field>)
    ensures Unwound(fields, [], [], |fields|)
  {
  }

  lemma UnwoundMore(fields: seq<Field>, values: seq<nat>, ended: seq<bool>, n: nat, value: nat, end: bool)
    requires n < |fields| && Unwound(fields, values, ended, n + 1)
    requires value == Low(fields[n].value, fields[n].nbBits) && (end <==> Written(fields, n) == [])
    ensures Unwound(fields, values + [value], ended + [end], n)
  {
    hide Low, Written;
  }

  /** One field, the reload after it, and the test for the end. */
  method ReadField(d: DStream, fields: seq<Field>, readings: seq<Reading>, n: nat) returns (value: nat, end: bool)
    requires n < |fields| && |readings| == |fields| && Readable(fields, readings)
    requires d.Valid() && d.Left() == |Written(fields, n + 1)| && d.Rest() == Written(fields, n + 1)
    requires d.ptr <= 0 || d.bitsConsumed <= 8 + Taken(fields, readings, n + 1)
    modifies d
    ensures d.Valid() && d.Left() == |Written(fields, n)| && d.Rest() == Written(fields, n)
    ensures d.ptr <= 0 || d.bitsConsumed <= 8 + Taken(fields, readings, n)
    ensures value == Low(fields[n].value, fields[n].nbBits) && (end <==> Written(fields, n) == [])
  {
    hide DStream.Valid, DStream.Rest, DStream.Left, Value, Low, Written, Taken, Readable, Pow2;
    LastField(fields, n);
    TakenStep(fields, readings, n);
    if readings[n].fast && fields[n].nbBits >= 1 {
      value := d.ReadBitsFast(fields[n].nbBits);
    } else {
      value := d.ReadBits(fields[n].nbBits);
    }
    if readings[n].reload {
      var status := d.Reload();
    }
    end := d.EndOfDStream();
  }

  lemma TakenNone(fields: seq<Field>, readings: seq<Reading>)
    requires Readable(fields, readings)
    ensures |readings| == |fields| && Taken(fields, readings, |fields|) == 0
  {
  }

  lemma TakenStep(fields: seq<Field>, readings: seq<Reading>, n: nat)
    requires n < |fields| && Readable(fields, readings)
    ensures |readings| == |fields|
    ensures Taken(fields, readings, n) ==
              if readings[n].reload then 0 else Taken(fields, readings, n + 1) + fields[n].nbBits
    ensures fields[n].nbBits < 32 && Taken(fields, readings, n + 1) + fields[n].nbBits <= 56
  {
  }

  /**
    The bitstream is a stack: for every legal run of writes, and every legal way of reading, a non-zero result of
    closing means that nothing was lost, and the reader pops the fields in reverse order, each cut to its width.
   */
  method WriteThenRead(dst: array<byte>, start: nat, dstCapacity: nat, fields: seq<Field>, readings: seq<Reading>)
    returns (size: nat, values: seq<nat>, ended: seq<bool>)
    requires dstCapacity > REGISTER_BYTES && start + dstCapacity <= dst.Length && Writable(fields)
    requires Readable(fields, readings)
    modifies dst
    ensures size == ClosedSize(|Written(fields, |fields|)|, dstCapacity)
    ensures size > 0 ==> Unwound(fields, values, ended, 0)
  {
    hide Seal, Unseal, ClosedSize, Written, Readable, Writable, Unwound;
    size := WriteFields(dst, start, dstCapacity, fields);
    values, ended := [], [];
    if size > 0 {
      UnsealSeal(Written(fields, |fields|));
      values, ended := ReadFields(dst[start..start + size], fields, readings);
    }
  }
}
