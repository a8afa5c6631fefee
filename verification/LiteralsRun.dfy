/** The literals of a run of blocks, through the encoder's two alternating tables and the decoder's one. */
module LiteralsRun {
  import opened Bits
  import opened Wrappers
  import opened HufCompress
  import opened Literals
  import opened LiteralsDecoder

  /**
    A block: its literals, the room for the section, the choices made for it, and whether the block is kept once it
    is compressed.
   */
  datatype Plan = Plan(literals: seq<byte>, dstCapacity: nat, strategy: nat, disableLiteralCompression: bool,
                       suspectUncompressible: bool, probedLog: nat, kept: bool)

  ghost predicate ValidPlan(p: Plan)
  {
    |p.literals| <= BLOCKSIZE_MAX && 1 <= p.strategy <= 9
  }

  /** The table carried over, when it may be used at all, is the one the decoder has. */
  ghost predicate Agree(t: HufTables, table: DecoderTable)
    reads t, t.elts
  {
    t.Valid() && (t.repeatMode.RepeatNone? || table == LastCode(t.lens, t.tableLog))
  }

  /** One block: what the decoder makes of its section if the block is kept. */
  method SendBlock(p: Plan, prev: HufTables, next: HufTables, table: DecoderTable)
    returns (got: Option<seq<nat>>, table': DecoderTable)
    requires ValidPlan(p) && Agree(prev, table)
    requires prev != next && prev.elts != next.elts && next.elts.Length == 256
    modifies next, next.elts
    ensures got.Some? ==> got.value == p.literals && Agree(next, table')
    ensures got.None? ==> table' == table && (p.kept ==> p.dstCapacity < |p.literals| + FlSize(|p.literals|))
  {
    hide IsCode, CoversAll, IsSection;
    var dst := new byte[p.dstCapacity];
    var size, o, fourStreams := CompressLiterals(dst, 0, p.dstCapacity, p.literals, prev, next, p.strategy,
                                                 p.disableLiteralCompression, p.suspectUncompressible, p.probedLog);
    if size.Err? || !p.kept {
      return None, table;
    }
    var section := dst[0..size.value];
    var r;
    r, table' := DecodeLiterals(section, table, section, o, next.lens, next.tableLog, p.literals, fourStreams);
    got := Some(r.value.literals);
  }

  /**
    For every run of blocks from tables that agree: every block that is kept, and for which there was room, reaches the
    decoder unchanged, whatever tables were sent, reused, dropped or restored on the way.
   */
  method SendAll(plans: seq<Plan>, first: HufTables, firstTable: DecoderTable) returns (got: seq<Option<seq<nat>>>)
    requires Agree(first, firstTable) && forall i :: 0 <= i < |plans| ==> ValidPlan(plans[i])
    ensures |got| == |plans| && forall i :: 0 <= i < |got| ==> got[i].Some? ==> got[i].value == plans[i].literals
    ensures forall i :: 0 <= i < |got| ==> got[i].None? ==>
              !plans[i].kept || plans[i].dstCapacity < |plans[i].literals| + FlSize(|plans[i].literals|)
  {
    hide IsCode, CoversAll;
    var prev := new HufTables();
    var next := new HufTables();
    prev.CopyFrom(first);
    CopyAgrees(prev, first, firstTable);
    got := [];
    var table := firstTable;
    for i := 0 to |plans|
      invariant fresh(prev) && fresh(prev.elts) && fresh(next) && fresh(next.elts)
      invariant prev != next && prev.elts != next.elts && prev.elts.Length == next.elts.Length == 256
      invariant Agree(prev, table) && |got| == i
      invariant forall j :: 0 <= j < i ==> got[j].Some? ==> got[j].value == plans[j].literals
      invariant forall j :: 0 <= j < i ==> got[j].None? ==>
                  !plans[j].kept || plans[j].dstCapacity < |plans[j].literals| + FlSize(|plans[j].literals|)
    {
      var literals, table' := SendBlock(plans[i], prev, next, table);
      got, table := got + [literals], table';
      if literals.Some? {
        prev, next := next, prev;
      }
    }
  }

  lemma CopyAgrees(copy: HufTables, t: HufTables, table: DecoderTable)
    requires Agree(t, table) && copy.SameTable(t) && copy.repeatMode == t.repeatMode && copy.elts.Length == 256
    ensures Agree(copy, table)
  {
  }
}
