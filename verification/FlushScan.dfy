/** Scanning a segment after a flush: what a scan finds in the merged segment is what it found in memory and on disk. */
module FlushScan {
  import opened Words
  import DelRange
  import EntitySegment
  import Merge = SegmentMerge
  import Scan = SegmentScan

  // How a block is read from its bytes and from the fields of its item.
  type Decoder = (seq<Byte>, nat, seq<Byte>) -> Scan.Block

  // A segment on file as a scan sees it.
  function Read(s: Merge.Segment, decode: Decoder): (r: Scan.Segment)
    requires Merge.ValidSegment(s)
    ensures |r.blocks| == |s.blocks|
  {
    Scan.Segment(s.entities, s.blocks, seq(|s.blocks|, i requires 0 <= i < |s.blocks| => Content(s, decode, i)))
  }

  function Content(s: Merge.Segment, decode: Decoder, i: nat): Scan.Block
    requires Merge.ValidSegment(s) && i < |s.blocks|
  {
    assert Merge.InFiles(s.blocks[i], s);
    decode(Merge.BlockBytes(s, i), s.blocks[i].nRows, s.blocks[i].rest)
  }

  ghost predicate Readable(s: Merge.Segment, decode: Decoder)
  {
    Merge.ValidSegment(s) && Scan.ValidSegment(Read(s, decode))
  }

  // The merged segment holds the contents of the disk blocks and then those of the memory blocks.
  lemma FlushKeepsContents(m: Merge.Segment, mem: Merge.Segment, dsk: Merge.Segment, decode: Decoder)
    requires Readable(mem, decode) && Readable(dsk, decode) && Merge.IsMerge(m, mem, dsk)
    ensures Readable(m, decode) && Read(m, decode).blocks == Read(dsk, decode).blocks + Read(mem, decode).blocks
  {
    hide Merge.ValidSegment, Merge.IsMerge, EntitySegment.ValidTable, Scan.ValidBlock, Content;
    var n := |dsk.blocks|;
    MergedValid(m, mem, dsk);
    forall i | 0 <= i < |m.blocks|
      ensures Content(m, decode, i) == if i < n then Content(dsk, decode, i) else Content(mem, decode, i - n)
      ensures Merge.SameBlock(m.blocks[i], if i < n then dsk.blocks[i] else mem.blocks[i - n])
    {
      if i < n {
        DiskContent(m, mem, dsk, decode, i);
      } else {
        MemContent(m, mem, dsk, decode, i - n);
      }
    }
  }

  lemma MergedValid(m: Merge.Segment, mem: Merge.Segment, dsk: Merge.Segment)
    requires Merge.ValidSegment(mem) && Merge.ValidSegment(dsk) && Merge.IsMerge(m, mem, dsk)
    ensures Merge.ValidSegment(m) && EntitySegment.ValidTable(m.entities, m.blocks)
    ensures |m.blocks| == |dsk.blocks| + |mem.blocks|
  {
    hide EntitySegment.ValidTable, Merge.InFiles;
    Merge.MergeKeepsBytes(m, mem, dsk);
  }

  lemma DiskContent(m: Merge.Segment, mem: Merge.Segment, dsk: Merge.Segment, decode: Decoder, i: nat)
    requires Merge.ValidSegment(m) && Merge.ValidSegment(mem) && Merge.ValidSegment(dsk) && Merge.IsMerge(m, mem, dsk)
    requires i < |dsk.blocks|
    ensures Content(m, decode, i) == Content(dsk, decode, i) && m.blocks[i] == dsk.blocks[i]
  {
    hide EntitySegment.ValidTable, Merge.BlockBytes, Merge.AggBytes;
    Merge.DiskBytes(m, mem, dsk, i);
    assert m.blocks[i] == m.blocks[..|dsk.blocks|][i];
  }

  lemma MemContent(m: Merge.Segment, mem: Merge.Segment, dsk: Merge.Segment, decode: Decoder, i: nat)
    requires Merge.ValidSegment(m) && Merge.ValidSegment(mem) && Merge.ValidSegment(dsk) && Merge.IsMerge(m, mem, dsk)
    requires i < |mem.blocks|
    ensures Content(m, decode, |dsk.blocks| + i) == Content(mem, decode, i)
    ensures Merge.SameBlock(m.blocks[|dsk.blocks| + i], mem.blocks[i])
  {
    hide EntitySegment.ValidTable, Merge.IsMerge, Merge.BlockBytes, Merge.AggBytes;
    assert |m.blocks| == |dsk.blocks| + |mem.blocks| by { MergedValid(m, mem, dsk); }
    Merge.MemBytes(m, mem, dsk, i);
    Merge.MergeKeepsFields(m, mem, dsk);
  }

  function Down(floor: nat, n: nat): nat { if floor <= n then 0 else floor - n }

  lemma ShiftedFirst(id: nat, ids: seq<nat>, n: nat)
    ensures Merge.Shifted([id] + ids, n) == [id + n] + Merge.Shifted(ids, n)
  {
    assert ([id] + ids)[1..] == ids;
  }

  // The ids of a joined chain above a floor.
  lemma {:induction false} AboveJoined(mem: seq<nat>, dsk: seq<nat>, n: nat, floor: nat)
    requires (forall k :: 0 <= k < |mem| ==> mem[k] > 0) && forall k :: 0 <= k < |dsk| ==> dsk[k] <= n
    ensures Scan.Above(Merge.Shifted(mem, n) + dsk, floor)
         == Merge.Shifted(Scan.Above(mem, Down(floor, n)), n) + Scan.Above(dsk, floor)
  {
    hide Scan.Above, Merge.Shifted;
    if mem == [] {
      AboveNothing(Down(floor, n), n);
      assert [] + dsk == dsk && [] + Scan.Above(dsk, floor) == Scan.Above(dsk, floor);
    } else {
      var id, ids := mem[0], mem[1..];
      assert mem == [id] + ids;
      AboveJoined(ids, dsk, n, floor);
      ShiftedFirst(id, ids, n);
      assert ([id + n] + Merge.Shifted(ids, n)) + dsk == [id + n] + (Merge.Shifted(ids, n) + dsk);
      Scan.AboveFirst(id + n, Merge.Shifted(ids, n) + dsk, floor);
      Scan.AboveFirst(id, ids, Down(floor, n));
      if id + n <= floor {
        AboveNothing(Down(floor, n), n);
        NoneAboveFloor(dsk, floor);
      } else {
        ShiftedFirst(id, Scan.Above(ids, Down(floor, n)), n);
      }
    }
  }

  lemma AboveNothing(floor: nat, n: nat)
    ensures Scan.Above([], floor) == [] && Merge.Shifted([], n) == []
  {
  }

  lemma NoneAboveFloor(ids: seq<nat>, floor: nat)
    requires forall k :: 0 <= k < |ids| ==> ids[k] <= floor
    ensures Scan.Above(ids, floor) == []
  {
  }

  // An entity with blocks in memory and on disk belongs to the same table in both.
  predicate SameTable(mem: Merge.Segment, dsk: Merge.Segment, entity: nat)
    requires entity > 0
  {
    Merge.Exists(mem.entities, entity - 1) && Merge.Exists(dsk.entities, entity - 1) ==>
      mem.entities[entity - 1].tableId == dsk.entities[entity - 1].tableId
  }

  // The table and the chain of an entity behind a flush.
  lemma MergedChain(m: Merge.Segment, mem: Merge.Segment, dsk: Merge.Segment, entity: nat)
    requires Merge.ValidSegment(mem) && Merge.ValidSegment(dsk) && Merge.IsMerge(m, mem, dsk) && entity > 0
    ensures EntitySegment.ValidTable(m.entities, m.blocks)
    ensures EntitySegment.ChainOf(m.entities, m.blocks, entity).ids
         == Merge.Shifted(EntitySegment.ChainOf(mem.entities, mem.blocks, entity).ids, |dsk.blocks|)
            + EntitySegment.ChainOf(dsk.entities, dsk.blocks, entity).ids
  {
    hide Merge.InFiles, EntitySegment.SlotOk, EntitySegment.WalkFrom, EntitySegment.ValidBlocks;
    Merge.MergeKeepsChains(m, mem, dsk);
    if entity > |m.entities| {
      assert Merge.Shifted([], |dsk.blocks|) + [] == [];
    }
  }

  // Which ids a chain holds.
  lemma ChainIds(s: Merge.Segment, entity: nat)
    requires Merge.ValidSegment(s) && entity > 0
    ensures var ids := EntitySegment.ChainOf(s.entities, s.blocks, entity).ids;
      && (forall k :: 0 <= k < |ids| ==> 0 < ids[k] <= |s.blocks|)
      && (ids != [] <==> Merge.Exists(s.entities, entity - 1))
  {
    hide Merge.InFiles;
    if entity <= |s.entities| {
      assert EntitySegment.SlotOk(s.entities[entity - 1], entity, s.blocks);
    }
  }

  lemma ReadableOf(s: Merge.Segment, decode: Decoder, table: nat, entity: nat, floor: nat)
    requires Readable(s, decode) && entity > 0
    ensures Scan.ReadableIds(Read(s, decode), table, entity, floor)
         == if Merge.Exists(s.entities, entity - 1) && s.entities[entity - 1].tableId == table
            then Scan.Above(EntitySegment.ChainOf(s.entities, s.blocks, entity).ids, floor) else []
  {
    hide Merge.InFiles, EntitySegment.ValidTable, EntitySegment.ChainOf, Scan.ValidBlock, Content;
    ChainIds(s, entity);
  }

  // The table of an entity behind a flush: the one in memory goes first.
  lemma MergedTable(m: Merge.Segment, mem: Merge.Segment, dsk: Merge.Segment, entity: nat)
    requires Merge.ValidSegment(mem) && Merge.ValidSegment(dsk) && Merge.IsMerge(m, mem, dsk) && entity > 0
    ensures Merge.Exists(m.entities, entity - 1)
       <==> Merge.Exists(mem.entities, entity - 1) || Merge.Exists(dsk.entities, entity - 1)
    ensures Merge.Exists(m.entities, entity - 1) ==>
      m.entities[entity - 1].tableId
      == if Merge.Exists(mem.entities, entity - 1) then mem.entities[entity - 1].tableId
         else if Merge.Exists(dsk.entities, entity - 1) then dsk.entities[entity - 1].tableId else 0
  {
    hide Merge.InFiles, EntitySegment.ValidTable, Merge.MergedBlock;
    if entity <= |m.entities| {
      assert m.entities[entity - 1] == Merge.MergedEntity(mem.entities, dsk.entities, |dsk.blocks|, entity - 1);
    }
  }

  /** After a flush a scan reads the memory blocks it could read before, ids shifted, and then the disk blocks it could
      read before, if the entity belongs to the same table in both. */
  lemma FlushFinds(m: Merge.Segment, mem: Merge.Segment, dsk: Merge.Segment, decode: Decoder, table: nat, entity: nat,
                   floor: nat)
    requires Readable(mem, decode) && Readable(dsk, decode) && Merge.IsMerge(m, mem, dsk) && Readable(m, decode)
    requires entity > 0 && SameTable(mem, dsk, entity)
    ensures Found(m, mem, dsk, decode, table, entity, floor)
  {
    hide Merge.InFiles, Merge.IsMerge, EntitySegment.ValidTable, EntitySegment.ChainOf, Read, Scan.ValidSegment;
    hide Scan.ReadableIds, Scan.Above;
    ChainIds(mem, entity);
    ChainIds(dsk, entity);
    MergedChain(m, mem, dsk, entity);
    MergedTable(m, mem, dsk, entity);
    var memIds := EntitySegment.ChainOf(mem.entities, mem.blocks, entity).ids;
    var dskIds := EntitySegment.ChainOf(dsk.entities, dsk.blocks, entity).ids;
    AboveJoined(memIds, dskIds, |dsk.blocks|, floor);
    AboveNothing(floor, |dsk.blocks|);
    AboveNothing(Down(floor, |dsk.blocks|), |dsk.blocks|);
    ReadableOf(m, decode, table, entity, floor);
    ReadableOf(mem, decode, table, entity, Down(floor, |dsk.blocks|));
    ReadableOf(dsk, decode, table, entity, floor);
  }

  ghost predicate Found(m: Merge.Segment, mem: Merge.Segment, dsk: Merge.Segment, decode: Decoder, table: nat,
                        entity: nat, floor: nat)
    requires Readable(m, decode) && Readable(mem, decode) && Readable(dsk, decode) && entity > 0
  {
    var n := |dsk.blocks|;
    Scan.ReadableIds(Read(m, decode), table, entity, floor)
    == Merge.Shifted(Scan.ReadableIds(Read(mem, decode), table, entity, Down(floor, n)), n)
       + Scan.ReadableIds(Read(dsk, decode), table, entity, floor)
  }

  /** The memory item decides the table, so this holds for every table exactly when both tables agree: the disk blocks
      of an entity that has another table in memory are no longer found for their own table. */
  lemma FlushFindsIff(m: Merge.Segment, mem: Merge.Segment, dsk: Merge.Segment, decode: Decoder, entity: nat)
    requires Readable(mem, decode) && Readable(dsk, decode) && Merge.IsMerge(m, mem, dsk) && Readable(m, decode)
    requires entity > 0
    ensures SameTable(mem, dsk, entity) <==> forall table :: Found(m, mem, dsk, decode, table, entity, 0)
  {
    hide Merge.ValidSegment, Merge.IsMerge, EntitySegment.ValidTable, EntitySegment.ChainOf, Read, Scan.ValidSegment;
    hide Scan.ReadableIds;
    if SameTable(mem, dsk, entity) {
      forall table
        ensures Found(m, mem, dsk, decode, table, entity, 0)
      {
        FlushFinds(m, mem, dsk, decode, table, entity, 0);
      }
    } else {
      var table := dsk.entities[entity - 1].tableId;
      ChainIds(dsk, entity);
      MergedTable(m, mem, dsk, entity);
      ReadableOf(m, decode, table, entity, 0);
      ReadableOf(dsk, decode, table, entity, 0);
      assert !Found(m, mem, dsk, decode, table, entity, 0);
    }
  }

  // One row of entity 1 at time 5, in this table.
  function OneRow(table: nat): Merge.Segment
  {
    var header := seq(Merge.HEADER, _ => 0 as Byte);
    Merge.Segment([EntitySegment.EntityItem(1, 1, 5, 5, 1, table, false)],
                  [EntitySegment.BlockItem(1, 1, 0, 16, 0, 1, 5, 5, 16, 0, table, [])], header, header)
  }

  function OneRowBlock(bytes: seq<Byte>, rows: nat, rest: seq<Byte>): Scan.Block { Scan.Block([5], [7], 5, 5, 7, 7) }

  /** A row on disk for table 2 that is not found for table 2 after a flush of a row of the same entity for table 1. */
  lemma LostByTable(m: Merge.Segment)
    requires Merge.ValidSegment(OneRow(1)) && Merge.ValidSegment(OneRow(2)) && Merge.IsMerge(m, OneRow(1), OneRow(2))
    ensures Readable(OneRow(1), OneRowBlock) && Readable(OneRow(2), OneRowBlock) && Readable(m, OneRowBlock)
    ensures Scan.ReadableIds(Read(OneRow(2), OneRowBlock), 2, 1, 0) == [1]
    ensures Scan.ReadableIds(Read(m, OneRowBlock), 2, 1, 0) == []
  {
    OneRowReadable(1);
    OneRowReadable(2);
    FlushKeepsContents(m, OneRow(1), OneRow(2), OneRowBlock);
    MergedTable(m, OneRow(1), OneRow(2), 1);
    ReadableOf(m, OneRowBlock, 2, 1, 0);
    ReadableOf(OneRow(2), OneRowBlock, 2, 1, 0);
  }

  lemma OneRowReadable(table: nat)
    ensures Readable(OneRow(table), OneRowBlock)
    ensures Scan.Above(EntitySegment.ChainOf(OneRow(table).entities, OneRow(table).blocks, 1).ids, 0) == [1]
  {
    var s := OneRow(table);
    assert EntitySegment.ValidBlock(s.blocks, 0);
    EntitySegment.WalkStep(s.blocks, 1);
    EntitySegment.NoChain(s.blocks);
    assert EntitySegment.SlotOk(s.entities[0], 1, s.blocks);
    assert Merge.InFiles(s.blocks[0], s);
  }

  // Exactly the rows of a block that lie in some range are in the pieces with its id.
  ghost predicate RowsFound(pieces: seq<Scan.Piece>, id: nat, b: Scan.Block, ranges: seq<DelRange.Range>)
  {
    && Scan.ValidBlock(b)
    && forall row :: 0 <= row < |b.ts| ==>
         && Scan.PieceCover(pieces, id, row) <= DelRange.Cover(ranges, Scan.RowPoint(b, row))
         && (DelRange.Cover(ranges, Scan.RowPoint(b, row)) > 0 ==> Scan.PieceCover(pieces, id, row) > 0)
  }

  lemma SameContent(pieces: seq<Scan.Piece>, all: seq<Scan.Block>, ranges: seq<DelRange.Range>, id: nat)
    requires 1 <= id <= |all| && Scan.ValidBlock(all[id - 1]) && Scan.Scanned(pieces, all, ranges, id)
    ensures RowsFound(pieces, id, all[id - 1], ranges)
  {
    hide Scan.ValidBlock, Scan.PieceCover, DelRange.Cover;
  }

  lemma BlockOk(s: Merge.Segment, decode: Decoder, id: nat)
    requires Readable(s, decode) && 1 <= id <= |s.blocks|
    ensures Scan.ValidBlock(Read(s, decode).blocks[id - 1])
  {
  }

  /** A flush and then a scan: exactly the rows of the memory blocks and of the disk blocks of the entity that lie in
      some range, and nothing else. */
  method FlushThenScan(mem: Merge.Segment, dsk: Merge.Segment, decode: Decoder, table: nat, entity: nat, floor: nat,
                       ranges: seq<DelRange.Range>) returns (m: Merge.Segment, pieces: seq<Scan.Piece>)
    requires Readable(mem, decode) && Readable(dsk, decode) && entity > 0 && SameTable(mem, dsk, entity)
    ensures Merge.IsMerge(m, mem, dsk)
    ensures var ids := Scan.ReadableIds(Read(mem, decode), table, entity, Down(floor, |dsk.blocks|));
      forall k :: 0 <= k < |ids| ==>
        RowsFound(pieces, |dsk.blocks| + ids[k], Read(mem, decode).blocks[ids[k] - 1], ranges)
    ensures var ids := Scan.ReadableIds(Read(dsk, decode), table, entity, floor);
      forall k :: 0 <= k < |ids| ==> RowsFound(pieces, ids[k], Read(dsk, decode).blocks[ids[k] - 1], ranges)
    ensures forall k :: 0 <= k < |pieces| ==>
      || pieces[k].id in Scan.ReadableIds(Read(dsk, decode), table, entity, floor)
      || (&& pieces[k].id >= |dsk.blocks| && pieces[k].id - |dsk.blocks|
            in Scan.ReadableIds(Read(mem, decode), table, entity, Down(floor, |dsk.blocks|)))
  {
    hide Merge.ValidSegment, Merge.IsMerge, Merge.Shifted, Scan.ReadableIds, Scan.ValidSegment, RowsFound, Read;
    hide Scan.ValidBlock, Scan.Scanned;
    m := Merge.NormalFlush(mem, dsk);
    FlushKeepsContents(m, mem, dsk, decode);
    FlushFinds(m, mem, dsk, decode, table, entity, floor);
    pieces := Scan.GetBlockSpans(Read(m, decode), table, entity, floor, ranges);
    ghost var n := |dsk.blocks|;
    ghost var memIds := Scan.ReadableIds(Read(mem, decode), table, entity, Down(floor, n));
    ghost var dskIds := Scan.ReadableIds(Read(dsk, decode), table, entity, floor);
    ghost var ids := Scan.ReadableIds(Read(m, decode), table, entity, floor);
    forall k | 0 <= k < |memIds|
      ensures RowsFound(pieces, n + memIds[k], Read(mem, decode).blocks[memIds[k] - 1], ranges)
    {
      assert ids[k] == memIds[k] + n;
      BlockOk(m, decode, ids[k]);
      SameContent(pieces, Read(m, decode).blocks, ranges, ids[k]);
    }
    forall k | 0 <= k < |dskIds|
      ensures RowsFound(pieces, dskIds[k], Read(dsk, decode).blocks[dskIds[k] - 1], ranges)
    {
      assert ids[|memIds| + k] == dskIds[k];
      BlockOk(m, decode, dskIds[k]);
      SameContent(pieces, Read(m, decode).blocks, ranges, dskIds[k]);
    }
  }
}
