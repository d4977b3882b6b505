/** Flushing an in-memory entity segment onto the segment on disk: its blocks get new ids behind the disk blocks, its
    oldest blocks link to the disk chains, and its files are appended to the disk files. */
module SegmentMerge {
  import opened Words
  import opened EntitySegment

  // The size of the header of a block file and of an aggregate file.
  const HEADER := 16

  datatype Segment = Segment(entities: seq<EntityItem>, blocks: seq<BlockItem>, blockFile: seq<Byte>,
                             aggFile: seq<Byte>)

  predicate InFiles(b: BlockItem, s: Segment)
  {
    && HEADER <= b.blockOffset && b.blockOffset + b.blockLen <= |s.blockFile|
    && HEADER <= b.aggOffset && b.aggOffset + b.aggLen <= |s.aggFile|
  }

  predicate ValidSegment(s: Segment)
  {
    && ValidTable(s.entities, s.blocks)
    && |s.blockFile| >= HEADER && |s.aggFile| >= HEADER
    && forall i :: 0 <= i < |s.blocks| ==> InFiles(s.blocks[i], s)
  }

  function BlockBytes(s: Segment, i: nat): seq<Byte>
    requires i < |s.blocks| && InFiles(s.blocks[i], s)
  {
    s.blockFile[s.blocks[i].blockOffset..s.blocks[i].blockOffset + s.blocks[i].blockLen]
  }

  function AggBytes(s: Segment, i: nat): seq<Byte>
    requires i < |s.blocks| && InFiles(s.blocks[i], s)
  {
    s.aggFile[s.blocks[i].aggOffset..s.blocks[i].aggOffset + s.blocks[i].aggLen]
  }

  // ---------- what one item becomes ----------

  predicate Exists(entities: seq<EntityItem>, i: nat) { i < |entities| && entities[i].curBlock != 0 }

  function MergedEntity(mem: seq<EntityItem>, dsk: seq<EntityItem>, shift: nat, i: nat): EntityItem
  {
    if !Exists(mem, i) then (if Exists(dsk, i) then dsk[i] else NO_ITEM)
    else if !Exists(dsk, i) then mem[i].(curBlock := mem[i].curBlock + shift)
    else mem[i].(minTs := Min(mem[i].minTs, dsk[i].minTs), maxTs := Max(mem[i].maxTs, dsk[i].maxTs),
                 rowWritten := mem[i].rowWritten + dsk[i].rowWritten, curBlock := mem[i].curBlock + shift)
  }

  function MergedPrev(b: BlockItem, dsk: seq<EntityItem>, shift: nat): nat
    requires b.entityId > 0
  {
    if b.prev != 0 then b.prev + shift else if b.entityId <= |dsk| then dsk[b.entityId - 1].curBlock else 0
  }

  function MergedBlock(b: BlockItem, dsk: Segment): BlockItem
    requires b.entityId > 0 && |dsk.blockFile| >= HEADER && |dsk.aggFile| >= HEADER
  {
    b.(blockId := b.blockId + |dsk.blocks|, blockOffset := b.blockOffset + |dsk.blockFile| - HEADER,
       aggOffset := b.aggOffset + |dsk.aggFile| - HEADER, prev := MergedPrev(b, dsk.entities, |dsk.blocks|))
  }

  // The segment after the flush.
  ghost predicate IsMerge(m: Segment, mem: Segment, dsk: Segment)
    requires ValidSegment(mem) && ValidSegment(dsk)
  {
    && |m.entities| == Max(|mem.entities|, |dsk.entities|)
    && (forall i :: 0 <= i < |m.entities| ==>
       m.entities[i] == MergedEntity(mem.entities, dsk.entities, |dsk.blocks|, i))
    && |m.blocks| == |dsk.blocks| + |mem.blocks| && m.blocks[..|dsk.blocks|] == dsk.blocks
    && (forall i :: 0 <= i < |mem.blocks| ==> m.blocks[|dsk.blocks| + i] == MergedBlock(mem.blocks[i], dsk))
    && m.blockFile == dsk.blockFile + mem.blockFile[HEADER..] && m.aggFile == dsk.aggFile + mem.aggFile[HEADER..]
  }

  // ---------- the edits in place ----------

  // The entity items: memory items are edited in place, in a larger buffer where the disk has more entities.
  method MergeEntities(mem: array<EntityItem>, dsk: seq<EntityItem>, shift: nat) returns (entities: array<EntityItem>)
    modifies mem
    ensures entities.Length == Max(mem.Length, |dsk|) && (entities == mem || fresh(entities))
    ensures forall i :: 0 <= i < entities.Length ==> entities[i] == MergedEntity(old(mem[..]), dsk, shift, i)
  {
    entities := mem;
    var memNum := mem.Length;
    if mem.Length < |dsk| {
      entities := new EntityItem[|dsk|];
      forall i | 0 <= i < memNum { entities[i] := mem[i]; }
    }
    var i := 0;
    while i < entities.Length
      invariant 0 <= i <= entities.Length
      invariant forall k :: 0 <= k < i ==> entities[k] == MergedEntity(old(mem[..]), dsk, shift, k)
      invariant forall k :: i <= k < memNum ==> entities[k] == old(mem[k])
    {
      var memExist := i < memNum && entities[i].curBlock != 0;
      var dskExist := i < |dsk| && dsk[i].curBlock != 0;
      if !memExist {
        entities[i] := if dskExist then dsk[i] else NO_ITEM;
      } else if !dskExist {
        entities[i] := entities[i].(curBlock := entities[i].curBlock + shift);
      } else {
        var minTs := Min(entities[i].minTs, dsk[i].minTs);
        var maxTs := Max(entities[i].maxTs, dsk[i].maxTs);
        var rowWritten := entities[i].rowWritten + dsk[i].rowWritten;
        entities[i] := entities[i].(minTs := minTs, maxTs := maxTs, rowWritten := rowWritten,
                                    curBlock := entities[i].curBlock + shift);
      }
      i := i + 1;
    }
  }

  // The block items, edited in place.
  method MergeBlocks(blocks: array<BlockItem>, dsk: Segment)
    requires |dsk.blockFile| >= HEADER && |dsk.aggFile| >= HEADER
    requires forall i :: 0 <= i < blocks.Length ==> blocks[i].entityId > 0
    modifies blocks
    ensures forall i :: 0 <= i < blocks.Length ==> blocks[i] == MergedBlock(old(blocks[i]), dsk)
  {
    var shift := |dsk.blocks|;
    var i := 0;
    while i < blocks.Length
      invariant 0 <= i <= blocks.Length
      invariant forall k :: 0 <= k < i ==> blocks[k] == MergedBlock(old(blocks[k]), dsk)
      invariant forall k :: i <= k < blocks.Length ==> blocks[k] == old(blocks[k])
    {
      var b := blocks[i];
      var prev := b.prev;
      if b.prev != 0 {
        prev := b.prev + shift;
      } else if b.entityId - 1 < |dsk.entities| {
        prev := dsk.entities[b.entityId - 1].curBlock;
      }
      blocks[i] := b.(blockId := b.blockId + shift, prev := prev,
                      blockOffset := b.blockOffset + (|dsk.blockFile| - HEADER),
                      aggOffset := b.aggOffset + (|dsk.aggFile| - HEADER));
      i := i + 1;
    }
  }

  /** NormalFlush: edits the item tables read from the memory segment and appends all its files. */
  method NormalFlush(mem: Segment, dsk: Segment) returns (m: Segment)
    requires ValidSegment(mem) && ValidSegment(dsk)
    ensures IsMerge(m, mem, dsk)
  {
    var entityBuffer := new EntityItem[|mem.entities|](i requires 0 <= i < |mem.entities| => mem.entities[i]);
    var blockBuffer := new BlockItem[|mem.blocks|](i requires 0 <= i < |mem.blocks| => mem.blocks[i]);
    assert entityBuffer[..] == mem.entities && blockBuffer[..] == mem.blocks;
    var entities := MergeEntities(entityBuffer, dsk.entities, |dsk.blocks|);
    MergeBlocks(blockBuffer, dsk);
    m := Segment(entities[..], dsk.blocks + blockBuffer[..], dsk.blockFile + mem.blockFile[HEADER..],
                 dsk.aggFile + mem.aggFile[HEADER..]);
  }

  // ---------- what the merged segment means ----------

  // Links of the merged blocks.
  lemma MergedBlocksValid(m: Segment, mem: Segment, dsk: Segment)
    requires ValidSegment(mem) && ValidSegment(dsk) && IsMerge(m, mem, dsk)
    ensures ValidBlocks(m.blocks)
  {
    var n := |dsk.blocks|;
    forall i | 0 <= i < |m.blocks|
      ensures ValidBlock(m.blocks, i)
    {
      if i < n {
        assert m.blocks[i] == m.blocks[..n][i] == dsk.blocks[i];
        assert ValidBlock(dsk.blocks, i);
        if dsk.blocks[i].prev > 0 {
          assert m.blocks[..n][dsk.blocks[i].prev - 1] == dsk.blocks[dsk.blocks[i].prev - 1];
        }
      } else {
        NewBlockValid(m, mem, dsk, i - n);
      }
    }
  }

  lemma NewBlockValid(m: Segment, mem: Segment, dsk: Segment, i: nat)
    requires ValidSegment(mem) && ValidSegment(dsk) && IsMerge(m, mem, dsk) && i < |mem.blocks|
    ensures ValidBlock(m.blocks, |dsk.blocks| + i)
  {
    hide WalkFrom, InFiles;
    var n := |dsk.blocks|;
    var b := mem.blocks[i];
    assert m.blocks[n + i] == MergedBlock(b, dsk) && ValidBlock(mem.blocks, i);
    if b.prev != 0 {
      assert m.blocks[n + (b.prev - 1)] == MergedBlock(mem.blocks[b.prev - 1], dsk);
    } else if b.entityId <= |dsk.entities| {
      var item := dsk.entities[b.entityId - 1];
      assert SlotOk(item, b.entityId, dsk.blocks);
      if item.curBlock > 0 {
        assert m.blocks[..n][item.curBlock - 1] == dsk.blocks[item.curBlock - 1];
      }
    }
  }

  function Shifted(ids: seq<nat>, shift: nat): (r: seq<nat>)
    ensures |r| == |ids| && forall k :: 0 <= k < |ids| ==> r[k] == ids[k] + shift
  {
    if ids == [] then [] else [ids[0] + shift] + Shifted(ids[1..], shift)
  }

  // The walk of a memory chain followed by a disk chain.
  function Joined(mem: Walk, dsk: Walk, shift: nat): Walk
  {
    Walk(Shifted(mem.ids, shift) + dsk.ids, mem.rows + dsk.rows, Min(mem.minTs, dsk.minTs), Max(mem.maxTs, dsk.maxTs))
  }

  lemma DiskWalk(m: Segment, mem: Segment, dsk: Segment, cur: nat)
    requires ValidSegment(mem) && ValidSegment(dsk) && IsMerge(m, mem, dsk) && ValidBlocks(m.blocks)
      && cur <= |dsk.blocks|
    ensures WalkFrom(m.blocks, cur) == WalkFrom(dsk.blocks, cur)
  {
    var n := |dsk.blocks|;
    assert m.blocks == dsk.blocks + m.blocks[n..];
    WalkKept(dsk.blocks, m.blocks[n..], cur);
  }

  // A walk from a shifted memory block runs through the memory chain and then through the entity's disk chain.
  lemma {:induction false} MemWalk(m: Segment, mem: Segment, dsk: Segment, cur: nat)
    requires ValidSegment(mem) && ValidSegment(dsk) && IsMerge(m, mem, dsk) && ValidBlocks(m.blocks)
    requires 0 < cur <= |mem.blocks|
    ensures WalkFrom(m.blocks, cur + |dsk.blocks|)
         == Joined(WalkFrom(mem.blocks, cur), ChainOf(dsk.entities, dsk.blocks, mem.blocks[cur - 1].entityId),
                   |dsk.blocks|)
    decreases cur
  {
    hide InFiles, SlotOk, WalkFrom, Joined, ChainOf;
    var n := |dsk.blocks|;
    var b := mem.blocks[cur - 1];
    var disk := ChainOf(dsk.entities, dsk.blocks, b.entityId);
    assert ValidBlock(mem.blocks, cur - 1) && m.blocks[n + (cur - 1)] == MergedBlock(b, dsk);
    assert ValidBlock(m.blocks, cur + n - 1);
    WalkStep(mem.blocks, cur);
    WalkStep(m.blocks, cur + n);
    var older := WalkFrom(mem.blocks, b.prev);
    if b.prev != 0 {
      MemWalk(m, mem, dsk, b.prev);
    } else {
      OldestLinksToDisk(m, mem, dsk, b);
      NoChain(mem.blocks);
      JoinedEmpty(disk, n);
    }
    assert WalkFrom(m.blocks, MergedPrev(b, dsk.entities, n)) == Joined(older, disk, n);
    StepJoined(cur, b, older, disk, n);
  }

  lemma OldestLinksToDisk(m: Segment, mem: Segment, dsk: Segment, b: BlockItem)
    requires ValidSegment(mem) && ValidSegment(dsk) && IsMerge(m, mem, dsk) && ValidBlocks(m.blocks)
    requires b.entityId > 0 && b.prev == 0
    ensures MergedPrev(b, dsk.entities, |dsk.blocks|) <= |dsk.blocks|
    ensures WalkFrom(m.blocks, MergedPrev(b, dsk.entities, |dsk.blocks|))
         == ChainOf(dsk.entities, dsk.blocks, b.entityId)
    ensures WalkBounds(ChainOf(dsk.entities, dsk.blocks, b.entityId))
  {
    hide InFiles;
    if b.entityId <= |dsk.entities| {
      var item := dsk.entities[b.entityId - 1];
      assert SlotOk(item, b.entityId, dsk.blocks);
      DiskWalk(m, mem, dsk, item.curBlock);
      Bounds(dsk.blocks, item.curBlock);
    }
  }

  lemma JoinedEmpty(disk: Walk, shift: nat)
    requires WalkBounds(disk)
    ensures Joined(NO_WALK, disk, shift) == disk
  {
    assert Shifted([], shift) + disk.ids == disk.ids;
  }

  lemma StepJoined(cur: nat, b: BlockItem, older: Walk, disk: Walk, shift: nat)
    ensures forall b': BlockItem :: b'.nRows == b.nRows && b'.minTs == b.minTs && b'.maxTs == b.maxTs ==>
              Joined(Extended(cur, b, older), disk, shift) == Extended(cur + shift, b', Joined(older, disk, shift))
  {
    assert ([cur] + older.ids)[1..] == older.ids;
    assert Shifted([cur] + older.ids, shift) == [cur + shift] + Shifted(older.ids, shift);
  }

  // The item of every entity sums up its merged chain.
  lemma MergedSlot(m: Segment, mem: Segment, dsk: Segment, id: nat)
    requires ValidSegment(mem) && ValidSegment(dsk) && IsMerge(m, mem, dsk) && ValidBlocks(m.blocks)
    requires 0 < id <= |m.entities|
    ensures SlotOk(m.entities[id - 1], id, m.blocks)
    ensures WalkFrom(m.blocks, m.entities[id - 1].curBlock)
            == Joined(ChainOf(mem.entities, mem.blocks, id), ChainOf(dsk.entities, dsk.blocks, id), |dsk.blocks|)
  {
    hide InFiles;
    var i := id - 1;
    var n := |dsk.blocks|;
    var item := m.entities[i];
    assert item == MergedEntity(mem.entities, dsk.entities, n, i);
    if i < |dsk.entities| {
      assert SlotOk(dsk.entities[i], id, dsk.blocks);
      DiskWalk(m, mem, dsk, dsk.entities[i].curBlock);
      Bounds(dsk.blocks, dsk.entities[i].curBlock);
    }
    var disk := ChainOf(dsk.entities, dsk.blocks, id);
    if Exists(mem.entities, i) {
      assert SlotOk(mem.entities[i], id, mem.blocks);
      MemSlot(m, mem, dsk, id);
    } else {
      if i < |mem.entities| {
        assert SlotOk(mem.entities[i], id, mem.blocks);
      }
      assert ChainOf(mem.entities, mem.blocks, id) == NO_WALK;
      assert Shifted([], n) + disk.ids == disk.ids;
      DiskSlot(m, mem, dsk, id);
    }
  }

  lemma DiskSlot(m: Segment, mem: Segment, dsk: Segment, id: nat)
    requires ValidSegment(mem) && ValidSegment(dsk) && IsMerge(m, mem, dsk) && ValidBlocks(m.blocks)
    requires 0 < id <= |m.entities| && !Exists(mem.entities, id - 1)
    ensures SlotOk(m.entities[id - 1], id, m.blocks)
  {
    hide InFiles;
    var i := id - 1;
    var n := |dsk.blocks|;
    assert m.entities[i] == MergedEntity(mem.entities, dsk.entities, n, i);
    if Exists(dsk.entities, i) {
      var cur := dsk.entities[i].curBlock;
      assert SlotOk(dsk.entities[i], id, dsk.blocks);
      DiskWalk(m, mem, dsk, cur);
      assert m.blocks[cur - 1] == m.blocks[..n][cur - 1];
    }
  }

  lemma MemSlot(m: Segment, mem: Segment, dsk: Segment, id: nat)
    requires ValidSegment(mem) && ValidSegment(dsk) && IsMerge(m, mem, dsk) && ValidBlocks(m.blocks)
    requires 0 < id <= |m.entities| && Exists(mem.entities, id - 1)
    ensures SlotOk(m.entities[id - 1], id, m.blocks)
    ensures WalkFrom(m.blocks, m.entities[id - 1].curBlock)
            == Joined(ChainOf(mem.entities, mem.blocks, id), ChainOf(dsk.entities, dsk.blocks, id), |dsk.blocks|)
  {
    hide InFiles, WalkFrom;
    var i := id - 1;
    var n := |dsk.blocks|;
    var cur := mem.entities[i].curBlock;
    assert SlotOk(mem.entities[i], id, mem.blocks);
    assert m.entities[i] == MergedEntity(mem.entities, dsk.entities, n, i);
    assert m.blocks[n + (cur - 1)] == MergedBlock(mem.blocks[cur - 1], dsk);
    MemWalk(m, mem, dsk, cur);
    Bounds(mem.blocks, cur);
    if i < |dsk.entities| {
      assert SlotOk(dsk.entities[i], id, dsk.blocks);
      NoChain(dsk.blocks);
    }
  }

  /** Merging keeps chains: the walk of every entity visits its memory blocks, ids shifted by the number of disk
      blocks, and then its disk blocks; row counts add up and the time bounds are those of both parts. */
  lemma MergeKeepsChains(m: Segment, mem: Segment, dsk: Segment)
    requires ValidSegment(mem) && ValidSegment(dsk) && IsMerge(m, mem, dsk)
    ensures ValidTable(m.entities, m.blocks)
    ensures forall id :: 0 < id <= |m.entities| ==>
              ChainOf(m.entities, m.blocks, id)
              == Joined(ChainOf(mem.entities, mem.blocks, id), ChainOf(dsk.entities, dsk.blocks, id), |dsk.blocks|)
  {
    hide InFiles, WalkFrom, SlotOk;
    MergedBlocksValid(m, mem, dsk);
    forall i | 0 <= i < |m.blocks|
      ensures 0 < m.blocks[i].entityId
    {
      if i < |dsk.blocks| {
        assert m.blocks[i] == m.blocks[..|dsk.blocks|][i];
      } else {
        assert m.blocks[|dsk.blocks| + (i - |dsk.blocks|)] == MergedBlock(mem.blocks[i - |dsk.blocks|], dsk);
      }
    }
    forall i | 0 <= i < |m.entities|
      ensures SlotOk(m.entities[i], i + 1, m.blocks)
    {
      MergedSlot(m, mem, dsk, i + 1);
    }
    forall id | 0 < id <= |m.entities|
      ensures ChainOf(m.entities, m.blocks, id)
              == Joined(ChainOf(mem.entities, mem.blocks, id), ChainOf(dsk.entities, dsk.blocks, id), |dsk.blocks|)
    {
      MergedSlot(m, mem, dsk, id);
    }
  }

  /** Merging keeps what the items say besides their links: an entity with blocks in memory has the table and the
      dropped flag it has there, an entity with blocks on disk only keeps its item, and every block keeps its entity,
      its table, its rows and its time bounds. */
  lemma MergeKeepsFields(m: Segment, mem: Segment, dsk: Segment)
    requires ValidSegment(mem) && ValidSegment(dsk) && IsMerge(m, mem, dsk)
    ensures forall i :: 0 <= i < |mem.entities| && mem.entities[i].curBlock > 0 ==>
      && m.entities[i].entityId == mem.entities[i].entityId && m.entities[i].tableId == mem.entities[i].tableId
      && m.entities[i].dropped == mem.entities[i].dropped
    ensures forall i :: 0 <= i < |dsk.entities| && dsk.entities[i].curBlock > 0 ==>
      m.entities[i] == dsk.entities[i] || (i < |mem.entities| && mem.entities[i].curBlock > 0)
    ensures forall i :: 0 <= i < |dsk.blocks| ==> m.blocks[i] == dsk.blocks[i]
    ensures forall i :: 0 <= i < |mem.blocks| ==> SameBlock(m.blocks[|dsk.blocks| + i], mem.blocks[i])
  {
    hide ValidTable, InFiles, MergedPrev;
    forall i | 0 <= i < |dsk.blocks|
      ensures m.blocks[i] == dsk.blocks[i]
    {
      assert m.blocks[i] == m.blocks[..|dsk.blocks|][i];
    }
    forall i | 0 <= i < |mem.blocks|
      ensures SameBlock(m.blocks[|dsk.blocks| + i], mem.blocks[i])
    {
      assert m.blocks[|dsk.blocks| + i] == MergedBlock(mem.blocks[i], dsk) by { TablePositive(mem, i); }
    }
  }

  lemma TablePositive(s: Segment, i: nat)
    requires ValidSegment(s) && i < |s.blocks|
    ensures s.blocks[i].entityId > 0
  {
  }

  // Two items for the same data.
  predicate SameBlock(b: BlockItem, c: BlockItem)
  {
    && b.entityId == c.entityId && b.tableId == c.tableId && b.nRows == c.nRows && b.minTs == c.minTs
    && b.maxTs == c.maxTs && b.blockLen == c.blockLen && b.aggLen == c.aggLen && b.rest == c.rest
  }

  /** Merging keeps data: every block and every aggregate of the merged segment is read from the files as the same
      bytes as before, and the result is again a valid segment. */
  lemma MergeKeepsBytes(m: Segment, mem: Segment, dsk: Segment)
    requires ValidSegment(mem) && ValidSegment(dsk) && IsMerge(m, mem, dsk)
    ensures ValidSegment(m)
    ensures forall i :: 0 <= i < |dsk.blocks| ==>
      BlockBytes(m, i) == BlockBytes(dsk, i) && AggBytes(m, i) == AggBytes(dsk, i)
    ensures forall i :: 0 <= i < |mem.blocks| ==>
              BlockBytes(m, |dsk.blocks| + i) == BlockBytes(mem, i) && AggBytes(m, |dsk.blocks| + i) == AggBytes(mem, i)
  {
    hide ValidTable;
    MergeKeepsChains(m, mem, dsk);
    forall i | 0 <= i < |m.blocks|
      ensures InFiles(m.blocks[i], m)
    {
      if i < |dsk.blocks| {
        DiskBytes(m, mem, dsk, i);
      } else {
        MemBytes(m, mem, dsk, i - |dsk.blocks|);
      }
    }
    forall i | 0 <= i < |dsk.blocks|
      ensures BlockBytes(m, i) == BlockBytes(dsk, i) && AggBytes(m, i) == AggBytes(dsk, i)
    {
      DiskBytes(m, mem, dsk, i);
    }
    forall i | 0 <= i < |mem.blocks|
      ensures BlockBytes(m, |dsk.blocks| + i) == BlockBytes(mem, i) && AggBytes(m, |dsk.blocks| + i) == AggBytes(mem, i)
    {
      MemBytes(m, mem, dsk, i);
    }
  }

  lemma DiskBytes(m: Segment, mem: Segment, dsk: Segment, i: nat)
    requires ValidSegment(mem) && ValidSegment(dsk) && IsMerge(m, mem, dsk) && i < |dsk.blocks|
    ensures InFiles(m.blocks[i], m) && BlockBytes(m, i) == BlockBytes(dsk, i) && AggBytes(m, i) == AggBytes(dsk, i)
  {
    hide ValidTable;
    assert m.blocks[i] == m.blocks[..|dsk.blocks|][i] == dsk.blocks[i];
    assert InFiles(dsk.blocks[i], dsk);
  }

  lemma MemBytes(m: Segment, mem: Segment, dsk: Segment, i: nat)
    requires ValidSegment(mem) && ValidSegment(dsk) && IsMerge(m, mem, dsk) && i < |mem.blocks|
    ensures InFiles(m.blocks[|dsk.blocks| + i], m)
    ensures BlockBytes(m, |dsk.blocks| + i) == BlockBytes(mem, i) && AggBytes(m, |dsk.blocks| + i) == AggBytes(mem, i)
  {
    hide SlotOk, ValidBlocks;
    var b := mem.blocks[i];
    assert m.blocks[|dsk.blocks| + i] == MergedBlock(b, dsk) && InFiles(b, mem);
    MovedSlice(dsk.blockFile, mem.blockFile, b.blockOffset, b.blockLen);
    MovedSlice(dsk.aggFile, mem.aggFile, b.aggOffset, b.aggLen);
  }

  lemma MovedSlice(dsk: seq<Byte>, mem: seq<Byte>, offset: nat, len: nat)
    requires HEADER <= |dsk| && HEADER <= offset && offset + len <= |mem|
    ensures |dsk| + (offset - HEADER) + len <= |dsk + mem[HEADER..]|
    ensures (dsk + mem[HEADER..])[|dsk| + (offset - HEADER)..|dsk| + (offset - HEADER) + len]
         == mem[offset..offset + len]
  {
  }
}
