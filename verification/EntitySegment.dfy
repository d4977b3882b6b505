/** The tables of an entity segment: one item per entity, one item per block, and chains that lead from an entity's
    newest block to its oldest. */
module EntitySegment {
  import opened Words

  const INT64_MAX := 0x7fff_ffff_ffff_ffff
  const INT64_MIN := -0x8000_0000_0000_0000

  datatype EntityItem = EntityItem(entityId: nat, curBlock: nat, minTs: int, maxTs: int, rowWritten: nat, tableId: nat,
                                   dropped: bool)

  // `rest` stands for the fields that no operation here looks at.
  datatype BlockItem = BlockItem(blockId: nat, entityId: nat, prev: nat, blockOffset: nat, blockLen: nat, nRows: nat,
                                 minTs: int, maxTs: int, aggOffset: nat, aggLen: nat, tableId: nat, rest: seq<Byte>)

  const NO_ITEM := EntityItem(0, 0, INT64_MAX, INT64_MIN, 0, 0, false)

  // ---------- chains ----------

  // Block i + 1 is at position i and links to an older block of the same entity, or to none.
  predicate ValidBlock(blocks: seq<BlockItem>, i: nat)
    requires i < |blocks|
  {
    && blocks[i].blockId == i + 1 && blocks[i].prev <= i
    && (blocks[i].prev > 0 ==> blocks[blocks[i].prev - 1].entityId == blocks[i].entityId)
  }

  predicate ValidBlocks(blocks: seq<BlockItem>)
  {
    forall i :: 0 <= i < |blocks| ==> ValidBlock(blocks, i)
  }

  // What walking a chain from one block yields.
  datatype Walk = Walk(ids: seq<nat>, rows: nat, minTs: int, maxTs: int)

  const NO_WALK := Walk([], 0, INT64_MAX, INT64_MIN)

  // A walk with one newer block.
  function Extended(cur: nat, b: BlockItem, older: Walk): Walk
  {
    Walk([cur] + older.ids, b.nRows + older.rows, Min(b.minTs, older.minTs), Max(b.maxTs, older.maxTs))
  }

  function WalkFrom(blocks: seq<BlockItem>, cur: nat): (w: Walk)
    requires ValidBlocks(blocks) && cur <= |blocks|
    ensures forall k :: 0 <= k < |w.ids| ==>
      0 < w.ids[k] <= cur && blocks[w.ids[k] - 1].entityId == blocks[cur - 1].entityId
    ensures forall j, k :: 0 <= j < k < |w.ids| ==> w.ids[j] > w.ids[k]
    decreases cur
  {
    if cur == 0 then NO_WALK
    else
      assert ValidBlock(blocks, cur - 1);
      var b := blocks[cur - 1];
      Extended(cur, b, WalkFrom(blocks, b.prev))
  }

  lemma WalkStep(blocks: seq<BlockItem>, cur: nat)
    requires ValidBlocks(blocks) && 0 < cur <= |blocks| && ValidBlock(blocks, cur - 1)
    ensures WalkFrom(blocks, cur) == Extended(cur, blocks[cur - 1], WalkFrom(blocks, blocks[cur - 1].prev))
  {
  }

  lemma NoChain(blocks: seq<BlockItem>)
    requires ValidBlocks(blocks)
    ensures WalkFrom(blocks, 0) == NO_WALK
  {
  }

  // The extremes of an empty walk are neutral.
  predicate WalkBounds(w: Walk) { w.minTs <= INT64_MAX && w.maxTs >= INT64_MIN }

  lemma {:induction false} Bounds(blocks: seq<BlockItem>, cur: nat)
    requires ValidBlocks(blocks) && cur <= |blocks|
    ensures WalkBounds(WalkFrom(blocks, cur))
    decreases cur
  {
    if cur > 0 {
      assert ValidBlock(blocks, cur - 1);
      Bounds(blocks, blocks[cur - 1].prev);
    }
  }

  // Blocks appended later do not touch the chains that exist.
  lemma {:induction false} WalkKept(blocks: seq<BlockItem>, more: seq<BlockItem>, cur: nat)
    requires ValidBlocks(blocks) && ValidBlocks(blocks + more) && cur <= |blocks|
    ensures WalkFrom(blocks + more, cur) == WalkFrom(blocks, cur)
    decreases cur
  {
    if cur > 0 {
      assert ValidBlock(blocks, cur - 1);
      assert (blocks + more)[cur - 1] == blocks[cur - 1];
      WalkKept(blocks, more, blocks[cur - 1].prev);
    }
  }

  // The item of an entity sums up the entity's chain. A blank item may stand for an entity without blocks.
  predicate SlotOk(item: EntityItem, id: nat, blocks: seq<BlockItem>)
    requires ValidBlocks(blocks)
  {
    && (item.entityId == id || item == NO_ITEM) && item.curBlock <= |blocks|
    && (item.curBlock > 0 ==> blocks[item.curBlock - 1].entityId == id)
    && item.rowWritten == WalkFrom(blocks, item.curBlock).rows
    && item.minTs == WalkFrom(blocks, item.curBlock).minTs && item.maxTs == WalkFrom(blocks, item.curBlock).maxTs
  }

  // A dense table: the item of entity id is at position id - 1.
  predicate ValidTable(entities: seq<EntityItem>, blocks: seq<BlockItem>)
  {
    && ValidBlocks(blocks)
    && (forall i :: 0 <= i < |entities| ==> SlotOk(entities[i], i + 1, blocks))
    && (forall i :: 0 <= i < |blocks| ==> 0 < blocks[i].entityId)
  }

  // The chain of an entity; entities without an item have none.
  function ChainOf(entities: seq<EntityItem>, blocks: seq<BlockItem>, id: nat): Walk
    requires ValidTable(entities, blocks) && id > 0
  {
    if id > |entities| then NO_WALK
    else
      assert SlotOk(entities[id - 1], id, blocks);
      WalkFrom(blocks, entities[id - 1].curBlock)
  }

  /** GetAllBlockItems: the walk returns the items of the entity's chain, newest first, and ends. */
  method GetAllBlockItems(entities: seq<EntityItem>, blocks: seq<BlockItem>, id: nat) returns (items: seq<BlockItem>)
    requires ValidTable(entities, blocks) && id > 0
    ensures |items| == |ChainOf(entities, blocks, id).ids|
    ensures forall k :: 0 <= k < |items| ==>
      items[k].blockId == ChainOf(entities, blocks, id).ids[k] && items[k].entityId == id
    ensures forall k :: 0 <= k < |items| ==> items[k] in blocks
  {
    items := [];
    var last := 0;
    if id <= |entities| {
      assert SlotOk(entities[id - 1], id, blocks);
      last := entities[id - 1].curBlock;
    }
    ghost var chain := ChainOf(entities, blocks, id).ids;
    assert chain == WalkFrom(blocks, last).ids;
    while last > 0
      invariant 0 <= last <= |blocks| && |items| <= |chain| && WalkFrom(blocks, last).ids == chain[|items|..]
      invariant forall k :: 0 <= k < |items| ==>
        items[k].blockId == chain[k] && items[k].entityId == id && items[k] in blocks
      decreases last
    {
      assert ValidBlock(blocks, last - 1);
      ghost var w := WalkFrom(blocks, last);
      assert chain[|items|] == w.ids[0] == last;
      assert chain[|items| + 1..] == w.ids[1..] == WalkFrom(blocks, blocks[last - 1].prev).ids;
      items := items + [blocks[last - 1]];
      last := blocks[last - 1].prev;
    }
  }
}
