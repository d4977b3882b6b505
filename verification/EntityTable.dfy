/** Building the entity table and the block chains of a segment, block by block, on top of an existing segment. */
module EntityTable {
  import opened Words
  import opened EntitySegment

  // ---------- what a finished table means ----------

  // The ids of the blocks of an entity behind the first `from` blocks, newest first.
  function NewIds(blocks: seq<BlockItem>, from: nat, id: nat): seq<nat>
    requires from <= |blocks|
  {
    var n := |blocks|;
    if n == from then [] else (if blocks[n - 1].entityId == id then [n] else []) + NewIds(blocks[..n - 1], from, id)
  }

  lemma NewIdsPush(blocks: seq<BlockItem>, from: nat, id: nat, b: BlockItem)
    requires from <= |blocks|
    ensures NewIds(blocks + [b], from, id)
         == (if b.entityId == id then [|blocks| + 1] else []) + NewIds(blocks, from, id)
  {
    assert (blocks + [b])[..|blocks|] == blocks;
  }

  lemma {:induction false} NoNewIds(blocks: seq<BlockItem>, from: nat, id: nat)
    requires from <= |blocks| && forall i :: from <= i < |blocks| ==> blocks[i].entityId != id
    ensures NewIds(blocks, from, id) == []
    decreases |blocks|
  {
    if |blocks| > from {
      NoNewIds(blocks[..|blocks| - 1], from, id);
    }
  }

  // The item an entity had before, with its id filled in.
  function BaseItem(base: seq<EntityItem>, id: nat): EntityItem
    requires id > 0
  {
    var item := if id <= |base| then base[id - 1] else NO_ITEM;
    if item.entityId == 0 then item.(entityId := id) else item
  }

  // An entity that gets no blocks keeps its item, and one the base does not have gets a blank item with its id.
  predicate Unchanged(item: EntityItem, base: seq<EntityItem>, id: nat)
    requires id > 0
  {
    item == if id <= |base| then base[id - 1].(entityId := id) else EntityItem(id, 0, INT64_MAX, INT64_MIN, 0, 0, false)
  }

  lemma BaseItemKept(base: seq<EntityItem>, blocks: seq<BlockItem>, id: nat)
    requires ValidTable(base, blocks) && id > 0
    ensures Unchanged(BaseItem(base, id), base, id)
  {
    hide WalkFrom, ValidBlocks;
    assert id <= |base| ==> SlotOk(base[id - 1], id, blocks);
  }

  // The table an entity had before, 0 where it had none.
  function HadTable(base: seq<EntityItem>, id: nat): nat
    requires id > 0
  {
    if id <= |base| then base[id - 1].tableId else 0
  }

  /** The item of one entity: its chain is the new blocks, newest first, followed by the chain it had before; it sums
      up that chain; an entity without new blocks keeps its item, but for a table id that was missing. */
  ghost predicate Slot(item: EntityItem, id: nat, blocks: seq<BlockItem>, base: seq<EntityItem>, from: nat)
    requires Grown(blocks, base, from) && id > 0
  {
    && item.entityId == id && SlotOk(item, id, blocks)
    && WalkFrom(blocks, item.curBlock).ids == NewIds(blocks, from, id) + ChainOf(base, blocks[..from], id).ids
    && (NewIds(blocks, from, id) == [] ==> item == BaseItem(base, id).(tableId := item.tableId))
    && (item.dropped <==> id <= |base| && base[id - 1].dropped)
  }

  // What holds of the block file all along.
  ghost predicate Grown(blocks: seq<BlockItem>, base: seq<EntityItem>, from: nat)
  {
    ValidBlocks(blocks) && from <= |blocks| && ValidTable(base, blocks[..from])
  }

  lemma BaseSlot(id: nat, blocks: seq<BlockItem>, base: seq<EntityItem>, from: nat)
    requires Grown(blocks, base, from) && id > 0 && NewIds(blocks, from, id) == []
    ensures Slot(BaseItem(base, id), id, blocks, base, from)
  {
    hide WalkFrom, ValidBlock, NewIds;
    var item := BaseItem(base, id);
    NoChain(blocks[..from]);
    if id <= |base| {
      assert SlotOk(base[id - 1], id, blocks[..from]);
    }
    assert item.curBlock > 0 ==> blocks[..from][item.curBlock - 1] == blocks[item.curBlock - 1];
    assert blocks == blocks[..from] + blocks[from..];
    WalkKept(blocks[..from], blocks[from..], item.curBlock);
  }

  // ---------- one more block ----------

  lemma GrowBlocks(blocks: seq<BlockItem>, base: seq<EntityItem>, from: nat, b: BlockItem)
    requires Grown(blocks, base, from) && b.blockId == |blocks| + 1 && b.prev <= |blocks|
    requires b.prev > 0 ==> blocks[b.prev - 1].entityId == b.entityId
    ensures Grown(blocks + [b], base, from) && (blocks + [b])[..from] == blocks[..from]
  {
    hide ValidTable;
    assert (blocks + [b])[..from] == blocks[..from];
    forall i | 0 <= i < |blocks + [b]|
      ensures ValidBlock(blocks + [b], i)
    {
      if i < |blocks| {
        assert ValidBlock(blocks, i);
      }
    }
  }

  // The chains of other entities do not change.
  lemma OtherSlot(item: EntityItem, id: nat, blocks: seq<BlockItem>, base: seq<EntityItem>, from: nat, b: BlockItem)
    requires Grown(blocks, base, from) && Grown(blocks + [b], base, from) && (blocks + [b])[..from] == blocks[..from]
    requires id > 0 && id != b.entityId && Slot(item, id, blocks, base, from)
    ensures Slot(item, id, blocks + [b], base, from) && NewIds(blocks + [b], from, id) == NewIds(blocks, from, id)
  {
    hide ValidTable, ValidBlocks, WalkFrom, NewIds;
    NewIdsPush(blocks, from, id, b);
    WalkKept(blocks, [b], item.curBlock);
  }

  // The item after a block of its own entity.
  function Advanced(item: EntityItem, b: BlockItem): EntityItem
  {
    item.(curBlock := b.blockId, rowWritten := item.rowWritten + b.nRows,
          maxTs := if b.maxTs > item.maxTs then b.maxTs else item.maxTs,
          minTs := if b.minTs < item.minTs then b.minTs else item.minTs)
  }

  lemma OwnSlot(item: EntityItem, id: nat, blocks: seq<BlockItem>, base: seq<EntityItem>, from: nat, b: BlockItem)
    requires Grown(blocks, base, from) && Grown(blocks + [b], base, from) && (blocks + [b])[..from] == blocks[..from]
    requires id > 0 && id == b.entityId && Slot(item, id, blocks, base, from)
    requires b.blockId == |blocks| + 1 && b.prev == item.curBlock
    ensures Slot(Advanced(item, b), id, blocks + [b], base, from)
  {
    hide ValidTable, WalkFrom, NewIds;
    var grown := blocks + [b];
    NewIdsPush(blocks, from, id, b);
    WalkKept(blocks, [b], item.curBlock);
    assert grown[|grown| - 1] == b && ValidBlock(grown, |grown| - 1);
    WalkStep(grown, |grown|);
    assert WalkFrom(grown, |grown|) == Extended(|grown|, b, WalkFrom(blocks, item.curBlock));
  }

  // ---------- the builder ----------

  datatype Key = Key(tableId: nat, entityId: nat)

  class TableBuilder {
    const base: seq<EntityItem>
    ghost const from: nat
    var blocks: seq<BlockItem>
    var items: seq<EntityItem>
    var cur: EntityItem

    constructor (base: seq<EntityItem>, blocks: seq<BlockItem>)
      requires ValidTable(base, blocks)
      ensures this.base == base && from == |blocks| && this.blocks == blocks && items == [] && cur == NO_ITEM && Valid()
    {
      this.base, this.from, this.blocks, items, cur := base, |blocks|, blocks, [], NO_ITEM;
      new;
      assert blocks[..|blocks|] == blocks;
    }

    ghost predicate ItemsOk()
      requires Grown(blocks, base, from)
      reads this
    {
      forall i :: 0 <= i < |items| ==> Slot(items[i], i + 1, blocks, base, from) && Copied(items[i], i + 1)
    }

    // Entities without new blocks are copied as they were.
    ghost predicate Copied(item: EntityItem, id: nat)
      requires Grown(blocks, base, from) && id > 0
      reads this
    {
      NewIds(blocks, from, id) == [] ==> item == BaseItem(base, id)
    }

    ghost predicate Valid()
      reads this
    {
      && Grown(blocks, base, from) && ItemsOk()
      && (if cur.entityId == 0 then items == [] && cur == NO_ITEM
          else |items| == cur.entityId - 1 && Slot(cur, cur.entityId, blocks, base, from) && Copied(cur, cur.entityId))
      && (forall i :: from <= i < |blocks| ==> 0 < blocks[i].entityId <= cur.entityId)
      && (forall i :: from <= i < |blocks| ==>
         var item := if blocks[i].entityId == cur.entityId then cur else items[blocks[i].entityId - 1];
         blocks[i].tableId == item.tableId)
    }

    // Items for the ids up to `to` that the table does not have yet, copied from the base.
    method CopyGap(to: nat)
      requires Grown(blocks, base, from) && ItemsOk()
      requires forall i :: from <= i < |blocks| ==> blocks[i].entityId <= |items|
      modifies this`items
      ensures |items| == Max(old(|items|), to) && ItemsOk() && old(items) <= items
    {
      hide Slot, Grown, NewIds;
      assert from <= |blocks| by { GrownFacts(blocks, base, from); }
      ghost var first := |items|;
      while |items| < to
        invariant first <= |items| <= Max(first, to) && ItemsOk() && old(items) <= items
      {
        var id := |items| + 1;
        NoNewIds(blocks, from, id);
        BaseSlot(id, blocks, base, from);
        items := items + [BaseItem(base, id)];
      }
    }

    // The table id the entity has so far, 0 where it has none.
    function TableOf(id: nat): nat
      requires id > 0
      reads this
    {
      if id == cur.entityId then cur.tableId else BaseItem(base, id).tableId
    }

    /** UpdateEntityItem: files the item of the previous entity, copies the items of the entities in between, links
        the block to the entity's chain and advances the entity's item. */
    method UpdateEntityItem(key: Key, block: BlockItem)
      requires Valid() && key.entityId > 0 && key.entityId >= cur.entityId && block.entityId == key.entityId
      requires TableOf(key.entityId) == key.tableId || (key.entityId != cur.entityId && TableOf(key.entityId) == 0)
      modifies this
      ensures Valid() && cur.entityId == key.entityId && cur.tableId == key.tableId
      ensures |blocks| == |old(blocks)| + 1
      ensures blocks == old(blocks)
                        + [block.(blockId := |blocks|, prev := blocks[|blocks| - 1].prev, tableId := key.tableId)]
      ensures old(items) <= items
    {
      hide Slot, Grown, NewIds;
      if cur.entityId != key.entityId {
        if cur.entityId != 0 {
          items := items + [cur];
        }
        CopyGap(key.entityId - 1);
        GrownFacts(blocks, base, from);
        NoNewIds(blocks, from, key.entityId);
        BaseSlot(key.entityId, blocks, base, from);
        cur := BaseItem(base, key.entityId);
        if cur.tableId == 0 {
          TableIdFree(cur, key.entityId, blocks, base, from, key.tableId);
          cur := cur.(tableId := key.tableId);
        }
      }
      AppendBlock(key, block);
    }

    // Links the block to the current item, appends it to the block file and advances the item.
    method AppendBlock(key: Key, block: BlockItem)
      requires Grown(blocks, base, from) && ItemsOk() && key.entityId > 0 && block.entityId == key.entityId
      requires |items| == key.entityId - 1 && Slot(cur, key.entityId, blocks, base, from) && cur.tableId == key.tableId
      requires forall i :: from <= i < |blocks| ==> 0 < blocks[i].entityId <= key.entityId
      requires forall i :: from <= i < |blocks| ==>
        blocks[i].tableId == (if blocks[i].entityId == key.entityId then cur else items[blocks[i].entityId - 1]).tableId
      modifies this`blocks, this`cur
      ensures Valid() && cur.entityId == key.entityId && cur.tableId == key.tableId
      ensures |blocks| == |old(blocks)| + 1
      ensures blocks == old(blocks)
                        + [block.(blockId := |blocks|, prev := blocks[|blocks| - 1].prev, tableId := key.tableId)]
    {
      hide Slot, Grown, NewIds;
      GrownFacts(blocks, base, from);
      SlotFacts(cur, key.entityId, blocks, base, from);
      var b := block.(blockId := |blocks| + 1, prev := cur.curBlock, tableId := cur.tableId);
      GrowBlocks(blocks, base, from, b);
      forall i | 0 <= i < |items|
        ensures Slot(items[i], i + 1, blocks + [b], base, from)
          && NewIds(blocks + [b], from, i + 1) == NewIds(blocks, from, i + 1)
      {
        OtherSlot(items[i], i + 1, blocks, base, from, b);
      }
      OwnSlot(cur, key.entityId, blocks, base, from, b);
      NewIdsPush(blocks, from, key.entityId, b);
      blocks, cur := blocks + [b], Advanced(cur, b);
    }

    /** The end of a run: the finished table is dense, holds one item per entity in the slot of its id, and is valid
        together with the block file. */
    method Finish()
      requires Valid()
      modifies this`items
      ensures ValidTable(items, blocks) && |items| == Max(cur.entityId, |base|)
      ensures Grown(blocks, base, from) && ItemsOk()
      ensures forall i :: from <= i < |blocks| ==>
        0 < blocks[i].entityId <= |items| && items[blocks[i].entityId - 1].tableId == blocks[i].tableId
    {
      hide Slot, Grown, NewIds;
      if cur.entityId != 0 {
        items := items + [cur];
      }
      CopyGap(|base|);
      GrownFacts(blocks, base, from);
      forall i | 0 <= i < |items|
        ensures SlotOk(items[i], i + 1, blocks)
      {
        SlotFacts(items[i], i + 1, blocks, base, from);
      }
    }
  }

  lemma GrownFacts(blocks: seq<BlockItem>, base: seq<EntityItem>, from: nat)
    requires Grown(blocks, base, from)
    ensures ValidBlocks(blocks) && from <= |blocks| && forall i :: 0 <= i < from ==> 0 < blocks[i].entityId
  {
    assert forall i :: 0 <= i < from ==> blocks[..from][i] == blocks[i];
  }

  lemma GrownBase(blocks: seq<BlockItem>, base: seq<EntityItem>, from: nat)
    requires Grown(blocks, base, from)
    ensures from <= |blocks| && ValidTable(base, blocks[..from])
  {
  }

  lemma SlotFacts(item: EntityItem, id: nat, blocks: seq<BlockItem>, base: seq<EntityItem>, from: nat)
    requires Grown(blocks, base, from) && id > 0 && Slot(item, id, blocks, base, from)
    ensures item.entityId == id && SlotOk(item, id, blocks)
    ensures item.dropped <==> id <= |base| && base[id - 1].dropped
  {
  }

  lemma TableIdFree(item: EntityItem, id: nat, blocks: seq<BlockItem>, base: seq<EntityItem>, from: nat, tableId: nat)
    requires Grown(blocks, base, from) && id > 0 && Slot(item, id, blocks, base, from)
    ensures Slot(item.(tableId := tableId), id, blocks, base, from)
  {
  }

  // ---------- a whole compaction ----------

  datatype Write = Write(key: Key, block: BlockItem)

  // Entities are visited in increasing order.
  predicate InOrder(writes: seq<Write>)
  {
    && (forall i :: 0 <= i < |writes| ==> 0 < writes[i].key.entityId == writes[i].block.entityId)
    && (forall i, j :: 0 <= i <= j < |writes| ==> writes[i].key.entityId <= writes[j].key.entityId)
  }

  predicate TablesMatch(writes: seq<Write>, base: seq<EntityItem>)
    requires InOrder(writes)
  {
    && (forall i :: 0 <= i < |writes| ==> HadTable(base, writes[i].key.entityId) in {0, writes[i].key.tableId})
    && (forall i, j :: 0 <= i <= j < |writes| && writes[i].key.entityId == writes[j].key.entityId ==>
          writes[i].key.tableId == writes[j].key.tableId)
  }

  // The block written for a request: all it carries, with the id of its position.
  predicate Filed(b: BlockItem, w: Write, id: nat)
  {
    b == w.block.(blockId := id, prev := b.prev, tableId := w.key.tableId)
  }

  // What a finished table says about every entity.
  ghost predicate Finished(items: seq<EntityItem>, blocks: seq<BlockItem>, base: seq<EntityItem>, from: nat)
    requires Grown(blocks, base, from)
  {
    forall i :: 0 <= i < |items| ==> Slot(items[i], i + 1, blocks, base, from)
  }

  /** Compact: for entities visited in increasing order with matching table ids, the new table is dense and valid;
      the chain of every entity is its new blocks, newest first, and then its old chain; the items of entities
      without new blocks are the old ones. */
  method Compact(base: seq<EntityItem>, blocks0: seq<BlockItem>, writes: seq<Write>)
    returns (items: seq<EntityItem>, blocks: seq<BlockItem>)
    requires ValidTable(base, blocks0) && InOrder(writes) && TablesMatch(writes, base)
    ensures ValidTable(items, blocks) && Grown(blocks, base, |blocks0|) && Finished(items, blocks, base, |blocks0|)
    ensures |blocks| == |blocks0| + |writes| && blocks[..|blocks0|] == blocks0
    ensures forall i :: 0 <= i < |writes| ==> Filed(blocks[|blocks0| + i], writes[i], |blocks0| + i + 1)
    ensures forall i :: 0 <= i < |items| && NewIds(blocks, |blocks0|, i + 1) == [] ==> Unchanged(items[i], base, i + 1)
    ensures forall i :: 0 <= i < |writes| ==>
      writes[i].key.entityId <= |items| && items[writes[i].key.entityId - 1].tableId == writes[i].key.tableId
    ensures |items| >= |base| && forall i :: 0 <= i < |items| ==>
      (items[i].dropped <==> i < |base| && base[i].dropped)
  {
    hide Slot, Grown, NewIds, ValidTable, Unchanged;
    var builder := Built(base, blocks0, writes);
    builder.Finish();
    items, blocks := builder.items, builder.blocks;
    assert forall k :: 0 <= k < |items| ==> builder.Copied(items[k], k + 1);
    CopiedKept(base, blocks0, items, blocks);
    assert forall k :: 0 <= k < |writes| ==> Filed(blocks[|blocks0| + k], writes[k], |blocks0| + k + 1);
  }

  // The builder after all writes.
  method Built(base: seq<EntityItem>, blocks0: seq<BlockItem>, writes: seq<Write>) returns (builder: TableBuilder)
    requires ValidTable(base, blocks0) && InOrder(writes) && TablesMatch(writes, base)
    ensures builder.Valid() && builder.base == base && builder.from == |blocks0| && fresh(builder)
    ensures |builder.blocks| == |blocks0| + |writes| && blocks0 <= builder.blocks
    ensures forall k :: 0 <= k < |writes| ==> Filed(builder.blocks[|blocks0| + k], writes[k], |blocks0| + k + 1)
  {
    hide Slot, Grown, NewIds, ValidTable;
    builder := new TableBuilder(base, blocks0);
    ghost var from := |blocks0|;
    var i := 0;
    while i < |writes|
      invariant 0 <= i <= |writes| && builder.Valid() && builder.base == base && builder.from == from && fresh(builder)
      invariant |builder.blocks| == from + i && blocks0 <= builder.blocks
      invariant forall k :: 0 <= k < i ==> Filed(builder.blocks[from + k], writes[k], from + k + 1)
      invariant builder.cur.entityId == if i == 0 then 0 else writes[i - 1].key.entityId
      invariant i > 0 ==> builder.cur.tableId == writes[i - 1].key.tableId
    {
      builder.UpdateEntityItem(writes[i].key, writes[i].block);
      i := i + 1;
    }
  }

  lemma CopiedKept(base: seq<EntityItem>, blocks0: seq<BlockItem>, items: seq<EntityItem>, blocks: seq<BlockItem>)
    requires ValidTable(base, blocks0) && Grown(blocks, base, |blocks0|)
    requires Finished(items, blocks, base, |blocks0|)
    requires forall k :: 0 <= k < |items| && NewIds(blocks, |blocks0|, k + 1) == [] ==>
      items[k] == BaseItem(base, k + 1)
    ensures forall k :: 0 <= k < |items| ==> (items[k].dropped <==> k < |base| && base[k].dropped)
    ensures forall k :: 0 <= k < |items| && NewIds(blocks, |blocks0|, k + 1) == [] ==> Unchanged(items[k], base, k + 1)
  {
    hide Slot, NewIds, ValidTable, Unchanged;
    forall k | 0 <= k < |items|
      ensures NewIds(blocks, |blocks0|, k + 1) == [] ==> Unchanged(items[k], base, k + 1)
      ensures items[k].dropped <==> k < |base| && base[k].dropped
    {
      BaseItemKept(base, blocks0, k + 1);
      SlotFacts(items[k], k + 1, blocks, base, |blocks0|);
    }
  }

  // ---------- batches in any order ----------

  // The table an entity ends with: the one it had before or, where it had none, the one of its first batch.
  ghost predicate TableFrom(table: nat, base: seq<EntityItem>, keys: seq<Key>, id: nat)
    requires id > 0
  {
    if HadTable(base, id) != 0 then table == HadTable(base, id)
    else exists k :: 0 <= k < |keys| && keys[k] == Key(table, id) && forall j :: 0 <= j < k ==> keys[j].entityId != id
  }

  lemma TableFromMore(table: nat, base: seq<EntityItem>, keys: seq<Key>, id: nat, key: Key)
    requires id > 0 && TableFrom(table, base, keys, id)
    ensures TableFrom(table, base, keys + [key], id)
  {
    if HadTable(base, id) == 0 {
      var k :| 0 <= k < |keys| && keys[k] == Key(table, id) && forall j :: 0 <= j < k ==> keys[j].entityId != id;
      assert (keys + [key])[k] == Key(table, id);
    }
  }

  // The items of the entities with batches, and their tables.
  ghost predicate Tabled(items: map<nat, EntityItem>, base: seq<EntityItem>, keys: seq<Key>)
  {
    && (forall k :: 0 <= k < |keys| ==> keys[k].entityId in items)
    && (forall id :: id in items ==> id > 0 && TableFrom(items[id].tableId, base, keys, id))
  }

  lemma NextBatch(items: map<nat, EntityItem>, base: seq<EntityItem>, keys: seq<Key>, key: Key)
    requires Tabled(items, base, keys) && key.entityId in items
    ensures Tabled(items, base, keys + [key])
  {
    hide TableFrom;
    forall id | id in items
      ensures TableFrom(items[id].tableId, base, keys + [key], id)
    {
      TableFromMore(items[id].tableId, base, keys, id, key);
    }
  }

  lemma FirstBatch(items: map<nat, EntityItem>, base: seq<EntityItem>, keys: seq<Key>, key: Key, item: EntityItem)
    requires Tabled(items, base, keys) && key.entityId !in items && key.entityId > 0
    requires item.tableId == if HadTable(base, key.entityId) != 0 then HadTable(base, key.entityId) else key.tableId
    ensures Tabled(items[key.entityId := item], base, keys + [key])
  {
    forall id | id in items
      ensures TableFrom(items[id].tableId, base, keys + [key], id)
    {
      TableFromMore(items[id].tableId, base, keys, id, key);
    }
    if HadTable(base, key.entityId) == 0 {
      assert (keys + [key])[|keys|] == Key(item.tableId, key.entityId);
    }
  }

  lemma SameTables(items: map<nat, EntityItem>, base: seq<EntityItem>, keys: seq<Key>, id: nat, item: EntityItem)
    requires Tabled(items, base, keys) && id in items && item.tableId == items[id].tableId
    ensures Tabled(items[id := item], base, keys)
  {
    hide TableFrom;
  }

  // Where all batches of an entity name one table, and the entity had none or this one, that is the table.
  lemma TableOfKeys(table: nat, base: seq<EntityItem>, keys: seq<Key>, id: nat, t: nat)
    requires id > 0 && TableFrom(table, base, keys, id) && HadTable(base, id) in {0, t}
    requires forall k :: 0 <= k < |keys| && keys[k].entityId == id ==> keys[k].tableId == t
    ensures table == t
  {
  }

  class BatchBuilder {
    const base: seq<EntityItem>
    ghost const from: nat
    ghost var keys: seq<Key>
    var blocks: seq<BlockItem>
    var entityItems: map<nat, EntityItem>
    var finished: bool

    constructor (base: seq<EntityItem>, blocks: seq<BlockItem>)
      requires ValidTable(base, blocks)
      ensures this.base == base && from == |blocks| && this.blocks == blocks && entityItems == map[] && !finished
        && keys == [] && Valid()
    {
      this.base, this.from, this.blocks, entityItems, finished := base, |blocks|, blocks, map[], false;
      keys := [];
      new;
      assert blocks[..|blocks|] == blocks;
    }

    ghost predicate Valid()
      reads this
    {
      && Grown(blocks, base, from)
      && (forall id :: id in entityItems ==> id > 0 && Slot(entityItems[id], id, blocks, base, from))
      && (forall i :: from <= i < |blocks| ==> blocks[i].entityId in entityItems)
      && Tabled(entityItems, base, keys)
    }

    // The item of an entity that has no new blocks yet.
    method Load(key: Key)
      requires Valid() && key.entityId > 0 && key.entityId !in entityItems
      modifies this`entityItems, this`keys
      ensures Valid() && entityItems.Keys == old(entityItems.Keys) + {key.entityId} && keys == old(keys) + [key]
      ensures forall id :: id in old(entityItems) ==> entityItems[id] == old(entityItems)[id]
    {
      hide Slot, Grown, NewIds, Tabled;
      GrownFacts(blocks, base, from);
      NoNewIds(blocks, from, key.entityId);
      BaseSlot(key.entityId, blocks, base, from);
      var item := BaseItem(base, key.entityId);
      if item.tableId == 0 {
        TableIdFree(item, key.entityId, blocks, base, from, key.tableId);
        item := item.(tableId := key.tableId);
      }
      FirstBatch(entityItems, base, keys, key, item);
      keys := keys + [key];
      entityItems := entityItems[key.entityId := item];
    }

    /** WriteBatch: one block of any entity. A batch of an unknown version is refused, and a finished builder takes
        no more blocks. */
    method WriteBatch(key: Key, block: BlockItem, versionOk: bool) returns (ok: bool)
      requires Valid() && 0 < key.entityId == block.entityId
      modifies this
      ensures Valid() && finished == old(finished) && ok == (finished || versionOk)
      ensures entityItems.Keys == old(entityItems.Keys) + if finished then {} else {key.entityId}
      ensures keys == old(keys) + if finished then [] else [key]
      ensures forall id :: id in old(entityItems) && id != key.entityId ==> entityItems[id] == old(entityItems)[id]
      ensures !finished && ok ==> |blocks| == |old(blocks)| + 1 && old(blocks) <= blocks
                                  && Filed(blocks[|blocks| - 1], Write(key, block), |blocks|)
      ensures finished || !ok ==> blocks == old(blocks)
    {
      hide Slot, Grown, NewIds, Tabled;
      if finished {
        return true;
      }
      var id := key.entityId;
      if id !in entityItems {
        Load(key);
      } else {
        NextBatch(entityItems, base, keys, key);
        keys := keys + [key];
      }
      if !versionOk {
        return false;
      }
      Append(key, block);
      ok := true;
    }

    // Links the block to the item of its entity, appends it to the block file and advances the item.
    method Append(key: Key, block: BlockItem)
      requires Valid() && 0 < key.entityId == block.entityId && key.entityId in entityItems
      modifies this`blocks, this`entityItems
      ensures Valid() && entityItems.Keys == old(entityItems.Keys)
      ensures forall id :: id in entityItems && id != key.entityId ==> entityItems[id] == old(entityItems)[id]
      ensures |blocks| == |old(blocks)| + 1 && old(blocks) <= blocks
        && Filed(blocks[|blocks| - 1], Write(key, block), |blocks|)
    {
      hide Slot, Grown, NewIds, Tabled;
      var id := key.entityId;
      var item := entityItems[id];
      GrownFacts(blocks, base, from);
      SlotFacts(item, id, blocks, base, from);
      var b := block.(blockId := |blocks| + 1, prev := item.curBlock, tableId := key.tableId);
      GrowBlocks(blocks, base, from, b);
      forall other | other in entityItems && other != id
        ensures Slot(entityItems[other], other, blocks + [b], base, from)
      {
        OtherSlot(entityItems[other], other, blocks, base, from, b);
      }
      OwnSlot(item, id, blocks, base, from, b);
      SameTables(entityItems, base, keys, id, Advanced(item, b));
      blocks, entityItems := blocks + [b], entityItems[id := Advanced(item, b)];
    }

    /** WriteBatchFinish: the entities with new blocks in increasing order, with the untouched ones copied in between
        and behind. */
    method WriteBatchFinish() returns (items: seq<EntityItem>)
      requires Valid()
      modifies this`finished
      ensures finished && Grown(blocks, base, from) && Finished(items, blocks, base, from) && ValidTable(items, blocks)
      ensures |items| >= |base| && forall id :: id in entityItems ==> id <= |items| && items[id - 1] == entityItems[id]
      ensures forall id :: 0 < id <= |items| && id !in entityItems ==> Unchanged(items[id - 1], base, id)
      ensures forall i :: 0 <= i < |items| ==> (items[i].dropped <==> i < |base| && base[i].dropped)
      ensures forall k :: 0 <= k < |keys| ==>
        && 0 < keys[k].entityId <= |items|
        && TableFrom(items[keys[k].entityId - 1].tableId, base, keys, keys[k].entityId)
    {
      hide Slot, Grown, NewIds, TableFrom;
      finished := true;
      items := Collect();
      GrownBase(blocks, base, from);
      forall id | 0 < id <= |items|
        ensures Unchanged(BaseItem(base, id), base, id)
      {
        BaseItemKept(base, blocks[..from], id);
      }
      ItemsTogether(items, blocks, base, from, entityItems);
    }

    // The items in order.
    method Collect() returns (items: seq<EntityItem>)
      requires Valid()
      ensures ItemsOk(items) && |items| >= |base| && forall id :: id in entityItems ==> id <= |items|
    {
      hide Slot, Grown, NewIds, Tabled;
      items := [];
      var pending := entityItems.Keys;
      while pending != {}
        invariant pending <= entityItems.Keys && ItemsOk(items)
        invariant forall id :: id in pending ==> |items| < id
        invariant forall id :: id in entityItems && id !in pending ==> id <= |items|
        decreases |pending|
      {
        var next := Least(pending);
        items := CopyUntouched(items, next - 1);
        items := items + [entityItems[next]];
        pending := pending - {next};
      }
      items := CopyUntouched(items, |base|);
    }

    ghost predicate ItemsOk(items: seq<EntityItem>)
      requires Valid()
      reads this
    {
      forall i :: 0 <= i < |items| ==>
        && Slot(items[i], i + 1, blocks, base, from)
        && items[i] == if i + 1 in entityItems then entityItems[i + 1] else BaseItem(base, i + 1)
    }

    // Copies of the base items of the ids up to `to`, none of which has new blocks.
    method CopyUntouched(items: seq<EntityItem>, to: nat) returns (items': seq<EntityItem>)
      requires Valid() && ItemsOk(items) && forall id :: id in entityItems ==> !(|items| < id <= to)
      ensures |items'| == Max(|items|, to) && ItemsOk(items')
    {
      hide Slot, Grown, NewIds;
      GrownFacts(blocks, base, from);
      items' := items;
      while |items'| < to
        invariant |items| <= |items'| <= Max(|items|, to) && ItemsOk(items')
      {
        var id := |items'| + 1;
        assert id !in entityItems;
        NoNewIds(blocks, from, id);
        BaseSlot(id, blocks, base, from);
        items' := items' + [BaseItem(base, id)];
      }
    }
  }

  // A finished table of slots is valid together with the block file.
  lemma ItemsTogether(items: seq<EntityItem>, blocks: seq<BlockItem>, base: seq<EntityItem>, from: nat,
                      entityItems: map<nat, EntityItem>)
    requires Grown(blocks, base, from) && Finished(items, blocks, base, from)
    requires (forall i :: from <= i < |blocks| ==> blocks[i].entityId in entityItems) && 0 !in entityItems
    ensures ValidTable(items, blocks)
    ensures forall i :: 0 <= i < |items| ==> (items[i].dropped <==> i < |base| && base[i].dropped)
  {
    hide Slot, Grown, NewIds;
    GrownFacts(blocks, base, from);
    forall i | 0 <= i < |items|
      ensures SlotOk(items[i], i + 1, blocks) && (items[i].dropped <==> i < |base| && base[i].dropped)
    {
      SlotFacts(items[i], i + 1, blocks, base, from);
    }
  }

  method Least(s: set<nat>) returns (x: nat)
    requires s != {}
    ensures x in s && forall y :: y in s ==> x <= y
  {
    x :| x in s;
    var rest := s;
    while rest != {}
      invariant rest <= s && x in s && forall y :: y in s && y !in rest ==> x <= y
      decreases |rest|
    {
      var y :| y in rest;
      if y < x {
        x := y;
      }
      rest := rest - {y};
    }
  }
}
