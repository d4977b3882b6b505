/** Moving a range of a table by snapshot packages: a sender that numbers its packages and a receiver that applies
    each number once and in order, over a channel that may lose, repeat and reorder packages. */
module Snapshot {
  import opened Words
  import opened Seqs
  import opened SnapshotWire

  // What the sender reads: delete and tag information first, then rows.
  datatype Item = Item(rowNum: nat, rows: seq<Byte>, dels: seq<Byte>)

  const MIN_PACKAGE_SIZE := 0x200_0000

  predicate Fits(item: Item)
  {
    item.rowNum < 0x1_0000_0000 && |item.rows| + |item.dels| + 32 + MIN_PACKAGE_SIZE < 0x1_0000_0000
  }

  predicate DelItem(item: Item) { Fits(item) && item.rowNum == 0 && item.rows == [] && item.dels != [] }

  predicate RowItem(item: Item) { Fits(item) && item.rowNum > 0 && item.dels == [] }

  function Content(b: Batch): Item { Item(b.rowNum, b.rows, b.dels) }

  function Contents(bs: seq<Batch>): (items: seq<Item>)
    ensures |items| == |bs| && forall i :: 0 <= i < |bs| ==> items[i] == Content(bs[i])
  {
    if bs == [] then [] else [Content(bs[0])] + Contents(bs[1..])
  }

  // What the receiver does to its store: rows go into a version of a table, deletes go with the snapshot.
  datatype Effect = RowsInto(tableId: nat, tableVersion: nat, rowNum: nat, rows: seq<Byte>) | DelInfo(dels: seq<Byte>)

  // What items of this table have to become.
  function Effects(tableId: nat, tableVersion: nat, items: seq<Item>): (es: seq<Effect>)
    ensures |es| == |items| && forall i :: 0 <= i < |items| ==>
      es[i] == if items[i].rowNum > 0 then RowsInto(tableId, tableVersion, items[i].rowNum, items[i].rows)
               else DelInfo(items[i].dels)
  {
    if items == [] then []
    else
      var x := items[0];
      [if x.rowNum > 0 then RowsInto(tableId, tableVersion, x.rowNum, x.rows) else DelInfo(x.dels)]
      + Effects(tableId, tableVersion, items[1..])
  }

  lemma EffectsConcat(tableId: nat, tableVersion: nat, a: seq<Item>, b: seq<Item>)
    ensures Effects(tableId, tableVersion, a + b)
         == Effects(tableId, tableVersion, a) + Effects(tableId, tableVersion, b)
  {
    hide Effects;
  }

  function RowSum(items: seq<Item>): nat
  {
    if items == [] then 0 else RowSum(items[..|items| - 1]) + items[|items| - 1].rowNum
  }

  lemma {:induction false} RowSumConcat(a: seq<Item>, b: seq<Item>)
    ensures RowSum(a + b) == RowSum(a) + RowSum(b)
  {
    if b == [] {
      assert a + b == a;
    } else {
      var n := |b| - 1;
      assert (a + b)[..|a| + n] == a + b[..n];
      RowSumConcat(a, b[..n]);
    }
  }

  // ---------- the sender ----------

  class Sender {
    const tableId: nat
    const tableVersion: nat
    var packageId: nat
    var migratedRows: nat
    var batchReadFinished: bool
    var delInfoReadFinished: bool
    var delLeft: seq<Item>
    var rowLeft: seq<Item>

    constructor (tableId: nat, tableVersion: nat, dels: seq<Item>, rows: seq<Item>)
      requires tableId < TWO_64 && tableVersion < 0x1_0000_0000
      requires (forall i :: 0 <= i < |dels| ==> DelItem(dels[i])) && (forall i :: 0 <= i < |rows| ==> RowItem(rows[i]))
      ensures Valid() && packageId == migratedRows == 0 && !Finished() && Left() == dels + rows
      ensures this.tableId == tableId && this.tableVersion == tableVersion
    {
      this.tableId, this.tableVersion := tableId, tableVersion;
      packageId, migratedRows, batchReadFinished, delInfoReadFinished := 0, 0, false, false;
      delLeft, rowLeft := dels, rows;
    }

    predicate Finished()
      reads this
    {
      delInfoReadFinished && batchReadFinished
    }

    ghost predicate Valid()
      reads this
    {
      && tableId < TWO_64 && tableVersion < 0x1_0000_0000
      && (forall i :: 0 <= i < |delLeft| ==> DelItem(delLeft[i]))
      && (forall i :: 0 <= i < |rowLeft| ==> RowItem(rowLeft[i]))
      && (delInfoReadFinished ==> delLeft == []) && (batchReadFinished ==> delInfoReadFinished && rowLeft == [])
    }

    // What is still to be sent.
    ghost function Left(): seq<Item>
      reads this
    {
      delLeft + rowLeft
    }

    // One round of reading: the next item, or none when the sender has come to the end.
    method ReadOne() returns (item: Option<Item>)
      requires Valid() && !Finished()
      modifies this`delLeft, this`rowLeft, this`delInfoReadFinished, this`batchReadFinished
      ensures Valid()
      ensures match item
              case Some(x) => old(Left()) == [x] + Left() && (DelItem(x) || RowItem(x)) && !Finished()
              case None => old(Left()) == [] && Left() == [] && Finished()
    {
      hide Fits;
      var rowNum, rows, dels: seq<Byte> := 0, [], [];
      if !delInfoReadFinished {
        if delLeft == [] {
          delInfoReadFinished := true;
        } else {
          assert old(Left()) == [delLeft[0]] + (delLeft[1..] + rowLeft);
          dels, delLeft := delLeft[0].dels, delLeft[1..];
        }
      }
      if delInfoReadFinished && !batchReadFinished {
        assert old(Left()) == rowLeft;
        if rowLeft == [] {
          batchReadFinished := true;
        } else {
          assert old(Left()) == [rowLeft[0]] + ([] + rowLeft[1..]);
          rowNum, rows, rowLeft := rowLeft[0].rowNum, rowLeft[0].rows, rowLeft[1..];
        }
      }
      item := if rowNum > 0 || |dels| > 0 then Some(Item(rowNum, rows, dels)) else None;
    }

    /** GetSnapshotNextBatchData: the next package takes the next items in order. It is empty only when nothing is
        left to send. */
    method NextBatchData(reserved: seq<Byte>) returns (data: seq<Byte>, ghost batches: seq<Batch>)
      requires Valid() && packageId + 1 < 0x1_0000_0000 && |reserved| == 20
      modifies this
      ensures Valid() && data == Package(batches, reserved) && old(Left()) == Contents(batches) + Left()
      ensures old(Finished()) ==>
        batches == [] && Finished() && packageId == old(packageId) && migratedRows == old(migratedRows)
      ensures !old(Finished()) ==> packageId == old(packageId) + 1 && (batches == [] ==> Finished() && Left() == [])
      ensures ValidBatches(batches)
      ensures forall i :: 0 <= i < |batches| ==>
        && batches[i].packageId == packageId && Carries(batches[i])
        && batches[i].tableId == tableId && batches[i].tableVersion == tableVersion
      ensures migratedRows == old(migratedRows) + RowSum(Contents(batches))
    {
      hide Contents, RowSum, Fits, Package, Pow2, ValidBatch, Carries, Content;
      NoBatches();
      batches := [];
      if delInfoReadFinished && batchReadFinished {
        return [], batches;
      }
      var id := packageId + 1;
      var pack: seq<Batch> := [];
      var size, totalRows := 0, 0;
      var more := true;
      while more
        invariant Valid() && old(Left()) == Contents(pack) + Left() && (more ==> !Finished())
        invariant !more ==> size >= MIN_PACKAGE_SIZE || (Finished() && Left() == [])
        invariant 0 <= totalRows == RowSum(Contents(pack)) && 32 * |pack| <= size && (more ==> size < MIN_PACKAGE_SIZE)
        invariant size < MIN_PACKAGE_SIZE + 0x1_0000_0000 && (pack == [] ==> size == 0)
        invariant packageId == old(packageId) && migratedRows == old(migratedRows)
        invariant forall i :: 0 <= i < |pack| ==> ValidBatch(pack[i]) && pack[i].packageId == id && Carries(pack[i])
        invariant forall i :: 0 <= i < |pack| ==> pack[i].tableId == tableId && pack[i].tableVersion == tableVersion
        decreases more, |Left()|
      {
        var item := ReadOne();
        if item.Some? {
          var b := Batch(id, tableId, tableVersion, item.value.rowNum, item.value.rows, item.value.dels);
          assert Content(b) == item.value && Carries(b) by { ItemBatch(b, item.value); }
          PushBatch(pack, b, Left());
          size := size + 32 + |b.rows| + |b.dels|;
          totalRows := totalRows + b.rowNum;
          pack := pack + [b];
          more := size < MIN_PACKAGE_SIZE;
        } else {
          more := false;
        }
      }
      SmallPack(pack, size);
      packageId := packageId + 1;
      migratedRows := migratedRows + totalRows;
      batches := pack;
      data := Package(pack, reserved);
    }
  }

  lemma SmallPack(pack: seq<Batch>, size: nat)
    requires 32 * |pack| <= size < MIN_PACKAGE_SIZE + 0x1_0000_0000
    requires forall i :: 0 <= i < |pack| ==> ValidBatch(pack[i])
    ensures ValidBatches(pack)
  {
    hide ValidBatch;
    Pow2Values();
  }

  lemma NoBatches()
    ensures Contents([]) == [] && RowSum([]) == 0 && forall reserved :: |reserved| == 20 ==> Package([], reserved) == []
  {
  }

  lemma {:induction false} ContentsConcat(a: seq<Batch>, b: seq<Batch>)
    ensures Contents(a + b) == Contents(a) + Contents(b)
  {
  }

  lemma OneBatch(b: Batch)
    ensures Contents([b]) == [Content(b)] && RowSum([Content(b)]) == b.rowNum
  {
    assert RowSum([Content(b)]) == RowSum([]) + b.rowNum;
  }

  lemma ItemBatch(b: Batch, item: Item)
    requires b.rowNum == item.rowNum && b.rows == item.rows && b.dels == item.dels && (DelItem(item) || RowItem(item))
    ensures Content(b) == item && Carries(b)
  {
  }

  lemma PushBatch(pack: seq<Batch>, b: Batch, left: seq<Item>)
    requires Fits(Content(b)) && 0 < b.packageId < 0x1_0000_0000 && b.tableId < TWO_64
      && b.tableVersion < 0x1_0000_0000
    ensures ValidBatch(b) && Contents(pack + [b]) + left == Contents(pack) + ([Content(b)] + left)
    ensures RowSum(Contents(pack + [b])) == RowSum(Contents(pack)) + b.rowNum
      && |b.rows| + |b.dels| + 32 < 0x1_0000_0000
  {
    hide Contents, RowSum, Pow2;
    Pow2Values();
    OneBatch(b);
    ContentsConcat(pack, [b]);
    RowSumConcat(Contents(pack), [Content(b)]);
  }

  // ---------- the receiver ----------

  // A batch carries rows or deletes.
  predicate Carries(b: Batch) { if b.rowNum > 0 then b.dels == [] else b.dels != [] }

  // A package number, and the table its rows are for.
  datatype Label = Label(k: nat, tableId: nat, tableVersion: nat)

  predicate Labelled(b: Batch, at: Label)
  {
    b.packageId == at.k && b.tableId == at.tableId && b.tableVersion == at.tableVersion
  }

  // The bytes of a package.
  ghost predicate IsPackage(data: seq<Byte>, batches: seq<Batch>, at: Label)
  {
    && batches != [] && ValidBatches(batches)
    && (forall i :: 0 <= i < |batches| ==> Labelled(batches[i], at) && Carries(batches[i]))
    && exists reserved :: |reserved| == 20 && data == Package(batches, reserved)
  }

  // The batches of a package, packed one by one.
  ghost predicate Holds(blobs: seq<seq<Byte>>, batches: seq<Batch>, at: Label)
  {
    && batches != [] && |blobs| == |batches| && at.k > 0
    && forall i :: 0 <= i < |batches| ==>
       Unpack(blobs[i]) == Some(batches[i]) && Labelled(batches[i], at) && Carries(batches[i])
  }

  function EffectsOf(batches: seq<Batch>, at: Label): seq<Effect>
  {
    Effects(at.tableId, at.tableVersion, Contents(batches))
  }

  lemma Opens(data: seq<Byte>, batches: seq<Batch>, at: Label)
    requires IsPackage(data, batches, at)
    ensures data != [] && Parse(data).Some? && Holds(Parse(data).value, batches, at)
  {
    hide Package, Parse, PackedAll, Unpack;
    var reserved :| |reserved| == 20 && data == Package(batches, reserved);
    assert ValidBatch(batches[0]);
    PackageBack(batches, reserved);
  }

  datatype Outcome = Applied | Ignored | Refused

  class Receiver {
    var packageId: nat
    var migratedRows: nat
    var applied: seq<Effect>

    constructor ()
      ensures packageId == migratedRows == 0 && applied == []
    {
      packageId, migratedRows, applied := 0, 0, [];
    }

    // Applies the batches of one package in turn, as long as they carry the next number.
    method ApplyBatches(blobs: seq<seq<Byte>>, ghost batches: seq<Batch>, ghost at: Label)
      returns (outcome: Outcome, totalRows: nat)
      modifies this`applied
      ensures Holds(blobs, batches, at) && at.k == packageId + 1 ==>
                outcome == Applied && applied == old(applied) + EffectsOf(batches, at)
                  && totalRows == RowSum(Contents(batches))
      ensures Holds(blobs, batches, at) && at.k != packageId + 1 ==>
                outcome == (if at.k <= packageId then Ignored else Refused) && applied == old(applied)
    {
      hide Contents, RowSum, Unpack, EffectsOf;
      NoBatches();
      NoEffects(at);
      totalRows := 0;
      var i := 0;
      while i < |blobs|
        invariant 0 <= i <= |blobs|
        invariant Holds(blobs, batches, at) && at.k == packageId + 1 ==>
                    applied == old(applied) + EffectsOf(batches[..i], at) && totalRows == RowSum(Contents(batches[..i]))
        invariant Holds(blobs, batches, at) && at.k != packageId + 1 ==> i == 0 && applied == old(applied)
      {
        var unpacked := Unpack(blobs[i]);
        if unpacked.None? {
          return Refused, totalRows;
        }
        var b := unpacked.value;
        if b.packageId == 0 {
          return Applied, totalRows;
        }
        if b.packageId - 1 != packageId {
          return if b.packageId - 1 > packageId then Refused else Ignored, totalRows;
        }
        if Holds(blobs, batches, at) {
          PushContent(batches, i, at);
        }
        if b.rowNum > 0 {
          applied := applied + [RowsInto(b.tableId, b.tableVersion, b.rowNum, b.rows)];
        }
        if |b.dels| > 0 {
          applied := applied + [DelInfo(b.dels)];
        }
        totalRows := totalRows + b.rowNum;
        i := i + 1;
      }
      assert batches[..|batches|] == batches;
      outcome := Applied;
    }

    /** WriteSnapshotBatchData: the package with the next number is applied as a whole, one that was applied before
        is ignored, and one that comes too early is refused. */
    method WriteBatchData(data: seq<Byte>, ghost batches: seq<Batch>, ghost at: Label) returns (ok: bool)
      modifies this
      ensures data == [] ==> ok && unchanged(this)
      ensures IsPackage(data, batches, at) && at.k == old(packageId) + 1 ==>
                && ok && packageId == at.k && applied == old(applied) + EffectsOf(batches, at)
                && migratedRows == old(migratedRows) + RowSum(Contents(batches))
      ensures IsPackage(data, batches, at) && at.k != old(packageId) + 1 ==>
        unchanged(this) && ok == (at.k <= old(packageId))
    {
      hide Contents, RowSum, IsPackage, Parse, Holds, EffectsOf;
      if IsPackage(data, batches, at) {
        Opens(data, batches, at);
      }
      if data == [] {
        return true;
      }
      var parsed := Parse(data);
      if parsed.None? {
        return false;
      }
      var outcome, totalRows := ApplyBatches(parsed.value, batches, at);
      if outcome == Applied {
        packageId := packageId + 1;
        migratedRows := migratedRows + totalRows;
      }
      ok := outcome != Refused;
    }
  }

  lemma NoEffects(at: Label)
    ensures EffectsOf([], at) == []
  {
  }

  lemma PushContent(batches: seq<Batch>, i: nat, at: Label)
    requires i < |batches| && Labelled(batches[i], at) && Carries(batches[i])
    ensures var b := batches[i];
      EffectsOf(batches[..i + 1], at)
      == EffectsOf(batches[..i], at)
         + [if b.rowNum > 0 then RowsInto(b.tableId, b.tableVersion, b.rowNum, b.rows) else DelInfo(b.dels)]
    ensures RowSum(Contents(batches[..i + 1])) == RowSum(Contents(batches[..i])) + batches[i].rowNum
  {
    hide Contents, RowSum;
    assert batches[..i + 1] == batches[..i] + [batches[i]];
    ContentsConcat(batches[..i], [batches[i]]);
    OneBatch(batches[i]);
    RowSumConcat(Contents(batches[..i]), [Content(batches[i])]);
    EffectsConcat(at.tableId, at.tableVersion, Contents(batches[..i]), [Content(batches[i])]);
  }

  // ---------- every run ----------

  // The channel may lose, repeat and reorder: any package sent so far may arrive at any time, or never. The reserved
  // bytes of a package are whatever its buffer held.
  datatype Action = Send(reserved: seq<Byte>) | Arrive(which: nat) | ArriveEmpty

  // The items of all packages in order.
  function Delivered(packages: seq<seq<Batch>>): seq<Item>
  {
    Contents(Flat(packages))
  }

  lemma DeliveredPush(packages: seq<seq<Batch>>, p: seq<Batch>)
    ensures Delivered(packages + [p]) == Delivered(packages) + Contents(p)
  {
    FlatPush(packages, p);
    ContentsConcat(Flat(packages), p);
  }

  lemma DeliveredPrefix(packages: seq<seq<Batch>>, n: nat)
    requires n <= |packages|
    ensures Delivered(packages[..n]) <= Delivered(packages)
  {
    assert packages == packages[..n] + packages[n..];
    FlatConcat(packages[..n], packages[n..]);
    ContentsConcat(Flat(packages[..n]), Flat(packages[n..]));
  }

  ghost function LabelOf(s: Sender, k: nat): Label { Label(k + 1, s.tableId, s.tableVersion) }

  // All packages sent so far, numbered from 1, carry what the sender no longer has.
  ghost predicate SenderOk(s: Sender, sent: seq<seq<Byte>>, packages: seq<seq<Batch>>, source: seq<Item>)
    reads s
  {
    && s.Valid() && |packages| == |sent|
    && (forall k :: 0 <= k < |sent| ==> IsPackage(sent[k], packages[k], LabelOf(s, k)))
    && (!s.Finished() ==> s.packageId == |sent|) && (s.Finished() ==> s.Left() == [])
    && Delivered(packages) + s.Left() == source && s.migratedRows == RowSum(Delivered(packages))
  }

  // The receiver has applied the packages up to its number, each once and in order.
  ghost predicate ReceiverOk(r: Receiver, tableId: nat, tableVersion: nat, packages: seq<seq<Batch>>)
    reads r
  {
    && r.packageId <= |packages|
    && r.applied == Effects(tableId, tableVersion, Delivered(packages[..r.packageId]))
    && r.migratedRows == RowSum(Delivered(packages[..r.packageId]))
  }

  method SendOne(s: Sender, sent: seq<seq<Byte>>, ghost packages: seq<seq<Batch>>, ghost source: seq<Item>,
                 reserved: seq<Byte>)
    returns (sent': seq<seq<Byte>>, ghost packages': seq<seq<Batch>>)
    requires SenderOk(s, sent, packages, source) && s.packageId + 1 < 0x1_0000_0000 && |reserved| == 20
    modifies s
    ensures SenderOk(s, sent', packages', source) && packages <= packages' && s.packageId <= old(s.packageId) + 1
  {
    hide Delivered, RowSum, Contents, IsPackage, DelItem, RowItem, ValidBatches, Package;
    var data, batches := s.NextBatchData(reserved);
    IsSent(data, batches, reserved, Label(s.packageId, s.tableId, s.tableVersion));
    sent', packages' := sent, packages;
    DeliveredPush(packages, batches);
    RowSumConcat(Delivered(packages), Contents(batches));
    assert (Delivered(packages) + Contents(batches)) + s.Left() == Delivered(packages) + (Contents(batches) + s.Left());
    if data != [] {
      sent', packages' := sent + [data], packages + [batches];
    } else {
      assert Delivered(packages) + [] == Delivered(packages);
    }
  }

  method ArriveOne(r: Receiver, sent: seq<seq<Byte>>, ghost packages: seq<seq<Batch>>, which: nat, ghost tableId: nat,
                   ghost tableVersion: nat)
    requires ReceiverOk(r, tableId, tableVersion, packages) && which < |sent| == |packages|
      && IsPackage(sent[which], packages[which], Label(which + 1, tableId, tableVersion))
    modifies r
    ensures ReceiverOk(r, tableId, tableVersion, packages)
  {
    hide Delivered, RowSum, Contents, IsPackage, Effects;
    assert packages[..which + 1] == packages[..which] + [packages[which]];
    DeliveredPush(packages[..which], packages[which]);
    RowSumConcat(Delivered(packages[..which]), Contents(packages[which]));
    EffectsConcat(tableId, tableVersion, Delivered(packages[..which]), Contents(packages[which]));
    var ok := r.WriteBatchData(sent[which], packages[which], Label(which + 1, tableId, tableVersion));
  }

  /** Over every run, what the receiver has applied is a prefix of what the sender reads: the packages up to some
      number, each once and in order, with their rows counted. When the sender is done and every number has arrived
      in turn, it is everything. */
  method Run(tableId: nat, tableVersion: nat, dels: seq<Item>, rows: seq<Item>, actions: seq<Action>)
    returns (sender: Sender, receiver: Receiver, sent: seq<seq<Byte>>, ghost packages: seq<seq<Batch>>)
    requires tableId < TWO_64 && tableVersion < 0x1_0000_0000
    requires (forall i :: 0 <= i < |dels| ==> DelItem(dels[i])) && (forall i :: 0 <= i < |rows| ==> RowItem(rows[i]))
    requires |actions| < 0xffff_ffff
    requires forall i :: 0 <= i < |actions| && actions[i].Send? ==> |actions[i].reserved| == 20
    ensures SenderOk(sender, sent, packages, dels + rows) && ReceiverOk(receiver, tableId, tableVersion, packages)
    ensures receiver.applied <= Effects(tableId, tableVersion, Delivered(packages))
      <= Effects(tableId, tableVersion, dels + rows)
    ensures sender.Finished() && receiver.packageId == |sent| ==>
      receiver.applied == Effects(tableId, tableVersion, dels + rows)
      && receiver.migratedRows == RowSum(dels + rows)
  {
    hide Delivered, RowSum, Contents, IsPackage, DelItem, RowItem, Effects;
    NoBatches();
    NothingDelivered();
    sender := new Sender(tableId, tableVersion, dels, rows);
    receiver := new Receiver();
    sent, packages := [], [];
    var i := 0;
    while i < |actions|
      invariant 0 <= i <= |actions| && fresh(sender) && fresh(receiver) && sender.packageId <= i
      invariant sender.tableId == tableId && sender.tableVersion == tableVersion
      invariant SenderOk(sender, sent, packages, dels + rows) && ReceiverOk(receiver, tableId, tableVersion, packages)
    {
      match actions[i] {
        case Send(reserved) =>
          ghost var before := packages;
          sent, packages := SendOne(sender, sent, packages, dels + rows, reserved);
          assert packages[..receiver.packageId] == before[..receiver.packageId];
        case Arrive(which) =>
          if which < |sent| {
            assert LabelOf(sender, which) == Label(which + 1, tableId, tableVersion);
            ArriveOne(receiver, sent, packages, which, tableId, tableVersion);
          }
        case ArriveEmpty =>
          var ok := receiver.WriteBatchData([], [], Label(0, 0, 0));
      }
      i := i + 1;
    }
    SoFar(sender, receiver, sent, packages, dels + rows);
  }

  // What has been applied at any time of a run.
  lemma SoFar(s: Sender, r: Receiver, sent: seq<seq<Byte>>, packages: seq<seq<Batch>>, source: seq<Item>)
    requires SenderOk(s, sent, packages, source) && ReceiverOk(r, s.tableId, s.tableVersion, packages)
    ensures r.applied <= Effects(s.tableId, s.tableVersion, Delivered(packages))
      <= Effects(s.tableId, s.tableVersion, source)
    ensures s.Finished() && r.packageId == |sent| ==>
      r.applied == Effects(s.tableId, s.tableVersion, source) && r.migratedRows == RowSum(source)
  {
    hide Delivered, RowSum, Contents, IsPackage, Effects;
    DeliveredPrefix(packages, r.packageId);
    EffectsPrefix(s.tableId, s.tableVersion, Delivered(packages[..r.packageId]), Delivered(packages));
    EffectsPrefix(s.tableId, s.tableVersion, Delivered(packages), source);
    assert packages[..|packages|] == packages;
    if s.Finished() {
      assert Delivered(packages) + [] == Delivered(packages);
    }
  }

  lemma EffectsPrefix(tableId: nat, tableVersion: nat, a: seq<Item>, b: seq<Item>)
    requires a <= b
    ensures Effects(tableId, tableVersion, a) <= Effects(tableId, tableVersion, b)
  {
    hide Effects;
    assert b == a + b[|a|..];
    EffectsConcat(tableId, tableVersion, a, b[|a|..]);
  }

  lemma IsSent(data: seq<Byte>, batches: seq<Batch>, reserved: seq<Byte>, at: Label)
    requires |reserved| == 20 && data == Package(batches, reserved) && ValidBatches(batches)
    requires forall i :: 0 <= i < |batches| ==> Labelled(batches[i], at) && Carries(batches[i])
    ensures if batches == [] then data == [] && Contents(batches) == [] else data != [] && IsPackage(data, batches, at)
  {
  }

  lemma NothingDelivered()
    ensures Delivered([]) == [] && forall t, v :: Effects(t, v, []) == []
  {
  }
}
