/** Scanning stored blocks for the rows of one entity that lie in a list of scan ranges: min/max pruning, binary
    search on timestamps and splitting into runs of matching OSNs. */
module SegmentScan {
  import opened DelRange
  import EntitySegment

  // A stretch of consecutive rows.
  datatype Rows = Rows(start: nat, num: nat)

  predicate HoldsRow(s: Rows, row: int) { s.start <= row < s.start + s.num }

  // In how many of the stretches the row lies.
  function RowCover(spans: seq<Rows>, row: int): nat
  {
    if spans == [] then 0
    else RowCover(spans[..|spans| - 1], row) + if HoldsRow(spans[|spans| - 1], row) then 1 else 0
  }

  lemma RowCoverPush(spans: seq<Rows>, s: Rows)
    ensures forall row :: RowCover(spans + [s], row) == RowCover(spans, row) + if HoldsRow(s, row) then 1 else 0
  {
    assert (spans + [s])[..|spans|] == spans;
  }

  // The first index at which a monotone test holds: std::lower_bound and std::upper_bound.
  method FirstTrue(lo: nat, hi: nat, test: int -> bool) returns (r: nat)
    requires lo <= hi && forall i, j :: lo <= i <= j < hi && test(i) ==> test(j)
    ensures lo <= r <= hi
    ensures (forall i :: lo <= i < r ==> !test(i)) && (forall i :: r <= i < hi ==> test(i))
  {
    var a, b := lo, hi;
    while a < b
      invariant lo <= a <= b <= hi
      invariant (forall i :: lo <= i < a ==> !test(i)) && (forall i :: b <= i < hi ==> test(i))
    {
      var mid := a + (b - a) / 2;
      if test(mid) {
        b := mid;
      } else {
        a := mid + 1;
      }
    }
    r := a;
  }

  // Runs of consecutive rows in [from, to) whose OSN matches, appended to `spans`.
  method SplitRuns(osn: seq<Osn>, want: OsnSpan, from: nat, to: nat, spans: seq<Rows>) returns (spans': seq<Rows>)
    requires from <= to <= |osn|
    ensures spans <= spans' && forall i :: |spans| <= i < |spans'| ==> spans'[i].num > 0
    ensures forall row :: RowCover(spans', row)
              == RowCover(spans, row) + if from <= row < to && HasOsn(want, osn[row]) then 1 else 0
  {
    hide RowCover;
    spans' := spans;
    var matching, start, i := false, 0, from;
    while i < to
      invariant from <= i <= to && spans <= spans' && forall k :: |spans| <= k < |spans'| ==> spans'[k].num > 0
      invariant matching ==> from <= start < i && forall k :: start <= k < i ==> HasOsn(want, osn[k])
      invariant forall row :: RowCover(spans', row)
                  == RowCover(spans, row)
                     + if from <= row < (if matching then start else i) && HasOsn(want, osn[row]) then 1 else 0
    {
      if osn[i] >= want.begin && osn[i] <= want.end {
        if !matching {
          start, matching := i, true;
        }
      } else {
        if matching {
          matching := false;
          RowCoverPush(spans', Rows(start, i - start));
          spans' := spans' + [Rows(start, i - start)];
        }
      }
      i := i + 1;
    }
    if matching {
      RowCoverPush(spans', Rows(start, to - start));
      spans' := spans' + [Rows(start, to - start)];
    }
  }

  // ---------- one block of one entity ----------

  // A block with the bounds its header records.
  datatype Block = Block(ts: seq<Ts>, osn: seq<Osn>, firstTs: Ts, lastTs: Ts, minOsn: Osn, maxOsn: Osn)

  predicate Sorted(ts: seq<Ts>)
  {
    forall i, j :: 0 <= i <= j < |ts| ==> ts[i] <= ts[j]
  }

  predicate ValidBlock(b: Block)
  {
    && |b.ts| == |b.osn| && Sorted(b.ts)
    && (forall i :: 0 <= i < |b.ts| ==> b.firstTs <= b.ts[i] <= b.lastTs)
    && (forall i :: 0 <= i < |b.osn| ==> b.minOsn <= b.osn[i] <= b.maxOsn)
  }

  function RowPoint(b: Block, row: nat): Point
    requires ValidBlock(b) && row < |b.ts|
  {
    Point(b.ts[row], b.osn[row])
  }

  datatype Relation = Exclude | Cross | Include | Included

  function RangeRelation(a: OsnSpan, b: OsnSpan): Relation
  {
    if a.begin > b.end || b.begin > a.end then Exclude
    else if a.begin <= b.begin then (if a.end >= b.end then Include else Cross)
    else (if a.end <= b.end then Included else Cross)
  }

  // What the relation says about the OSNs of two spans.
  lemma RelationMeans(a: OsnSpan, b: OsnSpan)
    requires a.begin <= a.end && b.begin <= b.end
    ensures RangeRelation(a, b) == Exclude <==> !exists x :: HasOsn(a, x) && HasOsn(b, x)
    ensures RangeRelation(a, b) == Include <==> forall x :: HasOsn(b, x) ==> HasOsn(a, x)
    ensures RangeRelation(a, b) == Included <==> (forall x :: HasOsn(a, x) ==> HasOsn(b, x)) && !HasOsn(a, b.begin)
  {
    assert HasOsn(a, a.begin) && HasOsn(a, a.end) && HasOsn(b, b.begin) && HasOsn(b, b.end);
    if RangeRelation(a, b) != Exclude {
      var x := if a.begin < b.begin then b.begin else a.begin;
      assert HasOsn(a, x) && HasOsn(b, x);
    }
  }

  function One(b: bool): nat { if b then 1 else 0 }

  // GetRowSpans for one scan range.
  method RowSpansOfRange(b: Block, range: Range, spans: seq<Rows>) returns (spans': seq<Rows>)
    requires ValidBlock(b)
    ensures spans <= spans' && forall i :: |spans| <= i < |spans'| ==> spans'[i].num > 0
    ensures forall row :: 0 <= row < |b.ts| ==>
      RowCover(spans', row) == RowCover(spans, row) + One(In(range, RowPoint(b, row)))
    ensures forall row :: !(0 <= row < |b.ts|) ==> RowCover(spans', row) == RowCover(spans, row)
  {
    hide RowCover;
    spans' := spans;
    if range.ts.begin > b.lastTs || range.ts.end < b.firstTs {
      return;
    }
    var relation := RangeRelation(range.osn, OsnSpan(b.minOsn, b.maxOsn));
    if relation == Exclude {
      return;
    }
    var n := |b.ts|;
    var from, past := i => 0 <= i < n && b.ts[i] >= range.ts.begin, i => 0 <= i < n && b.ts[i] > range.ts.end;
    var start := FirstTrue(0, n, from);
    var end := FirstTrue(0, n, past);
    forall row | 0 <= row < n
      ensures In(range, RowPoint(b, row)) <==> start <= row < end && HasOsn(range.osn, b.osn[row])
    {
      assert (from(row) <==> start <= row) && (past(row) <==> end <= row);
    }
    if relation == Include {
      if end > start {
        RowCoverPush(spans', Rows(start, end - start));
        spans' := spans' + [Rows(start, end - start)];
      }
    } else if start < end {
      spans' := SplitRuns(b.osn, range.osn, start, end, spans');
    }
  }

  /** GetRowSpans: every row of the block is returned once for each scan range that holds its timestamp and OSN,
      and nothing else is returned. */
  method GetRowSpans(b: Block, ranges: seq<Range>) returns (spans: seq<Rows>)
    requires ValidBlock(b)
    ensures forall i :: 0 <= i < |spans| ==> spans[i].num > 0 && spans[i].start + spans[i].num <= |b.ts|
    ensures forall row :: 0 <= row < |b.ts| ==> RowCover(spans, row) == Cover(ranges, RowPoint(b, row))
  {
    spans := [];
    var i := 0;
    while i < |ranges|
      invariant 0 <= i <= |ranges| && forall k :: 0 <= k < |spans| ==> spans[k].num > 0
      invariant forall row :: 0 <= row < |b.ts| ==> RowCover(spans, row) == Cover(ranges[..i], RowPoint(b, row))
      invariant forall row :: !(0 <= row < |b.ts|) ==> RowCover(spans, row) == 0
    {
      assert ranges[..i + 1] == ranges[..i] + [ranges[i]];
      CoverPushAll(ranges[..i], ranges[i]);
      spans := RowSpansOfRange(b, ranges[i], spans);
      i := i + 1;
    }
    assert ranges[..i] == ranges;
    InBounds(spans, |b.ts|);
  }

  lemma {:induction false} RowCoverHas(spans: seq<Rows>, i: nat, row: int)
    requires i < |spans| && HoldsRow(spans[i], row)
    ensures RowCover(spans, row) > 0
  {
    var k := |spans| - 1;
    if i < k {
      RowCoverHas(spans[..k], i, row);
    }
  }

  lemma InBounds(spans: seq<Rows>, n: nat)
    requires forall i :: 0 <= i < |spans| ==> spans[i].num > 0
    requires forall row :: !(0 <= row < n) ==> RowCover(spans, row) == 0
    ensures forall i :: 0 <= i < |spans| ==> spans[i].start + spans[i].num <= n
  {
    forall i | 0 <= i < |spans|
      ensures spans[i].start + spans[i].num <= n
    {
      RowCoverHas(spans, i, spans[i].start + spans[i].num - 1);
    }
  }

  // ---------- the block chain of an entity ----------

  // A stretch of rows of the block with this id.
  datatype Piece = Piece(id: nat, rows: Rows)

  function PieceCover(pieces: seq<Piece>, id: nat, row: int): nat
  {
    if pieces == [] then 0
    else One(pieces[0].id == id && HoldsRow(pieces[0].rows, row)) + PieceCover(pieces[1..], id, row)
  }

  lemma {:induction false} PieceCoverConcat(a: seq<Piece>, b: seq<Piece>, id: nat, row: int)
    ensures PieceCover(a + b, id, row) == PieceCover(a, id, row) + PieceCover(b, id, row)
  {
    if a == [] {
      assert a + b == b;
    } else {
      assert (a + b)[1..] == a[1..] + b;
      PieceCoverConcat(a[1..], b, id, row);
    }
  }

  function PiecesOf(id: nat, spans: seq<Rows>): (pieces: seq<Piece>)
    ensures |pieces| == |spans| && forall i :: 0 <= i < |pieces| ==> pieces[i].id == id
  {
    if spans == [] then [] else PiecesOf(id, spans[..|spans| - 1]) + [Piece(id, spans[|spans| - 1])]
  }

  lemma {:induction false} PiecesOfCover(id: nat, spans: seq<Rows>, id': nat, row: int)
    ensures PieceCover(PiecesOf(id, spans), id', row) == if id == id' then RowCover(spans, row) else 0
  {
    if spans != [] {
      var k := |spans| - 1;
      PiecesOfCover(id, spans[..k], id', row);
      PieceCoverConcat(PiecesOf(id, spans[..k]), [Piece(id, spans[k])], id', row);
    }
  }

  // An entity segment: its tables, and the content of block i + 1 at position i.
  datatype Segment = Segment(entities: seq<EntitySegment.EntityItem>, items: seq<EntitySegment.BlockItem>,
                             blocks: seq<Block>)

  predicate ValidSegment(s: Segment)
  {
    && EntitySegment.ValidTable(s.entities, s.items) && |s.blocks| == |s.items|
    && forall i :: 0 <= i < |s.blocks| ==>
         && ValidBlock(s.blocks[i]) && s.items[i].nRows == |s.blocks[i].ts|
         && s.items[i].minTs == s.blocks[i].firstTs && s.items[i].maxTs == s.blocks[i].lastTs
  }

  // The front of a falling list that lies above `floor`.
  function Above(ids: seq<nat>, floor: nat): (r: seq<nat>)
    ensures r <= ids && forall k :: 0 <= k < |r| ==> r[k] > floor
  {
    if ids == [] || ids[0] <= floor then [] else [ids[0]] + Above(ids[1..], floor)
  }

  // The blocks a scan may read: those of the entity's chain above `floor`, if the entity belongs to the table.
  function ReadableIds(s: Segment, table: nat, entity: nat, floor: nat): (ids: seq<nat>)
    requires ValidSegment(s) && entity > 0
    ensures forall k :: 0 <= k < |ids| ==> 0 < ids[k] <= |s.blocks|
  {
    if entity <= |s.entities| && s.entities[entity - 1].tableId == table
    then Above(EntitySegment.ChainOf(s.entities, s.items, entity).ids, floor) else []
  }

  // IsTsLsnSpanInSpans: both corners of the block's bounding box lie in one scan range.
  // A scan may read exactly the blocks of the entity's chain above `floor`, and none if the table is another one.
  lemma ReadableIff(s: Segment, table: nat, entity: nat, floor: nat, id: nat)
    requires ValidSegment(s) && entity > 0
    ensures id in ReadableIds(s, table, entity, floor)
       <==> && entity <= |s.entities| && s.entities[entity - 1].tableId == table
            && id in EntitySegment.ChainOf(s.entities, s.items, entity).ids && id > floor
  {
    hide EntitySegment.WalkFrom, ValidBlock;
    if entity <= |s.entities| {
      assert EntitySegment.SlotOk(s.entities[entity - 1], entity, s.items);
      AboveIff(EntitySegment.ChainOf(s.entities, s.items, entity).ids, floor, id);
    }
  }

  lemma {:induction false} AboveIff(ids: seq<nat>, floor: nat, id: nat)
    requires forall j, k :: 0 <= j < k < |ids| ==> ids[j] > ids[k]
    ensures id in Above(ids, floor) <==> id in ids && id > floor
  {
    if ids != [] && ids[0] > floor {
      AboveIff(ids[1..], floor, id);
      assert ids == [ids[0]] + ids[1..];
    }
  }

  predicate BoxInside(ranges: seq<Range>, b: Block)
  {
    exists i :: 0 <= i < |ranges| && In(ranges[i], Point(b.firstTs, b.minOsn))
      && In(ranges[i], Point(b.lastTs, b.maxOsn))
  }

  predicate BoxCrosses(ranges: seq<Range>, b: Block)
  {
    exists i :: 0 <= i < |ranges| &&
      b.firstTs <= ranges[i].ts.end && b.lastTs >= ranges[i].ts.begin &&
      b.minOsn <= ranges[i].osn.end && b.maxOsn >= ranges[i].osn.begin
  }

  // Every row of the block is returned if and only if some range holds it, and at most once per such range.
  predicate ExactRows(spans: seq<Rows>, b: Block, ranges: seq<Range>)
    requires ValidBlock(b)
  {
    forall row :: 0 <= row < |b.ts| ==>
      && RowCover(spans, row) <= Cover(ranges, RowPoint(b, row))
      && (Cover(ranges, RowPoint(b, row)) > 0 ==> RowCover(spans, row) > 0)
  }

  method ScanBlock(b: Block, ranges: seq<Range>) returns (spans: seq<Rows>)
    requires ValidBlock(b)
    ensures ExactRows(spans, b, ranges)
    ensures forall i :: 0 <= i < |spans| ==> spans[i].start + spans[i].num <= |b.ts|
  {
    hide Cover, RowCover;
    if BoxInside(ranges, b) {
      spans := [Rows(0, |b.ts|)];
      WholeBlock(b, ranges);
    } else if BoxCrosses(ranges, b) {
      spans := GetRowSpans(b, ranges);
    } else {
      spans := [];
      NoRow(b, ranges);
    }
  }

  lemma WholeBlock(b: Block, ranges: seq<Range>)
    requires ValidBlock(b) && BoxInside(ranges, b)
    ensures ExactRows([Rows(0, |b.ts|)], b, ranges)
  {
    var i :| 0 <= i < |ranges| && In(ranges[i], Point(b.firstTs, b.minOsn)) && In(ranges[i], Point(b.lastTs, b.maxOsn));
    var spans := [Rows(0, |b.ts|)];
    RowCoverPush([], spans[0]);
    assert [] + spans == spans;
    forall row | 0 <= row < |b.ts|
      ensures RowCover(spans, row) == 1 && Cover(ranges, RowPoint(b, row)) > 0
    {
      assert In(ranges[i], RowPoint(b, row));
      CoverIff(ranges, RowPoint(b, row));
      assert RowCover([], row) == 0;
    }
  }

  lemma RowMeansCross(b: Block, ranges: seq<Range>, row: nat)
    requires ValidBlock(b) && row < |b.ts| && exists i :: 0 <= i < |ranges| && In(ranges[i], RowPoint(b, row))
    ensures BoxCrosses(ranges, b)
  {
    var i :| 0 <= i < |ranges| && In(ranges[i], RowPoint(b, row));
    assert b.firstTs <= ranges[i].ts.end;
  }

  lemma NoRow(b: Block, ranges: seq<Range>)
    requires ValidBlock(b) && !BoxCrosses(ranges, b)
    ensures ExactRows([], b, ranges)
  {
    forall row | 0 <= row < |b.ts|
      ensures Cover(ranges, RowPoint(b, row)) == 0
    {
      CoverIff(ranges, RowPoint(b, row));
      if Cover(ranges, RowPoint(b, row)) > 0 {
        RowMeansCross(b, ranges, row);
      }
    }
  }

  // What the pieces say about one block.
  ghost predicate Scanned(pieces: seq<Piece>, blocks: seq<Block>, ranges: seq<Range>, id: nat)
    requires 1 <= id <= |blocks| && ValidBlock(blocks[id - 1])
  {
    var b := blocks[id - 1];
    forall row :: 0 <= row < |b.ts| ==>
      && PieceCover(pieces, id, row) <= Cover(ranges, RowPoint(b, row))
      && (Cover(ranges, RowPoint(b, row)) > 0 ==> PieceCover(pieces, id, row) > 0)
  }

  predicate Ascending(pieces: seq<Piece>)
  {
    forall i, j :: 0 <= i <= j < |pieces| ==> pieces[i].id <= pieces[j].id
  }

  // Every piece is a stretch of rows of its block.
  predicate WithinBlocks(pieces: seq<Piece>, blocks: seq<Block>)
  {
    forall k :: 0 <= k < |pieces| ==>
      1 <= pieces[k].id <= |blocks| && pieces[k].rows.start + pieces[k].rows.num <= |blocks[pieces[k].id - 1].ts|
  }

  /** GetBlockSpans: walking the entity's block chain returns, oldest block first, exactly the rows of the readable
      blocks that lie in some scan range; where the ranges are disjoint, each of them once. An entity of another
      table has none. */
  method GetBlockSpans(s: Segment, table: nat, entity: nat, floor: nat, ranges: seq<Range>) returns (pieces: seq<Piece>)
    requires ValidSegment(s) && entity > 0
    ensures var ids := ReadableIds(s, table, entity, floor);
            && (forall k :: 0 <= k < |ids| ==> Scanned(pieces, s.blocks, ranges, ids[k]))
            && Ascending(pieces) && forall k :: 0 <= k < |pieces| ==> pieces[k].id in ids
    ensures WithinBlocks(pieces, s.blocks)
  {
    hide PieceCover, Cover, ExactRows, ValidBlock, Scanned, WithinBlocks, ReadableIds, Above;
    hide EntitySegment.WalkFrom, EntitySegment.ValidTable, EntitySegment.ValidBlocks, EntitySegment.SlotOk;
    pieces := [];
    StartIds(s, table, entity, floor);
    NoPieces(s.blocks);
    if entity > |s.entities| || s.entities[entity - 1].tableId != table {
      return;
    }
    var last: nat := s.entities[entity - 1].curBlock;
    ghost var ids := ReadableIds(s, table, entity, floor);
    ghost var done: seq<nat> := [];
    while last > floor
      invariant last <= |s.items| && ids == done + Above(EntitySegment.WalkFrom(s.items, last).ids, floor)
      invariant forall k :: 0 <= k < |done| ==>
        last < done[k] <= |s.blocks| && Scanned(pieces, s.blocks, ranges, done[k])
      invariant Ascending(pieces) && forall k :: 0 <= k < |pieces| ==> last < pieces[k].id && pieces[k].id in done
      invariant WithinBlocks(pieces, s.blocks)
      decreases last
    {
      var spans := ScanBlock(s.blocks[last - 1], ranges);
      PrependBlock(s.blocks, ranges, last, spans, pieces);
      OneFurther(s.items, last, floor, done);
      done, pieces, last := done + [last], PiecesOf(last, spans) + pieces, s.items[last - 1].prev;
    }
    NoneAbove(s.items, last, floor);
    assert ids == done;
  }

  lemma StartIds(s: Segment, table: nat, entity: nat, floor: nat)
    requires ValidSegment(s) && entity > 0
    ensures EntitySegment.ValidBlocks(s.items)
    ensures if entity > |s.entities| || s.entities[entity - 1].tableId != table
            then ReadableIds(s, table, entity, floor) == []
            else
              var cur := s.entities[entity - 1].curBlock;
              && cur <= |s.items|
              && ReadableIds(s, table, entity, floor) == [] + Above(EntitySegment.WalkFrom(s.items, cur).ids, floor)
  {
    assert entity <= |s.entities| ==> EntitySegment.SlotOk(s.entities[entity - 1], entity, s.items);
  }

  lemma NoPieces(blocks: seq<Block>)
    ensures WithinBlocks([], blocks)
  {
  }

  lemma OneFurther(items: seq<EntitySegment.BlockItem>, last: nat, floor: nat, done: seq<nat>)
    requires EntitySegment.ValidBlocks(items) && floor < last <= |items|
    ensures items[last - 1].prev < last
    ensures done + Above(EntitySegment.WalkFrom(items, last).ids, floor)
         == (done + [last]) + Above(EntitySegment.WalkFrom(items, items[last - 1].prev).ids, floor)
  {
    hide Above, EntitySegment.WalkFrom;
    assert EntitySegment.ValidBlock(items, last - 1);
    var older := EntitySegment.WalkFrom(items, items[last - 1].prev).ids;
    EntitySegment.WalkStep(items, last);
    AboveFirst(last, older, floor);
    assert done + ([last] + Above(older, floor)) == (done + [last]) + Above(older, floor);
  }

  lemma AboveFirst(id: nat, ids: seq<nat>, floor: nat)
    ensures Above([id] + ids, floor) == if id > floor then [id] + Above(ids, floor) else []
  {
    assert ([id] + ids)[1..] == ids;
  }

  lemma NoneAbove(items: seq<EntitySegment.BlockItem>, last: nat, floor: nat)
    requires EntitySegment.ValidBlocks(items) && last <= floor && last <= |items|
    ensures Above(EntitySegment.WalkFrom(items, last).ids, floor) == []
  {
  }

  lemma PrependBlock(blocks: seq<Block>, ranges: seq<Range>, id: nat, spans: seq<Rows>, pieces: seq<Piece>)
    requires (forall i :: 0 <= i < |blocks| ==> ValidBlock(blocks[i])) && 1 <= id <= |blocks|
    requires ExactRows(spans, blocks[id - 1], ranges) && forall k :: 0 <= k < |pieces| ==> id < pieces[k].id
    requires WithinBlocks(pieces, blocks)
    requires forall i :: 0 <= i < |spans| ==> spans[i].start + spans[i].num <= |blocks[id - 1].ts|
    ensures Scanned(PiecesOf(id, spans) + pieces, blocks, ranges, id)
    ensures forall other :: id < other <= |blocks| && Scanned(pieces, blocks, ranges, other)
              ==> Scanned(PiecesOf(id, spans) + pieces, blocks, ranges, other)
    ensures WithinBlocks(PiecesOf(id, spans) + pieces, blocks)
  {
    hide PieceCover, RowCover, Cover, ValidBlock;
    forall other: nat, row
      ensures PieceCover(PiecesOf(id, spans) + pieces, other, row)
              == (if other == id then RowCover(spans, row) else 0) + PieceCover(pieces, other, row)
    {
      PieceCoverConcat(PiecesOf(id, spans), pieces, other, row);
      PiecesOfCover(id, spans, other, row);
    }
    forall row
      ensures PieceCover(pieces, id, row) == 0
    {
      NoPiece(pieces, id, row);
    }
    PiecesRows(id, spans);
  }

  lemma {:induction false} PiecesRows(id: nat, spans: seq<Rows>)
    ensures forall i :: 0 <= i < |spans| ==> PiecesOf(id, spans)[i].rows == spans[i]
  {
    if spans != [] {
      PiecesRows(id, spans[..|spans| - 1]);
    }
  }

  lemma {:induction false} NoPiece(pieces: seq<Piece>, id: nat, row: int)
    requires forall k :: 0 <= k < |pieces| ==> id != pieces[k].id
    ensures PieceCover(pieces, id, row) == 0
  {
    if pieces != [] {
      NoPiece(pieces[1..], id, row);
    }
  }

  // ---------- last segments: many entities per block ----------

  datatype LastBlock = LastBlock(entity: seq<nat>, ts: seq<Ts>, osn: seq<Osn>, table: nat,
                                 minEntity: nat, maxEntity: nat, minTs: Ts, maxTs: Ts, minOsn: Osn, maxOsn: Osn)

  // Rows are sorted by entity, then timestamp.
  predicate RowLe(b: LastBlock, i: nat, j: nat)
    requires i < |b.entity| == |b.ts| && j < |b.entity|
  {
    b.entity[i] < b.entity[j] || (b.entity[i] == b.entity[j] && b.ts[i] <= b.ts[j])
  }

  predicate ValidLast(b: LastBlock)
  {
    && |b.entity| == |b.ts| == |b.osn|
    && (forall i, j :: 0 <= i <= j < |b.entity| ==> RowLe(b, i, j))
    && (forall i :: 0 <= i < |b.entity| ==> b.minEntity <= b.entity[i] <= b.maxEntity)
    && (forall i :: 0 <= i < |b.ts| ==> b.minTs <= b.ts[i] <= b.maxTs)
    && (forall i :: 0 <= i < |b.osn| ==> b.minOsn <= b.osn[i] <= b.maxOsn)
  }

  // The block index is sorted by entity bounds.
  predicate ValidIndex(blocks: seq<LastBlock>)
  {
    && (forall i :: 0 <= i < |blocks| ==> ValidLast(blocks[i]))
    && (forall i, j :: 0 <= i <= j < |blocks| ==>
          blocks[i].minEntity <= blocks[j].minEntity && blocks[i].maxEntity <= blocks[j].maxEntity)
  }

  predicate Wanted(b: LastBlock, table: nat, entity: nat, range: Range, row: nat)
    requires ValidLast(b) && row < |b.ts|
  {
    b.table == table && b.entity[row] == entity && In(range, Point(b.ts[row], b.osn[row]))
  }

  // The rows of the entity with a timestamp in the range lie between two bounds.
  method EntityRows(b: LastBlock, entity: nat, range: Range) returns (start: nat, end: nat)
    requires ValidLast(b)
    ensures start <= end <= |b.ts|
    ensures forall row :: 0 <= row < |b.ts| ==>
              (start <= row < end <==> b.entity[row] == entity && range.ts.begin <= b.ts[row] <= range.ts.end)
  {
    var n := |b.ts|;
    var from := i => 0 <= i < n && (entity < b.entity[i] || (entity == b.entity[i] && range.ts.begin <= b.ts[i]));
    var past := i => 0 <= i < n && (b.entity[i] > entity || (b.entity[i] == entity && b.ts[i] > range.ts.end));
    forall i, j | 0 <= i <= j < n
      ensures (from(i) ==> from(j)) && (past(i) ==> past(j))
    {
      assert RowLe(b, i, j);
    }
    start := FirstTrue(0, n, from);
    end := n;
    if start < n {
      end := FirstTrue(start, n, past);
    }
    forall row | 0 <= row < n
      ensures start <= row < end <==> b.entity[row] == entity && range.ts.begin <= b.ts[row] <= range.ts.end
    {
      assert (from(row) <==> start <= row) && (row >= start ==> (past(row) <==> end <= row));
    }
  }

  // The rows of one block that one scan range wants.
  method ScanLastBlock(b: LastBlock, table: nat, entity: nat, range: Range) returns (spans: seq<Rows>)
    requires ValidLast(b)
    ensures forall i :: 0 <= i < |spans| ==> spans[i].num > 0
    ensures forall row :: 0 <= row < |b.ts| ==> RowCover(spans, row) == One(Wanted(b, table, entity, range, row))
    ensures forall row :: !(0 <= row < |b.ts|) ==> RowCover(spans, row) == 0
  {
    hide RowCover, RowLe;
    spans := [];
    NoCoverage();
    if b.table != table || b.maxTs < range.ts.begin || b.minTs > range.ts.end
       || b.maxOsn < range.osn.begin || b.minOsn > range.osn.end {
      return;
    }
    var start, end := EntityRows(b, entity, range);
    if start == |b.ts| {
      return;
    }
    if b.maxOsn <= range.osn.end && range.osn.begin <= b.minOsn {
      if end > start {
        RowCoverPush([], Rows(start, end - start));
        spans := [] + [Rows(start, end - start)];
      }
    } else {
      spans := SplitRuns(b.osn, range.osn, start, end, spans);
    }
  }

  lemma NoCoverage()
    ensures forall row :: RowCover([], row) == 0
  {
  }

  // What one more scan range adds for a row of the block at position k.
  function LastCover(b: LastBlock, table: nat, entity: nat, ranges: seq<Range>, row: nat): nat
    requires ValidLast(b) && row < |b.ts|
  {
    if b.table == table && b.entity[row] == entity then Cover(ranges, Point(b.ts[row], b.osn[row])) else 0
  }

  ghost predicate LastScanned(pieces: seq<Piece>, blocks: seq<LastBlock>, table: nat, entity: nat, ranges: seq<Range>,
                              k: nat)
    requires ValidIndex(blocks) && k < |blocks|
  {
    forall row :: PieceCover(pieces, k, row)
      == if 0 <= row < |blocks[k].ts| then LastCover(blocks[k], table, entity, ranges, row) else 0
  }

  /** The filtered GetBlockSpans of a last segment: two binary searches on the block index, then binary search and
      run splitting in every candidate block, return each row of the entity once for every scan range that
      holds it, and no other row. */
  method GetLastBlockSpans(blocks: seq<LastBlock>, table: nat, entity: nat, ranges: seq<Range>)
    returns (pieces: seq<Piece>)
    requires ValidIndex(blocks)
    ensures forall k :: 0 <= k < |blocks| ==> LastScanned(pieces, blocks, table, entity, ranges, k)
  {
    pieces := [];
    if ranges == [] {
      return;
    }
    var n := |blocks|;
    var first := i => 0 <= i < n && blocks[i].maxEntity >= entity;
    var last := i => 0 <= i < n && blocks[i].minEntity > entity;
    var begin := FirstTrue(0, n, first);
    var end := FirstTrue(0, n, last);
    forall k, row | 0 <= k < n && !(begin <= k < end) && 0 <= row < |blocks[k].ts|
      ensures blocks[k].entity[row] != entity
    {
      assert (first(k) <==> begin <= k) && (last(k) <==> end <= k);
    }
    if begin == n || end <= begin {
      return;
    }
    var i := 0;
    while i < |ranges|
      invariant 0 <= i <= |ranges|
      invariant forall k :: 0 <= k < n ==> LastScanned(pieces, blocks, table, entity, ranges[..i], k)
    {
      assert ranges[..i + 1] == ranges[..i] + [ranges[i]];
      if ranges[i].ts.begin <= ranges[i].ts.end {
        pieces := ScanRange(blocks, table, entity, ranges[..i], ranges[i], begin, end, pieces);
      } else {
        ghost var upTo := ranges[..i + 1];
        forall k | 0 <= k < n
          ensures LastScanned(pieces, blocks, table, entity, upTo, k)
        {
          NothingWanted(blocks, table, entity, ranges[..i], ranges[i], k, pieces);
        }
      }
      i := i + 1;
    }
    assert ranges[..i] == ranges;
  }

  // One scan range over the candidate blocks.
  method ScanRange(blocks: seq<LastBlock>, table: nat, entity: nat, ghost done: seq<Range>, range: Range,
                   begin: nat, end: nat, pieces: seq<Piece>) returns (pieces': seq<Piece>)
    requires ValidIndex(blocks) && begin <= end <= |blocks|
    requires forall k :: 0 <= k < |blocks| ==> LastScanned(pieces, blocks, table, entity, done, k)
    requires forall k, row :: 0 <= k < |blocks| && !(begin <= k < end) && 0 <= row < |blocks[k].ts| ==>
      blocks[k].entity[row] != entity
    ensures forall k :: 0 <= k < |blocks| ==> LastScanned(pieces', blocks, table, entity, done + [range], k)
  {
    hide PieceCover, Cover, RowCover, ValidIndex, LastScanned;
    pieces' := pieces;
    var k := begin;
    while k < end
      invariant begin <= k <= end
      invariant forall b :: begin <= b < k ==> LastScanned(pieces', blocks, table, entity, done + [range], b)
      invariant forall b :: 0 <= b < |blocks| && !(begin <= b < k) ==>
        LastScanned(pieces', blocks, table, entity, done, b)
    {
      assert ValidLast(blocks[k]) by { BlockValid(blocks, k); }
      var spans := ScanLastBlock(blocks[k], table, entity, range);
      var next := pieces' + PiecesOf(k, spans);
      BlockDone(blocks, table, entity, done, range, k, spans, pieces');
      forall b, rs | 0 <= b < |blocks| && b != k && LastScanned(pieces', blocks, table, entity, rs, b)
        ensures LastScanned(next, blocks, table, entity, rs, b)
      {
        OtherBlock(blocks, table, entity, rs, b, k, spans, pieces');
      }
      pieces', k := next, k + 1;
    }
    forall b | 0 <= b < |blocks| && !(begin <= b < end)
      ensures LastScanned(pieces', blocks, table, entity, done + [range], b)
    {
      NothingWanted(blocks, table, entity, done, range, b, pieces');
    }
  }

  lemma BlockValid(blocks: seq<LastBlock>, k: nat)
    requires ValidIndex(blocks) && k < |blocks|
    ensures ValidLast(blocks[k])
  {
  }

  lemma BlockDone(blocks: seq<LastBlock>, table: nat, entity: nat, done: seq<Range>, range: Range, k: nat,
                  spans: seq<Rows>, pieces: seq<Piece>)
    requires ValidIndex(blocks) && k < |blocks| && LastScanned(pieces, blocks, table, entity, done, k)
    requires forall row :: RowCover(spans, row)
               == if 0 <= row < |blocks[k].ts| then One(Wanted(blocks[k], table, entity, range, row)) else 0
    ensures LastScanned(pieces + PiecesOf(k, spans), blocks, table, entity, done + [range], k)
  {
    hide PieceCover, Cover, RowCover;
    var b := blocks[k];
    AppendPieces(pieces, k, spans);
    forall row | 0 <= row < |b.ts|
      ensures PieceCover(pieces + PiecesOf(k, spans), k, row) == LastCover(b, table, entity, done + [range], row)
    {
      CoverPush(done, range, Point(b.ts[row], b.osn[row]));
    }
  }

  lemma OtherBlock(blocks: seq<LastBlock>, table: nat, entity: nat, ranges: seq<Range>, b: nat, k: nat,
                   spans: seq<Rows>, pieces: seq<Piece>)
    requires ValidIndex(blocks) && b < |blocks| && b != k && LastScanned(pieces, blocks, table, entity, ranges, b)
    ensures LastScanned(pieces + PiecesOf(k, spans), blocks, table, entity, ranges, b)
  {
    hide PieceCover, Cover, RowCover, ValidIndex;
    AppendPieces(pieces, k, spans);
  }

  // A range without timestamps, or a block without rows of the entity.
  lemma NothingWanted(blocks: seq<LastBlock>, table: nat, entity: nat, done: seq<Range>, range: Range, b: nat,
                      pieces: seq<Piece>)
    requires ValidIndex(blocks) && b < |blocks| && LastScanned(pieces, blocks, table, entity, done, b)
    requires range.ts.begin > range.ts.end
             || forall row :: 0 <= row < |blocks[b].ts| ==> blocks[b].entity[row] != entity
    ensures LastScanned(pieces, blocks, table, entity, done + [range], b)
  {
    hide PieceCover, Cover, RowCover;
    forall row | 0 <= row < |blocks[b].ts|
      ensures LastCover(blocks[b], table, entity, done + [range], row) == LastCover(blocks[b], table, entity, done, row)
    {
      CoverPush(done, range, Point(blocks[b].ts[row], blocks[b].osn[row]));
    }
  }

  lemma AppendPieces(pieces: seq<Piece>, id: nat, spans: seq<Rows>)
    ensures forall id': nat, row :: PieceCover(pieces + PiecesOf(id, spans), id', row)
              == PieceCover(pieces, id', row) + if id == id' then RowCover(spans, row) else 0
  {
    forall id': nat, row
      ensures PieceCover(pieces + PiecesOf(id, spans), id', row)
              == PieceCover(pieces, id', row) + if id == id' then RowCover(spans, row) else 0
    {
      PieceCoverConcat(pieces, PiecesOf(id, spans), id', row);
      PiecesOfCover(id, spans, id', row);
    }
  }

  // ---------- all segments of a partition ----------

  // The request of a scan, as getFilter receives it.
  datatype Request = Request(table: nat, entity: nat, partition: TsSpan, times: seq<TsSpan>, osns: seq<OsnSpan>)

  // A row with a real OSN is returned if and only if it is selected, and once where the request does not repeat.
  ghost predicate Answered(cover: nat, p: Point, q: Request, dels: seq<Range>)
  {
    Inner(p) ==>
      && (cover > 0 <==> Selected(q.partition, q.times, q.osns, dels, p))
      && (Apart(q.times, q.osns) ==> cover <= 1)
  }

  ghost predicate EntityAnswered(pieces: seq<Piece>, s: Segment, floor: nat, q: Request, dels: seq<Range>)
    requires ValidSegment(s) && q.entity > 0
  {
    var ids := ReadableIds(s, q.table, q.entity, floor);
    forall k, row :: 0 <= k < |ids| && 0 <= row < |s.blocks[ids[k] - 1].ts| ==>
      Answered(PieceCover(pieces, ids[k], row), RowPoint(s.blocks[ids[k] - 1], row), q, dels)
  }

  ghost predicate LastAnswered(pieces: seq<Piece>, blocks: seq<LastBlock>, q: Request, dels: seq<Range>)
    requires ValidIndex(blocks)
  {
    forall k, row :: 0 <= k < |blocks| ==>
      if 0 <= row < |blocks[k].ts| && blocks[k].table == q.table && blocks[k].entity[row] == q.entity
      then Answered(PieceCover(pieces, k, row), Point(blocks[k].ts[row], blocks[k].osn[row]), q, dels)
      else PieceCover(pieces, k, row) == 0
  }

  ghost predicate Filtered(ranges: seq<Range>, q: Request, dels: seq<Range>)
  {
    forall p: Point | Inner(p) ::
      Cover(ranges, p) == if VisiblyDeleted(dels, q.osns, p) then 0 else Requested(q.partition, q.times, q.osns, p)
  }

  lemma CoverAnswers(ranges: seq<Range>, cover: nat, p: Point, q: Request, dels: seq<Range>)
    requires Filtered(ranges, q, dels) && cover <= Cover(ranges, p) && (Cover(ranges, p) > 0 ==> cover > 0)
    ensures Answered(cover, p, q, dels)
  {
    hide Cover, Selected, Apart, VisiblyDeleted, Requested;
    if Inner(p) {
      CoverSelected(ranges, q.partition, q.times, q.osns, dels, p);
    }
  }

  lemma EntityAnswer(pieces: seq<Piece>, s: Segment, floor: nat, ranges: seq<Range>, q: Request, dels: seq<Range>)
    requires ValidSegment(s) && q.entity > 0 && Filtered(ranges, q, dels)
    requires var ids := ReadableIds(s, q.table, q.entity, floor);
             forall k :: 0 <= k < |ids| ==> Scanned(pieces, s.blocks, ranges, ids[k])
    ensures EntityAnswered(pieces, s, floor, q, dels)
  {
    hide PieceCover, Cover, ReadableIds, Filtered, Answered;
    var ids := ReadableIds(s, q.table, q.entity, floor);
    forall k, row | 0 <= k < |ids| && 0 <= row < |s.blocks[ids[k] - 1].ts|
      ensures Answered(PieceCover(pieces, ids[k], row), RowPoint(s.blocks[ids[k] - 1], row), q, dels)
    {
      CoverAnswers(ranges, PieceCover(pieces, ids[k], row), RowPoint(s.blocks[ids[k] - 1], row), q, dels);
    }
  }

  lemma LastAnswer(pieces: seq<Piece>, blocks: seq<LastBlock>, ranges: seq<Range>, q: Request, dels: seq<Range>)
    requires ValidIndex(blocks) && Filtered(ranges, q, dels)
    requires forall k :: 0 <= k < |blocks| ==> LastScanned(pieces, blocks, q.table, q.entity, ranges, k)
    ensures LastAnswered(pieces, blocks, q, dels)
  {
    hide PieceCover, Cover, Filtered, Answered;
    forall k, row | 0 <= k < |blocks|
      ensures if 0 <= row < |blocks[k].ts| && blocks[k].table == q.table && blocks[k].entity[row] == q.entity
              then Answered(PieceCover(pieces, k, row), Point(blocks[k].ts[row], blocks[k].osn[row]), q, dels)
              else PieceCover(pieces, k, row) == 0
    {
      assert LastScanned(pieces, blocks, q.table, q.entity, ranges, k);
      if 0 <= row < |blocks[k].ts| && blocks[k].table == q.table && blocks[k].entity[row] == q.entity {
        CoverAnswers(ranges, PieceCover(pieces, k, row), Point(blocks[k].ts[row], blocks[k].osn[row]), q, dels);
      }
    }
  }

  /** A scan of one entity in one partition: one filter, then every last segment, then the entity segment. A row with
      a real OSN is returned exactly when it lies in the partition, in the requested time and OSN spans and in no
      visible delete; once, where the requested spans do not repeat. */
  method ScanPartition(lastSegments: seq<seq<LastBlock>>, s: Segment, floor: nat, q: Request, dels: seq<Range>)
    returns (lasts: seq<seq<Piece>>, pieces: seq<Piece>)
    requires ValidSegment(s) && q.entity > 0 && forall i :: 0 <= i < |lastSegments| ==> ValidIndex(lastSegments[i])
    ensures |lasts| == |lastSegments| && WithinBlocks(pieces, s.blocks)
    ensures AllProper(dels) ==>
      && EntityAnswered(pieces, s, floor, q, dels)
      && forall i :: 0 <= i < |lasts| ==> LastAnswered(lasts[i], lastSegments[i], q, dels)
  {
    hide Cover, ValidIndex, ValidSegment, LastScanned, Scanned, EntityAnswered, LastAnswered, ReadableIds;
    var ranges := ScanFilter(q.partition, q.times, q.osns, dels);
    lasts := [];
    while |lasts| < |lastSegments|
      invariant |lasts| <= |lastSegments|
      invariant AllProper(dels) ==> forall i :: 0 <= i < |lasts| ==> LastAnswered(lasts[i], lastSegments[i], q, dels)
    {
      var blocks := lastSegments[|lasts|];
      var found := GetLastBlockSpans(blocks, q.table, q.entity, ranges);
      if AllProper(dels) {
        LastAnswer(found, blocks, ranges, q, dels);
      }
      lasts := lasts + [found];
    }
    pieces := GetBlockSpans(s, q.table, q.entity, floor, ranges);
    if AllProper(dels) {
      EntityAnswer(pieces, s, floor, ranges, q, dels);
    }
  }
}
