/** Pruning the blocks of an entity before rows with equal timestamps are merged: a block may be dropped by its
    statistics only if no other block can hold rows of the same timestamps. */
module BlockPrune {
  import opened Bags
  import opened DelRange
  import opened BlockFilter

  // ---------- rows by timestamp ----------

  function RowsAt(rows: seq<Row>, t: Ts): multiset<Row>
  {
    if rows == [] then multiset{}
    else (if rows[0].ts == t then multiset{rows[0]} else multiset{}) + RowsAt(rows[1..], t)
  }

  // All rows of this timestamp in some blocks.
  function At(blocks: seq<Block>, t: Ts): multiset<Row>
  {
    if blocks == [] then multiset{} else At(blocks[..|blocks| - 1], t) + RowsAt(blocks[|blocks| - 1].rows, t)
  }

  lemma AtPush(blocks: seq<Block>, b: Block, t: Ts)
    ensures At(blocks + [b], t) == At(blocks, t) + RowsAt(b.rows, t)
  {
    assert (blocks + [b])[..|blocks|] == blocks;
  }

  lemma {:induction false} AtConcat(a: seq<Block>, b: seq<Block>, t: Ts)
    ensures At(a + b, t) == At(a, t) + At(b, t)
  {
    if b == [] {
      assert a + b == a;
    } else {
      var n := |b| - 1;
      assert a + b == (a + b[..n]) + [b[n]];
      AtConcat(a, b[..n], t);
      AtPush(a + b[..n], b[n], t);
    }
  }

  lemma TakeOut(b: seq<Block>, j: nat, t: Ts)
    requires j < |b|
    ensures multiset(b) == multiset(b[..j] + b[j + 1..]) + multiset{b[j]}
    ensures At(b, t) == At(b[..j] + b[j + 1..], t) + RowsAt(b[j].rows, t)
  {
    hide At, RowsAt;
    assert b == (b[..j] + [b[j]]) + b[j + 1..];
    AtConcat(b[..j] + [b[j]], b[j + 1..], t);
    AtPush(b[..j], b[j], t);
    AtConcat(b[..j], b[j + 1..], t);
  }

  // The order of the blocks does not matter.
  lemma {:induction false} AtBag(a: seq<Block>, b: seq<Block>, t: Ts)
    requires multiset(a) == multiset(b)
    ensures At(a, t) == At(b, t)
    decreases |a|
  {
    hide RowsAt, At;
    assert |a| == |multiset(a)| == |multiset(b)| == |b|;
    if a == [] {
      assert a == b;
    }
    if a != [] {
      var n := |a| - 1;
      var x := a[n];
      assert x in multiset(a);
      var j :| 0 <= j < |b| && b[j] == x;
      TakeOut(b, j, t);
      TakeOut(a, n, t);
      assert a[..n] + a[n + 1..] == a[..n];
      Cancel(multiset(a[..n]), multiset(b[..j] + b[j + 1..]), x);
      AtBag(a[..n], b[..j] + b[j + 1..], t);
    }
  }

  lemma {:induction false} RowsAtIn(rows: seq<Row>, t: Ts, r: Row)
    requires r in RowsAt(rows, t)
    ensures r in rows && r.ts == t
  {
    if rows != [] && !(rows[0].ts == t && r == rows[0]) {
      RowsAtIn(rows[1..], t, r);
    }
  }

  lemma NoRowsAt(rows: seq<Row>, t: Ts)
    requires forall i :: 0 <= i < |rows| ==> rows[i].ts != t
    ensures RowsAt(rows, t) == multiset{}
  {
    if r :| r in RowsAt(rows, t) {
      RowsAtIn(rows, t, r);
    }
  }

  // ---------- groups of overlapping blocks ----------

  function First(b: Block): Ts
    requires b.rows != []
  {
    b.rows[0].ts
  }

  function Last(b: Block): Ts
    requires b.rows != []
  {
    b.rows[|b.rows| - 1].ts
  }

  // checkTimestampWithSpans finds an overlap.
  predicate Overlaps(spans: seq<TsSpan>, first: Ts, last: Ts)
  {
    first <= last && exists i :: 0 <= i < |spans| && first <= spans[i].end && last >= spans[i].begin
  }

  // An interval overlaps spans that are not inverted exactly when some timestamp lies in it and in one of them.
  lemma OverlapsIff(spans: seq<TsSpan>, first: Ts, last: Ts)
    requires forall i :: 0 <= i < |spans| ==> spans[i].begin <= spans[i].end
    ensures Overlaps(spans, first, last) <==> exists t :: first <= t <= last && InTs(spans, t)
  {
    if Overlaps(spans, first, last) {
      var i :| 0 <= i < |spans| && first <= spans[i].end && last >= spans[i].begin;
      var t := if first < spans[i].begin then spans[i].begin else first;
      assert HasTs(spans[i], t);
      assert InTs(spans, t);
    }
  }

  predicate Relevant(spans: seq<TsSpan>, b: Block) { b.rows != [] && Overlaps(spans, First(b), Last(b)) }

  lemma IrrelevantRows(spans: seq<TsSpan>, b: Block, t: Ts)
    requires ValidBlock(b) && !Relevant(spans, b) && InTs(spans, t)
    ensures RowsAt(b.rows, t) == multiset{}
  {
    if b.rows != [] {
      var i :| 0 <= i < |spans| && HasTs(spans[i], t);
      assert First(b) <= Last(b) && !(First(b) <= spans[i].end && Last(b) >= spans[i].begin);
    }
    NoRowsAt(b.rows, t);
  }

  datatype Group = Group(first: Ts, last: Ts, blocks: seq<Block>)

  ghost predicate InGroup(g: Group, b: Block)
  {
    ValidBlock(b) && b.rows != [] && g.first <= First(b) && Last(b) <= g.last
  }

  ghost predicate GroupOk(g: Group)
  {
    g.blocks != [] && g.first <= g.last && forall i :: 0 <= i < |g.blocks| ==> InGroup(g, g.blocks[i])
  }

  ghost predicate Disjoint(groups: seq<Group>)
  {
    && (forall i :: 0 <= i < |groups| ==> GroupOk(groups[i]))
    && (forall i, j :: 0 <= i < j < |groups| ==> groups[i].last < groups[j].first)
  }

  lemma OutsideBlock(g: Group, b: Block, t: Ts)
    requires InGroup(g, b) && !(g.first <= t <= g.last)
    ensures RowsAt(b.rows, t) == multiset{}
  {
    NoRowsAt(b.rows, t);
  }

  lemma {:induction false} OutsideGroup(g: Group, blocks: seq<Block>, t: Ts)
    requires (forall i :: 0 <= i < |blocks| ==> InGroup(g, blocks[i])) && !(g.first <= t <= g.last)
    ensures At(blocks, t) == multiset{}
  {
    hide InGroup, RowsAt;
    if blocks != [] {
      var n := |blocks| - 1;
      OutsideBlock(g, blocks[n], t);
      OutsideGroup(g, blocks[..n], t);
    }
  }

  function BlocksOf(groups: seq<Group>): seq<Block>
  {
    if groups == [] then [] else BlocksOf(groups[..|groups| - 1]) + groups[|groups| - 1].blocks
  }

  // The blocks that stay: a block alone in its group goes if a filter rules it out.
  ghost function Survivors(groups: seq<Group>, filters: seq<Filter>): seq<Block>
    requires Disjoint(groups)
  {
    if groups == [] then []
    else
      var n := |groups| - 1;
      assert GroupOk(groups[n]);
      Survivors(groups[..n], filters) + Stay(groups[n], filters)
  }

  ghost function Stay(g: Group, filters: seq<Filter>): seq<Block>
    requires GroupOk(g)
  {
    if |g.blocks| > 1 || !Filtered(filters, g.blocks[0]) then g.blocks else []
  }

  // At any timestamp, all rows stay, or they all came from one block that a filter rules out.
  ghost predicate SameOrRuledOut(blocks: seq<Block>, out: seq<Block>, filters: seq<Filter>, t: Ts)
  {
    || At(out, t) == At(blocks, t)
    || (&& At(out, t) == multiset{}
        && exists b :: b in blocks && Filtered(filters, b) && At(blocks, t) == RowsAt(b.rows, t))
  }

  lemma LastGroup(groups: seq<Group>, filters: seq<Filter>, t: Ts)
    requires Disjoint(groups) && groups != []
    ensures var n := |groups| - 1;
      && GroupOk(groups[n]) && Disjoint(groups[..n]) && BlocksOf(groups) == BlocksOf(groups[..n]) + groups[n].blocks
      && Survivors(groups, filters) == Survivors(groups[..n], filters) + Stay(groups[n], filters)
      && At(BlocksOf(groups), t) == At(BlocksOf(groups[..n]), t) + At(groups[n].blocks, t)
      && At(Survivors(groups, filters), t) == At(Survivors(groups[..n], filters), t) + At(Stay(groups[n], filters), t)
      && (groups[n].first <= t <= groups[n].last ==> Outside(groups[..n], t))
      && (Outside(groups, t) ==> Outside(groups[..n], t))
      && (!(groups[n].first <= t <= groups[n].last) ==>
         At(groups[n].blocks, t) == At(Stay(groups[n], filters), t) == multiset{})
  {
    hide At, InGroup, Filtered;
    var n := |groups| - 1;
    assert GroupOk(groups[n]);
    AtConcat(BlocksOf(groups[..n]), groups[n].blocks, t);
    AtConcat(Survivors(groups[..n], filters), Stay(groups[n], filters), t);
    if !(groups[n].first <= t <= groups[n].last) {
      OutsideGroup(groups[n], groups[n].blocks, t);
      OutsideGroup(groups[n], Stay(groups[n], filters), t);
    }
  }

  predicate Outside(groups: seq<Group>, t: Ts)
  {
    forall i :: 0 <= i < |groups| ==> !(groups[i].first <= t <= groups[i].last)
  }

  lemma {:induction false} OutsideGroups(groups: seq<Group>, filters: seq<Filter>, t: Ts)
    requires Disjoint(groups) && Outside(groups, t)
    ensures At(BlocksOf(groups), t) == multiset{} && At(Survivors(groups, filters), t) == multiset{}
  {
    hide Disjoint, GroupOk, Stay, RowsAt;
    if groups != [] {
      LastGroup(groups, filters, t);
      OutsideGroups(groups[..|groups| - 1], filters, t);
    }
  }

  lemma {:induction false} SurvivorsAt(groups: seq<Group>, filters: seq<Filter>, t: Ts)
    requires Disjoint(groups)
    ensures SameOrRuledOut(BlocksOf(groups), Survivors(groups, filters), filters, t)
  {
    hide Filtered, RowsAt, At, Disjoint, InGroup, BlocksOf, Survivors;
    if groups == [] {
      NoGroups(filters, t);
    } else {
      var n := |groups| - 1;
      var g := groups[n];
      LastGroup(groups, filters, t);
      if g.first <= t <= g.last {
        OutsideGroups(groups[..n], filters, t);
        if Stay(g, filters) == [] {
          OneBlock(g.blocks, t);
          assert g.blocks[0] in BlocksOf(groups);
        }
      } else {
        SurvivorsAt(groups[..n], filters, t);
      }
    }
  }

  lemma NoGroups(filters: seq<Filter>, t: Ts)
    ensures Disjoint([]) && BlocksOf([]) == Survivors([], filters) == []
  {
  }

  lemma OneBlock(blocks: seq<Block>, t: Ts)
    requires |blocks| == 1
    ensures At(blocks, t) == RowsAt(blocks[0].rows, t) && At([], t) == multiset{}
  {
    AtPush([], blocks[0], t);
    assert [] + [blocks[0]] == blocks;
  }

  lemma {:induction false} SurvivorsBag(groups: seq<Group>, filters: seq<Filter>, b: Block)
    requires Disjoint(groups)
    ensures multiset(Survivors(groups, filters))[b] <= multiset(BlocksOf(groups))[b]
    ensures !Filtered(filters, b) ==> multiset(Survivors(groups, filters))[b] == multiset(BlocksOf(groups))[b]
  {
    hide Filtered, GroupOk, Disjoint, Stay, BlocksOf, Survivors, At, Outside;
    if groups == [] {
      NoGroups(filters, 0);
    } else {
      var n := |groups| - 1;
      LastGroup(groups, filters, 0);
      SurvivorsBag(groups[..n], filters, b);
      StayBag(groups[n], filters, b);
    }
  }

  lemma StayBag(g: Group, filters: seq<Filter>, b: Block)
    requires GroupOk(g)
    ensures multiset(Stay(g, filters))[b] <= multiset(g.blocks)[b]
    ensures !Filtered(filters, b) ==> multiset(Stay(g, filters))[b] == multiset(g.blocks)[b]
  {
    hide Filtered, InGroup;
    if Stay(g, filters) == [] {
      assert g.blocks == [g.blocks[0]];
    }
  }

  // ---------- which blocks stay, exactly ----------

  predicate Meets(b: Block, c: Block)
  {
    b.rows != [] && c.rows != [] && First(b) <= Last(c) && First(c) <= Last(b)
  }

  // Another of these blocks meets the interval of this one.
  ghost predicate Crowded(blocks: multiset<Block>, b: Block)
  {
    blocks[b] > 1 || exists c :: c in blocks && c != b && Meets(b, c)
  }

  // Some block reaches the end of the group, and no block shares a group without meeting another one.
  ghost predicate Linked(g: Group)
  {
    && (exists b :: b in g.blocks && b.rows != [] && Last(b) == g.last)
    && (|g.blocks| > 1 ==> forall b :: b in g.blocks ==> Crowded(multiset(g.blocks), b))
  }

  ghost predicate Chained(groups: seq<Group>)
  {
    forall i :: 0 <= i < |groups| ==> Linked(groups[i])
  }

  ghost predicate StartBy(g: Group, begin: Ts)
  {
    forall b :: b in g.blocks ==> b.rows != [] && First(b) <= begin
  }

  lemma LinkedBucket(k: TsSpan, blocks: seq<Block>)
    requires BucketOk(k, blocks)
    ensures Linked(Group(k.begin, k.end, blocks)) && StartBy(Group(k.begin, k.end, blocks), k.begin)
  {
    hide ValidBlock;
    assert blocks[0] in blocks;
    forall b | b in blocks && |blocks| > 1
      ensures Crowded(multiset(blocks), b)
    {
      BucketMeets(k, blocks, b);
    }
  }

  lemma BucketMeets(k: TsSpan, blocks: seq<Block>, b: Block)
    requires BucketOk(k, blocks) && b in blocks && |blocks| > 1
    ensures Crowded(multiset(blocks), b)
  {
    var i :| 0 <= i < |blocks| && blocks[i] == b;
    var j := if i == 0 then 1 else 0;
    BucketSpan(k, blocks, i);
    BucketSpan(k, blocks, j);
    if blocks[j] == b {
      Twice(blocks, i, j);
    } else {
      assert blocks[j] in multiset(blocks);
    }
  }

  lemma BucketSpan(k: TsSpan, blocks: seq<Block>, i: nat)
    requires BucketOk(k, blocks) && i < |blocks|
    ensures blocks[i].rows != [] && First(blocks[i]) == k.begin <= k.end == Last(blocks[i])
  {
    assert ValidBlock(blocks[i]);
  }

  lemma Twice(blocks: seq<Block>, i: nat, j: nat)
    requires i < |blocks| && j < |blocks| && i != j && blocks[i] == blocks[j]
    ensures multiset(blocks)[blocks[i]] > 1
  {
    var low, high := if i < j then i else j, if i < j then j else i;
    assert blocks == blocks[..high] + blocks[high..];
    assert blocks[low] in blocks[..high] && blocks[high] in blocks[high..];
  }

  lemma LinkedWider(g: Group, k: TsSpan, blocks: seq<Block>)
    requires Linked(g) && StartBy(g, k.begin) && BucketOk(k, blocks) && k.begin <= g.last
    ensures var g' := Group(g.first, if k.end > g.last then k.end else g.last, g.blocks + blocks);
      Linked(g') && StartBy(g', k.begin)
  {
    hide ValidBlock, Crowded;
    var h :| h in g.blocks && h.rows != [] && Last(h) == g.last;
    var all := g.blocks + blocks;
    BucketSpan(k, blocks, 0);
    assert h in all && blocks[0] in all;
    forall b | b in all
      ensures Crowded(multiset(all), b) && b.rows != [] && First(b) <= k.begin
    {
      if b in blocks {
        var i :| 0 <= i < |blocks| && blocks[i] == b;
        BucketSpan(k, blocks, i);
        CrowdedTogether(g.blocks, blocks, h, b);
      } else if |g.blocks| > 1 {
        CrowdedMore(multiset(g.blocks), multiset(blocks), b);
      } else {
        assert b == h;
        CrowdedTogether(g.blocks, blocks, h, blocks[0]);
      }
    }
  }

  lemma CrowdedTogether(xs: seq<Block>, ys: seq<Block>, b: Block, c: Block)
    requires b in xs && c in ys && Meets(b, c)
    ensures Crowded(multiset(xs + ys), b) && Crowded(multiset(xs + ys), c)
  {
    hide Meets;
    assert b in multiset(xs) && c in multiset(ys) && multiset(xs + ys) == multiset(xs) + multiset(ys);
    MeetsBack(b, c);
  }

  lemma MeetsBack(b: Block, c: Block)
    ensures Meets(b, c) == Meets(c, b)
  {
  }

  lemma CrowdedMore(blocks: multiset<Block>, more: multiset<Block>, b: Block)
    requires Crowded(blocks, b)
    ensures Crowded(blocks + more, b)
  {
    if blocks[b] <= 1 {
      var c :| c in blocks && c != b && Meets(b, c);
      assert c in blocks + more;
    }
  }

  // Blocks that do not meet this one crowd nothing.
  lemma CrowdedLess(blocks: multiset<Block>, more: multiset<Block>, b: Block)
    requires more[b] == 0 && forall c :: c in more ==> !Meets(b, c)
    ensures Crowded(blocks + more, b) <==> Crowded(blocks, b)
  {
    if Crowded(blocks, b) {
      CrowdedMore(blocks, more, b);
    }
  }

  lemma {:induction false} BlocksEnd(groups: seq<Group>, b: Block)
    requires Disjoint(groups) && b in BlocksOf(groups)
    ensures b.rows != [] && First(b) <= Last(b)
    ensures exists i :: 0 <= i < |groups| && Last(b) <= groups[i].last
  {
    hide InGroup;
    var n := |groups| - 1;
    if b in groups[n].blocks {
      assert GroupOk(groups[n]);
      var i :| 0 <= i < |groups[n].blocks| && groups[n].blocks[i] == b;
      GroupSpan(groups[n], i);
    } else {
      BlocksEnd(groups[..n], b);
      var i :| 0 <= i < n && Last(b) <= groups[..n][i].last;
      assert Last(b) <= groups[i].last;
    }
  }

  lemma GroupSpan(g: Group, i: nat)
    requires GroupOk(g) && i < |g.blocks|
    ensures g.blocks[i].rows != [] && g.first <= First(g.blocks[i]) <= Last(g.blocks[i]) <= g.last
  {
    assert InGroup(g, g.blocks[i]);
  }

  // Blocks of earlier groups and of the last group have nothing in common.
  lemma GroupsApart(groups: seq<Group>, b: Block, c: Block)
    requires Disjoint(groups) && groups != []
    requires b in BlocksOf(groups[..|groups| - 1]) && c in groups[|groups| - 1].blocks
    ensures b != c && !Meets(b, c) && !Meets(c, b)
  {
    hide BlocksOf, InGroup;
    var n := |groups| - 1;
    assert GroupOk(groups[n]);
    BlocksEnd(groups[..n], b);
    var i :| 0 <= i < |groups[n].blocks| && groups[n].blocks[i] == c;
    GroupSpan(groups[n], i);
  }

  // A block is dropped exactly when a filter rules it out and no other block meets it.
  lemma {:induction false} SurvivorsExactly(groups: seq<Group>, filters: seq<Filter>, b: Block)
    requires Disjoint(groups) && Chained(groups)
    ensures multiset(Survivors(groups, filters))[b]
      == if Filtered(filters, b) && !Crowded(multiset(BlocksOf(groups)), b) then 0 else multiset(BlocksOf(groups))[b]
  {
    hide Filtered, GroupOk, Disjoint, Stay, BlocksOf, Survivors, At, Outside, Crowded, Linked, Meets;
    if groups == [] {
      NoGroups(filters, 0);
    } else {
      var n := |groups| - 1;
      var g, rest := groups[n], groups[..n];
      LastGroup(groups, filters, 0);
      assert Chained(rest);
      SurvivorsExactly(rest, filters, b);
      forall x, y | x in BlocksOf(rest) && y in g.blocks
        ensures x != y && !Meets(x, y) && !Meets(y, x)
      {
        GroupsApart(groups, x, y);
      }
      assert multiset(BlocksOf(groups)) == multiset(BlocksOf(rest)) + multiset(g.blocks);
      assert multiset(BlocksOf(groups)) == multiset(g.blocks) + multiset(BlocksOf(rest));
      if b in g.blocks {
        assert b !in BlocksOf(rest);
        assert Linked(g);
        CrowdedLess(multiset(g.blocks), multiset(BlocksOf(rest)), b);
        StayExactly(g, filters, b);
      } else if b in BlocksOf(rest) {
        CrowdedLess(multiset(BlocksOf(rest)), multiset(g.blocks), b);
        StayBag(g, filters, b);
      } else {
        StayBag(g, filters, b);
      }
    }
  }

  lemma StayExactly(g: Group, filters: seq<Filter>, b: Block)
    requires GroupOk(g) && Linked(g) && b in g.blocks
    ensures multiset(Stay(g, filters))[b]
      == if Filtered(filters, b) && !Crowded(multiset(g.blocks), b) then 0 else multiset(g.blocks)[b]
  {
    hide Filtered, InGroup, Meets;
    if |g.blocks| == 1 {
      assert g.blocks == [b];
      assert !Crowded(multiset(g.blocks), b);
    }
  }

  // ---------- collecting blocks by interval ----------

  type Buckets = map<TsSpan, seq<Block>>

  // The blocks in the buckets of some intervals.
  function Bag(intervals: seq<TsSpan>, buckets: Buckets): multiset<Block>
    requires forall k :: k in intervals ==> k in buckets
  {
    if intervals == [] then multiset{}
    else Bag(intervals[..|intervals| - 1], buckets) + multiset(buckets[intervals[|intervals| - 1]])
  }

  predicate Distinct(intervals: seq<TsSpan>)
  {
    forall i, j :: 0 <= i < j < |intervals| ==> intervals[i] != intervals[j]
  }

  // Every bucket holds blocks that span exactly its interval.
  ghost predicate BucketOk(k: TsSpan, blocks: seq<Block>)
  {
    blocks != [] && forall i :: 0 <= i < |blocks| ==>
      ValidBlock(blocks[i]) && blocks[i].rows != [] && k == TsSpan(First(blocks[i]), Last(blocks[i]))
  }

  ghost predicate BucketsOk(intervals: seq<TsSpan>, buckets: Buckets)
  {
    forall k :: k in intervals ==> k in buckets && BucketOk(k, buckets[k])
  }

  lemma BagPush(intervals: seq<TsSpan>, k: TsSpan, buckets: Buckets)
    requires k in buckets && forall x :: x in intervals ==> x in buckets
    ensures Bag(intervals + [k], buckets) == Bag(intervals, buckets) + multiset(buckets[k])
  {
    assert (intervals + [k])[..|intervals|] == intervals;
  }

  lemma {:induction false} BagOther(intervals: seq<TsSpan>, buckets: Buckets, k: TsSpan, blocks: seq<Block>)
    requires (forall x :: x in intervals ==> x in buckets) && k !in intervals
    ensures Bag(intervals, buckets[k := blocks]) == Bag(intervals, buckets)
  {
    if intervals != [] {
      BagOther(intervals[..|intervals| - 1], buckets, k, blocks);
    }
  }

  lemma {:induction false} BagGrow(intervals: seq<TsSpan>, buckets: Buckets, k: TsSpan, b: Block)
    requires (forall x :: x in intervals ==> x in buckets) && k in intervals && Distinct(intervals)
    ensures Bag(intervals, buckets[k := buckets[k] + [b]]) == Bag(intervals, buckets) + multiset{b}
  {
    var n := |intervals| - 1;
    if intervals[n] == k {
      BagOther(intervals[..n], buckets, k, buckets[k] + [b]);
    } else {
      BagGrow(intervals[..n], buckets, k, b);
    }
  }

  // Blocks of the query's time spans by the interval they cover; the others are left out.
  method Collect(blocks: seq<Block>, spans: seq<TsSpan>)
    returns (intervals: seq<TsSpan>, buckets: Buckets, ghost kept: seq<Block>)
    requires forall i :: 0 <= i < |blocks| ==> ValidBlock(blocks[i])
    ensures BucketsOk(intervals, buckets) && Bag(intervals, buckets) == multiset(kept) && KeptOf(kept, blocks, spans)
  {
    hide Bag, ValidBlock, At, Overlaps, KeptOf;
    intervals, buckets, kept := [], map[], [];
    NothingKept(spans);
    var i := 0;
    while i < |blocks|
      invariant 0 <= i <= |blocks| && Distinct(intervals) && BucketsOk(intervals, buckets)
      invariant Bag(intervals, buckets) == multiset(kept) && KeptOf(kept, blocks[..i], spans)
    {
      var b := blocks[i];
      assert blocks[..i + 1] == blocks[..i] + [b];
      if b.rows == [] || !Overlaps(spans, First(b), Last(b)) {
        SkipBlock(kept, blocks[..i], b, spans);
      } else {
        KeepBlock(kept, blocks[..i], b, spans);
        intervals, buckets := AddBlock(intervals, buckets, b);
        kept := kept + [b];
      }
      i := i + 1;
    }
    assert blocks[..i] == blocks;
  }

  method AddBlock(intervals: seq<TsSpan>, buckets: Buckets, b: Block)
    returns (intervals': seq<TsSpan>, buckets': Buckets)
    requires Distinct(intervals) && BucketsOk(intervals, buckets) && ValidBlock(b) && b.rows != []
    ensures Distinct(intervals') && BucketsOk(intervals', buckets')
    ensures Bag(intervals', buckets') == Bag(intervals, buckets) + multiset{b}
  {
    hide Bag, ValidBlock;
    var k := TsSpan(First(b), Last(b));
    intervals' := intervals;
    if k !in intervals {
      BagOther(intervals, buckets, k, [b]);
      intervals', buckets' := intervals + [k], buckets[k := [b]];
      BagPush(intervals, k, buckets');
    } else {
      BagGrow(intervals, buckets, k, b);
      buckets' := buckets[k := buckets[k] + [b]];
    }
  }

  // What leaving out blocks of other times does not change.
  ghost predicate KeptOf(kept: seq<Block>, blocks: seq<Block>, spans: seq<TsSpan>)
  {
    && multiset(kept) <= multiset(blocks)
    && (forall b :: b in kept ==> Relevant(spans, b))
    && (forall b :: Relevant(spans, b) ==> multiset(kept)[b] == multiset(blocks)[b])
    && (forall t :: InTs(spans, t) ==> At(kept, t) == At(blocks, t))
  }

  lemma NothingKept(spans: seq<TsSpan>)
    ensures KeptOf([], [], spans) && Bag([], map[]) == multiset{}
  {
  }

  lemma SkipBlock(kept: seq<Block>, blocks: seq<Block>, b: Block, spans: seq<TsSpan>)
    requires KeptOf(kept, blocks, spans) && ValidBlock(b) && !Relevant(spans, b)
    ensures KeptOf(kept, blocks + [b], spans)
  {
    hide At, RowsAt, ValidBlock, Relevant, InTs;
    forall t | InTs(spans, t)
      ensures At(kept, t) == At(blocks + [b], t)
    {
      AtPush(blocks, b, t);
      IrrelevantRows(spans, b, t);
    }
  }

  lemma KeepBlock(kept: seq<Block>, blocks: seq<Block>, b: Block, spans: seq<TsSpan>)
    requires KeptOf(kept, blocks, spans) && Relevant(spans, b)
    ensures KeptOf(kept + [b], blocks + [b], spans)
  {
    hide At, RowsAt, Relevant, InTs;
    forall t | InTs(spans, t)
      ensures At(kept + [b], t) == At(blocks + [b], t)
    {
      AtPush(blocks, b, t);
      AtPush(kept, b, t);
    }
  }

  // ---------- sorting and grouping the intervals ----------

  predicate Le(a: TsSpan, b: TsSpan) { a.begin < b.begin || (a.begin == b.begin && a.end <= b.end) }

  predicate Ordered(s: seq<TsSpan>)
  {
    forall i, j :: 0 <= i <= j < |s| ==> Le(s[i], s[j])
  }

  function Insert(k: TsSpan, s: seq<TsSpan>): seq<TsSpan>
  {
    if s == [] || Le(s[|s| - 1], k) then s + [k] else Insert(k, s[..|s| - 1]) + [s[|s| - 1]]
  }

  function Sort(s: seq<TsSpan>): seq<TsSpan>
  {
    if s == [] then [] else Insert(s[|s| - 1], Sort(s[..|s| - 1]))
  }

  // One more interval behind all others.
  lemma OrderedPush(s: seq<TsSpan>, last: TsSpan)
    requires Ordered(s) && forall x :: x in s ==> Le(x, last)
    ensures Ordered(s + [last])
  {
    var all := s + [last];
    assert forall i :: 0 <= i < |s| ==> all[i] == s[i] && s[i] in s;
  }

  lemma OrderedBelow(s: seq<TsSpan>, last: TsSpan)
    requires Ordered(s) && s != [] && Le(s[|s| - 1], last)
    ensures forall x :: x in s ==> Le(x, last)
  {
  }

  lemma {:induction false} InsertOrdered(k: TsSpan, s: seq<TsSpan>)
    requires Ordered(s)
    ensures Ordered(Insert(k, s)) && forall x :: x in Insert(k, s) <==> x == k || x in s
  {
    hide Le, Ordered;
    if s == [] {
      OrderedPush(s, k);
    } else if Le(s[|s| - 1], k) {
      OrderedBelow(s, k);
      OrderedPush(s, k);
    } else {
      var n := |s| - 1;
      FrontOrdered(s);
      LeTotal(k, s[n]);
      InsertOrdered(k, s[..n]);
      assert s == s[..n] + [s[n]];
      OrderedPush(Insert(k, s[..n]), s[n]);
    }
  }

  lemma FrontOrdered(s: seq<TsSpan>)
    requires Ordered(s) && s != []
    ensures var front, last := s[..|s| - 1], s[|s| - 1];
            Ordered(front) && forall x :: x in front ==> Le(x, last)
  {
  }

  lemma LeTotal(a: TsSpan, b: TsSpan)
    ensures Le(a, b) || Le(b, a)
  {
  }

  lemma {:induction false} SortOrdered(s: seq<TsSpan>)
    ensures Ordered(Sort(s)) && forall x :: x in Sort(s) <==> x in s
  {
    if s != [] {
      var n := |s| - 1;
      SortOrdered(s[..n]);
      InsertOrdered(s[n], Sort(s[..n]));
      assert s == s[..n] + [s[n]];
    }
  }

  lemma {:induction false} InsertBag(k: TsSpan, s: seq<TsSpan>, buckets: Buckets)
    requires Ordered(s) && k in buckets && forall x :: x in s ==> x in buckets
    ensures forall x :: x in Insert(k, s) ==> x in buckets
    ensures Bag(Insert(k, s), buckets) == Bag(s, buckets) + multiset(buckets[k])
  {
    hide Bag;
    InsertOrdered(k, s);
    if s == [] || Le(s[|s| - 1], k) {
      BagPush(s, k, buckets);
    } else {
      var n := |s| - 1;
      InsertBag(k, s[..n], buckets);
      assert s == s[..n] + [s[n]];
      BagPush(s[..n], s[n], buckets);
      BagPush(Insert(k, s[..n]), s[n], buckets);
    }
  }

  lemma {:induction false} SortBag(s: seq<TsSpan>, buckets: Buckets)
    requires BucketsOk(s, buckets)
    ensures BucketsOk(Sort(s), buckets) && Bag(Sort(s), buckets) == Bag(s, buckets)
  {
    hide BucketOk;
    SortOrdered(s);
    if s != [] {
      var n := |s| - 1;
      SortBag(s[..n], buckets);
      SortOrdered(s[..n]);
      InsertBag(s[n], Sort(s[..n]), buckets);
    }
  }

  // Overlapping intervals in order become one group.
  method GroupIntervals(sorted: seq<TsSpan>, buckets: Buckets) returns (groups: seq<Group>)
    requires Ordered(sorted) && BucketsOk(sorted, buckets)
    ensures Disjoint(groups) && Chained(groups) && multiset(BlocksOf(groups)) == Bag(sorted, buckets)
  {
    hide Bag, BlocksOf, GroupOk, BucketOk, Linked;
    groups := [];
    NoBag(buckets);
    var i := 0;
    while i < |sorted|
      invariant 0 <= i <= |sorted| && Disjoint(groups) && multiset(BlocksOf(groups)) == Bag(sorted[..i], buckets)
      invariant Chained(groups)
      invariant groups != [] ==> forall j :: i <= j < |sorted| ==>
        groups[|groups| - 1].first <= sorted[j].begin && StartBy(groups[|groups| - 1], sorted[j].begin)
    {
      var k := sorted[i];
      assert sorted[..i + 1] == sorted[..i] + [k];
      BagPush(sorted[..i], k, buckets);
      if groups == [] || k.begin > groups[|groups| - 1].last {
        NewGroup(groups, k, buckets[k]);
        LinkedBucket(k, buckets[k]);
        groups := groups + [Group(k.begin, k.end, buckets[k])];
      } else {
        var g := groups[|groups| - 1];
        WiderGroup(groups, k, buckets[k]);
        LinkedWider(g, k, buckets[k]);
        var last := if k.end > g.last then k.end else g.last;
        groups := groups[|groups| - 1 := Group(g.first, last, g.blocks + buckets[k])];
      }
      forall j | i + 1 <= j < |sorted|
        ensures groups[|groups| - 1].first <= sorted[j].begin && StartBy(groups[|groups| - 1], sorted[j].begin)
      {
        assert Le(sorted[i], sorted[j]);
      }
      i := i + 1;
    }
    assert sorted[..i] == sorted;
  }

  lemma NoBag(buckets: Buckets)
    ensures multiset(BlocksOf([])) == Bag([], buckets)
  {
  }

  lemma {:induction false} NewGroup(groups: seq<Group>, k: TsSpan, blocks: seq<Block>)
    requires Disjoint(groups) && BucketOk(k, blocks) && (groups == [] || k.begin > groups[|groups| - 1].last)
    ensures Disjoint(groups + [Group(k.begin, k.end, blocks)])
    ensures BlocksOf(groups + [Group(k.begin, k.end, blocks)]) == BlocksOf(groups) + blocks
  {
    var g := Group(k.begin, k.end, blocks);
    assert (groups + [g])[..|groups|] == groups;
    assert ValidBlock(blocks[0]);
    forall i | 0 <= i < |groups|
      ensures groups[i].last < g.first
    {
      assert GroupOk(groups[|groups| - 1]);
    }
  }

  lemma WiderGroup(groups: seq<Group>, k: TsSpan, blocks: seq<Block>)
    requires Disjoint(groups) && BucketOk(k, blocks) && groups != []
    requires groups[|groups| - 1].first <= k.begin <= groups[|groups| - 1].last
    ensures var g := groups[|groups| - 1];
      var g' := Group(g.first, if k.end > g.last then k.end else g.last, g.blocks + blocks);
      Disjoint(groups[|groups| - 1 := g']) && BlocksOf(groups[|groups| - 1 := g']) == BlocksOf(groups) + blocks
  {
    hide ValidBlock;
    var n := |groups| - 1;
    var g := groups[n];
    var g' := Group(g.first, if k.end > g.last then k.end else g.last, g.blocks + blocks);
    assert groups[n := g'][..n] == groups[..n];
    assert GroupOk(g);
    forall i | 0 <= i < |g'.blocks|
      ensures InGroup(g', g'.blocks[i])
    {
      if i < |g.blocks| {
        assert InGroup(g, g.blocks[i]);
      }
    }
    assert GroupOk(g');
    assert BlocksOf(groups[..n]) + (g.blocks + blocks) == (BlocksOf(groups[..n]) + g.blocks) + blocks;
  }

  // A block alone in its group goes if the filters rule it out.
  method DropFiltered(groups: seq<Group>, filters: seq<Filter>) returns (out: seq<Block>)
    requires Disjoint(groups)
    ensures out == Survivors(groups, filters)
  {
    hide Filtered, ValidBlock, Disjoint, GroupOk, Survivors;
    NoGroups(filters, 0);
    out := [];
    var i := 0;
    while i < |groups|
      invariant 0 <= i <= |groups| && Disjoint(groups[..i]) && out == Survivors(groups[..i], filters)
    {
      var g := groups[i];
      NextGroup(groups, filters, i);
      if |g.blocks| > 1 {
        out := out + g.blocks;
      } else {
        var filtered := IsBlockFiltered(filters, g.blocks[0]);
        if !filtered {
          out := out + [g.blocks[0]];
        }
      }
      i := i + 1;
    }
    assert groups[..i] == groups;
  }

  lemma NextGroup(groups: seq<Group>, filters: seq<Filter>, i: nat)
    requires Disjoint(groups) && i < |groups|
    ensures Disjoint(groups[..i]) && Disjoint(groups[..i + 1]) && groups[i].blocks != []
      && ValidBlock(groups[i].blocks[0])
    ensures var rest := Survivors(groups[..i], filters); var g := groups[i];
      Survivors(groups[..i + 1], filters)
      == if |g.blocks| > 1 then rest + g.blocks
         else if Filtered(filters, g.blocks[0]) then rest
         else rest + [g.blocks[0]]
  {
    hide Filtered, ValidBlock, Outside, At, InGroup, Survivors, BlocksOf;
    assert GroupOk(groups[i]);
    MemberValid(groups[i], 0);
    assert groups[..i + 1][..i] == groups[..i];
    assert |groups[i].blocks| == 1 ==> groups[i].blocks == [groups[i].blocks[0]];
    LastGroup(groups[..i + 1], filters, 0);
    assert Survivors(groups[..i], filters) + [] == Survivors(groups[..i], filters);
  }

  lemma MemberValid(g: Group, i: nat)
    requires GroupOk(g) && i < |g.blocks|
    ensures ValidBlock(g.blocks[i])
  {
    assert InGroup(g, g.blocks[i]);
  }

  // ---------- the whole step ----------

  // Another block of the query's time spans meets this one.
  ghost predicate MetByOther(blocks: seq<Block>, spans: seq<TsSpan>, b: Block)
  {
    multiset(blocks)[b] > 1 || exists c :: c in blocks && c != b && Relevant(spans, c) && Meets(b, c)
  }

  // Sampling does not stop the pruning: there are too few blocks for it, or half of the first ones are ruled out.
  ghost predicate WorthPruning(blocks: seq<Block>, filters: seq<Filter>, samplingCount: nat)
  {
    samplingCount >= 5 ==>
      var n := if samplingCount < |blocks| then samplingCount else |blocks|;
      2 * FilteredCount(blocks[..n], filters) >= n
  }

  // Exactly the blocks that stay: a relevant block goes when it is ruled out and no other one meets it.
  ghost predicate PrunedExactly(blocks: seq<Block>, out: seq<Block>, filters: seq<Filter>, spans: seq<TsSpan>)
  {
    forall b :: multiset(out)[b]
      == if Relevant(spans, b) && (!Filtered(filters, b) || MetByOther(blocks, spans, b)) then multiset(blocks)[b]
         else 0
  }

  ghost predicate Pruned(blocks: seq<Block>, out: seq<Block>, filters: seq<Filter>, spans: seq<TsSpan>)
  {
    && multiset(out) <= multiset(blocks)
    && (forall b :: Relevant(spans, b) && !Filtered(filters, b) ==> multiset(out)[b] == multiset(blocks)[b])
    && (forall t :: InTs(spans, t) ==> SameOrRuledOut(blocks, out, filters, t))
  }

  /** ScanEntityBlockSpans behind the scan: no block is doubled, no relevant block that the filters let through is
      lost, and at every timestamp of the query either all rows stay or they all come from one block ruled out. */
  method PruneBlocks(blocks: seq<Block>, filters: seq<Filter>, spans: seq<TsSpan>, samplingCount: nat)
    returns (out: seq<Block>)
    requires forall i :: 0 <= i < |blocks| ==> ValidBlock(blocks[i])
    ensures Pruned(blocks, out, filters, spans)
    ensures |blocks| > 1 && filters != [] && WorthPruning(blocks, filters, samplingCount) ==>
      PrunedExactly(blocks, out, filters, spans)
    ensures |blocks| != 1 && (filters == [] || !WorthPruning(blocks, filters, samplingCount)) ==> out == blocks
    ensures |blocks| == 1 ==> out == if Filtered(filters, blocks[0]) then [] else blocks
  {
    hide Filtered, ValidBlock, At, Bag, Disjoint, BlocksOf, Survivors, Pruned, PrunedExactly, FilteredCount, Chained;
    out := blocks;
    NothingPruned(blocks, filters, spans);
    if filters == [] || blocks == [] {
      return;
    }
    if |blocks| == 1 {
      var filtered := IsBlockFiltered(filters, blocks[0]);
      if filtered {
        out := [];
        OneDropped(blocks, filters, spans);
      }
      return;
    }
    if samplingCount >= 5 {
      var useful := SampleFilters(blocks, filters, samplingCount);
      if !useful {
        return;
      }
    }
    var intervals, buckets, kept := Collect(blocks, spans);
    SortOrdered(intervals);
    SortBag(intervals, buckets);
    var groups := GroupIntervals(Sort(intervals), buckets);
    out := DropFiltered(groups, filters);
    PrunedByGroups(blocks, kept, groups, filters, spans);
    ExactlyByGroups(blocks, kept, groups, filters, spans);
  }

  lemma NothingPruned(blocks: seq<Block>, filters: seq<Filter>, spans: seq<TsSpan>)
    ensures Pruned(blocks, blocks, filters, spans) && (filters == [] ==> forall b :: !Filtered(filters, b))
  {
    hide At, Relevant;
  }

  ghost function FilteredCount(blocks: seq<Block>, filters: seq<Filter>): nat
  {
    if blocks == [] then 0
    else FilteredCount(blocks[..|blocks| - 1], filters) + if Filtered(filters, blocks[|blocks| - 1]) then 1 else 0
  }

  // Whether at least half of the first blocks are ruled out.
  method SampleFilters(blocks: seq<Block>, filters: seq<Filter>, samplingCount: nat) returns (useful: bool)
    requires forall i :: 0 <= i < |blocks| ==> ValidBlock(blocks[i])
    ensures var n := if samplingCount < |blocks| then samplingCount else |blocks|;
      useful <==> 2 * FilteredCount(blocks[..n], filters) >= n
  {
    hide Filtered;
    var count, filteredCount := 0, 0;
    while count < samplingCount && count < |blocks|
      invariant 0 <= count <= |blocks| && count <= samplingCount
        && filteredCount == FilteredCount(blocks[..count], filters)
    {
      assert blocks[..count + 1][..count] == blocks[..count];
      var filtered := IsBlockFiltered(filters, blocks[count]);
      if filtered {
        filteredCount := filteredCount + 1;
      }
      count := count + 1;
    }
    useful := 2 * filteredCount >= count;
  }

  lemma OneDropped(blocks: seq<Block>, filters: seq<Filter>, spans: seq<TsSpan>)
    requires |blocks| == 1 && Filtered(filters, blocks[0])
    ensures Pruned(blocks, [], filters, spans)
  {
    hide Filtered, At, RowsAt, Relevant;
    forall t
      ensures SameOrRuledOut(blocks, [], filters, t)
    {
      OneBlock(blocks, t);
      assert blocks[0] in blocks;
    }
    assert blocks == [blocks[0]];
  }

  lemma PrunedByGroups(blocks: seq<Block>, kept: seq<Block>, groups: seq<Group>, filters: seq<Filter>,
                       spans: seq<TsSpan>)
    requires KeptOf(kept, blocks, spans) && Disjoint(groups) && multiset(BlocksOf(groups)) == multiset(kept)
    ensures Pruned(blocks, Survivors(groups, filters), filters, spans)
  {
    hide Filtered, At, RowsAt, Relevant, Disjoint, BlocksOf, Survivors, InTs;
    var out := Survivors(groups, filters);
    forall b
      ensures multiset(out)[b] <= multiset(kept)[b] && (!Filtered(filters, b) ==> multiset(out)[b] == multiset(kept)[b])
    {
      SurvivorsBag(groups, filters, b);
    }
    forall t | InTs(spans, t)
      ensures SameOrRuledOut(blocks, out, filters, t)
    {
      SurvivorsAt(groups, filters, t);
      AtBag(BlocksOf(groups), kept, t);
      if At(out, t) != At(blocks, t) {
        var b :| b in BlocksOf(groups) && Filtered(filters, b) && At(BlocksOf(groups), t) == RowsAt(b.rows, t);
        assert b in multiset(BlocksOf(groups));
        assert b in multiset(blocks);
      }
    }
  }

  lemma ExactlyByGroups(blocks: seq<Block>, kept: seq<Block>, groups: seq<Group>, filters: seq<Filter>,
                        spans: seq<TsSpan>)
    requires KeptOf(kept, blocks, spans) && Disjoint(groups) && Chained(groups)
    requires multiset(BlocksOf(groups)) == multiset(kept)
    ensures PrunedExactly(blocks, Survivors(groups, filters), filters, spans)
  {
    hide Filtered, At, RowsAt, Relevant, Disjoint, Chained, BlocksOf, Survivors, InTs, Crowded, MetByOther, KeptOf;
    forall b
      ensures multiset(Survivors(groups, filters))[b]
        == if Relevant(spans, b) && (!Filtered(filters, b) || MetByOther(blocks, spans, b)) then multiset(blocks)[b]
           else 0
    {
      SurvivorsExactly(groups, filters, b);
      KeptCount(kept, blocks, spans, b);
    }
  }

  // Among the blocks kept, exactly the relevant ones crowd each other.
  lemma KeptCount(kept: seq<Block>, blocks: seq<Block>, spans: seq<TsSpan>, b: Block)
    requires KeptOf(kept, blocks, spans)
    ensures multiset(kept)[b] == if Relevant(spans, b) then multiset(blocks)[b] else 0
    ensures Relevant(spans, b) ==> (Crowded(multiset(kept), b) <==> MetByOther(blocks, spans, b))
  {
    hide At, Relevant, Meets, InTs;
    assert forall c :: c in kept <==> c in multiset(kept);
    assert forall c :: c in blocks <==> c in multiset(blocks);
    assert forall c :: Relevant(spans, c) ==> (c in multiset(kept) <==> c in multiset(blocks));
  }

  // ---------- merging rows of one timestamp ----------

  predicate Satisfies(filters: seq<Filter>, r: Row)
  {
    forall i :: 0 <= i < |filters| ==> Fits(filters[i], Column(r, filters[i].col))
  }

  /** A rule for rows with equal timestamps: it looks at the rows of one timestamp only, and what it puts together
      takes the value of every column from one of them. */
  ghost predicate IsRule(rule: multiset<Row> -> multiset<Row>)
  {
    forall group, r, c: nat :: r in rule(group) ==> FromGroup(group, r, c)
  }

  ghost predicate FromGroup(group: multiset<Row>, r: Row, c: nat)
  {
    exists q :: q in group && Column(q, c) == Column(r, c)
  }

  /** Pruning commutes with merging: for every rule, the merged rows that satisfy the filters are the same, each as
      often, whether blocks are pruned first or not. */
  lemma PruningCommutes(blocks: seq<Block>, out: seq<Block>, filters: seq<Filter>, spans: seq<TsSpan>,
                        rule: multiset<Row> -> multiset<Row>, t: Ts, r: Row)
    requires forall i :: 0 <= i < |blocks| ==> ValidBlock(blocks[i])
    requires Pruned(blocks, out, filters, spans) && InTs(spans, t) && IsRule(rule) && Satisfies(filters, r)
    ensures rule(At(out, t))[r] == rule(At(blocks, t))[r]
  {
    hide At, RowsAt, Filtered, ValidBlock;
    if At(out, t) != At(blocks, t) {
      assert SameOrRuledOut(blocks, out, filters, t);
      var b :| b in blocks && Filtered(filters, b) && At(blocks, t) == RowsAt(b.rows, t);
      NothingFrom(multiset{}, rule, r);
      RuledOutMerges(b, filters, rule, t, r);
    }
  }

  lemma NothingFrom(group: multiset<Row>, rule: multiset<Row> -> multiset<Row>, r: Row)
    requires IsRule(rule) && group == multiset{}
    ensures r !in rule(group)
  {
    assert r in rule(group) ==> FromGroup(group, r, 0);
  }

  lemma RuledOutMerges(b: Block, filters: seq<Filter>, rule: multiset<Row> -> multiset<Row>, t: Ts, r: Row)
    requires ValidBlock(b) && Filtered(filters, b) && IsRule(rule) && Satisfies(filters, r)
    ensures r !in rule(RowsAt(b.rows, t))
  {
    hide RowsAt, ValidBlock, RulesOut, Fits;
    var group := RowsAt(b.rows, t);
    var i :| 0 <= i < |filters| && RulesOut(filters[i], b);
    var c := filters[i].col;
    if r in rule(group) {
      assert FromGroup(group, r, c);
      var q :| q in group && Column(q, c) == Column(r, c);
      RowsAtIn(b.rows, t, q);
      assert Has(b.rows, c, Column(r, c));
      RuledOutFitsNothing(filters[i], b, Column(r, c));
    }
  }

  // ---------- the query's time spans ----------

  // Spans in order with gaps between them.
  predicate Separate(spans: seq<TsSpan>)
  {
    forall i, j :: 0 <= i < j < |spans| ==> spans[i].end < spans[j].begin && spans[i].begin <= spans[j].begin
  }

  /** SortAndMergeSpan: the merged spans cover the same timestamps and no timestamp twice. */
  method SortAndMergeSpan(spans: seq<TsSpan>) returns (merged: seq<TsSpan>)
    ensures Separate(merged) && forall t :: InTs(merged, t) <==> InTs(spans, t)
  {
    if spans == [] {
      return [];
    }
    var sorted := Sort(spans);
    SortOrdered(spans);
    SameCover(sorted, spans);
    merged := [];
    assert spans[0] in sorted;
    var cur := sorted[0];
    var i := 1;
    CoverOne(cur);
    assert [] + [cur] == sorted[..1];
    while i < |sorted|
      invariant 1 <= i <= |sorted| && Separate(merged + [cur]) && cur.begin <= sorted[i - 1].begin
      invariant forall t :: InTs(merged + [cur], t) <==> InTs(sorted[..i], t)
    {
      assert Le(sorted[i - 1], sorted[i]) && sorted[..i + 1] == sorted[..i] + [sorted[i]];
      CoverPushes(sorted[..i], sorted[i]);
      if sorted[i].begin <= cur.end {
        var wider := cur.(end := if sorted[i].end > cur.end then sorted[i].end else cur.end);
        Widen(merged, cur, sorted[i], wider);
        cur := wider;
      } else {
        CoverPushes(merged + [cur], sorted[i]);
        SeparatePush(merged, cur, sorted[i]);
        merged := merged + [cur];
        cur := sorted[i];
      }
      i := i + 1;
    }
    assert sorted[..i] == sorted;
    merged := merged + [cur];
  }

  lemma SameCover(a: seq<TsSpan>, b: seq<TsSpan>)
    requires forall x :: x in a <==> x in b
    ensures forall t :: InTs(a, t) <==> InTs(b, t)
  {
    forall t
      ensures InTs(a, t) <==> InTs(b, t)
    {
      if InTs(a, t) {
        var i :| 0 <= i < |a| && HasTs(a[i], t);
        assert a[i] in b;
      }
      if InTs(b, t) {
        var i :| 0 <= i < |b| && HasTs(b[i], t);
        assert b[i] in a;
      }
    }
  }

  lemma CoverOne(s: TsSpan)
    ensures forall t :: InTs([s], t) <==> HasTs(s, t)
  {
    assert [s][0] == s;
  }

  lemma CoverPushes(spans: seq<TsSpan>, s: TsSpan)
    ensures forall t :: InTs(spans + [s], t) <==> InTs(spans, t) || HasTs(s, t)
  {
    assert (spans + [s])[|spans|] == s;
    forall t | InTs(spans, t)
      ensures InTs(spans + [s], t)
    {
      var i :| 0 <= i < |spans| && HasTs(spans[i], t);
      assert (spans + [s])[i] == spans[i];
    }
  }

  lemma SeparatePush(merged: seq<TsSpan>, cur: TsSpan, next: TsSpan)
    requires Separate(merged + [cur]) && cur.begin <= next.begin && cur.end < next.begin
    ensures Separate(merged + [cur] + [next])
  {
    var all := merged + [cur];
    forall i | 0 <= i < |all|
      ensures all[i].end < next.begin && all[i].begin <= next.begin
    {
      assert all[|merged|] == cur;
    }
  }

  lemma Widen(merged: seq<TsSpan>, cur: TsSpan, next: TsSpan, wider: TsSpan)
    requires cur.begin <= next.begin <= cur.end && Separate(merged + [cur])
    requires wider == cur.(end := if next.end > cur.end then next.end else cur.end)
    ensures Separate(merged + [wider])
    ensures forall t :: InTs(merged + [wider], t) <==> InTs(merged + [cur], t) || HasTs(next, t)
  {
    CoverPushes(merged, cur);
    CoverPushes(merged, wider);
    assert forall i :: 0 <= i < |merged| ==> (merged + [cur])[i] == (merged + [wider])[i];
    assert (merged + [cur])[|merged|] == cur;
  }
}
