/** Delete ranges subtracted from scan ranges. Both are rectangles of timestamps and OSNs (operation sequence
    numbers), closed on all sides; the bounds are machine integers, so every +1 and -1 is checked not to wrap. */
module DelRange {
  import opened Words

  type Ts = x: int | -TWO_63 <= x < TWO_63

  type Osn = x: int | 0 <= x < TWO_64

  const OSN_MAX: Osn := 0xFFFF_FFFF_FFFF_FFFF

  datatype TsSpan = TsSpan(begin: Ts, end: Ts)

  datatype OsnSpan = OsnSpan(begin: Osn, end: Osn)

  datatype Range = Range(ts: TsSpan, osn: OsnSpan)

  datatype Point = Point(ts: Ts, osn: Osn)

  predicate In(r: Range, p: Point)
  {
    r.ts.begin <= p.ts <= r.ts.end && r.osn.begin <= p.osn <= r.osn.end
  }

  // A real OSN is neither of the extremes, which the code uses as "no bound".
  predicate Inner(p: Point)
  {
    0 < p.osn < OSN_MAX
  }

  predicate Proper(r: Range)
  {
    r.ts.begin <= r.ts.end && r.osn.begin <= r.osn.end
  }

  // In how many of the ranges the point lies.
  function Cover(rs: seq<Range>, p: Point): nat
  {
    if rs == [] then 0 else Cover(rs[..|rs| - 1], p) + if In(rs[|rs| - 1], p) then 1 else 0
  }

  lemma {:induction false} CoverIff(rs: seq<Range>, p: Point)
    ensures Cover(rs, p) > 0 <==> exists i :: 0 <= i < |rs| && In(rs[i], p)
  {
    if rs != [] {
      var k := |rs| - 1;
      CoverIff(rs[..k], p);
      if i :| 0 <= i < |rs| && In(rs[i], p) {
        assert i < k ==> rs[..k][i] == rs[i];
      }
      if i :| 0 <= i < k && In(rs[..k][i], p) {
        assert In(rs[i], p);
      }
    }
  }

  // The extremes come back: a delete that starts at 0 leaves OSN 0, and one that ends at the maximum leaves it,
  // unless the whole OSN span of the delete lies inside that of the range.
  predicate Resurrected(range: Range, del: Range, p: Point)
  {
    && In(range, p) && In(del, p)
    && !(range.osn.begin <= del.osn.begin && range.osn.end >= del.osn.end)
    && ((p.osn == 0 && range.osn.begin == del.osn.begin == 0)
       || (p.osn == OSN_MAX && range.osn.end == del.osn.end == OSN_MAX))
  }

  // What one more range contributes at p once the delete is subtracted.
  function Left(range: Range, del: Range, p: Point): nat
  {
    if In(range, p) && (!In(del, p) || Resurrected(range, del, p)) then 1 else 0
  }

  lemma CoverPush(rs: seq<Range>, r: Range, p: Point)
    ensures Cover(rs + [r], p) == Cover(rs, p) + if In(r, p) then 1 else 0
  {
    assert (rs + [r])[..|rs|] == rs;
  }

  lemma CoverPushAll(rs: seq<Range>, r: Range)
    ensures forall p: Point :: Cover(rs + [r], p) == Cover(rs, p) + if In(r, p) then 1 else 0
  {
    forall p: Point
      ensures Cover(rs + [r], p) == Cover(rs, p) + if In(r, p) then 1 else 0
    {
      CoverPush(rs, r, p);
    }
  }

  /** MergeRangeCross: appends to `result` pieces that cover what is left of `range` after the delete, each point
      once. */
  method MergeRangeCross(range: Range, del: Range, result: seq<Range>) returns (result': seq<Range>)
    ensures result <= result'
    ensures Proper(del) ==> forall p: Point :: Cover(result', p) == Cover(result, p) + Left(range, del, p)
  {
    hide Cover;
    result' := result;
    if range.ts.begin > del.ts.end || range.ts.end < del.ts.begin {
      CoverPushAll(result', range);
      return result + [range];
    }
    var cross := TsSpan(if range.ts.begin > del.ts.begin then range.ts.begin else del.ts.begin,
                        if range.ts.end < del.ts.end then range.ts.end else del.ts.end);
    result' := MergeOsn(cross, range.osn, del.osn, result');
    if cross.begin > range.ts.begin {
      var front := Range(TsSpan(range.ts.begin, cross.begin - 1), range.osn);
      CoverPushAll(result', front);
      result' := result' + [front];
    }
    if cross.end < range.ts.end {
      var back := Range(TsSpan(cross.end + 1, range.ts.end), range.osn);
      CoverPushAll(result', back);
      result' := result' + [back];
    }
  }

  // The part of MergeRangeCross inside the common timestamps.
  method MergeOsn(ts: TsSpan, range: OsnSpan, del: OsnSpan, result: seq<Range>) returns (result': seq<Range>)
    ensures result <= result'
    ensures del.begin <= del.end ==>
      forall p: Point :: Cover(result', p) == Cover(result, p) + Left(Range(ts, range), Range(ts, del), p)
  {
    hide Cover;
    result' := result;
    if range.begin <= del.begin && range.end >= del.end {
      if range.begin < del.begin {
        var cross := Range(ts, OsnSpan(range.begin, del.begin - 1));
        CoverPushAll(result', cross);
        result' := result' + [cross];
      }
      if range.end > del.end {
        var cross := Range(ts, OsnSpan(del.end + 1, range.end));
        CoverPushAll(result', cross);
        result' := result' + [cross];
      }
    } else {
      if range.begin <= del.begin && del.begin <= range.end {
        var cross := Range(ts, OsnSpan(range.begin, del.begin - if del.begin == 0 then 0 else 1));
        if cross.osn.begin <= cross.osn.end {
          CoverPushAll(result', cross);
          result' := result' + [cross];
        }
      }
      if range.begin <= del.end && del.end <= range.end {
        var cross := Range(ts, OsnSpan(del.end + if del.end == OSN_MAX then 0 else 1, range.end));
        if cross.osn.begin <= cross.osn.end {
          CoverPushAll(result', cross);
          result' := result' + [cross];
        }
      }
      if del.end < range.begin || del.begin > range.end {
        var cross := Range(ts, range);
        CoverPushAll(result', cross);
        result' := result' + [cross];
      }
    }
  }

  // ---------- lists of deletes ----------

  predicate Deleted(dels: seq<Range>, p: Point)
  {
    exists i :: 0 <= i < |dels| && In(dels[i], p)
  }

  ghost predicate AllProper(dels: seq<Range>)
  {
    forall i :: 0 <= i < |dels| ==> Proper(dels[i])
  }

  // MergeScanAndDelRange: every scan range against one delete.
  method MergeScanAndDelRange(ranges: seq<Range>, del: Range) returns (result: seq<Range>)
    ensures Proper(del) ==> forall p: Point | Inner(p) :: Cover(result, p) == if In(del, p) then 0 else Cover(ranges, p)
  {
    result := [];
    var i := 0;
    while i < |ranges|
      invariant 0 <= i <= |ranges|
      invariant Proper(del) ==>
        forall p: Point | Inner(p) :: Cover(result, p) == if In(del, p) then 0 else Cover(ranges[..i], p)
    {
      assert ranges[..i + 1] == ranges[..i] + [ranges[i]];
      CoverPushAll(ranges[..i], ranges[i]);
      result := MergeRangeCross(ranges[i], del, result);
      i := i + 1;
    }
    assert ranges[..i] == ranges;
  }

  /** Folding a list of deletes is exact subtraction: a point with a real OSN keeps its multiplicity if no delete
      holds it and loses it otherwise. The right-hand side does not depend on the order of the deletes, and
      ranges that were pairwise disjoint on real OSNs stay so. */
  method SubtractAll(ranges: seq<Range>, dels: seq<Range>) returns (result: seq<Range>)
    ensures AllProper(dels) ==>
      forall p: Point | Inner(p) :: Cover(result, p) == if Deleted(dels, p) then 0 else Cover(ranges, p)
  {
    hide Cover;
    result := ranges;
    var i := 0;
    while i < |dels|
      invariant 0 <= i <= |dels|
      invariant AllProper(dels) ==>
        forall p: Point | Inner(p) :: Cover(result, p) == if Deleted(dels[..i], p) then 0 else Cover(ranges, p)
    {
      DeletedStep(dels, i);
      result := MergeScanAndDelRange(result, dels[i]);
      i := i + 1;
    }
    assert dels[..i] == dels;
  }

  lemma DeletedStep(dels: seq<Range>, i: nat)
    requires i < |dels|
    ensures forall p: Point :: Deleted(dels[..i + 1], p) <==> Deleted(dels[..i], p) || In(dels[i], p)
  {
    forall p: Point
      ensures Deleted(dels[..i + 1], p) <==> Deleted(dels[..i], p) || In(dels[i], p)
    {
      if Deleted(dels[..i], p) {
        var k :| 0 <= k < i && In(dels[..i][k], p);
        assert In(dels[..i + 1][k], p);
      }
      if In(dels[i], p) {
        assert In(dels[..i + 1][i], p);
      }
      if Deleted(dels[..i + 1], p) {
        var k :| 0 <= k < i + 1 && In(dels[..i + 1][k], p);
        assert k < i ==> In(dels[..i][k], p);
      }
    }
  }

  // ---------- the filter of a scan ----------

  predicate HasTs(span: TsSpan, ts: Ts) { span.begin <= ts <= span.end }

  predicate HasOsn(span: OsnSpan, osn: Osn) { span.begin <= osn <= span.end }

  predicate InTs(spans: seq<TsSpan>, ts: Ts)
  {
    exists i :: 0 <= i < |spans| && HasTs(spans[i], ts)
  }

  predicate InOsn(spans: seq<OsnSpan>, osn: Osn)
  {
    exists i :: 0 <= i < |spans| && HasOsn(spans[i], osn)
  }

  // How many of the spans hold the value.
  function TsCount(spans: seq<TsSpan>, ts: Ts): nat
  {
    if spans == [] then 0 else TsCount(spans[..|spans| - 1], ts) + if HasTs(spans[|spans| - 1], ts) then 1 else 0
  }

  function OsnCount(spans: seq<OsnSpan>, osn: Osn): nat
  {
    if spans == [] then 0 else OsnCount(spans[..|spans| - 1], osn) + if HasOsn(spans[|spans| - 1], osn) then 1 else 0
  }

  lemma {:induction false} TsCountIff(spans: seq<TsSpan>, ts: Ts)
    ensures TsCount(spans, ts) > 0 <==> InTs(spans, ts)
  {
    if spans != [] {
      var n := |spans| - 1;
      TsCountIff(spans[..n], ts);
      if i :| 0 <= i < |spans| && HasTs(spans[i], ts) {
        assert i < n ==> HasTs(spans[..n][i], ts);
      }
      if i :| 0 <= i < n && HasTs(spans[..n][i], ts) {
        assert HasTs(spans[i], ts);
      }
    }
  }

  lemma {:induction false} OsnCountIff(spans: seq<OsnSpan>, osn: Osn)
    ensures OsnCount(spans, osn) > 0 <==> InOsn(spans, osn)
  {
    if spans != [] {
      var n := |spans| - 1;
      OsnCountIff(spans[..n], osn);
      if i :| 0 <= i < |spans| && HasOsn(spans[i], osn) {
        assert i < n ==> HasOsn(spans[..n][i], osn);
      }
      if i :| 0 <= i < n && HasOsn(spans[..n][i], osn) {
        assert HasOsn(spans[i], osn);
      }
    }
  }

  // No value lies in two of the time spans, and none in two of the OSN spans.
  predicate Apart(times: seq<TsSpan>, osns: seq<OsnSpan>)
  {
    && (forall i, j, ts: Ts :: 0 <= i < j < |times| && HasTs(times[i], ts) ==> !HasTs(times[j], ts))
    && (forall i, j, osn: Osn :: 0 <= i < j < |osns| && HasOsn(osns[i], osn) ==> !HasOsn(osns[j], osn))
  }

  // How often a scan asks for a point: once for every pair of a time span and an OSN span that hold it.
  function Requested(partition: TsSpan, times: seq<TsSpan>, osns: seq<OsnSpan>, p: Point): nat
  {
    if HasTs(partition, p.ts) then TsCount(times, p.ts) * OsnCount(osns, p.osn) else 0
  }

  lemma RequestedIff(partition: TsSpan, times: seq<TsSpan>, osns: seq<OsnSpan>, p: Point)
    ensures Requested(partition, times, osns, p) > 0
       <==> HasTs(partition, p.ts) && InTs(times, p.ts) && InOsn(osns, p.osn)
    ensures Apart(times, osns) ==> Requested(partition, times, osns, p) <= 1
  {
    hide InTs, InOsn, HasTs, HasOsn, Apart, TsCount, OsnCount;
    TsCountIff(times, p.ts);
    OsnCountIff(osns, p.osn);
    var n, m := TsCount(times, p.ts), OsnCount(osns, p.osn);
    assert n * m > 0 <==> n > 0 && m > 0;
    if Apart(times, osns) {
      ApartCounts(times, osns, p);
      assert n * m <= 1;
    }
  }

  lemma {:induction false} ApartCounts(times: seq<TsSpan>, osns: seq<OsnSpan>, p: Point)
    requires Apart(times, osns)
    ensures TsCount(times, p.ts) <= 1 && OsnCount(osns, p.osn) <= 1
    decreases |times| + |osns|
  {
    hide HasTs, HasOsn, InTs, InOsn;
    if times != [] {
      var n := |times| - 1;
      ApartCounts(times[..n], osns, p);
      TsCountIff(times[..n], p.ts);
      if InTs(times[..n], p.ts) {
        NotAgainTs(times, p.ts);
      }
    } else if osns != [] {
      var n := |osns| - 1;
      ApartCounts(times, osns[..n], p);
      OsnCountIff(osns[..n], p.osn);
      if InOsn(osns[..n], p.osn) {
        NotAgainOsn(osns, p.osn);
      }
    }
  }

  lemma NotAgainTs(times: seq<TsSpan>, ts: Ts)
    requires times != [] && Apart(times, []) && InTs(times[..|times| - 1], ts)
    ensures !HasTs(times[|times| - 1], ts)
  {
    hide HasTs;
    var n := |times| - 1;
    var i :| 0 <= i < n && HasTs(times[..n][i], ts);
    assert HasTs(times[i], ts);
  }

  lemma NotAgainOsn(osns: seq<OsnSpan>, osn: Osn)
    requires osns != [] && Apart([], osns) && InOsn(osns[..|osns| - 1], osn)
    ensures !HasOsn(osns[|osns| - 1], osn)
  {
    hide HasOsn;
    var n := |osns| - 1;
    var i :| 0 <= i < n && HasOsn(osns[..n][i], osn);
    assert HasOsn(osns[i], osn);
  }

  // The scan sees the delete: it ends no later than one of the OSN spans.
  predicate Visible(del: Range, osns: seq<OsnSpan>)
  {
    exists i :: 0 <= i < |osns| && del.osn.end <= osns[i].end
  }

  predicate VisiblyDeleted(dels: seq<Range>, osns: seq<OsnSpan>, p: Point)
  {
    exists k :: 0 <= k < |dels| && Visible(dels[k], osns) && In(dels[k], p)
  }

  // A delete newer than everything the scan may see is ignored.
  method IsOsnAfterSpans(osn: Osn, spans: seq<OsnSpan>) returns (after: bool)
    ensures after <==> forall i :: 0 <= i < |spans| ==> spans[i].end < osn
  {
    var i := 0;
    while i < |spans|
      invariant 0 <= i <= |spans| && forall k :: 0 <= k < i ==> spans[k].end < osn
    {
      if spans[i].end >= osn {
        return false;
      }
      i := i + 1;
    }
    after := true;
  }

  // What a scan of a partition is to return: what lies in the partition, in a requested time span and in a requested
  // OSN span, and in no delete that ends within a requested OSN span or before it.
  predicate Selected(partition: TsSpan, times: seq<TsSpan>, osns: seq<OsnSpan>, dels: seq<Range>, p: Point)
  {
    && partition.begin <= p.ts <= partition.end
    && (exists i :: 0 <= i < |times| && times[i].begin <= p.ts <= times[i].end)
    && (exists i :: 0 <= i < |osns| && osns[i].begin <= p.osn <= osns[i].end)
    && !(exists k, i :: 0 <= k < |dels| && 0 <= i < |osns| && In(dels[k], p) && dels[k].osn.end <= osns[i].end)
  }

  lemma SelectedIff(partition: TsSpan, times: seq<TsSpan>, osns: seq<OsnSpan>, dels: seq<Range>, p: Point)
    ensures Selected(partition, times, osns, dels, p)
       <==> HasTs(partition, p.ts) && InTs(times, p.ts) && InOsn(osns, p.osn) && !VisiblyDeleted(dels, osns, p)
  {
    if i :| 0 <= i < |times| && times[i].begin <= p.ts <= times[i].end {
      assert HasTs(times[i], p.ts);
    }
    if i :| 0 <= i < |osns| && osns[i].begin <= p.osn <= osns[i].end {
      assert HasOsn(osns[i], p.osn);
    }
    if k :| 0 <= k < |dels| && Visible(dels[k], osns) && In(dels[k], p) {
      var i :| 0 <= i < |osns| && dels[k].osn.end <= osns[i].end;
    }
    if k, i :| 0 <= k < |dels| && 0 <= i < |osns| && In(dels[k], p) && dels[k].osn.end <= osns[i].end {
      assert Visible(dels[k], osns);
    }
  }

  /** getFilter: the scan ranges of a partition cover a point with a real OSN as often as the scan asks for it, or
      not at all where a visible delete holds it. Every delete that ends within the OSN spans of the scan counts, and
      none that ends behind them all. */
  method ScanFilter(partition: TsSpan, times: seq<TsSpan>, osns: seq<OsnSpan>, dels: seq<Range>)
    returns (ranges: seq<Range>)
    ensures AllProper(dels) ==> forall p: Point | Inner(p) ::
      Cover(ranges, p) == if VisiblyDeleted(dels, osns, p) then 0 else Requested(partition, times, osns, p)
    ensures AllProper(dels) ==> forall p: Point, k, i ::
      Inner(p) && 0 <= k < |dels| && In(dels[k], p) && 0 <= i < |osns| && dels[k].osn.end <= osns[i].end ==>
        Cover(ranges, p) == 0
    ensures AllProper(dels) ==> forall p: Point | Inner(p) ::
      (forall k, i :: 0 <= k < |dels| && In(dels[k], p) && 0 <= i < |osns| ==> osns[i].end < dels[k].osn.end) ==>
        Cover(ranges, p) == Requested(partition, times, osns, p)
  {
    hide Cover, Requested, Deleted, VisiblyDeleted, Visible;
    NoneDeleted(osns);
    ranges := CrossSpans(partition, times, osns);
    ghost var start := ranges;
    var visible: seq<Range>, i := [], 0;
    assert dels[..0] == [];
    while i < |dels|
      invariant 0 <= i <= |dels| && (AllProper(dels) ==> AllProper(visible))
      invariant AllProper(dels) ==>
        forall p: Point | Inner(p) :: Cover(ranges, p) == if Deleted(visible, p) then 0 else Cover(start, p)
      invariant forall p: Point :: Deleted(visible, p) <==> VisiblyDeleted(dels[..i], osns, p)
    {
      VisibleStep(dels, osns, i);
      var after := IsOsnAfterSpans(dels[i].osn.end, osns);
      VisibleIff(dels[i], osns);
      if !after {
        PushDeleted(visible, dels[i]);
        ranges := MergeScanAndDelRange(ranges, dels[i]);
        visible := visible + [dels[i]];
      }
      i := i + 1;
    }
    assert dels[..i] == dels;
    VisibleMeans(dels, osns);
  }

  lemma VisibleIff(del: Range, osns: seq<OsnSpan>)
    ensures Visible(del, osns) <==> !forall i :: 0 <= i < |osns| ==> osns[i].end < del.osn.end
  {
  }

  lemma VisibleMeans(dels: seq<Range>, osns: seq<OsnSpan>)
    ensures forall p: Point, k, i ::
      0 <= k < |dels| && In(dels[k], p) && 0 <= i < |osns| && dels[k].osn.end <= osns[i].end ==>
        VisiblyDeleted(dels, osns, p)
    ensures forall p: Point ::
      (forall k, i :: 0 <= k < |dels| && In(dels[k], p) && 0 <= i < |osns| ==> osns[i].end < dels[k].osn.end) ==>
        !VisiblyDeleted(dels, osns, p)
  {
    hide In;
  }

  lemma NoneDeleted(osns: seq<OsnSpan>)
    ensures forall p: Point :: !Deleted([], p) && !VisiblyDeleted([], osns, p)
  {
  }

  lemma PushDeleted(dels: seq<Range>, d: Range)
    ensures forall p: Point :: Deleted(dels + [d], p) <==> Deleted(dels, p) || In(d, p)
  {
    DeletedStep(dels + [d], |dels|);
    assert (dels + [d])[..|dels|] == dels && (dels + [d])[..|dels| + 1] == dels + [d];
  }

  lemma VisibleStep(dels: seq<Range>, osns: seq<OsnSpan>, i: nat)
    requires i < |dels|
    ensures forall p: Point :: VisiblyDeleted(dels[..i + 1], osns, p)
              <==> VisiblyDeleted(dels[..i], osns, p) || (Visible(dels[i], osns) && In(dels[i], p))
  {
    hide Visible, In;
    forall p: Point
      ensures VisiblyDeleted(dels[..i + 1], osns, p)
              <==> VisiblyDeleted(dels[..i], osns, p) || (Visible(dels[i], osns) && In(dels[i], p))
    {
      if VisiblyDeleted(dels[..i], osns, p) {
        var k :| 0 <= k < i && Visible(dels[..i][k], osns) && In(dels[..i][k], p);
        assert In(dels[..i + 1][k], p);
      }
      if Visible(dels[i], osns) && In(dels[i], p) {
        assert In(dels[..i + 1][i], p);
      }
      if VisiblyDeleted(dels[..i + 1], osns, p) {
        var k :| 0 <= k < i + 1 && Visible(dels[..i + 1][k], osns) && In(dels[..i + 1][k], p);
        assert k < i ==> In(dels[..i][k], p);
      }
    }
  }

  /** Covered as often as asked for; at most once where the time spans and the OSN spans are apart. */
  lemma CoverSelected(ranges: seq<Range>, partition: TsSpan, times: seq<TsSpan>, osns: seq<OsnSpan>, dels: seq<Range>,
                      p: Point)
    requires Cover(ranges, p) == if VisiblyDeleted(dels, osns, p) then 0 else Requested(partition, times, osns, p)
    ensures Cover(ranges, p) > 0 <==> Selected(partition, times, osns, dels, p)
    ensures Apart(times, osns) ==> Cover(ranges, p) <= 1
  {
    hide Cover, Requested, Apart, VisiblyDeleted, HasTs, InTs, InOsn, Selected;
    RequestedIff(partition, times, osns, p);
    SelectedIff(partition, times, osns, dels, p);
  }

  // Every requested time span, cut to the partition, against every OSN span.
  method CrossSpans(partition: TsSpan, times: seq<TsSpan>, osns: seq<OsnSpan>) returns (ranges: seq<Range>)
    ensures forall p: Point :: Cover(ranges, p) == Requested(partition, times, osns, p)
  {
    hide Cover, Requested, OsnCount;
    ranges := [];
    var i := 0;
    NothingRequested(partition, osns);
    assert times[..0] == [];
    while i < |times|
      invariant 0 <= i <= |times|
      invariant forall p: Point :: Cover(ranges, p) == Requested(partition, times[..i], osns, p)
    {
      RequestedStep(partition, times, osns, i);
      var cross := TsSpan(if partition.begin > times[i].begin then partition.begin else times[i].begin,
                          if partition.end < times[i].end then partition.end else times[i].end);
      if cross.begin <= cross.end {
        ranges := CrossOne(cross, osns, ranges);
      }
      i := i + 1;
    }
    assert times[..i] == times;
  }

  lemma NothingRequested(partition: TsSpan, osns: seq<OsnSpan>)
    ensures forall p: Point :: Cover([], p) == 0 == Requested(partition, [], osns, p)
  {
  }

  lemma RequestedStep(partition: TsSpan, times: seq<TsSpan>, osns: seq<OsnSpan>, i: nat)
    requires i < |times|
    ensures forall p: Point :: Requested(partition, times[..i + 1], osns, p)
              == Requested(partition, times[..i], osns, p)
                 + if HasTs(partition, p.ts) && HasTs(times[i], p.ts) then OsnCount(osns, p.osn) else 0
  {
    hide HasTs, OsnCount;
    var more := times[..i + 1];
    assert more[..i] == times[..i];
    forall p: Point
      ensures Requested(partition, more, osns, p)
           == Requested(partition, times[..i], osns, p)
              + if HasTs(partition, p.ts) && HasTs(times[i], p.ts) then OsnCount(osns, p.osn) else 0
    {
      Distribute(TsCount(times[..i], p.ts), OsnCount(osns, p.osn));
    }
  }

  lemma Distribute(n: int, m: int)
    ensures (n + 1) * m == n * m + m
  {
  }

  method CrossOne(ts: TsSpan, osns: seq<OsnSpan>, ranges: seq<Range>) returns (ranges': seq<Range>)
    ensures forall p: Point ::
      Cover(ranges', p) == Cover(ranges, p) + if HasTs(ts, p.ts) then OsnCount(osns, p.osn) else 0
  {
    hide Cover;
    ranges' := ranges;
    var i := 0;
    while i < |osns|
      invariant 0 <= i <= |osns|
      invariant forall p: Point ::
        Cover(ranges', p) == Cover(ranges, p) + if HasTs(ts, p.ts) then OsnCount(osns[..i], p.osn) else 0
    {
      assert osns[..i + 1][..i] == osns[..i];
      CoverPushAll(ranges', Range(ts, osns[i]));
      ranges' := ranges' + [Range(ts, osns[i])];
      i := i + 1;
    }
    assert osns[..i] == osns;
  }
}
