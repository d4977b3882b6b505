/** Offset and limit over all partitions of a query: when the rows that are kept hold the window, and inputs for which
    they do not. */
module OffsetScan {
  import opened Words
  import opened Bags
  import opened OffsetFilter

  // The spans scanned from one partition, and its time range.
  datatype Partition = Partition(spans: seq<Span>, begin: int, end: int)

  predicate ValidPartition(p: Partition)
  {
    ValidQueue(p.spans) && p.begin <= p.end && Within(Bag(p.spans), p.begin, p.end)
  }

  predicate AllValid(ps: seq<Partition>)
  {
    forall i :: 0 <= i < |ps| ==> ValidPartition(ps[i])
  }

  function BagAll(ps: seq<Partition>): multiset<Row>
    requires AllValid(ps)
  {
    if ps == [] then multiset{} else BagAll(ps[..|ps| - 1]) + Bag(ps[|ps| - 1].spans)
  }

  // The partitions come in scan order.
  predicate InOrder(reversed: bool, ps: seq<Partition>)
    requires AllValid(ps)
  {
    forall i, j :: 0 <= i < j < |ps| ==> AllBefore(reversed, Bag(ps[i].spans), Bag(ps[j].spans))
  }

  // Fewer than DEVIATION rows lie in any stretch of time too narrow to be halved.
  ghost predicate Sparse(all: multiset<Row>, width: int)
  {
    forall a: multiset<Row> :: a <= all && Narrow(a, width) ==> |a| < DEVIATION
  }

  // The test with which Next gives up before another partition, in 32 bits.
  predicate ScanOver(it: OffsetIterator)
    reads it
  {
    it.queriedCnt >= WrapInt32(it.offset + it.limit - it.filterCnt)
  }

  // What is dropped, kept and discarded of the partitions read so far.
  ghost predicate ReadSoFar(it: OffsetIterator, all: multiset<Row>, front: multiset<Row>, kept: multiset<Row>,
                            back: multiset<Row>)
    reads it
  {
    front + kept + back == all && it.filterCnt == |front| && it.queriedCnt == |kept|
  }

  // What holds after every partition if the query fits 32 bits and its rows are sparse.
  ghost predicate OnTrack(it: OffsetIterator, front: multiset<Row>, kept: multiset<Row>, back: multiset<Row>)
  {
    var off, lim := Unsigned(it.offset), Unsigned(it.limit);
    && Layers(it.reversed, front, kept, back)
    && |front| <= off && (kept == multiset{} || it.EndReached(|front|))
    && (back == multiset{} || |front| + |kept| >= off + lim)
  }

  // Offset and limit fit, so that no sum of the iterator wraps, and the rows are sparse.
  ghost predicate Tame(it: OffsetIterator, all: multiset<Row>)
  {
    Unsigned(it.offset) + Unsigned(it.limit) < TWO_31 && Sparse(all, it.termTime)
  }

  lemma NoWrap(it: OffsetIterator, dropped: nat, read: nat)
    requires it.Valid() && Unsigned(it.offset) + Unsigned(it.limit) < TWO_31 && dropped <= Unsigned(it.offset)
    ensures var off, lim := Unsigned(it.offset), Unsigned(it.limit);
            && it.offset == off && it.limit == lim && WrapInt32(it.offset + it.limit - dropped) == off + lim - dropped
            && (read <= off + lim - dropped ==> it.Need(dropped, read) == off + lim - dropped - read)
            && (it.EndReached(dropped) <==> dropped > off - DEVIATION)
  {
  }

  // One more partition.
  lemma StaysOnTrack(it: OffsetIterator, all: multiset<Row>, front: multiset<Row>, kept: multiset<Row>,
                     back: multiset<Row>, rows: multiset<Row>, f: multiset<Row>, k: multiset<Row>, b: multiset<Row>,
                     low: multiset<Row>, high: multiset<Row>)
    requires it.Valid() && Tame(it, all) && OnTrack(it, front, kept, back) && rows <= all
    requires |kept| < Unsigned(it.offset) + Unsigned(it.limit) - |front|
    requires AllBefore(it.reversed, front + kept + back, rows)
    requires it.Pruned(|front|, |kept|, rows, f, k, b, low, high)
    ensures OnTrack(it, front + f, kept + k, back + b)
  {
    hide AllBefore, Layers, Narrow, Sparse, Unsigned, OffsetIterator.EndReached, OffsetIterator.Need;
    var off, lim := Unsigned(it.offset), Unsigned(it.limit);
    assert back == multiset{};
    NoWrap(it, |front|, |kept|);
    NoWrap(it, it.filterCnt, |kept|);
    assert it.EndReached(it.filterCnt) || k == multiset{} by { EndNear(it, all, rows, f, k, b, low); }
    LayersJoin(it.reversed, front, kept, f, k, b, rows);
    assert |front + f| == |front| + |f| && |kept + k| == |kept| + |k|;
  }

  lemma EndNear(it: OffsetIterator, all: multiset<Row>, rows: multiset<Row>, f: multiset<Row>, k: multiset<Row>,
                b: multiset<Row>, low: multiset<Row>)
    requires it.Valid() && Tame(it, all) && rows <= all && f + k + b == rows && it.filterCnt <= Unsigned(it.offset)
    requires f == rows || it.EndReached(it.filterCnt)
             || (low <= rows && Narrow(low, it.termTime) && it.filterCnt + |low| >= Unsigned(it.offset))
    ensures it.EndReached(it.filterCnt) || k == multiset{}
  {
    hide Narrow;
    NoWrap(it, it.filterCnt, 0);
    if f == rows {
      assert |f + k + b| == |f| + |k| + |b|;
    } else if low <= rows && Narrow(low, it.termTime) {
      assert low <= all;
    }
  }

  lemma LayersJoin(reversed: bool, front: multiset<Row>, kept: multiset<Row>, f: multiset<Row>, k: multiset<Row>,
                   b: multiset<Row>, rows: multiset<Row>)
    requires Layers(reversed, front, kept, multiset{}) && Layers(reversed, f, k, b) && f + k + b == rows
    requires AllBefore(reversed, front + kept + multiset{}, rows) && (kept == multiset{} || f == multiset{})
    ensures Layers(reversed, front + f, kept + k, multiset{} + b)
  {
    forall x | x in front || x in kept
      ensures x in front + kept + multiset{}
    {
    }
    forall x | x in f || x in k || x in b
      ensures x in rows
    {
      assert x in f + k + b;
    }
  }

  /** Next over all partitions: partition by partition, until the count of kept rows says that the scan is over. For
      offset and limit below 2^31 together, and sparse rows, reading what is kept and skipping what is left of the
      offset gives the window of all rows in scan order. When their 32-bit sum is not positive, nothing is read. */
  method Scan(it: OffsetIterator, ps: seq<Partition>) returns (out: seq<Span>)
    requires it.Valid() && AllValid(ps) && InOrder(it.reversed, ps) && |BagAll(ps)| < TWO_31
    requires it.filterSpans == it.blockSpans == [] && it.filterCnt == it.queriedCnt == 0
    modifies it
    ensures ValidQueue(out) && (WrapInt32(it.offset + it.limit) <= 0 ==> out == [] && it.filterCnt == 0)
    ensures var off, lim := Unsigned(it.offset), Unsigned(it.limit);
            Tame(it, BagAll(ps)) ==>
              it.filterCnt <= off && KeepsWindow(it.reversed, BagAll(ps), Bag(out), off, off - it.filterCnt, lim)
  {
    hide Bag, ValidQueue, AllValid, InOrder, KeepsWindow, Tame, BagAll, OnTrack, OffsetIterator.Pruned, Layers,
         AllBefore, Unsigned, ValidPartition, Within;
    out := [];
    ghost var front: multiset<Row>, back: multiset<Row> := multiset{}, multiset{};
    Nothing(it);
    var i := 0;
    assert ps[..0] == [];
    while i < |ps| && !ScanOver(it)
      invariant 0 <= i <= |ps| && ValidQueue(out) && it.filterSpans == it.blockSpans == []
      invariant AllValid(ps[..i]) && ReadSoFar(it, BagAll(ps[..i]), front, Bag(out), back)
      invariant WrapInt32(it.offset + it.limit) <= 0 ==> out == [] && it.filterCnt == 0 == it.queriedCnt
      invariant Tame(it, BagAll(ps)) ==> OnTrack(it, front, Bag(out), back)
    {
      OnePartition(it.reversed, ps, i);
      ghost var before := Bag(out);
      if Tame(it, BagAll(ps)) {
        NotOver(it, BagAll(ps), front, before, back);
      }
      ghost var f, b, low, high;
      f, b, low, high := it.FilterPartition(ps[i].spans, ps[i].begin, ps[i].end);
      ghost var k := Bag(it.blockSpans);
      if Tame(it, BagAll(ps)) {
        StaysOnTrack(it, BagAll(ps), front, before, back, Bag(ps[i].spans), f, k, b, low, high);
      }
      CountedOn(it, BagAll(ps[..i]), front, before, back, Bag(ps[i].spans), f, k, b, low, high);
      BagConcat(out, it.blockSpans);
      front, back := front + f, back + b;
      out := out + it.blockSpans;
      it.blockSpans := [];
      i := i + 1;
    }
    if Tame(it, BagAll(ps)) {
      SplitPartitions(it.reversed, ps, i);
      WindowOfScan(it, BagAll(ps), BagAll(ps[..i]), BagAll(ps[i..]), front, Bag(out), back);
    }
  }

  lemma Nothing(it: OffsetIterator)
    requires it.filterCnt == it.queriedCnt == 0
    ensures AllValid([]) && ValidQueue([]) && ReadSoFar(it, BagAll([]), multiset{}, Bag([]), multiset{})
    ensures OnTrack(it, multiset{}, Bag([]), multiset{})
  {
  }

  lemma NotOver(it: OffsetIterator, all: multiset<Row>, front: multiset<Row>, kept: multiset<Row>, back: multiset<Row>)
    requires it.Valid() && Tame(it, all) && OnTrack(it, front, kept, back)
    requires it.filterCnt == |front| && it.queriedCnt == |kept|
    ensures ScanOver(it) <==> |kept| >= Unsigned(it.offset) + Unsigned(it.limit) - |front|
  {
    NoWrap(it, |front|, 0);
  }

  lemma CountedOn(it: OffsetIterator, done: multiset<Row>, front: multiset<Row>, kept: multiset<Row>,
                  back: multiset<Row>, rows: multiset<Row>, f: multiset<Row>, k: multiset<Row>, b: multiset<Row>,
                  low: multiset<Row>, high: multiset<Row>)
    requires front + kept + back == done && it.Pruned(|front|, |kept|, rows, f, k, b, low, high)
    ensures ReadSoFar(it, done + rows, front + f, kept + k, back + b)
  {
    hide Layers, OffsetIterator.EndReached, OffsetIterator.Need, Narrow, Unsigned;
  }

  lemma WindowOfScan(it: OffsetIterator, all: multiset<Row>, done: multiset<Row>, rest: multiset<Row>,
                     front: multiset<Row>, kept: multiset<Row>, back: multiset<Row>)
    requires it.Valid() && Tame(it, all) && all == done + rest && AllBefore(it.reversed, done, rest)
    requires OnTrack(it, front, kept, back) && ReadSoFar(it, done, front, kept, back)
    requires rest == multiset{} || ScanOver(it)
    ensures var off, lim := Unsigned(it.offset), Unsigned(it.limit);
            it.filterCnt <= off && KeepsWindow(it.reversed, all, kept, off, off - it.filterCnt, lim)
  {
    hide KeepsWindow, AllBefore, Unsigned, ScanOver;
    NotOver(it, all, front, kept, back);
    RestIsLast(it.reversed, front, kept, back, rest);
    if back + rest == multiset{} {
    } else {
      assert back != multiset{} || rest != multiset{};
    }
    WindowKept(it.reversed, front, kept, back + rest, Unsigned(it.offset), Unsigned(it.limit));
  }

  lemma RestIsLast(reversed: bool, front: multiset<Row>, kept: multiset<Row>, back: multiset<Row>, rest: multiset<Row>)
    requires Layers(reversed, front, kept, back) && AllBefore(reversed, front + kept + back, rest)
    ensures Layers(reversed, front, kept, back + rest) && front + kept + (back + rest) == front + kept + back + rest
  {
    forall x | x in front || x in kept || x in back
      ensures x in front + kept + back
    {
    }
  }

  // ---------- partitions read and not read ----------

  lemma {:induction false} BeforeLater(reversed: bool, ps: seq<Partition>, i: nat, n: nat)
    requires AllValid(ps) && InOrder(reversed, ps) && i <= n < |ps|
    ensures AllBefore(reversed, BagAll(ps[..i]), Bag(ps[n].spans))
    decreases i
  {
    hide Bag;
    if i > 0 {
      assert ps[..i][..i - 1] == ps[..i - 1];
      BeforeLater(reversed, ps, i - 1, n);
      assert AllBefore(reversed, Bag(ps[i - 1].spans), Bag(ps[n].spans));
    }
  }

  lemma {:induction false} SplitPartitions(reversed: bool, ps: seq<Partition>, i: nat)
    requires AllValid(ps) && InOrder(reversed, ps) && i <= |ps|
    ensures AllValid(ps[..i]) && AllValid(ps[i..]) && BagAll(ps) == BagAll(ps[..i]) + BagAll(ps[i..])
    ensures AllBefore(reversed, BagAll(ps[..i]), BagAll(ps[i..])) && (i == |ps| ==> BagAll(ps[i..]) == multiset{})
    decreases |ps|
  {
    hide Bag, BagAll, Within, ValidQueue, AllBefore, InOrder;
    if i == |ps| {
      assert ps[..i] == ps && ps[i..] == [];
      BagAllNone();
      NoneBefore(reversed, BagAll(ps));
    } else {
      var n := |ps| - 1;
      FrontInOrder(reversed, ps);
      SplitPartitions(reversed, ps[..n], i);
      assert ps[..n][..i] == ps[..i] && ps[i..][..n - i] == ps[..n][i..] && ps[i..][n - i] == ps[n];
      BagAllLast(ps);
      BagAllLast(ps[i..]);
      BeforeLater(reversed, ps, i, n);
      BeforeBoth(reversed, BagAll(ps[..i]), BagAll(ps[..n][i..]), Bag(ps[n].spans));
    }
  }

  lemma BagAllNone()
    ensures BagAll([]) == multiset{}
  {
  }

  lemma BagAllLast(ps: seq<Partition>)
    requires AllValid(ps) && ps != []
    ensures AllValid(ps[..|ps| - 1]) && ValidPartition(ps[|ps| - 1])
    ensures BagAll(ps) == BagAll(ps[..|ps| - 1]) + Bag(ps[|ps| - 1].spans)
  {
    hide Bag, ValidPartition;
  }

  lemma FrontInOrder(reversed: bool, ps: seq<Partition>)
    requires AllValid(ps) && InOrder(reversed, ps) && ps != []
    ensures AllValid(ps[..|ps| - 1]) && InOrder(reversed, ps[..|ps| - 1])
  {
    hide Bag, AllBefore, ValidPartition;
  }

  lemma BeforeBoth(reversed: bool, a: multiset<Row>, b: multiset<Row>, c: multiset<Row>)
    requires AllBefore(reversed, a, b) && AllBefore(reversed, a, c)
    ensures AllBefore(reversed, a, b + c) && a + b + c == a + (b + c)
  {
  }

  lemma OnePartition(reversed: bool, ps: seq<Partition>, i: nat)
    requires AllValid(ps) && InOrder(reversed, ps) && i < |ps|
    ensures ValidQueue(ps[i].spans) && ps[i].begin <= ps[i].end && Within(Bag(ps[i].spans), ps[i].begin, ps[i].end)
    ensures AllValid(ps[..i]) && AllValid(ps[..i + 1]) && Bag(ps[i].spans) <= BagAll(ps)
    ensures BagAll(ps[..i + 1]) == BagAll(ps[..i]) + Bag(ps[i].spans)
    ensures |BagAll(ps[..i])| + |Bag(ps[i].spans)| <= |BagAll(ps)|
    ensures AllBefore(reversed, BagAll(ps[..i]), Bag(ps[i].spans))
  {
    hide Bag, Within, AllBefore, ValidQueue;
    assert ValidPartition(ps[i]);
    SplitPartitions(reversed, ps, i + 1);
    assert ps[..i + 1][..i] == ps[..i];
    BeforeLater(reversed, ps, i, i);
  }

  // ---------- queries that lose rows ----------

  lemma LastRow(reversed: bool, all: multiset<Row>) returns (m: Row)
    requires all != multiset{}
    ensures m in all && forall x :: x in all ==> !Before(reversed, m.ts, x.ts)
    decreases |all|
  {
    var first :| first in all;
    m := first;
    var rest := all - multiset{first};
    if rest != multiset{} {
      var n := LastRow(reversed, rest);
      m := if Before(reversed, first.ts, n.ts) then n else first;
    }
    forall x | x in all
      ensures !Before(reversed, m.ts, x.ts)
    {
      assert x == first || x in rest;
    }
  }

  // Every set of rows can be listed in scan order.
  lemma Listing(reversed: bool, all: multiset<Row>) returns (s: seq<Row>)
    ensures ScanOrdered(reversed, s) && multiset(s) == all
    decreases |all|
  {
    if all == multiset{} {
      s := [];
    } else {
      var m := LastRow(reversed, all);
      var front := Listing(reversed, all - multiset{m});
      s := front + [m];
      forall i | 0 <= i < |front|
        ensures front[i] in all
      {
        assert front[i] in multiset(front);
      }
    }
  }

  function WindowSize(n: nat, skip: nat, limit: nat): nat
  {
    if skip >= n then 0 else if n - skip < limit then n - skip else limit
  }

  lemma WindowLength(s: seq<Row>, skip: nat, limit: nat)
    ensures |Window(s, skip, limit)| == WindowSize(|s|, skip, limit)
  {
  }

  lemma SameSize(reversed: bool, all: multiset<Row>, kept: multiset<Row>, skip: nat, left: nat, limit: nat)
    requires KeepsWindow(reversed, all, kept, skip, left, limit)
    ensures WindowSize(|all|, skip, limit) == WindowSize(|kept|, left, limit)
  {
    var s := Listing(reversed, all);
    var k :| ScanOrdered(reversed, k) && multiset(k) == kept && Window(k, left, limit) == Window(s, skip, limit);
    WindowLength(s, skip, limit);
    WindowLength(k, left, limit);
    assert |s| == |multiset(s)| && |k| == |multiset(k)|;
  }

  /** A scan that reads nothing keeps the window if and only if the window is empty. */
  lemma NothingReadIff(reversed: bool, all: multiset<Row>, skip: nat, limit: nat)
    ensures KeepsWindow(reversed, all, multiset{}, skip, skip, limit) <==> limit == 0 || |all| <= skip
  {
    if limit == 0 || |all| <= skip {
      var none: seq<Row> := [];
      assert ScanOrdered(reversed, none) && multiset(none) == multiset{};
      forall s | ScanOrdered(reversed, s) && multiset(s) == all
        ensures Window(none, skip, limit) == Window(s, skip, limit)
      {
        assert |s| == |multiset(s)|;
      }
    } else if KeepsWindow(reversed, all, multiset{}, skip, skip, limit) {
      SameSize(reversed, all, multiset{}, skip, skip, limit);
    }
  }

  // No two rows lie in the same narrow stretch of time.
  ghost predicate Spread(all: multiset<Row>, width: int)
  {
    forall a: multiset<Row> :: a <= all && Narrow(a, width) ==> |a| <= 1
  }

  /** A limit so wide that offset and limit add up beyond 2^32: the number of rows needed has wrapped, and rows of the
      window are discarded. */
  method WideLimit(reversed: bool, offset: nat, limit: nat, p: Precision, q: Partition)
    returns (kept: seq<Span>, dropped: nat)
    requires offset < DEVIATION && limit < TWO_32 < offset + limit && ValidPartition(q)
    requires Spread(Bag(q.spans), TerminationTime(p)) && offset < |Bag(q.spans)| < TWO_31
    requires 2 * (offset + limit - TWO_32) + 2 <= |Bag(q.spans)|
    ensures ValidQueue(kept) && dropped <= offset
    ensures !KeepsWindow(reversed, Bag(q.spans), Bag(kept), offset, offset - dropped, limit)
  {
    hide Bag, ValidQueue, Within, Layers, KeepsWindow, Narrow, Unsigned, OffsetIterator.EndReached, OffsetIterator.Need;
    var it := new OffsetIterator(reversed, offset, limit, p);
    ghost var f, b, low, high;
    WideNeed(it, offset, limit);
    f, b, low, high := it.FilterPartition(q.spans, q.begin, q.end);
    kept, dropped := it.blockSpans, it.filterCnt;
    TooFew(reversed, Bag(q.spans), Bag(kept), b, high, offset, limit, TerminationTime(p));
  }

  lemma WideNeed(it: OffsetIterator, offset: nat, limit: nat)
    requires offset < DEVIATION && limit < TWO_32 < offset + limit
    requires it.offset == WrapInt32(offset) && it.limit == WrapInt32(limit)
    ensures it.EndReached(0) && it.Need(0, 0) == offset + limit - TWO_32
  {
    UnsignedBack(offset);
    UnsignedBack(limit);
    UnsignedSum(it.offset, it.limit, 0);
  }

  lemma TooFew(reversed: bool, rows: multiset<Row>, kept: multiset<Row>, back: multiset<Row>, high: multiset<Row>,
               offset: nat, limit: nat, width: int)
    requires multiset{} + kept + back == rows && Spread(rows, width) && high <= kept && Narrow(high, width)
    requires |kept| <= offset + limit - TWO_32 + |high| && 2 * (offset + limit - TWO_32) + 2 <= |rows|
    requires offset < |rows| <= limit && limit < TWO_32 < offset + limit
    ensures !KeepsWindow(reversed, rows, kept, offset, offset, limit)
  {
    hide KeepsWindow, Narrow;
    assert high <= rows;
    if KeepsWindow(reversed, rows, kept, offset, offset, limit) {
      SameSize(reversed, rows, kept, offset, offset, limit);
    }
  }

  // Ten rows, a tenth of a second apart.
  function TenRows(): (s: seq<Row>)
    ensures |s| == 10 && forall i :: 0 <= i < 10 ==> s[i] == Row(100 * i, i)
  {
    seq(10, i requires 0 <= i < 10 => Row(100 * i, i))
  }

  function TenPartition(): Partition
  {
    Partition([Span(0, 900, TenRows(), 0, 10)], 0, 1000)
  }

  /** Offset 5 and limit 2^32 - 1 on that partition: one of the queries of WideLimit. */
  lemma WideLimitInput()
    ensures var offset, limit, q := 5, TWO_32 - 1, TenPartition();
            && offset < DEVIATION && limit < TWO_32 < offset + limit && ValidPartition(q)
            && Spread(Bag(q.spans), TerminationTime(Milli)) && offset < |Bag(q.spans)| < TWO_31
            && 2 * (offset + limit - TWO_32) + 2 <= |Bag(q.spans)|
  {
    hide TenRows, Narrow;
    TenBag();
    forall a: multiset<Row> | a <= multiset(TenRows()) && Narrow(a, 10)
      ensures |a| <= 1
    {
      AtMostOne(a);
    }
  }

  lemma TenBag()
    ensures ValidPartition(TenPartition()) && Bag(TenPartition().spans) == multiset(TenRows())
  {
    hide TenRows;
    var q := TenPartition();
    assert ValidSpan(q.spans[0]) && RowsOf(q.spans[0]) == TenRows();
    assert Bag(q.spans) == multiset(TenRows()) + Bag([]);
    forall x | x in multiset(TenRows())
      ensures 0 <= x.ts <= 1000
    {
      assert x in TenRows();
    }
  }

  lemma OnceOnly(x: Row)
    requires x in multiset(TenRows())
    ensures multiset(TenRows())[x] == 1
  {
    hide TenRows;
    var s := TenRows();
    var i :| 0 <= i < 10 && s[i] == x;
    assert s == s[..i] + [x] + s[i + 1..];
    assert x !in s[..i] && x !in s[i + 1..];
  }

  lemma AtMostOne(a: multiset<Row>)
    requires a <= multiset(TenRows()) && Narrow(a, 10)
    ensures |a| <= 1
  {
    hide TenRows;
    if a != multiset{} {
      var x :| x in a;
      OnceOnly(x);
      forall y | y in a
        ensures y == x
      {
        assert x in TenRows() && y in TenRows();
      }
      assert a <= multiset{x};
      assert |a| + |multiset{x} - a| == |a + (multiset{x} - a)| == |multiset{x}| == 1;
    }
  }

  // ---------- rows too dense ----------

  /** More rows than the offset at one moment of the first partition, and few enough rows in the next: the first are
      all kept, so the offset lies among them, and yet the count lets all of the next partition be dropped. */
  method DenseRows(offset: nat, limit: nat, p: Precision, q: Partition, r: Partition)
    returns (kept: seq<Span>, dropped: nat)
    requires DEVIATION <= offset && offset + limit < TWO_31 && ValidPartition(q) && ValidPartition(r)
    requires AllBefore(false, Bag(q.spans), Bag(r.spans))
    requires offset < |Bag(q.spans)| < offset + limit && 0 < |Bag(r.spans)| <= offset
    requires |Bag(q.spans)| + |Bag(r.spans)| < TWO_31
    requires forall x, y :: x in Bag(q.spans) && y in Bag(q.spans) ==> x.ts == y.ts
    ensures ValidQueue(kept) && dropped <= offset
    ensures !KeepsWindow(false, Bag(q.spans) + Bag(r.spans), Bag(kept), offset, offset - dropped, limit)
  {
    hide Bag, ValidQueue, Within, Layers, KeepsWindow, Narrow, AllBefore, Unsigned, OffsetIterator.EndReached,
         OffsetIterator.Need, OffsetIterator.Pruned;
    var it := new OffsetIterator(false, offset, limit, p);
    ghost var f, b, low, high;
    f, b, low, high := it.FilterPartition(q.spans, q.begin, q.end);
    kept := it.blockSpans;
    AllKept(it, Bag(q.spans), f, Bag(kept), b, low, high);
    assert !ScanOver(it) by { NoWrap(it, 0, 0); }
    it.blockSpans := [];
    f, b, low, high := it.FilterPartition(r.spans, r.begin, r.end);
    AllDropped(it, |Bag(q.spans)|, Bag(r.spans), f, Bag(it.blockSpans), b, low, high);
    dropped := it.filterCnt;
    LaterRowLost(Bag(q.spans), Bag(r.spans), offset, offset - dropped, limit);
  }

  lemma AllKept(it: OffsetIterator, rows: multiset<Row>, f: multiset<Row>, k: multiset<Row>, b: multiset<Row>,
                low: multiset<Row>, high: multiset<Row>)
    requires it.Valid() && DEVIATION <= Unsigned(it.offset) && Unsigned(it.offset) + Unsigned(it.limit) < TWO_31
    requires it.Pruned(0, 0, rows, f, k, b, low, high)
    requires Unsigned(it.offset) < |rows| < Unsigned(it.offset) + Unsigned(it.limit)
    requires forall x, y :: x in rows && y in rows ==> x.ts == y.ts
    ensures k == rows && it.filterCnt == 0 && it.queriedCnt == |rows|
  {
    hide Narrow, Unsigned, OffsetIterator.EndReached, OffsetIterator.Need;
    OneLayer(it.reversed, rows, f, k, b);
    NoWrap(it, it.filterCnt, 0);
  }

  lemma OneLayer(reversed: bool, rows: multiset<Row>, f: multiset<Row>, k: multiset<Row>, b: multiset<Row>)
    requires f + k + b == rows && Layers(reversed, f, k, b)
    requires forall x, y :: x in rows && y in rows ==> x.ts == y.ts
    ensures |f| == |rows| || f == multiset{}
    ensures f == multiset{} ==> k == multiset{} || k == rows
  {
    hide AllBefore;
    OneEmpty(reversed, rows, f, k, b);
    OneEmpty(reversed, rows, f, b, k);
    OneEmpty(reversed, rows, k, b, f);
  }

  lemma OneEmpty(reversed: bool, rows: multiset<Row>, a: multiset<Row>, b: multiset<Row>, c: multiset<Row>)
    requires a + b + c == rows && AllBefore(reversed, a, b)
    requires forall x, y :: x in rows && y in rows ==> x.ts == y.ts
    ensures a == multiset{} || b == multiset{}
  {
    if x, y :| x in a && y in b {
      assert x in a + b + c && y in a + b + c;
    }
  }

  lemma AllDropped(it: OffsetIterator, read: nat, rows: multiset<Row>, f: multiset<Row>, k: multiset<Row>,
                   b: multiset<Row>, low: multiset<Row>, high: multiset<Row>)
    requires it.Valid() && DEVIATION <= Unsigned(it.offset) && Unsigned(it.offset) + Unsigned(it.limit) < TWO_31
    requires it.Pruned(0, read, rows, f, k, b, low, high) && |rows| <= Unsigned(it.offset)
    ensures f == rows && it.filterCnt == |rows|
  {
    NoWrap(it, 0, 0);
  }

  lemma LaterRowLost(a: multiset<Row>, b: multiset<Row>, skip: nat, left: nat, limit: nat)
    requires AllBefore(false, a, b) && b != multiset{} && skip < |a| < skip + limit
    ensures !KeepsWindow(false, a + b, a, skip, left, limit)
  {
    hide ScanOrdered, AllBefore, Window;
    var s := Listing(false, a + b);
    FirstLayerFirst(false, s, a, b);
    assert |s| == |multiset(s)| == |a| + |b|;
    var x := s[|a|];
    assert s[|a|..][0] == x;
    assert x in multiset(s[|a|..]);
    NotBoth(a, b, x);
    InWindow(s, |a|, skip, limit);
    if KeepsWindow(false, a + b, a, skip, left, limit) {
      var k :| ScanOrdered(false, k) && multiset(k) == a && Window(k, left, limit) == Window(s, skip, limit);
      WindowOf(k, left, limit, x);
    }
  }

  lemma NotBoth(a: multiset<Row>, b: multiset<Row>, x: Row)
    requires AllBefore(false, a, b) && x in b
    ensures x !in a
  {
  }

  lemma InWindow(s: seq<Row>, n: nat, skip: nat, limit: nat)
    requires skip <= n < |s| && n < skip + limit
    ensures s[n] in Window(s, skip, limit)
  {
    assert Window(s, skip, limit)[n - skip] == s[n];
  }

  lemma WindowOf(s: seq<Row>, skip: nat, limit: nat, x: Row)
    requires x in Window(s, skip, limit)
    ensures x in multiset(s)
  {
  }
}
