/** Offset and limit pruning in one partition. The iterator halves the partition's time range again and again, drops
    halves that lie wholly before the offset and discards halves that lie wholly behind the limit. */
module OffsetFilter {
  import opened Bags
  import opened Words

  // A row; the id tells rows with equal timestamps apart.
  datatype Row = Row(ts: int, id: nat)

  // `num` rows of a block from `start`, with the timestamps of the first and the last of them.
  datatype Span = Span(minTs: int, maxTs: int, block: seq<Row>, start: nat, num: nat)

  predicate ValidSpan(s: Span)
  {
    && s.num > 0 && s.start + s.num <= |s.block|
    && s.minTs == s.block[s.start].ts && s.maxTs == s.block[s.start + s.num - 1].ts
    && forall i, j :: s.start <= i <= j < s.start + s.num ==> s.block[i].ts <= s.block[j].ts
  }

  predicate ValidQueue(q: seq<Span>)
  {
    forall i :: 0 <= i < |q| ==> ValidSpan(q[i])
  }

  function RowsOf(s: Span): seq<Row>
    requires ValidSpan(s)
  {
    s.block[s.start..s.start + s.num]
  }

  // All rows of a queue.
  function Bag(q: seq<Span>): multiset<Row>
    requires ValidQueue(q)
  {
    if q == [] then multiset{} else multiset(RowsOf(q[0])) + Bag(q[1..])
  }

  lemma {:induction false} BagConcat(p: seq<Span>, q: seq<Span>)
    requires ValidQueue(p) && ValidQueue(q)
    ensures ValidQueue(p + q) && Bag(p + q) == Bag(p) + Bag(q)
  {
    if p == [] {
      assert p + q == q;
    } else {
      assert (p + q)[1..] == p[1..] + q;
      BagConcat(p[1..], q);
    }
  }

  // ---------- scan order ----------

  // `a` is read strictly before `b`.
  predicate Before(reversed: bool, a: int, b: int) { if reversed then a > b else a < b }

  predicate AllBefore(reversed: bool, a: multiset<Row>, b: multiset<Row>)
  {
    forall x, y :: x in a && y in b ==> Before(reversed, x.ts, y.ts)
  }

  predicate Within(a: multiset<Row>, lo: int, hi: int)
  {
    forall x :: x in a ==> lo <= x.ts <= hi
  }

  predicate ScanOrdered(reversed: bool, s: seq<Row>)
  {
    forall i, j :: 0 <= i <= j < |s| ==> !Before(reversed, s[j].ts, s[i].ts)
  }

  // ---------- halving ----------

  // The rows of one span on either side of the middle.
  predicate SideOf(reversed: bool, mid: int, rows: multiset<Row>, lower: bool)
  {
    forall x :: x in rows ==> (Before(reversed, x.ts, mid) <==> lower)
  }

  // Binary search for the last row (reversed: the first row) on the lower side of the middle.
  method SplitRow(reversed: bool, s: Span, mid: int) returns (split: int)
    requires ValidSpan(s) && if reversed then s.minTs <= mid < s.maxTs else s.minTs < mid <= s.maxTs
    ensures if reversed then s.start < split < s.start + s.num else s.start <= split < s.start + s.num - 1
    ensures forall i :: s.start <= i < s.start + s.num ==>
              (Before(reversed, s.block[i].ts, mid) <==> if reversed then split <= i else i <= split)
  {
    var left, right := s.start, s.start + s.num - 1;
    split := -1;
    while left <= right
      invariant s.start <= left <= right + 1 <= s.start + s.num
      invariant split == -1 || s.start <= split < s.start + s.num
      invariant !reversed ==> split == (if left == s.start then -1 else left - 1)
      invariant reversed ==> split == (if right == s.start + s.num - 1 then -1 else right + 1)
      invariant forall i :: s.start <= i < left ==> Before(reversed, s.block[i].ts, mid) == !reversed
      invariant forall i :: right < i < s.start + s.num ==> Before(reversed, s.block[i].ts, mid) == reversed
      decreases right - left
    {
      var m := left + (right - left) / 2;
      if Before(reversed, s.block[m].ts, mid) {
        split := m;
        if reversed { right := m - 1; } else { left := m + 1; }
      } else {
        if reversed { left := m + 1; } else { right := m - 1; }
      }
    }
  }

  // The two parts of a span cut behind its first `n` rows.
  function Cut(s: Span, n: nat): (parts: (Span, Span))
    requires ValidSpan(s) && 0 < n < s.num
    ensures ValidSpan(parts.0) && ValidSpan(parts.1)
  {
    (Span(s.minTs, s.block[s.start + n - 1].ts, s.block, s.start, n),
     Span(s.block[s.start + n].ts, s.maxTs, s.block, s.start + n, s.num - n))
  }

  lemma CutRows(s: Span, n: nat)
    requires ValidSpan(s) && 0 < n < s.num
    ensures Bag([s]) == multiset(RowsOf(Cut(s, n).0)) + multiset(RowsOf(Cut(s, n).1))
  {
    assert RowsOf(s) == RowsOf(Cut(s, n).0) + RowsOf(Cut(s, n).1);
    assert Bag([s]) == multiset(RowsOf(s)) + Bag([]);
  }

  lemma RowsOnSide(reversed: bool, mid: int, s: Span, lower: bool)
    requires ValidSpan(s)
    requires forall i :: s.start <= i < s.start + s.num ==> (Before(reversed, s.block[i].ts, mid) <==> lower)
    ensures SideOf(reversed, mid, Bag([s]), lower)
    ensures |Bag([s])| == s.num && Bag([s]) == multiset(RowsOf(s))
  {
    assert Bag([s]) == multiset(RowsOf(s)) + Bag([]);
    forall x | x in Bag([s])
      ensures Before(reversed, x.ts, mid) <==> lower
    {
      assert x in RowsOf(s);
    }
  }

  // One span goes to the lower side, to the upper side, or is cut in two.
  method Sides(reversed: bool, s: Span, mid: int) returns (low: seq<Span>, up: seq<Span>, lowCnt: nat)
    requires ValidSpan(s)
    ensures ValidQueue(low) && ValidQueue(up) && Bag(low) + Bag(up) == Bag([s]) && lowCnt == |Bag(low)|
    ensures SideOf(reversed, mid, Bag(low), true) && SideOf(reversed, mid, Bag(up), false)
  {
    hide Bag, SideOf;
    EmptySides(reversed, mid);
    low, up, lowCnt := [], [], 0;
    if (reversed && s.minTs > mid) || (!reversed && s.maxTs < mid) {
      low, lowCnt := [s], s.num;
      RowsOnSide(reversed, mid, s, true);
    } else if (reversed && s.maxTs <= mid) || (!reversed && s.minTs >= mid) {
      up := [s];
      RowsOnSide(reversed, mid, s, false);
    } else {
      var split := SplitRow(reversed, s, mid);
      var n := if reversed then split - s.start else split - s.start + 1;
      var (left, right) := Cut(s, n);
      RowsOnSide(reversed, mid, left, !reversed);
      RowsOnSide(reversed, mid, right, reversed);
      CutRows(s, n);
      if reversed {
        low, up, lowCnt := [right], [left], right.num;
      } else {
        low, up, lowCnt := [left], [right], left.num;
      }
    }
  }

  lemma EmptySides(reversed: bool, mid: int)
    ensures Bag([]) == multiset{} && SideOf(reversed, mid, multiset{}, true) && SideOf(reversed, mid, multiset{}, false)
  {
  }

  function Middle(begin: int, end: int): int
    requires begin <= end
  {
    begin + (end - begin) / 2
  }

  const DEVIATION := 1000

  const TWO_31 := 0x8000_0000

  const TWO_32 := 0x1_0000_0000

  // Conversion to uint32; on an int32 that came from a uint32 it gives that one back.
  function Unsigned(x: int): nat { x % TWO_32 }

  lemma UnsignedBack(n: nat)
    requires n < TWO_32
    ensures Unsigned(WrapInt32(n)) == n && (n < TWO_31 ==> WrapInt32(n) == n)
  {
  }

  lemma UnsignedId(n: int)
    ensures 0 <= n < TWO_32 ==> Unsigned(n) == n
  {
  }

  // A sum of converted numbers is the sum of the original ones modulo 2^32.
  lemma UnsignedSum(offset: int, limit: int, c: int)
    ensures Unsigned(offset + limit - c) == (Unsigned(offset) + Unsigned(limit) - c) % TWO_32
  {
    var a, b := offset / TWO_32, limit / TWO_32;
    assert offset + limit - c == (Unsigned(offset) + Unsigned(limit) - c) + (a + b) * TWO_32;
    ModShift(Unsigned(offset) + Unsigned(limit) - c, a + b);
  }

  lemma ModShift(x: int, k: int)
    ensures (x + k * TWO_32) % TWO_32 == x % TWO_32
  {
    DivModUnique(x / TWO_32 + k, x % TWO_32, TWO_32);
  }

  datatype Precision = Milli | Micro | Nano

  // The width below which the time range is not halved any more.
  function TerminationTime(p: Precision): int
  {
    match p
    case Milli => 10
    case Micro => 10000
    case Nano => 10000000
  }

  class OffsetIterator {
    const reversed: bool
    const offset: int
    const limit: int
    const termTime: int
    var filterSpans: seq<Span>
    var blockSpans: seq<Span>
    var filterCnt: nat
    var queriedCnt: nat
    var filterEnd: bool

    // The offset and the limit arrive as uint32 and are kept as int32.
    constructor (reversed: bool, offset: nat, limit: nat, p: Precision)
      requires offset < TWO_32 && limit < TWO_32
      ensures this.reversed == reversed && this.offset == WrapInt32(offset) && this.limit == WrapInt32(limit)
      ensures Unsigned(this.offset) == offset && Unsigned(this.limit) == limit && Valid()
      ensures this.termTime == TerminationTime(p) && filterSpans == [] && blockSpans == []
        && filterCnt == queriedCnt == 0
    {
      UnsignedBack(offset);
      UnsignedBack(limit);
      this.reversed, this.offset, this.limit := reversed, WrapInt32(offset), WrapInt32(limit);
      this.termTime := TerminationTime(p);
      filterSpans, blockSpans, filterCnt, queriedCnt, filterEnd := [], [], 0, 0, false;
    }

    predicate Valid() { -TWO_31 <= offset < TWO_31 && -TWO_31 <= limit < TWO_31 && 2 <= termTime }

    // So few rows are left to skip that they are left to the reader.
    predicate EndReached(cnt: int) { cnt > WrapInt32(offset - DEVIATION) }

    // divideBlockSpans: the queue keeps the rows on the upper side of the middle; the others are handed out.
    method Divide(begin: int, end: int) returns (lower: seq<Span>, lowerCnt: nat)
      requires begin <= end && ValidQueue(filterSpans)
      modifies this`filterSpans
      ensures ValidQueue(filterSpans) && ValidQueue(lower) && lowerCnt == |Bag(lower)|
      ensures Bag(lower) + Bag(filterSpans) == old(Bag(filterSpans))
      ensures SideOf(reversed, Middle(begin, end), Bag(lower), true)
      ensures SideOf(reversed, Middle(begin, end), Bag(filterSpans), false)
    {
      hide Bag, SideOf, ValidSpan;
      var size := |filterSpans|;
      var mid := begin + (end - begin) / 2;
      ghost var upper: seq<Span> := [];
      EmptySides(reversed, mid);
      lower, lowerCnt := [], 0;
      var i := 0;
      while i < size
        invariant 0 <= i <= size && filterSpans == old(filterSpans)[i..] + upper
        invariant ValidQueue(lower) && ValidQueue(upper) && lowerCnt == |Bag(lower)|
        invariant Bag(lower) + Bag(upper) + Bag(old(filterSpans)[i..]) == old(Bag(filterSpans))
        invariant SideOf(reversed, mid, Bag(lower), true) && SideOf(reversed, mid, Bag(upper), false)
      {
        var s := filterSpans[0];
        filterSpans := filterSpans[1..];
        var low, up, cnt := Sides(reversed, s, mid);
        BagFirst(old(filterSpans)[i..]);
        BagConcat(lower, low);
        BagConcat(upper, up);
        BothSides(reversed, mid, Bag(lower), Bag(low), true);
        BothSides(reversed, mid, Bag(upper), Bag(up), false);
        filterSpans := filterSpans + up;
        assert filterSpans == old(filterSpans)[i + 1..] + (upper + up);
        lower, lowerCnt, upper := lower + low, lowerCnt + cnt, upper + up;
        i := i + 1;
      }
      assert filterSpans == upper;
    }

    // The rows still in the queue are kept.
    method KeepQueue() returns (n: nat)
      requires ValidQueue(filterSpans) && ValidQueue(blockSpans)
      modifies this`filterSpans, this`blockSpans
      ensures filterSpans == [] && ValidQueue(blockSpans) && n == |old(Bag(filterSpans))|
      ensures Bag(blockSpans) == old(Bag(blockSpans)) + old(Bag(filterSpans))
    {
      hide Bag;
      BagConcat(blockSpans, filterSpans);
      n := RowTotal(filterSpans);
      blockSpans := blockSpans + filterSpans;
      filterSpans := [];
    }

    // Rows that lie wholly before the offset are dropped while the undecided rest is halved.
    method FilterLower(begin0: int, end0: int)
      returns (cnt: nat, ghost dropped: multiset<Row>, ghost undecided: multiset<Row>)
      requires begin0 <= end0 && 2 <= termTime && ValidQueue(filterSpans) && blockSpans == []
      requires Within(Bag(filterSpans), begin0, end0)
      requires Unsigned(offset) <= filterCnt + |Bag(filterSpans)| < TWO_31 && filterEnd == EndReached(filterCnt)
      modifies this`filterSpans, this`blockSpans, this`filterCnt, this`filterEnd
      ensures filterSpans == [] && ValidQueue(blockSpans) && dropped + Bag(blockSpans) == old(Bag(filterSpans))
      ensures AllBefore(reversed, dropped, Bag(blockSpans)) && cnt == |Bag(blockSpans)|
      ensures filterCnt == old(filterCnt) + |dropped| && (filterCnt == old(filterCnt) || filterCnt < Unsigned(offset))
      ensures undecided <= Bag(blockSpans) && AllBefore(reversed, undecided, Bag(blockSpans) - undecided)
      ensures filterCnt + |undecided| >= Unsigned(offset) && (EndReached(filterCnt) || Narrow(undecided, termTime))
    {
      hide Bag, SideOf, AllBefore, Within, ValidQueue, Layers, Narrow, EndReached, Unsigned;
      EmptyFacts(reversed, Bag(filterSpans));
      var begin, end := begin0, end0;
      ghost var off := Unsigned(offset);
      cnt, dropped := 0, multiset{};
      while !filterEnd
        invariant begin <= end && ValidQueue(filterSpans) && ValidQueue(blockSpans)
        invariant dropped + Bag(filterSpans) + Bag(blockSpans) == old(Bag(filterSpans))
        invariant Layers(reversed, dropped, Bag(filterSpans), Bag(blockSpans)) && Within(Bag(filterSpans), begin, end)
        invariant filterCnt == old(filterCnt) + |dropped| && (filterCnt == old(filterCnt) || filterCnt < off)
        invariant off <= filterCnt + |Bag(filterSpans)| < TWO_31 && cnt == |Bag(blockSpans)|
        invariant filterEnd ==> EndReached(filterCnt) || end - begin < termTime
        decreases !filterEnd, end - begin
      {
        var lower, lowerCnt := Divide(begin, end);
        var mid := begin + (end - begin) / 2;
        Halves(reversed, mid, Bag(lower), Bag(filterSpans), begin, end);
        UnsignedId(filterCnt + lowerCnt);
        if Unsigned(filterCnt + lowerCnt) < Unsigned(offset) {
          LowerGoesFirst(reversed, dropped, Bag(lower), Bag(filterSpans), Bag(blockSpans));
          if reversed { end := mid; } else { begin := mid; }
          filterCnt := filterCnt + lowerCnt;
          dropped := dropped + Bag(lower);
        } else {
          UpperGoesLast(reversed, dropped, Bag(lower), Bag(filterSpans), Bag(blockSpans));
          if reversed { begin := mid; } else { end := mid; }
          var n := KeepQueue();
          cnt := cnt + n;
          filterSpans := lower;
        }
        filterEnd := EndReached(filterCnt) || end - begin < termTime;
      }
      undecided := Bag(filterSpans);
      NarrowFrom(undecided, begin, end, termTime);
      JoinLayers(reversed, dropped, undecided, Bag(blockSpans));
      var n := KeepQueue();
      cnt := cnt + n;
    }

    // Rows that lie wholly behind the first `filterNum` rows are discarded while the undecided rest is halved.
    method FilterUpper(filterNum0: nat, begin0: int, end0: int)
      returns (cnt: nat, ghost discarded: multiset<Row>, ghost undecided: multiset<Row>)
      requires begin0 <= end0 && 2 <= termTime && ValidQueue(filterSpans) && blockSpans == []
      requires Within(Bag(filterSpans), begin0, end0)
      modifies this`filterSpans, this`blockSpans
      ensures filterSpans == [] && ValidQueue(blockSpans) && Bag(blockSpans) + discarded == old(Bag(filterSpans))
      ensures AllBefore(reversed, Bag(blockSpans), discarded) && cnt == |Bag(blockSpans)|
      ensures cnt >= filterNum0 || discarded == multiset{}
      ensures undecided <= Bag(blockSpans) && AllBefore(reversed, Bag(blockSpans) - undecided, undecided)
      ensures cnt <= filterNum0 + |undecided| && (filterNum0 == 0 || Narrow(undecided, termTime))
    {
      hide Bag, SideOf, AllBefore, Within, ValidQueue, Layers, Narrow;
      EmptyFacts(reversed, Bag(filterSpans));
      var filterNum: nat := filterNum0;
      var begin, end, done := begin0, end0, false;
      cnt, discarded := 0, multiset{};
      while !done
        invariant begin <= end && ValidQueue(filterSpans) && ValidQueue(blockSpans)
        invariant Bag(blockSpans) + Bag(filterSpans) + discarded == old(Bag(filterSpans))
        invariant Layers(reversed, Bag(blockSpans), Bag(filterSpans), discarded) && Within(Bag(filterSpans), begin, end)
        invariant filterNum + |Bag(blockSpans)| == filterNum0 && cnt == |Bag(blockSpans)|
        invariant |Bag(filterSpans)| >= filterNum || discarded == multiset{}
        invariant filterNum0 > 0 ==> filterNum > 0
        invariant done ==> filterNum == 0 || end - begin < termTime
        decreases !done, end - begin
      {
        var mid := begin + (end - begin) / 2;
        var lower, lowerCnt := Divide(begin, end);
        Halves(reversed, mid, Bag(lower), Bag(filterSpans), begin, end);
        if lowerCnt >= filterNum {
          UpperGoesLast(reversed, Bag(blockSpans), Bag(lower), Bag(filterSpans), discarded);
          if reversed { begin := mid; } else { end := mid; }
          discarded := discarded + Bag(filterSpans);
          filterSpans := lower;
        } else {
          LowerGoesFirst(reversed, Bag(blockSpans), Bag(lower), Bag(filterSpans), discarded);
          if reversed { end := mid; } else { begin := mid; }
          BagConcat(blockSpans, lower);
          blockSpans := blockSpans + lower;
          cnt := cnt + lowerCnt;
          filterNum := filterNum - lowerCnt;
        }
        done := filterNum <= 0 || end - begin < termTime;
      }
      undecided := Bag(filterSpans);
      NarrowFrom(undecided, begin, end, termTime);
      JoinFirstLayers(reversed, Bag(blockSpans), undecided, discarded);
      var n := KeepQueue();
      cnt := cnt + n;
    }

    /** filterBlockSpan on the spans scanned from one partition. Rows read before the offset are dropped from the
        front, rows read behind the limit from the back. What stays holds every row of the window as long as offset
        and limit add up below 2^32. */
    method FilterPartition(scanned: seq<Span>, begin: int, end: int)
      returns (ghost front: multiset<Row>, ghost back: multiset<Row>, ghost low: multiset<Row>,
               ghost high: multiset<Row>)
      requires begin <= end && 2 <= termTime && filterSpans == blockSpans == []
      requires ValidQueue(scanned) && Within(Bag(scanned), begin, end)
      requires filterCnt + queriedCnt + |Bag(scanned)| < TWO_31
      modifies this
      ensures filterSpans == [] && ValidQueue(blockSpans)
      ensures Pruned(old(filterCnt), old(queriedCnt), Bag(scanned), front, Bag(blockSpans), back, low, high)
      ensures
        var off, lim := Unsigned(offset), Unsigned(limit);
        old(filterCnt) <= off && old(queriedCnt) == 0 && off + lim < TWO_32 ==>
          filterCnt <= off &&
          KeepsWindow(reversed, Bag(scanned), Bag(blockSpans), off - old(filterCnt), off - filterCnt, lim)
    {
      hide Bag, Within, ValidQueue, Layers, KeepsWindow, Narrow, EndReached;
      front, back, low, high := PrunePartition(scanned, begin, end);
      var off, lim := Unsigned(offset), Unsigned(limit);
      if old(filterCnt) <= off && old(queriedCnt) == 0 && off + lim < TWO_32 {
        UnsignedSum(offset, limit, filterCnt);
        WindowKept(reversed, front, Bag(blockSpans), back, off - old(filterCnt), lim);
      }
    }

    // How many rows are still wanted, in 32 bits.
    function Need(dropped: int, read: int): nat { Unsigned(offset + limit - dropped - read) }

    /** What pruning a partition leaves, when `cnt` rows were dropped and `read` rows kept before. Its rows fall into
        three layers; the first is dropped and counted, the last discarded. */
    ghost predicate Pruned(cnt: nat, read: nat, all: multiset<Row>, front: multiset<Row>, kept: multiset<Row>,
                           back: multiset<Row>, low: multiset<Row>, high: multiset<Row>)
      reads this
    {
      && front + kept + back == all && Layers(reversed, front, kept, back)
      && FrontDropped(cnt, all, front, low) && BackDiscarded(read, all, front, kept, back, high)
    }

    // Where the offset is not yet reached, no more than the rows `low` of a narrow stretch of time are left to skip.
    ghost predicate FrontDropped(cnt: nat, all: multiset<Row>, front: multiset<Row>, low: multiset<Row>)
      reads this
    {
      && filterCnt == cnt + |front| && (filterCnt == cnt || filterCnt <= Unsigned(offset))
      && (EndReached(cnt) ==> front == multiset{})
      && (!EndReached(cnt) && cnt + |all| <= Unsigned(offset) ==> front == all)
      && (front == all || EndReached(filterCnt)
          || (low <= all && Narrow(low, termTime) && filterCnt + |low| >= Unsigned(offset)))
    }

    // Where rows are discarded, no more than the rows `high` of a narrow stretch are kept beyond what is needed.
    ghost predicate BackDiscarded(read: nat, all: multiset<Row>, front: multiset<Row>, kept: multiset<Row>,
                                  back: multiset<Row>, high: multiset<Row>)
      reads this
    {
      && queriedCnt == read + |kept| && (back == multiset{} || |kept| >= Need(filterCnt, read))
      && (Need(filterCnt, read) <= (|all| - |front|) / 2 ==>
            && |kept| <= Need(filterCnt, read) + |high| && high <= kept
            && (Need(filterCnt, read) == 0 || Narrow(high, termTime)))
    }

    method PrunePartition(scanned: seq<Span>, begin: int, end: int)
      returns (ghost front: multiset<Row>, ghost back: multiset<Row>, ghost low: multiset<Row>,
               ghost high: multiset<Row>)
      requires begin <= end && 2 <= termTime && filterSpans == blockSpans == []
      requires ValidQueue(scanned) && Within(Bag(scanned), begin, end)
      requires filterCnt + queriedCnt + |Bag(scanned)| < TWO_31
      modifies this
      ensures filterSpans == [] && ValidQueue(blockSpans)
      ensures Pruned(old(filterCnt), old(queriedCnt), Bag(scanned), front, Bag(blockSpans), back, low, high)
    {
      hide Bag, AllBefore, Within, ValidQueue, Layers, Narrow, EndReached, Unsigned, BackDiscarded;
      var rowCnt: nat, done: bool;
      rowCnt, done, front, low := DropFront(scanned, begin, end);
      ghost var rest := Bag(blockSpans);
      if done {
        back, high := multiset{}, multiset{};
        NoneLeft(queriedCnt, front, rest);
      } else {
        PartWithin(front, rest, begin, end);
        back, high := DiscardBack(rowCnt, begin, end, Bag(scanned), front);
      }
      SplitBack(reversed, front, Bag(blockSpans), back);
    }

    lemma NoneLeft(read: nat, front: multiset<Row>, rest: multiset<Row>)
      requires queriedCnt == read && |rest| == 0
      ensures rest + multiset{} == rest && AllBefore(reversed, rest, multiset{})
      ensures BackDiscarded(read, front + rest, front, rest, multiset{}, multiset{})
    {
    }

    // The second half of filterBlockSpan: whether and what to discard behind the limit.
    method DiscardBack(rowCnt0: nat, begin: int, end: int, ghost all: multiset<Row>, ghost front: multiset<Row>)
      returns (ghost back: multiset<Row>, ghost high: multiset<Row>)
      requires begin <= end && 2 <= termTime && filterSpans == [] && ValidQueue(blockSpans)
      requires rowCnt0 == |Bag(blockSpans)| == |all| - |front| && Within(Bag(blockSpans), begin, end)
      modifies this`filterSpans, this`blockSpans, this`queriedCnt
      ensures filterSpans == [] && ValidQueue(blockSpans) && Bag(blockSpans) + back == old(Bag(blockSpans))
      ensures AllBefore(reversed, Bag(blockSpans), back)
      ensures BackDiscarded(old(queriedCnt), all, front, Bag(blockSpans), back, high)
    {
      hide Bag, AllBefore, Within, ValidQueue, Narrow, Unsigned;
      var rowCnt := rowCnt0;
      back, high := multiset{}, multiset{};
      NoneBefore(reversed, Bag(blockSpans));
      var need := Unsigned(offset + limit - filterCnt - queriedCnt);
      if need <= rowCnt / 2 {
        filterSpans, blockSpans := blockSpans, [];
        rowCnt, back, high := FilterUpper(need, begin, end);
      }
      queriedCnt := queriedCnt + rowCnt;
    }

    // The first half of filterBlockSpan, up to the rows that are left to skip. `done` when no row is left.
    method DropFront(scanned: seq<Span>, begin: int, end: int)
      returns (rowCnt: nat, done: bool, ghost front: multiset<Row>, ghost low: multiset<Row>)
      requires begin <= end && 2 <= termTime && filterSpans == blockSpans == []
      requires ValidQueue(scanned) && Within(Bag(scanned), begin, end) && filterCnt + |Bag(scanned)| < TWO_31
      modifies this`filterSpans, this`blockSpans, this`filterCnt, this`filterEnd
      ensures filterSpans == [] && ValidQueue(blockSpans) && front + Bag(blockSpans) == Bag(scanned)
      ensures AllBefore(reversed, front, Bag(blockSpans)) && (done ==> rowCnt == 0)
      ensures rowCnt == |Bag(blockSpans)| && |Bag(scanned)| == |front| + rowCnt
      ensures FrontDropped(old(filterCnt), Bag(scanned), front, low)
    {
      hide Bag, AllBefore, Within, ValidQueue, Narrow, EndReached, Unsigned;
      front, low, done := multiset{}, multiset{}, false;
      EmptyFacts(reversed, Bag(scanned));
      NoneBefore(reversed, Bag(scanned));
      filterSpans := scanned;
      rowCnt := RowTotal(scanned);
      UnsignedId(filterCnt + rowCnt);
      if rowCnt == 0 {
        NoRows(scanned);
        return 0, true, front, low;
      }
      filterEnd := EndReached(filterCnt);
      if !filterEnd {
        if Unsigned(filterCnt + rowCnt) <= Unsigned(offset) {
          filterCnt, front := filterCnt + rowCnt, Bag(scanned);
          filterSpans := [];
          filterEnd := EndReached(filterCnt);
          return 0, true, front, low;
        } else {
          rowCnt, front, low := FilterLower(begin, end);
          SubLater(front, low, Bag(blockSpans));
        }
      } else {
        blockSpans := filterSpans;
        filterSpans := [];
      }
    }
  }

  lemma NoneBefore(reversed: bool, a: multiset<Row>)
    ensures AllBefore(reversed, multiset{}, a) && AllBefore(reversed, a, multiset{})
    ensures multiset{} + a == a == a + multiset{}
  {
  }

  lemma SubLater(a: multiset<Row>, b: multiset<Row>, c: multiset<Row>)
    requires b <= c
    ensures b <= a + c
  {
  }

  // How many rows a queue holds.
  method RowTotal(q: seq<Span>) returns (n: nat)
    requires ValidQueue(q)
    ensures n == |Bag(q)|
  {
    n := 0;
    var i := 0;
    while i < |q|
      invariant 0 <= i <= |q| && n + |Bag(q[i..])| == |Bag(q)|
    {
      n := n + q[i].num;
      i := i + 1;
    }
  }

  // Every row of each group is read before every row of the groups behind it.
  predicate Layers(reversed: bool, a: multiset<Row>, b: multiset<Row>, c: multiset<Row>)
  {
    AllBefore(reversed, a, b) && AllBefore(reversed, a, c) && AllBefore(reversed, b, c)
  }

  predicate Narrow(a: multiset<Row>, width: int)
  {
    forall x, y :: x in a && y in a ==> x.ts - y.ts < width
  }

  lemma NarrowFrom(a: multiset<Row>, begin: int, end: int, width: int)
    requires Within(a, begin, end)
    ensures end - begin < width ==> Narrow(a, width)
  {
  }

  lemma EmptyFacts(reversed: bool, a: multiset<Row>)
    ensures Bag([]) == multiset{} && ValidQueue([]) && Layers(reversed, multiset{}, a, multiset{})
  {
  }

  lemma Halves(reversed: bool, mid: int, low: multiset<Row>, up: multiset<Row>, begin: int, end: int)
    requires SideOf(reversed, mid, low, true) && SideOf(reversed, mid, up, false) && Within(low + up, begin, end)
    ensures AllBefore(reversed, low, up)
    ensures if reversed then Within(low, mid, end) && Within(up, begin, mid)
      else Within(low, begin, mid) && Within(up, mid, end)
  {
    forall x | x in low || x in up
      ensures begin <= x.ts <= end
    {
      assert x in low + up;
    }
  }

  lemma LowerGoesFirst(reversed: bool, a: multiset<Row>, low: multiset<Row>, up: multiset<Row>, c: multiset<Row>)
    requires Layers(reversed, a, low + up, c) && AllBefore(reversed, low, up)
    ensures Layers(reversed, a + low, up, c)
    ensures (a + low) + up + c == a + (low + up) + c && |a + low| == |a| + |low| && |low + up| == |low| + |up|
  {
    SubBefore(reversed, a, low, up, c);
  }

  lemma UpperGoesLast(reversed: bool, a: multiset<Row>, low: multiset<Row>, up: multiset<Row>, c: multiset<Row>)
    requires Layers(reversed, a, low + up, c) && AllBefore(reversed, low, up)
    ensures Layers(reversed, a, low, c + up)
    ensures a + low + (c + up) == a + (low + up) + c && |c + up| == |c| + |up| && |low + up| == |low| + |up|
  {
    SubBefore(reversed, a, low, up, c);
  }

  lemma SubBefore(reversed: bool, a: multiset<Row>, low: multiset<Row>, up: multiset<Row>, c: multiset<Row>)
    requires Layers(reversed, a, low + up, c)
    ensures AllBefore(reversed, a, low) && AllBefore(reversed, a, up) && AllBefore(reversed, low, c)
      && AllBefore(reversed, up, c)
  {
    forall x | x in low || x in up
      ensures x in low + up
    {
    }
  }

  lemma JoinLayers(reversed: bool, a: multiset<Row>, b: multiset<Row>, c: multiset<Row>)
    requires Layers(reversed, a, b, c)
    ensures AllBefore(reversed, a, c + b) && AllBefore(reversed, b, (c + b) - b) && b <= c + b
  {
  }

  lemma BagFirst(q: seq<Span>)
    requires ValidQueue(q) && q != []
    ensures Bag(q) == Bag(q[..1]) + Bag(q[1..]) && q[..1] == [q[0]]
  {
    assert Bag([q[0]]) == multiset(RowsOf(q[0])) + Bag([]);
  }

  lemma BothSides(reversed: bool, mid: int, a: multiset<Row>, b: multiset<Row>, lower: bool)
    requires SideOf(reversed, mid, a, lower) && SideOf(reversed, mid, b, lower)
    ensures SideOf(reversed, mid, a + b, lower)
  {
  }

  lemma JoinFirstLayers(reversed: bool, a: multiset<Row>, b: multiset<Row>, c: multiset<Row>)
    requires Layers(reversed, a, b, c)
    ensures AllBefore(reversed, a + b, c) && AllBefore(reversed, (a + b) - b, b) && b <= a + b
  {
  }

  lemma NoRows(q: seq<Span>)
    requires ValidQueue(q) && |Bag(q)| == 0
    ensures q == [] && Bag(q) == multiset{}
  {
  }

  lemma PartWithin(a: multiset<Row>, b: multiset<Row>, begin: int, end: int)
    requires Within(a + b, begin, end)
    ensures Within(b, begin, end)
  {
    forall x | x in b
      ensures begin <= x.ts <= end
    {
      assert x in a + b;
    }
  }

  lemma SplitBack(reversed: bool, a: multiset<Row>, b: multiset<Row>, c: multiset<Row>)
    requires AllBefore(reversed, a, b + c) && AllBefore(reversed, b, c)
    ensures Layers(reversed, a, b, c) && a + b + c == a + (b + c)
  {
    forall x | x in b || x in c
      ensures x in b + c
    {
    }
  }

  // ---------- the window a query asks for ----------

  // Rows `skip`, `skip + 1`, ... of a listing, at most `limit` of them.
  function Window(s: seq<Row>, skip: nat, limit: nat): seq<Row>
  {
    if skip >= |s| then [] else if skip + limit >= |s| then s[skip..] else s[skip..skip + limit]
  }

  // A scan-ordered listing of two layers lists the first layer first.
  lemma {:induction false} FirstLayerFirst(reversed: bool, s: seq<Row>, a: multiset<Row>, b: multiset<Row>)
    requires ScanOrdered(reversed, s) && multiset(s) == a + b && AllBefore(reversed, a, b)
    ensures |a| <= |s| && multiset(s[..|a|]) == a && multiset(s[|a|..]) == b
    decreases |s|
  {
    hide AllBefore, ScanOrdered;
    if |a| == 0 {
      assert s[..0] == [] && s[0..] == s;
    } else {
      assert |s| == |multiset(s)| == |a| + |b|;
      HeadInFirst(reversed, s, a, b);
      WithoutHead(reversed, s, a, b);
      FirstLayerFirst(reversed, s[1..], a - multiset{s[0]}, b);
      WithHead(s, a, b);
    }
  }

  lemma WithHead(s: seq<Row>, a: multiset<Row>, b: multiset<Row>)
    requires s != [] && s[0] in a && |a| <= |s|
    requires multiset(s[1..][..|a| - 1]) == a - multiset{s[0]} && multiset(s[1..][|a| - 1..]) == b
    ensures multiset(s[..|a|]) == a && multiset(s[|a|..]) == b
  {
    assert s[..|a|] == [s[0]] + s[1..][..|a| - 1];
    assert s[|a|..] == s[1..][|a| - 1..];
  }

  lemma WithoutHead(reversed: bool, s: seq<Row>, a: multiset<Row>, b: multiset<Row>)
    requires ScanOrdered(reversed, s) && multiset(s) == a + b && AllBefore(reversed, a, b) && s != [] && s[0] in a
    ensures ScanOrdered(reversed, s[1..]) && multiset(s[1..]) == (a - multiset{s[0]}) + b
    ensures AllBefore(reversed, a - multiset{s[0]}, b)
  {
    assert s == [s[0]] + s[1..];
    assert multiset(s) == multiset{s[0]} + multiset(s[1..]);
    var rest := (a - multiset{s[0]}) + b;
    assert rest + multiset{s[0]} == a + b == multiset(s[1..]) + multiset{s[0]};
    Cancel(multiset(s[1..]), rest, s[0]);
  }

  lemma HeadInFirst(reversed: bool, s: seq<Row>, a: multiset<Row>, b: multiset<Row>)
    requires ScanOrdered(reversed, s) && multiset(s) == a + b && AllBefore(reversed, a, b) && a != multiset{}
    ensures s != [] && s[0] in a
  {
    var x :| x in a;
    assert x in multiset(s);
    var j :| 0 <= j < |s| && s[j] == x;
    assert s[0] in multiset(s);
    assert !Before(reversed, s[j].ts, s[0].ts);
  }

  /** Reading the kept rows in scan order and skipping only what is left of the offset gives the very rows that
      listing all rows in scan order, skipping the whole offset and taking `limit` rows gives. */
  ghost predicate KeepsWindow(reversed: bool, all: multiset<Row>, kept: multiset<Row>, skip: nat, left: nat, limit: nat)
  {
    forall s :: ScanOrdered(reversed, s) && multiset(s) == all ==>
      exists k :: ScanOrdered(reversed, k) && multiset(k) == kept && Window(k, left, limit) == Window(s, skip, limit)
  }

  lemma WindowKept(reversed: bool, front: multiset<Row>, kept: multiset<Row>, back: multiset<Row>, skip: nat,
                   limit: nat)
    requires Layers(reversed, front, kept, back)
    requires |front| <= skip && (back == multiset{} || |kept| >= skip + limit - |front|)
    ensures KeepsWindow(reversed, front + kept + back, kept, skip, skip - |front|, limit)
  {
    hide ScanOrdered, Layers, Window;
    forall s | ScanOrdered(reversed, s) && multiset(s) == front + kept + back
      ensures exists k :: ScanOrdered(reversed, k) && multiset(k) == kept
                && Window(k, skip - |front|, limit) == Window(s, skip, limit)
    {
      var k := SameWindow(reversed, s, front, kept, back, skip, limit);
    }
  }

  lemma SameWindow(reversed: bool, s: seq<Row>, front: multiset<Row>, kept: multiset<Row>, back: multiset<Row>,
                   skip: nat, limit: nat) returns (k: seq<Row>)
    requires ScanOrdered(reversed, s) && multiset(s) == front + kept + back && Layers(reversed, front, kept, back)
    requires |front| <= skip && (back == multiset{} || |kept| >= skip + limit - |front|)
    ensures ScanOrdered(reversed, k) && multiset(k) == kept
      && Window(k, skip - |front|, limit) == Window(s, skip, limit)
  {
    hide AllBefore, ScanOrdered, Layers, Window;
    LayerFacts(reversed, front, kept, back);
    FirstLayerFirst(reversed, s, front, kept + back);
    Slices(reversed, s, |front|, |s|);
    var rest := s[|front|..];
    FirstLayerFirst(reversed, rest, kept, back);
    Slices(reversed, rest, 0, |kept|);
    k := rest[..|kept|];
    assert |multiset(rest)| == |kept| + |back|;
    WindowOfMiddle(s, |front|, |kept|, skip, limit);
  }

  lemma LayerFacts(reversed: bool, a: multiset<Row>, b: multiset<Row>, c: multiset<Row>)
    requires Layers(reversed, a, b, c)
    ensures AllBefore(reversed, a, b + c) && AllBefore(reversed, b, c) && a + (b + c) == a + b + c
  {
  }

  lemma Slices(reversed: bool, s: seq<Row>, from: nat, to: nat)
    requires ScanOrdered(reversed, s) && from <= to <= |s|
    ensures ScanOrdered(reversed, s[from..to]) && s[from..|s|] == s[from..] && s[0..to] == s[..to]
  {
  }

  lemma WindowOfMiddle(s: seq<Row>, from: nat, n: nat, skip: nat, limit: nat)
    requires from + n <= |s| && from <= skip && (from + n == |s| || from + n >= skip + limit)
    ensures Window(s[from..][..n], skip - from, limit) == Window(s, skip, limit)
  {
    var k := s[from..][..n];
    assert |k| == n && forall i :: 0 <= i < n ==> k[i] == s[from + i];
    if skip < |s| && skip - from < n {
      var end := if skip + limit >= |s| then |s| else skip + limit;
      assert k[skip - from..end - from] == s[skip..end];
      assert k[skip - from..] == k[skip - from..n] && s[skip..] == s[skip..|s|];
    } else if skip < |s| {
      assert limit == 0;
    }
  }
}
