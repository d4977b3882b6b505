/** Deciding from a block's column statistics that no row of the block can satisfy the query's filters. */
module BlockFilter {
  import opened Words
  import DelRange

  // ---------- values and their order ----------

  datatype Value = Num(n: int) | Dbl(d: real) | Bytes(s: seq<Byte>)

  function Kind(v: Value): int
  {
    match v
    case Num(_) => 0
    case Dbl(_) => 1
    case Bytes(_) => 2
  }

  // The order of values: of numbers as numbers, of byte strings as in a dictionary.
  predicate Less(a: Value, b: Value)
  {
    match (a, b)
    case (Num(x), Num(y)) => x < y
    case (Dbl(x), Dbl(y)) => x < y
    case (Bytes(x), Bytes(y)) => Earlier(x, y)
    case _ => Kind(a) < Kind(b)
  }

  // At the first difference `a` has the smaller byte, or `a` ends there and `b` goes on.
  predicate Earlier(a: seq<Byte>, b: seq<Byte>)
  {
    exists n :: 0 <= n <= |a| && n < |b| && a[..n] == b[..n] && (n == |a| || a[n] < b[n])
  }

  // Comparing the common part byte by byte, then the lengths.
  function CmpBytes(a: seq<Byte>, b: seq<Byte>): int
  {
    if a == [] || b == [] then |a| - |b|
    else if a[0] != b[0] then a[0] - b[0]
    else CmpBytes(a[1..], b[1..])
  }

  // Negative, zero or positive as `a` is below, equal to or above `b`.
  function Cmp(a: Value, b: Value): int
  {
    match (a, b)
    case (Num(x), Num(y)) => if x < y then -1 else if x > y then 1 else 0
    case (Dbl(x), Dbl(y)) => if x < y then -1 else if x > y then 1 else 0
    case (Bytes(x), Bytes(y)) => CmpBytes(x, y)
    case _ => Kind(a) - Kind(b)
  }

  /** The comparison is that order. */
  lemma CmpMeans(a: Value, b: Value)
    ensures (Cmp(a, b) < 0 <==> Less(a, b)) && (Cmp(a, b) > 0 <==> Less(b, a)) && (Cmp(a, b) == 0 <==> a == b)
  {
    if a.Bytes? && b.Bytes? {
      CmpBytesMeans(a.s, b.s);
    }
  }

  lemma {:induction false} CmpBytesMeans(a: seq<Byte>, b: seq<Byte>)
    ensures (CmpBytes(a, b) < 0 <==> Earlier(a, b)) && (CmpBytes(a, b) > 0 <==> Earlier(b, a))
    ensures CmpBytes(a, b) == 0 <==> a == b
  {
    if a == [] || b == [] {
      ShortEarlier(a, b);
      ShortEarlier(b, a);
    } else if a[0] != b[0] {
      HeadEarlier(a, b);
      HeadEarlier(b, a);
    } else {
      CmpBytesMeans(a[1..], b[1..]);
      TailEarlier(a, b);
      TailEarlier(b, a);
      assert a == [a[0]] + a[1..] && b == [b[0]] + b[1..];
    }
  }

  lemma ShortEarlier(a: seq<Byte>, b: seq<Byte>)
    requires a == [] || b == []
    ensures Earlier(a, b) <==> |a| < |b|
  {
    if |a| < |b| {
      assert a[..0] == b[..0];
    }
  }

  lemma HeadEarlier(a: seq<Byte>, b: seq<Byte>)
    requires a != [] && b != [] && a[0] != b[0]
    ensures Earlier(a, b) <==> a[0] < b[0]
  {
    if a[0] < b[0] {
      assert a[..0] == b[..0];
    }
    if n :| 0 <= n <= |a| && n < |b| && a[..n] == b[..n] && (n == |a| || a[n] < b[n]) {
      SameHead(a, b, n);
    }
  }

  lemma SameHead(a: seq<Byte>, b: seq<Byte>, n: nat)
    requires n <= |a| && n <= |b| && a[..n] == b[..n]
    ensures n > 0 ==> a[0] == b[0]
  {
    if n > 0 {
      assert a[..n][0] == a[0];
    }
  }

  lemma TailEarlier(a: seq<Byte>, b: seq<Byte>)
    requires a != [] && b != [] && a[0] == b[0]
    ensures Earlier(a, b) <==> Earlier(a[1..], b[1..])
  {
    var c, d := a[1..], b[1..];
    if n :| 0 <= n <= |c| && n < |d| && c[..n] == d[..n] && (n == |c| || c[n] < d[n]) {
      assert a[..n + 1] == [a[0]] + c[..n] && b[..n + 1] == [b[0]] + d[..n];
      assert n + 1 == |a| || a[n + 1] < b[n + 1];
    }
    if n :| 0 <= n <= |a| && n < |b| && a[..n] == b[..n] && (n == |a| || a[n] < b[n]) {
      assert n > 0;
      assert c[..n - 1] == a[..n][1..] == b[..n][1..] == d[..n - 1];
      assert n - 1 == |c| || c[n - 1] < d[n - 1];
    }
  }

  lemma {:induction false} CmpBytesOrder(a: seq<Byte>, b: seq<Byte>, c: seq<Byte>)
    ensures CmpBytes(a, a) == 0 && (CmpBytes(a, b) < 0 <==> CmpBytes(b, a) > 0)
    ensures CmpBytes(a, b) <= 0 && CmpBytes(b, c) <= 0 ==>
              CmpBytes(a, c) <= 0 && (CmpBytes(a, b) < 0 || CmpBytes(b, c) < 0 ==> CmpBytes(a, c) < 0)
    decreases |a| + |b| + |c|
  {
    if a != [] && b != [] && c != [] {
      CmpBytesOrder(a[1..], b[1..], c[1..]);
    } else if a != [] && b != [] {
      CmpBytesOrder(a[1..], b[1..], c);
    } else if a != [] {
      CmpBytesOrder(a[1..], b, c);
    }
  }

  lemma CmpOrder(a: Value, b: Value, c: Value)
    ensures Cmp(a, a) == 0 && (Cmp(a, b) < 0 <==> Cmp(b, a) > 0)
    ensures Cmp(a, b) <= 0 && Cmp(b, c) <= 0 ==> Cmp(a, c) <= 0 && (Cmp(a, b) < 0 || Cmp(b, c) < 0 ==> Cmp(a, c) < 0)
  {
    if a.Bytes? && b.Bytes? && c.Bytes? {
      CmpBytesOrder(a.s, b.s, c.s);
    } else if a.Bytes? && b.Bytes? {
      CmpBytesOrder(a.s, b.s, []);
    } else if a.Bytes? {
      CmpBytesOrder(a.s, [], []);
    }
  }

  // ---------- filters ----------

  datatype Boundary = Include | Exclude | Unbounded

  datatype FilterSpan = FilterSpan(start: Value, end: Value, startBoundary: Boundary, endBoundary: Boundary)

  datatype FilterType = InSpans | IsNull | NotNull

  datatype Filter = Filter(col: nat, kind: FilterType, spans: seq<FilterSpan>)

  predicate AboveStart(s: FilterSpan, v: Value)
  {
    match s.startBoundary
    case Unbounded => true
    case Include => !Less(v, s.start)
    case Exclude => Less(s.start, v)
  }

  predicate BelowEnd(s: FilterSpan, v: Value)
  {
    match s.endBoundary
    case Unbounded => true
    case Include => !Less(s.end, v)
    case Exclude => Less(v, s.end)
  }

  predicate InSpan(s: FilterSpan, v: Value) { AboveStart(s, v) && BelowEnd(s, v) }

  predicate InSomeSpan(spans: seq<FilterSpan>, v: Value)
  {
    exists i :: 0 <= i < |spans| && InSpan(spans[i], v)
  }

  // What a filter asks of a column value; None is null.
  predicate Fits(f: Filter, v: Option<Value>)
  {
    match f.kind
    case InSpans => v.Some? && InSomeSpan(f.spans, v.value)
    case IsNull => v.None? || InSomeSpan(f.spans, v.value)
    case NotNull => v.Some?
  }

  // The interval from `min` to `max` reaches into the span.
  predicate Touches(s: FilterSpan, min: Value, max: Value) { AboveStart(s, max) && BelowEnd(s, min) }

  /** matchesFilterRange: some span of the filter is touched by the interval. */
  method MatchesFilterRange(f: Filter, min: Value, max: Value) returns (r: bool)
    ensures r <==> exists i :: 0 <= i < |f.spans| && Touches(f.spans[i], min, max)
  {
    hide Cmp, Less;
    var i := 0;
    while i < |f.spans|
      invariant 0 <= i <= |f.spans| && forall k :: 0 <= k < i ==> !Touches(f.spans[k], min, max)
    {
      var s := f.spans[i];
      if s.startBoundary == Unbounded && s.endBoundary == Unbounded {
        return true;
      }
      var minRes, maxRes := Cmp(min, s.end), Cmp(max, s.start);
      CmpMeans(min, s.end);
      CmpMeans(max, s.start);
      if s.startBoundary == Unbounded
        && ((s.endBoundary == Include && minRes <= 0) || (s.endBoundary == Exclude && minRes < 0)) {
        return true;
      } else if s.endBoundary == Unbounded
        && ((s.startBoundary == Include && maxRes >= 0) || (s.startBoundary == Exclude && maxRes > 0)) {
        return true;
      } else if !((s.endBoundary == Include && minRes > 0) || (s.endBoundary == Exclude && minRes >= 0)
                  || (s.startBoundary == Include && maxRes < 0) || (s.startBoundary == Exclude && maxRes <= 0)) {
        return true;
      }
      i := i + 1;
    }
    r := false;
  }

  // ---------- blocks ----------

  // A row: a timestamp and the columns that are not null. The OSN by which rows of equal timestamps are ranked is one
  // of the columns.
  datatype Row = Row(ts: DelRange.Ts, vals: map<nat, Value>)

  // A block, with the statistics of its columns if they are stored with it.
  datatype Block = Block(rows: seq<Row>, columns: set<nat>, notNull: set<nat>, stored: Option<map<nat, Stats>>)

  function Column(r: Row, c: nat): Option<Value> { if c in r.vals then Some(r.vals[c]) else None }

  // Rows in time order; columns the block does not have are null, columns declared so are not.
  ghost predicate ValidBlock(b: Block)
  {
    && (forall i, j :: 0 <= i <= j < |b.rows| ==> b.rows[i].ts <= b.rows[j].ts)
    && (forall i :: 0 <= i < |b.rows| ==> b.notNull <= b.rows[i].vals.Keys <= b.columns)
    && (b.stored.Some? ==>
          forall c :: c in b.columns ==> c in b.stored.value && IsStats(b.stored.value[c], b.rows, c))
  }

  // Some row has this value in the column.
  predicate Has(rows: seq<Row>, c: nat, v: Option<Value>)
  {
    exists i :: 0 <= i < |rows| && Column(rows[i], c) == v
  }

  lemma HasPush(rows: seq<Row>, r: Row, c: nat, v: Option<Value>)
    ensures Has(rows + [r], c, v) <==> Has(rows, c, v) || Column(r, c) == v
  {
    assert (rows + [r])[|rows|] == r;
    if Has(rows, c, v) {
      var i :| 0 <= i < |rows| && Column(rows[i], c) == v;
      assert (rows + [r])[i] == rows[i];
    }
  }

  // How many values a column has, and the least and the greatest of them.
  datatype Stats = Stats(count: nat, min: Option<Value>, max: Option<Value>)

  predicate Between(s: Stats, v: Value)
  {
    s.min.Some? && s.max.Some? && !Less(v, s.min.value) && !Less(s.max.value, v)
  }

  function ValueCount(rows: seq<Row>, c: nat): nat
  {
    if rows == [] then 0
    else ValueCount(rows[..|rows| - 1], c) + if Column(rows[|rows| - 1], c).Some? then 1 else 0
  }

  lemma ValueCountPush(rows: seq<Row>, r: Row, c: nat)
    ensures ValueCount(rows + [r], c) == ValueCount(rows, c) + if Column(r, c).Some? then 1 else 0
  {
    assert (rows + [r])[..|rows|] == rows;
  }

  ghost predicate IsStats(s: Stats, rows: seq<Row>, c: nat)
  {
    && s.count == ValueCount(rows, c) && s.count <= |rows| && (s.count == |rows| <==> !Has(rows, c, None))
    && (if s.count == 0 then s.min == s.max == None
       else Has(rows, c, s.min) && Has(rows, c, s.max) && s.min.Some? && s.max.Some?)
    && (forall v :: Has(rows, c, Some(v)) ==> Between(s, v))
  }

  // The statistics with one more value.
  function Count(s: Stats, v: Value): Stats
    requires s.count == 0 || (s.min.Some? && s.max.Some?)
  {
    if s.count == 0 then Stats(1, Some(v), Some(v))
    else if Cmp(v, s.min.value) < 0 then s.(count := s.count + 1, min := Some(v))
    else if Cmp(v, s.max.value) > 0 then s.(count := s.count + 1, max := Some(v))
    else s.(count := s.count + 1)
  }

  lemma CountBetween(s: Stats, v: Value, w: Value)
    requires s.count == 0 || (s.min.Some? && s.max.Some? && Cmp(s.min.value, s.max.value) <= 0)
    ensures Between(Count(s, v), v) && (s.count > 0 && Between(s, w) ==> Between(Count(s, v), w))
    ensures var s' := Count(s, v); Cmp(s'.min.value, s'.max.value) <= 0
  {
    hide Cmp, Less;
    CmpOrder(v, v, v);
    CmpMeans(v, v);
    if s.count > 0 {
      CmpMeans(s.min.value, w);
      CmpMeans(s.max.value, w);
      CmpMeans(v, w);
      CmpMeans(v, s.min.value);
      CmpMeans(v, s.max.value);
      CmpMeans(s.max.value, v);
      CmpMeans(w, s.max.value);
      CmpMeans(w, v);
      CmpOrder(v, s.min.value, w);
      CmpOrder(w, s.max.value, v);
      CmpOrder(s.min.value, v, s.max.value);
      CmpOrder(v, s.min.value, s.max.value);
      CmpOrder(s.min.value, s.max.value, v);
      CmpOrder(s.max.value, v, v);
    }
  }

  /** getBlockSpanMinMaxValue and the count of values: one pass over the rows. */
  method ColumnStats(rows: seq<Row>, c: nat) returns (s: Stats)
    ensures IsStats(s, rows, c)
  {
    hide Cmp, Has, Between, Count, ValueCount;
    s := Stats(0, None, None);
    var i := 0;
    NoRows(c);
    while i < |rows|
      invariant 0 <= i <= |rows| && IsStats(s, rows[..i], c)
      invariant s.count > 0 ==> Cmp(s.min.value, s.max.value) <= 0
    {
      assert rows[..i + 1] == rows[..i] + [rows[i]];
      match Column(rows[i], c) {
        case None => StatsSkip(s, rows[..i], rows[i], c);
        case Some(v) =>
          StatsStep(s, rows[..i], rows[i], c, v);
          s := Count(s, v);
      }
      i := i + 1;
    }
    assert rows[..i] == rows;
  }

  lemma NoRows(c: nat)
    ensures ValueCount([], c) == 0 && forall v :: !Has([], c, v)
  {
  }

  lemma StatsSkip(s: Stats, rows: seq<Row>, r: Row, c: nat)
    requires IsStats(s, rows, c) && Column(r, c) == None
    ensures IsStats(s, rows + [r], c)
  {
    hide Cmp, Has, Between, ValueCount;
    ValueCountPush(rows, r, c);
    HasPush(rows, r, c, None);
    HasPush(rows, r, c, s.min);
    HasPush(rows, r, c, s.max);
    forall v | Has(rows + [r], c, Some(v))
      ensures Between(s, v)
    {
      HasPush(rows, r, c, Some(v));
    }
  }

  lemma StatsStep(s: Stats, rows: seq<Row>, r: Row, c: nat, v: Value)
    requires IsStats(s, rows, c) && Column(r, c) == Some(v) && (s.count > 0 ==> Cmp(s.min.value, s.max.value) <= 0)
    ensures IsStats(Count(s, v), rows + [r], c) && Cmp(Count(s, v).min.value, Count(s, v).max.value) <= 0
  {
    hide Cmp, Has, Between, ValueCount;
    ValueCountPush(rows, r, c);
    var s' := Count(s, v);
    HasPush(rows, r, c, None);
    HasPush(rows, r, c, s'.min);
    HasPush(rows, r, c, s'.max);
    CountBetween(s, v, v);
    forall w | Has(rows + [r], c, Some(w))
      ensures Between(s', w)
    {
      HasPush(rows, r, c, Some(w));
      CountBetween(s, v, w);
      if s.count == 0 && Has(rows, c, Some(w)) {
        BetweenMeansSome(s, w);
      }
    }
  }

  lemma BetweenMeansSome(s: Stats, w: Value)
    requires Between(s, w)
    ensures s.min.Some?
  {
  }

  // ---------- skipping a block ----------

  predicate AllNull(b: Block, c: nat) { forall i :: 0 <= i < |b.rows| ==> Column(b.rows[i], c) == None }

  // The column has values, and for every span they are all on one side of it.
  ghost predicate OutOfRange(f: Filter, b: Block)
  {
    && !AllNull(b, f.col)
    && forall i :: 0 <= i < |f.spans| ==>
         || (forall v :: Has(b.rows, f.col, Some(v)) ==> !AboveStart(f.spans[i], v))
         || (forall v :: Has(b.rows, f.col, Some(v)) ==> !BelowEnd(f.spans[i], v))
  }

  // When one filter alone rules a block out.
  ghost predicate RulesOut(f: Filter, b: Block)
  {
    match f.kind
    case InSpans => f.col !in b.columns || OutOfRange(f, b)
    case IsNull => f.col in b.columns && !Has(b.rows, f.col, None) && (f.spans == [] || OutOfRange(f, b))
    case NotNull => AllNull(b, f.col) && (f.spans == [] || f.col !in b.columns)
  }

  ghost predicate Filtered(filters: seq<Filter>, b: Block)
  {
    exists i :: 0 <= i < |filters| && RulesOut(filters[i], b)
  }

  /** Soundness: in a block that a filter rules out, no row's value of the column fits the filter, so neither does a
      row put together from values of several of its rows. */
  lemma RuledOutFitsNothing(f: Filter, b: Block, v: Option<Value>)
    requires ValidBlock(b) && RulesOut(f, b) && Has(b.rows, f.col, v)
    ensures !Fits(f, v)
  {
    hide Cmp;
    var i :| 0 <= i < |b.rows| && Column(b.rows[i], f.col) == v;
    if v.Some? && OutOfRange(f, b) {
      forall k | 0 <= k < |f.spans|
        ensures !InSpan(f.spans[k], v.value)
      {
      }
    }
  }

  // The column holds integers, and so do the bounds of the filter.
  predicate IntegerColumn(f: Filter, b: Block)
  {
    && (forall i :: 0 <= i < |b.rows| && f.col in b.rows[i].vals ==> b.rows[i].vals[f.col].Num?)
    && (forall i :: 0 <= i < |f.spans| ==> f.spans[i].start.Num? && f.spans[i].end.Num?)
  }

  // The integer lies before the span, or behind it.
  predicate BeforeSpan(s: FilterSpan, x: int)
    requires s.start.Num?
  {
    (s.startBoundary == Include && x < s.start.n) || (s.startBoundary == Exclude && x <= s.start.n)
  }

  predicate BehindSpan(s: FilterSpan, x: int)
    requires s.end.Num?
  {
    (s.endBoundary == Include && x > s.end.n) || (s.endBoundary == Exclude && x >= s.end.n)
  }

  /** For integers, in plain inequalities: a block is ruled out by a filter on spans exactly when it lacks the column,
      or has a value, and for every span all its values lie before it or all lie behind it. */
  lemma RulesOutIntegers(f: Filter, b: Block)
    requires ValidBlock(b) && f.kind == InSpans && IntegerColumn(f, b)
    ensures RulesOut(f, b) <==>
      || f.col !in b.columns
      || (&& (exists i :: 0 <= i < |b.rows| && f.col in b.rows[i].vals)
          && forall k :: 0 <= k < |f.spans| ==>
               || (forall i :: 0 <= i < |b.rows| && f.col in b.rows[i].vals ==>
                     BeforeSpan(f.spans[k], b.rows[i].vals[f.col].n))
               || (forall i :: 0 <= i < |b.rows| && f.col in b.rows[i].vals ==>
                     BehindSpan(f.spans[k], b.rows[i].vals[f.col].n)))
  {
    hide IsStats;
    forall k | 0 <= k < |f.spans|
      ensures (forall v :: Has(b.rows, f.col, Some(v)) ==> !AboveStart(f.spans[k], v))
         <==> (forall i :: 0 <= i < |b.rows| && f.col in b.rows[i].vals ==>
                 BeforeSpan(f.spans[k], b.rows[i].vals[f.col].n))
      ensures (forall v :: Has(b.rows, f.col, Some(v)) ==> !BelowEnd(f.spans[k], v))
         <==> (forall i :: 0 <= i < |b.rows| && f.col in b.rows[i].vals ==>
                 BehindSpan(f.spans[k], b.rows[i].vals[f.col].n))
    {
      forall i | 0 <= i < |b.rows| && f.col in b.rows[i].vals
        ensures Has(b.rows, f.col, Some(b.rows[i].vals[f.col]))
      {
        assert Column(b.rows[i], f.col) == Some(b.rows[i].vals[f.col]);
      }
    }
    assert AllNull(b, f.col) <==> forall i :: 0 <= i < |b.rows| ==> f.col !in b.rows[i].vals;
  }

  /** Without spans a filter asks for null or for a value: a block is ruled out exactly when every row has the column,
      or when none has. */
  lemma RulesOutNulls(f: Filter, b: Block)
    requires ValidBlock(b) && f.spans == []
    ensures f.kind == IsNull ==>
      (RulesOut(f, b) <==> f.col in b.columns && forall i :: 0 <= i < |b.rows| ==> f.col in b.rows[i].vals)
    ensures f.kind == NotNull ==> (RulesOut(f, b) <==> forall i :: 0 <= i < |b.rows| ==> f.col !in b.rows[i].vals)
  {
    hide IsStats, Less;
    assert forall i :: 0 <= i < |b.rows| ==> (Column(b.rows[i], f.col) == None <==> f.col !in b.rows[i].vals);
  }

  // What a filter on spans asks of an integer, in plain inequalities.
  lemma FitsInteger(f: Filter, x: int)
    requires f.kind == InSpans && forall i :: 0 <= i < |f.spans| ==> f.spans[i].start.Num? && f.spans[i].end.Num?
    ensures Fits(f, Some(Num(x)))
       <==> exists k :: 0 <= k < |f.spans| && !BeforeSpan(f.spans[k], x) && !BehindSpan(f.spans[k], x)
  {
    forall k | 0 <= k < |f.spans|
      ensures InSpan(f.spans[k], Num(x)) <==> !BeforeSpan(f.spans[k], x) && !BehindSpan(f.spans[k], x)
    {
    }
  }

  // The least and the greatest value decide whether all values are on one side of a span.
  lemma ExtremesDecide(s: Stats, b: Block, f: Filter)
    requires IsStats(s, b.rows, f.col) && s.count > 0
    ensures OutOfRange(f, b) <==> !exists i :: 0 <= i < |f.spans| && Touches(f.spans[i], s.min.value, s.max.value)
  {
    hide Cmp;
    var min, max := s.min.value, s.max.value;
    assert !AllNull(b, f.col);
    forall i | 0 <= i < |f.spans|
      ensures AboveStart(f.spans[i], max) <==> exists v :: Has(b.rows, f.col, Some(v)) && AboveStart(f.spans[i], v)
      ensures BelowEnd(f.spans[i], min) <==> exists v :: Has(b.rows, f.col, Some(v)) && BelowEnd(f.spans[i], v)
    {
      assert Has(b.rows, f.col, Some(max)) && Has(b.rows, f.col, Some(min));
      forall v | Has(b.rows, f.col, Some(v))
        ensures AboveStart(f.spans[i], v) ==> AboveStart(f.spans[i], max)
        ensures BelowEnd(f.spans[i], v) ==> BelowEnd(f.spans[i], min)
      {
        assert Between(s, v);
        OneSided(f.spans[i], min, v, max);
      }
    }
  }

  lemma OneSided(s: FilterSpan, min: Value, v: Value, max: Value)
    requires !Less(v, min) && !Less(max, v)
    ensures AboveStart(s, v) ==> AboveStart(s, max)
    ensures BelowEnd(s, v) ==> BelowEnd(s, min)
  {
    hide Cmp, Less;
    CmpMeans(min, v);
    CmpMeans(v, max);
    CmpMeans(v, s.start);
    CmpMeans(max, s.start);
    CmpMeans(v, s.end);
    CmpMeans(min, s.end);
    CmpOrder(min, v, s.end);
    CmpOrder(s.start, v, max);
    CmpOrder(v, s.start, v);
    CmpOrder(max, s.start, max);
  }

  /** isBlockFiltered: decides from the statistics alone whether some filter rules the block out. */
  method IsBlockFiltered(filters: seq<Filter>, b: Block) returns (filtered: bool)
    requires ValidBlock(b)
    ensures filtered <==> Filtered(filters, b)
  {
    hide Cmp, RulesOut;
    var i := 0;
    while i < |filters|
      invariant 0 <= i <= |filters| && forall k :: 0 <= k < i ==> !RulesOut(filters[k], b)
    {
      filtered := RulesOutByStats(filters[i], b);
      if filtered {
        return;
      }
      i := i + 1;
    }
    filtered := false;
  }

  // The test of one filter.
  method RulesOutByStats(f: Filter, b: Block) returns (out: bool)
    requires ValidBlock(b)
    ensures out <==> RulesOut(f, b)
  {
    hide Cmp, Touches, OutOfRange, IsStats;
    var s: Stats;
    if b.stored.Some? && f.col in b.columns {
      s := b.stored.value[f.col];
    } else {
      s := ColumnStats(b.rows, f.col);
    }
    StatsCount(s, b.rows, f.col);
    NullFacts(s, b, f.col);
    if f.kind == IsNull {
      if f.col !in b.columns {
        return false;
      }
      var allNotNull := f.col in b.notNull || s.count == |b.rows|;
      if allNotNull && f.spans == [] {
        return true;
      }
      if !allNotNull {
        return false;
      }
    } else if f.kind == NotNull {
      var allNull := f.col !in b.columns || s.count == 0;
      if allNull && f.spans == [] {
        return true;
      }
      if !allNull {
        return false;
      }
    }
    if f.col !in b.columns {
      return true;
    }
    if s.min.None? || s.max.None? {
      return false;
    }
    ExtremesDecide(s, b, f);
    var matches := MatchesFilterRange(f, s.min.value, s.max.value);
    out := !matches;
  }

  lemma StatsCount(s: Stats, rows: seq<Row>, c: nat)
    requires IsStats(s, rows, c)
    ensures (s.count == |rows| <==> !Has(rows, c, None)) && (s.count == 0 <==> s.min.None?)
    ensures s.min.None? <==> s.max.None?
  {
  }

  lemma NullFacts(s: Stats, b: Block, c: nat)
    requires ValidBlock(b) && IsStats(s, b.rows, c)
    ensures s.count == 0 <==> AllNull(b, c)
    ensures (c in b.notNull ==> !Has(b.rows, c, None)) && (c !in b.columns ==> AllNull(b, c))
    ensures AllNull(b, c) ==> forall f: Filter :: f.col == c ==> !OutOfRange(f, b)
  {
    hide Cmp;
    if s.count == 0 {
      forall i | 0 <= i < |b.rows|
        ensures Column(b.rows[i], c) == None
      {
        assert Has(b.rows, c, Column(b.rows[i], c));
      }
    }
  }
}
