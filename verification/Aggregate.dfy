/** Count, sum, max and min of a column: stored for every block at flush time, and folded over blocks by a query. */
module Aggregate {
  import opened Seqs
  import opened Words

  // A row: a timestamp and the columns that are not null.
  datatype Row = Row(ts: int, vals: map<nat, int>)

  // The values of a column, in row order.
  function Values(rows: seq<Row>, c: nat): seq<int>
  {
    if rows == [] then []
    else
      var r := rows[|rows| - 1];
      Values(rows[..|rows| - 1], c) + if c in r.vals then [r.vals[c]] else []
  }

  lemma ValuesPush(rows: seq<Row>, r: Row, c: nat)
    ensures Values(rows + [r], c) == Values(rows, c) + if c in r.vals then [r.vals[c]] else []
  {
    assert (rows + [r])[..|rows|] == rows;
  }

  lemma {:induction false} ValuesConcat(a: seq<Row>, b: seq<Row>, c: nat)
    ensures Values(a + b, c) == Values(a, c) + Values(b, c)
  {
    if b == [] {
      assert a + b == a;
    } else {
      var n := |b| - 1;
      assert a + b == (a + b[..n]) + [b[n]] && b == b[..n] + [b[n]];
      ValuesPush(a + b[..n], b[n], c);
      ValuesConcat(a, b[..n], c);
    }
  }

  function Sum(vs: seq<int>): int
  {
    if vs == [] then 0 else Sum(vs[..|vs| - 1]) + vs[|vs| - 1]
  }

  function Abs(v: int): nat { if v < 0 then -v else v }

  // The sum of the absolute values.
  function AbsSum(vs: seq<int>): nat
  {
    if vs == [] then 0 else AbsSum(vs[..|vs| - 1]) + Abs(vs[|vs| - 1])
  }

  lemma {:induction false} SumConcat(a: seq<int>, b: seq<int>)
    ensures Sum(a + b) == Sum(a) + Sum(b) && AbsSum(a + b) == AbsSum(a) + AbsSum(b)
  {
    if b == [] {
      assert a + b == a;
    } else {
      var n := |b| - 1;
      assert (a + b)[..|a| + n] == a + b[..n];
      SumConcat(a, b[..n]);
    }
  }

  lemma SumPush(vs: seq<int>, v: int)
    ensures Sum(vs + [v]) == Sum(vs) + v && AbsSum(vs + [v]) == AbsSum(vs) + Abs(v)
  {
    assert (vs + [v])[..|vs|] == vs;
  }

  lemma {:induction false} SumWithin(vs: seq<int>)
    ensures Sum(vs) <= AbsSum(vs) && -Sum(vs) <= AbsSum(vs)
  {
    if vs != [] {
      SumWithin(vs[..|vs| - 1]);
    }
  }

  predicate IsMax(m: Option<int>, vs: seq<int>)
  {
    if vs == [] then m == None else m.Some? && m.value in vs && forall i :: 0 <= i < |vs| ==> vs[i] <= m.value
  }

  predicate IsMin(m: Option<int>, vs: seq<int>)
  {
    if vs == [] then m == None else m.Some? && m.value in vs && forall i :: 0 <= i < |vs| ==> m.value <= vs[i]
  }

  function Higher(m: Option<int>, v: int): Option<int> { if m.None? || v > m.value then Some(v) else m }

  function Lower(m: Option<int>, v: int): Option<int> { if m.None? || v < m.value then Some(v) else m }

  lemma ExtremesPush(max: Option<int>, min: Option<int>, vs: seq<int>, v: int)
    requires IsMax(max, vs) && IsMin(min, vs)
    ensures IsMax(Higher(max, v), vs + [v]) && IsMin(Lower(min, v), vs + [v])
  {
    var all := vs + [v];
    assert all[|vs|] == v && forall i :: 0 <= i < |vs| ==> all[i] == vs[i];
  }

  // The extreme of two parts.
  lemma ExtremesConcat(max: Option<int>, min: Option<int>, vs: seq<int>, max': Option<int>, min': Option<int>,
                       ws: seq<int>)
    requires IsMax(max, vs) && IsMin(min, vs) && IsMax(max', ws) && IsMin(min', ws)
    ensures IsMax(if max'.None? then max else Higher(max, max'.value), vs + ws)
    ensures IsMin(if min'.None? then min else Lower(min, min'.value), vs + ws)
  {
    assert forall x :: x in vs + ws <==> x in vs || x in ws;
    assert forall i :: 0 <= i < |vs| ==> vs[i] in vs;
    assert forall i :: 0 <= i < |ws| ==> ws[i] in ws;
  }

  // ---------- what a block stores ----------

  datatype Stored = Stored(count: nat, max: Option<int>, min: Option<int>, sum: int, overflow: bool)

  // Some partial sum does not fit 64 bits.
  predicate Overflows(vs: seq<int>)
  {
    exists k :: 0 <= k <= |vs| && !Int64(Sum(vs[..k]))
  }

  ghost predicate StoredOk(s: Stored, vs: seq<int>)
  {
    && s.count == |vs| && IsMax(s.max, vs) && IsMin(s.min, vs)
    && (s.overflow <==> Overflows(vs)) && (!s.overflow ==> s.sum == Sum(vs) && Int64(s.sum))
  }

  // A column whose absolute values add up below 2^63 is never flagged.
  lemma OverflowsIsLarge(vs: seq<int>)
    requires Overflows(vs)
    ensures AbsSum(vs) >= TWO_63
  {
    hide Sum, AbsSum;
    var k :| 0 <= k <= |vs| && !Int64(Sum(vs[..k]));
    SumWithin(vs[..k]);
    assert vs == vs[..k] + vs[k..];
    SumConcat(vs[..k], vs[k..]);
  }

  /** CalcAggForFlush: one pass over the rows. The sum is flagged exactly when a partial sum leaves 64 bits, and is
      exact otherwise; the count is kept in 16 bits. */
  method CalcAggForFlush(rows: seq<Row>, c: nat) returns (s: Stored)
    ensures s.count == |Values(rows, c)| % 0x1_0000 && IsMax(s.max, Values(rows, c)) && IsMin(s.min, Values(rows, c))
    ensures s.overflow <==> Overflows(Values(rows, c))
    ensures !s.overflow ==> s.sum == Sum(Values(rows, c)) && Int64(s.sum)
  {
    hide IsMax, IsMin, Sum, AbsSum, Overflows, Values, Higher, Lower;
    s := Stored(0, None, None, 0, false);
    NoValues(c);
    var i := 0;
    while i < |rows|
      invariant 0 <= i <= |rows| && s.count == |Values(rows[..i], c)| % 0x1_0000
      invariant IsMax(s.max, Values(rows[..i], c)) && IsMin(s.min, Values(rows[..i], c))
      invariant s.overflow <==> Overflows(Values(rows[..i], c))
      invariant !s.overflow ==> s.sum == Sum(Values(rows[..i], c)) && Int64(s.sum)
    {
      assert rows[..i + 1] == rows[..i] + [rows[i]];
      ValuesPush(rows[..i], rows[i], c);
      if c in rows[i].vals {
        var v := rows[i].vals[c];
        ghost var vs := Values(rows[..i], c);
        ExtremesPush(s.max, s.min, vs, v);
        SumPush(vs, v);
        OverflowsPush(vs, v);
        s := s.(count := (s.count + 1) % 0x1_0000, max := Higher(s.max, v), min := Lower(s.min, v));
        if !s.overflow {
          if Int64(s.sum + v) {
            s := s.(sum := s.sum + v);
          } else {
            s := s.(overflow := true);
          }
        }
      } else {
        assert Values(rows[..i], c) + [] == Values(rows[..i], c);
      }
      i := i + 1;
    }
    assert rows[..i] == rows;
  }

  lemma NoValues(c: nat)
    ensures Values([], c) == [] && IsMax(None, []) && IsMin(None, []) && Sum([]) == 0 && !Overflows([])
  {
  }

  lemma OverflowsPush(vs: seq<int>, v: int)
    ensures Overflows(vs + [v]) <==> Overflows(vs) || !Int64(Sum(vs + [v]))
  {
    var all := vs + [v];
    assert all[..|all|] == all && all[..|vs|] == vs && vs[..|vs|] == vs;
    assert forall k :: 0 <= k <= |vs| ==> all[..k] == vs[..k];
  }

  // ---------- folding over blocks ----------

  // `pre` holds the stored aggregates of the columns that have values.
  datatype Block = Block(rows: seq<Row>, columns: set<nat>, notNull: set<nat>, hasPre: bool, pre: map<nat, Stored>)

  // What a block is made of, without its stored aggregates.
  predicate ValidRows(rows: seq<Row>, columns: set<nat>, notNull: set<nat>)
  {
    && 0 < |rows| < 0x1_0000
    && (forall i, j :: 0 <= i <= j < |rows| ==> rows[i].ts <= rows[j].ts)
    && (forall i :: 0 <= i < |rows| ==> notNull <= rows[i].vals.Keys <= columns)
    && (forall i, c :: 0 <= i < |rows| && c in rows[i].vals ==> Int64(rows[i].vals[c]))
  }

  ghost predicate ValidBlock(b: Block)
  {
    && ValidRows(b.rows, b.columns, b.notNull)
    && (b.hasPre ==> forall c :: c in b.columns ==>
          if c in b.pre then StoredOk(b.pre[c], Values(b.rows, c)) && Values(b.rows, c) != []
          else Values(b.rows, c) == [])
  }

  function SetOf(columns: seq<nat>): set<nat> { set c | c in columns }

  lemma {:induction false} FewerValues(rows: seq<Row>, c: nat)
    ensures |Values(rows, c)| <= |rows|
  {
    if rows != [] {
      FewerValues(rows[..|rows| - 1], c);
    }
  }

  /** GetCompressData: the aggregates stored with a block are those of its rows, and columns without a value have
      none. */
  method FlushBlock(rows: seq<Row>, columns: seq<nat>, notNull: set<nat>) returns (b: Block)
    requires ValidRows(rows, SetOf(columns), notNull)
    ensures ValidBlock(b) && b.hasPre && b.rows == rows && b.columns == SetOf(columns)
  {
    hide IsMax, IsMin, Sum, Values, Overflows;
    var pre: map<nat, Stored> := map[];
    var i := 0;
    while i < |columns|
      invariant 0 <= i <= |columns|
      invariant forall c :: c in pre ==> StoredOk(pre[c], Values(rows, c)) && Values(rows, c) != []
      invariant forall k :: 0 <= k < i ==> columns[k] in pre || Values(rows, columns[k]) == []
    {
      var c := columns[i];
      var s := CalcAggForFlush(rows, c);
      FewerValues(rows, c);
      if s.count != 0 {
        pre := pre[c := s];
      }
      i := i + 1;
    }
    b := Block(rows, SetOf(columns), notNull, true, pre);
  }

  // The running aggregates of one column; no sum yet where there was no value.
  datatype Acc = Acc(count: nat, max: Option<int>, min: Option<int>, sum: Option<int>, overflow: bool)

  const EMPTY_ACC := Acc(0, None, None, None, false)

  /** The aggregates of the values fed so far. A sum that is not flagged is exact, and it is not flagged while the
      absolute values add up below 2^63, in whatever order and grouping they were fed. */
  ghost predicate AccIs(a: Acc, vs: seq<int>)
  {
    && a.count == |vs| && IsMax(a.max, vs) && IsMin(a.min, vs)
    && (a.sum.None? <==> vs == [])
    && (a.overflow ==> AbsSum(vs) >= TWO_63)
    && (!a.overflow && a.sum.Some? ==> a.sum.value == Sum(vs) && Int64(a.sum.value))
  }

  // One more integer, the sum of a part: the flag is set when it does not fit.
  function AddSum(a: Acc, v: int): Acc
  {
    var sum := if a.sum.None? then 0 else a.sum.value;
    if a.overflow then a.(sum := Some(sum))
    else if Int64(sum + v) then a.(sum := Some(sum + v))
    else a.(sum := Some(sum), overflow := true)
  }

  // The sum of the parts fed so far does not fit 64 bits at some point, or that of a part does not.
  ghost predicate Flagged(parts: seq<seq<int>>)
  {
    || (exists j :: 0 <= j <= |parts| && !Int64(Sum(Flat(parts[..j]))))
    || (exists j :: 0 <= j < |parts| && Overflows(parts[j]))
  }

  /** The aggregates of the parts fed so far, in that order: a part is what one block stores, or one value. The sum is
      flagged exactly when it leaves 64 bits after some part, or a part is flagged itself. */
  ghost predicate AccFed(a: Acc, parts: seq<seq<int>>)
  {
    AccIs(a, Flat(parts)) && (a.overflow <==> Flagged(parts))
  }

  lemma FlaggedPush(parts: seq<seq<int>>, part: seq<int>)
    ensures Flagged(parts + [part]) <==> Flagged(parts) || Overflows(part) || !Int64(Sum(Flat(parts + [part])))
  {
    hide Sum, Flat, Overflows;
    var more, n := parts + [part], |parts|;
    assert more[..n + 1] == more && more[n] == part;
    assert forall j :: 0 <= j <= n ==> more[..j] == parts[..j];
    assert forall j :: 0 <= j < n ==> more[j] == parts[j];
    if Flagged(parts) {
      if j :| 0 <= j <= n && !Int64(Sum(Flat(parts[..j]))) {
        assert !Int64(Sum(Flat(more[..j])));
      } else {
        var j :| 0 <= j < n && Overflows(parts[j]);
        assert Overflows(more[j]);
      }
    }
  }

  // One block of a column that has stored aggregates.
  method FeedStored(a: Acc, s: Stored, ghost parts: seq<seq<int>>, ghost ws: seq<int>) returns (a': Acc)
    requires AccFed(a, parts) && StoredOk(s, ws) && ws != []
    ensures AccFed(a', parts + [ws])
  {
    hide IsMax, IsMin, Sum, AbsSum, Overflows, Higher, Lower, Flagged, Flat;
    ghost var vs := Flat(parts);
    FlatPush(parts, ws);
    FlaggedPush(parts, ws);
    NoValues(0);
    SumConcat(vs, ws);
    SumWithin(vs + ws);
    ExtremesConcat(a.max, a.min, vs, s.max, s.min, ws);
    a' := a.(count := a.count + s.count, max := if s.max.None? then a.max else Higher(a.max, s.max.value),
             min := if s.min.None? then a.min else Lower(a.min, s.min.value));
    if s.overflow {
      OverflowsIsLarge(ws);
      a' := a'.(sum := Some(if a.sum.None? then 0 else a.sum.value), overflow := true);
    } else {
      a' := AddSum(a', s.sum);
    }
  }

  // One more value.
  function AddValue(a: Acc, v: int): Acc
  {
    AddSum(a.(count := a.count + 1, max := Higher(a.max, v), min := Lower(a.min, v)), v)
  }

  lemma AddValueOk(a: Acc, parts: seq<seq<int>>, v: int)
    requires AccFed(a, parts) && Int64(v)
    ensures AccFed(AddValue(a, v), parts + [[v]])
  {
    hide IsMax, IsMin, Sum, AbsSum, Flagged, Flat, Overflows;
    var vs := Flat(parts);
    FlatPush(parts, [v]);
    FlaggedPush(parts, [v]);
    OverflowsPush([], v);
    assert [] + [v] == [v];
    NoValues(0);
    ExtremesPush(a.max, a.min, vs, v);
    SumPush([], v);
    SumPush(vs, v);
    SumWithin(vs + [v]);
  }

  // Every value is a part of its own.
  function Singles(vs: seq<int>): (parts: seq<seq<int>>)
  {
    if vs == [] then [] else Singles(vs[..|vs| - 1]) + [[vs[|vs| - 1]]]
  }

  lemma SinglesPush(vs: seq<int>, v: int)
    ensures Singles(vs + [v]) == Singles(vs) + [[v]]
  {
    assert (vs + [v])[..|vs|] == vs;
  }

  lemma {:induction false} SinglesFlat(vs: seq<int>)
    ensures Flat(Singles(vs)) == vs
  {
    if vs != [] {
      var n := |vs| - 1;
      SinglesFlat(vs[..n]);
      FlatPush(Singles(vs[..n]), [vs[n]]);
    }
  }

  // One block of a column, row by row.
  method FeedRows(a: Acc, rows: seq<Row>, c: nat, ghost parts: seq<seq<int>>) returns (a': Acc)
    requires AccFed(a, parts) && forall i :: 0 <= i < |rows| && c in rows[i].vals ==> Int64(rows[i].vals[c])
    ensures AccFed(a', parts + Singles(Values(rows, c)))
  {
    hide AccFed, AddValue, Values, Singles;
    a' := a;
    NoValues(c);
    NoSingles();
    assert parts + [] == parts;
    var i := 0;
    while i < |rows|
      invariant 0 <= i <= |rows| && AccFed(a', parts + Singles(Values(rows[..i], c)))
    {
      assert rows[..i + 1] == rows[..i] + [rows[i]];
      ValuesPush(rows[..i], rows[i], c);
      if c in rows[i].vals {
        var v := rows[i].vals[c];
        ghost var done := Singles(Values(rows[..i], c));
        SinglesPush(Values(rows[..i], c), v);
        assert (parts + done) + [[v]] == parts + (done + [[v]]);
        AddValueOk(a', parts + done, v);
        a' := AddValue(a', v);
      } else {
        assert Values(rows[..i], c) + [] == Values(rows[..i], c);
      }
      i := i + 1;
    }
    assert rows[..i] == rows;
  }

  lemma NoSingles()
    ensures Singles([]) == []
  {
  }

  // The parts in which a block feeds a column.
  function PartsOf(b: Block, c: nat): seq<seq<int>>
  {
    if c !in b.columns || (b.hasPre && c !in b.pre) then []
    else if b.hasPre then [Values(b.rows, c)]
    else Singles(Values(b.rows, c))
  }

  lemma PartsAreValues(b: Block, c: nat)
    requires ValidBlock(b)
    ensures Flat(PartsOf(b, c)) == Values(b.rows, c)
  {
    hide Values, StoredOk, Singles, Flat;
    FlatNone<int>();
    if c !in b.columns {
      MissingColumn(b.rows, c);
    } else if b.hasPre {
      FlatPush([], Values(b.rows, c));
      assert [] + [Values(b.rows, c)] == [Values(b.rows, c)] && [] + Values(b.rows, c) == Values(b.rows, c);
    } else {
      SinglesFlat(Values(b.rows, c));
    }
  }

  /** One block of a column: the stored aggregates, where there are any, stand for the rows, and the number of rows
      for the number of values where the column is declared not null. */
  method FeedColumn(a: Acc, b: Block, c: nat, ghost parts: seq<seq<int>>) returns (a': Acc)
    requires ValidBlock(b) && AccFed(a, parts)
    ensures AccFed(a', parts + PartsOf(b, c))
  {
    hide StoredOk, IsMax, IsMin, Sum, AbsSum, Flat, Flagged, Singles, Overflows;
    a' := a;
    assert parts + [] == parts;
    if c !in b.columns {
    } else if b.hasPre {
      if c in b.pre {
        a' := FeedStored(a, b.pre[c], parts, Values(b.rows, c));
      }
    } else {
      a' := FeedRows(a, b.rows, c, parts);
    }
    if c in b.columns && c in b.notNull {
      NotNullCount(b.rows, c);
      PartsAreValues(b, c);
      FlatConcat(parts, PartsOf(b, c));
      a' := a'.(count := a.count + |b.rows|);
    }
  }

  lemma {:induction false} MissingColumn(rows: seq<Row>, c: nat)
    requires forall i :: 0 <= i < |rows| ==> c !in rows[i].vals
    ensures Values(rows, c) == []
  {
    if rows != [] {
      MissingColumn(rows[..|rows| - 1], c);
    }
  }

  // A column that is declared not null has a value in every row, so counting rows counts values.
  lemma {:induction false} NotNullCount(rows: seq<Row>, c: nat)
    requires forall i :: 0 <= i < |rows| ==> c in rows[i].vals
    ensures |Values(rows, c)| == |rows|
  {
    if rows != [] {
      NotNullCount(rows[..|rows| - 1], c);
    }
  }
}
