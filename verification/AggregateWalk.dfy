/** Aggregation that walks the partitions from both ends: forwards until every FIRST column has a value, backwards
    until every LAST column has one, and then over what is left between. */
module AggregateWalk {
  import opened Bags
  import opened Seqs
  import opened Words
  import opened Aggregate

  // A row chosen for a FIRST or LAST column.
  datatype Candidate = Candidate(ts: int, row: Row)

  // A LAST column, with the timestamp it must not exceed.
  datatype LastCol = LastCol(col: nat, bound: Option<int>)

  predicate Usable(l: LastCol, r: Row) { l.col in r.vals && (l.bound.None? || r.ts <= l.bound.value) }

  predicate Distinct(s: seq<nat>)
  {
    forall i, j :: 0 <= i < j < |s| ==> s[i] != s[j]
  }

  // ---------- time order ----------

  predicate Before(a: Block, b: Block)
  {
    forall i, j :: 0 <= i < |a.rows| && 0 <= j < |b.rows| ==> a.rows[i].ts <= b.rows[j].ts
  }

  // Blocks in time order.
  ghost predicate Chronological(all: seq<Block>)
  {
    && (forall i :: 0 <= i < |all| ==> ValidBlock(all[i]))
    && (forall i, j :: 0 <= i < j < |all| ==> Before(all[i], all[j]))
  }

  // ---------- what FIRST and LAST mean ----------

  predicate NoValue(rows: seq<Row>, c: nat) { forall i :: 0 <= i < |rows| ==> c !in rows[i].vals }

  predicate IsFirst(x: Candidate, rows: seq<Row>, c: nat)
  {
    && x.row in rows && c in x.row.vals && x.ts == x.row.ts
    && forall i :: 0 <= i < |rows| && c in rows[i].vals ==> x.ts <= rows[i].ts
  }

  // The FIRST value over all blocks, or none where the column has no value.
  ghost predicate FirstOver(cands: map<nat, Candidate>, all: seq<Block>, c: nat)
  {
    if c in cands then
      && (exists j :: 0 <= j < |all| && cands[c].row in all[j].rows)
      && c in cands[c].row.vals && cands[c].ts == cands[c].row.ts
      && (forall j, i :: 0 <= j < |all| && 0 <= i < |all[j].rows| && c in all[j].rows[i].vals ==>
            cands[c].ts <= all[j].rows[i].ts)
    else forall j :: 0 <= j < |all| ==> NoValue(all[j].rows, c)
  }

  // No usable row of the block is later than the candidate.
  predicate NoLater(cands: map<nat, Candidate>, k: nat, l: LastCol, rows: seq<Row>)
  {
    forall i :: 0 <= i < |rows| && Usable(l, rows[i]) ==> k in cands && rows[i].ts <= cands[k].ts
  }

  predicate UsableCandidate(cands: map<nat, Candidate>, k: nat, l: LastCol)
  {
    k in cands ==> Usable(l, cands[k].row) && cands[k].ts == cands[k].row.ts
  }

  // The LAST value over the blocks at some positions, or none where no row of theirs is usable.
  ghost predicate LastOver(cands: map<nat, Candidate>, all: seq<Block>, positions: set<int>, k: nat, l: LastCol)
  {
    && UsableCandidate(cands, k, l)
    && (k in cands ==> exists j :: 0 <= j < |all| && cands[k].row in all[j].rows)
    && (forall j :: j in positions && 0 <= j < |all| ==> NoLater(cands, k, l, all[j].rows))
  }

  // ---------- one block ----------

  // The first row with a value.
  method FindFirst(rows: seq<Row>, c: nat) returns (x: Option<Candidate>)
    requires forall i, j :: 0 <= i <= j < |rows| ==> rows[i].ts <= rows[j].ts
    ensures if x.None? then NoValue(rows, c) else IsFirst(x.value, rows, c)
  {
    x := None;
    var i := 0;
    while i < |rows|
      invariant 0 <= i <= |rows| && forall k :: 0 <= k < i ==> c !in rows[k].vals
    {
      if c in rows[i].vals {
        return Some(Candidate(rows[i].ts, rows[i]));
      }
      i := i + 1;
    }
  }

  // The last usable row that is later than what there is.
  method FindLast(rows: seq<Row>, l: LastCol, best: Option<Candidate>) returns (x: Option<Candidate>)
    requires forall i, j :: 0 <= i <= j < |rows| ==> rows[i].ts <= rows[j].ts
    ensures x.Some? ==> x.value.row in rows && Usable(l, x.value.row) && x.value.ts == x.value.row.ts
                        && (best.Some? ==> best.value.ts < x.value.ts)
                        && forall i :: 0 <= i < |rows| && Usable(l, rows[i]) ==> rows[i].ts <= x.value.ts
    ensures x.None? ==> forall i :: 0 <= i < |rows| && Usable(l, rows[i]) ==> best.Some? && rows[i].ts <= best.value.ts
  {
    x := None;
    var i := |rows| - 1;
    while i >= 0
      invariant -1 <= i < |rows|
      invariant forall k :: i < k < |rows| && Usable(l, rows[k]) ==> best.Some? && rows[k].ts <= best.value.ts
    {
      var r := rows[i];
      if l.col in r.vals && (l.bound.None? || r.ts <= l.bound.value) && (best.None? || best.value.ts < r.ts) {
        return Some(Candidate(rows[i].ts, rows[i]));
      }
      i := i - 1;
    }
  }

  // ---------- the values fed so far ----------

  // The values of a column in the blocks at some positions below n.
  function Bag(all: seq<Block>, n: nat, positions: set<int>, c: nat): multiset<int>
    requires n <= |all|
  {
    if n == 0 then multiset{}
    else Bag(all, n - 1, positions, c) + if n - 1 in positions then multiset(Values(all[n - 1].rows, c)) else multiset{}
  }

  lemma {:induction false} BagAdd(all: seq<Block>, n: nat, positions: set<int>, j: nat, c: nat)
    requires n <= |all| && j !in positions
    ensures Bag(all, n, positions + {j}, c)
            == Bag(all, n, positions, c) + if j < n then multiset(Values(all[j].rows, c)) else multiset{}
  {
    hide Values;
    if n > 0 {
      BagAdd(all, n - 1, positions, j, c);
      if n - 1 != j {
        Swap(Bag(all, n - 1, positions, c), if j < n - 1 then multiset(Values(all[j].rows, c)) else multiset{},
             if n - 1 in positions then multiset(Values(all[n - 1].rows, c)) else multiset{});
      }
    }
  }

  lemma Swap(a: multiset<int>, b: multiset<int>, c: multiset<int>)
    ensures (a + b) + c == (a + c) + b
  {
  }

  lemma {:induction false} BagNone(all: seq<Block>, n: nat, c: nat)
    requires n <= |all|
    ensures Bag(all, n, {}, c) == multiset{}
  {
    if n > 0 {
      BagNone(all, n - 1, c);
    }
  }

  function FlatRows(all: seq<Block>): seq<Row>
  {
    if all == [] then [] else FlatRows(all[..|all| - 1]) + all[|all| - 1].rows
  }

  lemma {:induction false} BagAll(all: seq<Block>, n: nat, positions: set<int>, c: nat)
    requires n <= |all| && forall i :: 0 <= i < n ==> i in positions
    ensures Bag(all, n, positions, c) == multiset(Values(FlatRows(all[..n]), c))
  {
    hide Values;
    if n == 0 {
      NoValues(c);
      assert all[..0] == [];
    } else {
      BagAll(all, n - 1, positions, c);
      assert all[..n][..n - 1] == all[..n - 1];
      ValuesConcat(FlatRows(all[..n - 1]), all[n - 1].rows, c);
    }
  }

  // The order of the values does not matter.
  lemma {:induction false} SumBag(a: seq<int>, b: seq<int>)
    requires multiset(a) == multiset(b)
    ensures Sum(a) == Sum(b) && AbsSum(a) == AbsSum(b)
    decreases |a|
  {
    hide Sum, AbsSum;
    assert |a| == |multiset(a)| == |multiset(b)| == |b|;
    if a != [] {
      var n := |a| - 1;
      assert a[n] in multiset(a);
      SumPush(a[..n], a[n]);
      var j :| 0 <= j < |b| && b[j] == a[n];
      var rest := b[..j] + b[j + 1..];
      assert a == a[..n] + [a[n]] && b == (b[..j] + [b[j]]) + b[j + 1..];
      Cancel(multiset(a[..n]), multiset(rest), a[n]);
      SumBag(a[..n], rest);
      SumConcat(b[..j] + [b[j]], b[j + 1..]);
      SumPush(b[..j], b[j]);
      SumConcat(b[..j], b[j + 1..]);
    }
  }

  lemma AccBag(a: Acc, vs: seq<int>, ws: seq<int>)
    requires AccIs(a, vs) && multiset(vs) == multiset(ws)
    ensures AccIs(a, ws)
  {
    hide Sum, AbsSum;
    SumBag(vs, ws);
    assert |vs| == |multiset(vs)| == |multiset(ws)| == |ws|;
    assert forall x :: x in vs <==> x in multiset(vs);
    assert forall x :: x in ws <==> x in multiset(ws);
    assert forall i :: 0 <= i < |ws| ==> ws[i] in vs;
  }

  // ---------- FIRST and LAST, one more block ----------

  function Without(s: seq<nat>, i: nat): (r: seq<nat>)
    requires i < |s|
  {
    s[..i] + s[i + 1..]
  }

  lemma WithoutOk(s: seq<nat>, i: nat)
    requires i < |s| && Distinct(s)
    ensures Distinct(Without(s, i)) && s[i] !in Without(s, i)
    ensures forall c :: c in Without(s, i) <==> c in s && c != s[i]
    ensures Without(s, i)[..i] == s[..i] && Without(s, i)[i..] == s[i + 1..]
    ensures forall k :: 0 <= k < |s| - 1 ==> Without(s, i)[k] == s[if k < i then k else k + 1]
  {
    var r := Without(s, i);
    assert forall k :: 0 <= k < i ==> r[k] == s[k];
    assert forall k :: i <= k < |r| ==> r[k] == s[k + 1];
    forall c | c in s && c != s[i]
      ensures c in r
    {
      var k :| 0 <= k < |s| && s[k] == c;
      assert c == if k < i then r[k] else r[k - 1];
    }
  }

  // The first value found in block j is the first of all if the blocks before have none.
  lemma FoundFirst(cands: map<nat, Candidate>, all: seq<Block>, fed: set<int>, j: nat, c: nat)
    requires Chronological(all) && j < |all| && c in cands && IsFirst(cands[c], all[j].rows, c)
    requires forall i :: 0 <= i < j ==> i in fed && NoValue(all[i].rows, c)
    ensures FirstOver(cands, all, c)
  {
    hide ValidBlock;
    var x := cands[c];
    var p :| 0 <= p < |all[j].rows| && all[j].rows[p] == x.row;
    forall k, i | 0 <= k < |all| && 0 <= i < |all[k].rows| && c in all[k].rows[i].vals
      ensures x.ts <= all[k].rows[i].ts
    {
      assert k >= j;
      assert k > j ==> Before(all[j], all[k]);
      assert x.ts == all[j].rows[p].ts;
    }
  }

  // What one block does to the candidate of a LAST column.
  ghost predicate Stepped(before: map<nat, Candidate>, cands: map<nat, Candidate>, k: nat, l: LastCol, rows: seq<Row>)
  {
    && NoLater(cands, k, l, rows) && (k in before ==> k in cands && before[k].ts <= cands[k].ts)
    && (k in cands ==> (k in before && cands[k] == before[k]) || Taken(cands, k, l, rows))
  }

  predicate Taken(cands: map<nat, Candidate>, k: nat, l: LastCol, rows: seq<Row>)
  {
    k in cands && cands[k].row in rows && Usable(l, cands[k].row) && cands[k].ts == cands[k].row.ts
  }

  lemma StepLast(before: map<nat, Candidate>, cands: map<nat, Candidate>, all: seq<Block>, fed: set<int>, j: nat,
                 k: nat, l: LastCol)
    requires j < |all| && LastOver(before, all, fed, k, l) && Stepped(before, cands, k, l, all[j].rows)
    ensures LastOver(cands, all, fed + {j}, k, l)
  {
    forall i | i in fed && 0 <= i < |all|
      ensures NoLater(cands, k, l, all[i].rows)
    {
      assert NoLater(before, k, l, all[i].rows);
    }
  }

  // Walking backwards, a row taken from block j is the last of all.
  lemma FoundLast(before: map<nat, Candidate>, cands: map<nat, Candidate>, all: seq<Block>, fed: set<int>, j: nat,
                  k: nat, l: LastCol)
    requires Chronological(all) && j < |all| && LastOver(before, all, fed, k, l)
      && Stepped(before, cands, k, l, all[j].rows)
    requires Taken(cands, k, l, all[j].rows) && forall i :: j < i < |all| ==> i in fed
    ensures LastOver(cands, all, Below(|all|), k, l)
  {
    hide ValidBlock;
    var p :| 0 <= p < |all[j].rows| && all[j].rows[p] == cands[k].row;
    forall i | 0 <= i < |all|
      ensures NoLater(cands, k, l, all[i].rows)
    {
      if i < j {
        assert Before(all[i], all[j]);
        assert cands[k].ts == all[j].rows[p].ts;
      } else if i > j {
        assert NoLater(before, k, l, all[i].rows);
      }
    }
  }

  function Below(n: nat): (s: set<int>)
    ensures forall i :: i in s <==> 0 <= i < n
  {
    if n == 0 then {} else Below(n - 1) + {n - 1}
  }

  // The LAST columns from position `i` on have seen block j, those before have not.
  ghost predicate HalfwayOf(open: seq<nat>, cands: map<nat, Candidate>, all: seq<Block>, lasts: seq<LastCol>,
                            fed: set<int>, i: int, j: nat)
  {
    && Distinct(open) && (forall p :: 0 <= p < |open| ==> open[p] < |lasts|)
    && (forall p :: 0 <= p < |open| ==> LastOver(cands, all, if p < i then fed else fed + {j}, open[p], lasts[open[p]]))
    && (forall k :: 0 <= k < |lasts| && k !in open ==> LastOver(cands, all, Below(|all|), k, lasts[k]))
  }

  lemma HalfwayAt(open: seq<nat>, cands: map<nat, Candidate>, all: seq<Block>, lasts: seq<LastCol>, fed: set<int>,
                  i: int, j: nat, p: nat)
    requires HalfwayOf(open, cands, all, lasts, fed, i, j) && p < |open|
    ensures Distinct(open) && open[p] < |lasts|
      && LastOver(cands, all, if p < i then fed else fed + {j}, open[p], lasts[open[p]])
  {
  }

  // Two sets of candidates agree but for one column.
  ghost predicate AgreeBut(a: map<nat, Candidate>, b: map<nat, Candidate>, k: nat)
  {
    forall d :: d != k ==> (d in a <==> d in b) && (d in b ==> a[d] == b[d])
  }

  // The column at position `i` has seen block j and stays open.
  lemma PassColumn(open: seq<nat>, before: map<nat, Candidate>, cands: map<nat, Candidate>, all: seq<Block>,
                   lasts: seq<LastCol>, fed: set<int>, i: nat, j: nat)
    requires HalfwayOf(open, before, all, lasts, fed, i + 1, j) && i < |open| && AgreeBut(before, cands, open[i])
    requires LastOver(cands, all, fed + {j}, open[i], lasts[open[i]])
    ensures HalfwayOf(open, cands, all, lasts, fed, i, j)
  {
    hide LastOver;
    forall p | 0 <= p < |open|
      ensures LastOver(cands, all, if p < i then fed else fed + {j}, open[p], lasts[open[p]])
    {
      if p != i {
        SameLast(before, cands, all, if p < i then fed else fed + {j}, open[p], lasts[open[p]]);
      }
    }
    forall k | 0 <= k < |lasts| && k !in open
      ensures LastOver(cands, all, Below(|all|), k, lasts[k])
    {
      SameLast(before, cands, all, Below(|all|), k, lasts[k]);
    }
  }

  // The column at position `i` is settled.
  lemma CloseColumn(open: seq<nat>, before: map<nat, Candidate>, cands: map<nat, Candidate>, all: seq<Block>,
                    lasts: seq<LastCol>, fed: set<int>, i: nat, j: nat)
    requires HalfwayOf(open, before, all, lasts, fed, i + 1, j) && i < |open| && AgreeBut(before, cands, open[i])
    requires LastOver(cands, all, Below(|all|), open[i], lasts[open[i]])
    ensures HalfwayOf(Without(open, i), cands, all, lasts, fed, i, j)
  {
    hide LastOver;
    WithoutOk(open, i);
    var rest := Without(open, i);
    forall p | 0 <= p < |rest|
      ensures rest[p] < |lasts| && LastOver(cands, all, if p < i then fed else fed + {j}, rest[p], lasts[rest[p]])
    {
      var q := if p < i then p else p + 1;
      assert rest[p] == open[q] && open[q] != open[i];
      SameLast(before, cands, all, if p < i then fed else fed + {j}, open[q], lasts[open[q]]);
    }
    forall k | 0 <= k < |lasts| && k !in rest
      ensures LastOver(cands, all, Below(|all|), k, lasts[k])
    {
      if k != open[i] {
        SameLast(before, cands, all, Below(|all|), k, lasts[k]);
      }
    }
  }

  // ---------- the order of feeding ----------

  predicate InRange(order: seq<nat>, n: nat) { forall i :: 0 <= i < |order| ==> order[i] < n }

  // The parts in which the blocks at these positions, one after the other, feed a column.
  function PartsAlong(all: seq<Block>, order: seq<nat>, c: nat): seq<seq<int>>
    requires InRange(order, |all|)
  {
    if order == [] then []
    else PartsAlong(all, order[..|order| - 1], c) + PartsOf(all[order[|order| - 1]], c)
  }

  lemma AlongPush(all: seq<Block>, order: seq<nat>, j: nat, c: nat)
    requires InRange(order, |all|) && j < |all|
    ensures InRange(order + [j], |all|)
    ensures PartsAlong(all, order + [j], c) == PartsAlong(all, order, c) + PartsOf(all[j], c)
  {
    assert (order + [j])[..|order|] == order;
  }

  // ---------- the walker ----------

  class Walker {
    ghost const all: seq<Block>
    const firsts: seq<nat>
    const lasts: seq<LastCol>
    const cols: seq<nat>
    const hasFirstRow: bool
    const hasLastRow: bool
    var firstCols: seq<nat>
    var lastCols: seq<nat>
    var firstCand: map<nat, Candidate>
    var lastCand: map<nat, Candidate>
    var acc: map<nat, Acc>
    ghost var fed: set<int>
    ghost var order: seq<nat>
    ghost var seen: map<nat, seq<seq<int>>>

    // FIRST: open columns have no value in the blocks fed; the others are settled.
    ghost predicate FirstInv()
      reads this
    {
      && Distinct(firstCols)
      && (forall c :: c in firstCols ==>
            && c in firsts && c !in firstCand
            && forall j :: j in fed && 0 <= j < |all| ==> NoValue(all[j].rows, c))
      && (forall c :: c in firsts && c !in firstCols ==> FirstOver(firstCand, all, c))
    }

    // LAST: open columns have the best row of the blocks fed; the others are settled.
    ghost predicate LastInv()
      reads this
    {
      && Distinct(lastCols) && (forall k :: k in lastCols ==> k < |lasts|)
      && (forall k :: 0 <= k < |lasts| ==>
            if k in lastCols then LastOver(lastCand, all, fed, k, lasts[k])
            else LastOver(lastCand, all, Below(|all|), k, lasts[k]))
    }

    // The other aggregates are those of the blocks fed.
    ghost predicate AccInv()
      reads this
    {
      forall i :: 0 <= i < |cols| ==> Fed(cols[i], fed, order)
    }

    // The order in which the blocks were fed.
    ghost predicate OrderInv()
      reads this
    {
      Distinct(order) && InRange(order, |all|) && forall p: int :: p in fed <==> p in order
    }

    ghost predicate Valid()
      reads this
    {
      Chronological(all) && Distinct(cols) && FirstInv() && LastInv() && AccInv() && OrderInv()
    }

    method UpdateFirst(b: Block, ghost j: nat)
      requires Chronological(all) && j < |all| && all[j] == b && FirstInv()
      requires firstCols != [] ==> forall i :: 0 <= i < j ==> i in fed
      modifies this`firstCols, this`firstCand
      ensures Distinct(firstCols)
      ensures forall c :: c in firstCols ==>
        c in old(firstCols) && c !in firstCand && NoValue(b.rows, c)
      ensures forall c :: c in firsts && c !in firstCols ==> FirstOver(firstCand, all, c)
    {
      hide ValidBlock, FirstOver, NoValue, IsFirst;
      ghost var before := firstCand;
      var i := |firstCols| - 1;
      while i >= 0
        invariant -1 <= i < |firstCols| && i < |old(firstCols)| && Distinct(firstCols)
          && firstCols[..i + 1] == old(firstCols)[..i + 1]
        invariant forall c :: c in firstCols ==> c in old(firstCols) && c !in firstCand
        invariant forall c :: c in firstCols[i + 1..] ==> NoValue(b.rows, c)
        invariant forall c :: c in firsts && c !in firstCols ==> FirstOver(firstCand, all, c)
      {
        var c := firstCols[i];
        assert c in firstCols;
        if c in b.columns {
          assert ValidBlock(all[j]);
          Sorted(b);
          var x := FindFirst(b.rows, c);
          if x.Some? {
            ghost var was := firstCand;
            firstCand := firstCand[c := x.value];
            FoundFirst(firstCand, all, fed, j, c);
            forall d | d in firsts && d !in firstCols
              ensures FirstOver(firstCand, all, d)
            {
              SameFirst(was, firstCand, all, d);
            }
            WithoutOk(firstCols, i);
            firstCols := Without(firstCols, i);
          }
        } else {
          NoColumn(b, c);
        }
        i := i - 1;
      }
    }

    // Looks for a later row of one LAST column in the block.
    method TryLast(b: Block, k: nat) returns (taken: bool)
      requires ValidBlock(b) && k < |lasts|
      modifies this`lastCand
      ensures AgreeBut(old(lastCand), lastCand, k)
      ensures Stepped(old(lastCand), lastCand, k, lasts[k], b.rows) && (taken ==> Taken(lastCand, k, lasts[k], b.rows))
    {
      taken := false;
      if lasts[k].col in b.columns {
        var x := FindLast(b.rows, lasts[k], if k in lastCand then Some(lastCand[k]) else None);
        if x.Some? {
          lastCand := lastCand[k := x.value];
          taken := true;
        }
      }
    }

    ghost predicate Halfway(i: int, j: nat)
      reads this
    {
      HalfwayOf(lastCols, lastCand, all, lasts, fed, i, j)
    }

    method StepLastCol(b: Block, canRemove: bool, i: nat, ghost j: nat)
      requires Chronological(all) && j < |all| && all[j] == b && i < |lastCols| && Halfway(i + 1, j)
      requires canRemove ==> forall p :: j < p < |all| ==> p in fed
      modifies this`lastCols, this`lastCand
      ensures Halfway(i, j) && i <= |lastCols| && forall k :: k in lastCols ==> k in old(lastCols)
    {
      hide LastOver, Stepped, Taken, HalfwayOf;
      HalfwayAt(lastCols, lastCand, all, lasts, fed, i + 1, j, i);
      var k := lastCols[i];
      assert ValidBlock(all[j]);
      ghost var was := lastCand;
      var taken := TryLast(b, k);
      if taken && canRemove {
        FoundLast(was, lastCand, all, fed, j, k, lasts[k]);
        WithoutOk(lastCols, i);
        CloseColumn(lastCols, was, lastCand, all, lasts, fed, i, j);
        lastCols := Without(lastCols, i);
      } else {
        StepLast(was, lastCand, all, fed, j, k, lasts[k]);
        PassColumn(lastCols, was, lastCand, all, lasts, fed, i, j);
      }
    }

    method UpdateLast(b: Block, canRemove: bool, ghost j: nat)
      requires Chronological(all) && j < |all| && all[j] == b && LastInv()
      requires canRemove && lastCols != [] ==> forall i :: j < i < |all| ==> i in fed
      modifies this`lastCols, this`lastCand
      ensures Distinct(lastCols) && forall k :: k in lastCols ==> k in old(lastCols) && k < |lasts|
      ensures forall k :: 0 <= k < |lasts| ==>
                LastOver(lastCand, all, if k in lastCols then fed + {j} else Below(|all|), k, lasts[k])
    {
      hide Chronological, LastOver;
      var i := |lastCols|;
      forall p | 0 <= p < |lastCols|
        ensures lastCols[p] < |lasts| && LastOver(lastCand, all, fed, lastCols[p], lasts[lastCols[p]])
      {
        assert lastCols[p] in lastCols;
      }
      while i > 0
        invariant 0 <= i <= |lastCols| && Halfway(i, j) && forall k :: k in lastCols ==> k in old(lastCols)
      {
        StepLastCol(b, canRemove, i - 1, j);
        i := i - 1;
      }
    }

    // Count, sum, max and min of every column.
    method FeedAll(b: Block, ghost j: nat)
      requires Chronological(all) && Distinct(cols) && j < |all| && all[j] == b && AccInv() && j !in fed
      modifies this`acc, this`seen
      ensures forall i :: 0 <= i < |cols| ==> Fed(cols[i], fed + {j}, order + [j])
    {
      hide ValidBlock, AccFed, Bag, Values, PartsOf, PartsAlong, Flat;
      var i := 0;
      while i < |cols|
        invariant 0 <= i <= |cols|
        invariant forall k :: 0 <= k < |cols| ==>
          if k < i then Fed(cols[k], fed + {j}, order + [j]) else Fed(cols[k], fed, order)
      {
        var c := cols[i];
        assert Fed(c, fed, order);
        BagAdd(all, |all|, fed, j, c);
        assert ValidBlock(all[j]);
        PartsAreValues(b, c);
        FlatConcat(seen[c], PartsOf(b, c));
        AlongPush(all, order, j, c);
        var a := FeedColumn(acc[c], b, c, seen[c]);
        acc, seen := acc[c := a], seen[c := seen[c] + PartsOf(b, c)];
        i := i + 1;
      }
    }

    // The aggregates of a column are those of the blocks at these positions, fed along this order.
    ghost predicate Fed(c: nat, positions: set<int>, along: seq<nat>)
      reads this
    {
      && c in acc && c in seen && AccFed(acc[c], seen[c])
      && multiset(Flat(seen[c])) == Bag(all, |all|, positions, c)
      && InRange(along, |all|) && seen[c] == PartsAlong(all, along, c)
    }

    /** UpdateAggregation on one block: the block is fed to every aggregate. */
    method UpdateBlock(b: Block, firstAndLast: bool, canRemove: bool, ghost j: nat)
      requires Valid() && j < |all| && all[j] == b && j !in fed
      requires if firstAndLast then (firstCols != [] ==> forall i :: 0 <= i < j ==> i in fed)
                    && (canRemove && lastCols != [] ==> forall i :: j < i < |all| ==> i in fed)
               else firstCols == [] && lastCols == []
      modifies this
      ensures Valid() && fed == old(fed) + {j}
      ensures (old(firstCols) == [] ==> firstCols == []) && (old(lastCols) == [] ==> lastCols == [])
    {
      hide Chronological, FirstOver, LastOver, NoValue, AccFed, Bag, PartsAlong, Flat;
      if firstAndLast {
        UpdateFirst(b, j);
        UpdateLast(b, canRemove, j);
        assert firstCols != [] ==> firstCols[0] in old(firstCols);
        assert lastCols != [] ==> lastCols[0] in old(lastCols);
      }
      FeedAll(b, j);
      fed, order := fed + {j}, order + [j];
    }

    // The positions of a partition's blocks.
    ghost predicate At(blocks: seq<Block>, off: nat)
      reads this
    {
      off + |blocks| <= |all| && blocks == all[off..off + |blocks|]
    }

    // Of a partition at `off` with n blocks, those before `i` and behind `back` have been fed.
    ghost predicate Between(before: set<int>, off: nat, n: nat, i: int, back: int)
      reads this`fed
    {
      forall p :: p in fed <==> p in before || off <= p < off + i || off + back < p < off + n
    }

    /** UpdateAggregation on one partition: forwards while FIRST columns are open, backwards while LAST columns are,
        then over the rest. Every block is fed once, unless only FIRST and LAST are asked for and none is open. */
    method UpdatePartition(blocks: seq<Block>, canRemove: bool, ghost off: nat)
      requires Valid() && At(blocks, off) && forall i :: off <= i < off + |blocks| ==> i !in fed
      requires firstCols != [] ==> forall i :: 0 <= i < off ==> i in fed
      requires canRemove && lastCols != [] ==> forall i :: off + |blocks| <= i < |all| ==> i in fed
      modifies this
      ensures Valid() && forall p :: p in old(fed) ==> p in fed
      ensures forall p :: p in fed && p !in old(fed) ==> off <= p < off + |blocks|
      ensures cols != [] || firstCols != [] || lastCols != [] ==> forall i :: off <= i < off + |blocks| ==> i in fed
      ensures (old(firstCols) == [] ==> firstCols == []) && (old(lastCols) == [] ==> lastCols == [])
    {
      hide Valid;
      if blocks == [] {
        return;
      }
      var n := |blocks|;
      var i := 0;
      if firstCols != [] || hasFirstRow {
        while i < n && firstCols != []
          invariant 0 <= i <= n && Valid() && (old(firstCols) == [] ==> firstCols == [])
            && (old(lastCols) == [] ==> lastCols == [])
          invariant Between(old(fed), off, n, i, n - 1)
        {
          UpdateBlock(blocks[i], true, false, off + i);
          i := i + 1;
        }
      }
      assert Between(old(fed), off, n, i, n - 1) && (firstCols != [] ==> i == n);
      var back := n - 1;
      if lastCols != [] || hasLastRow {
        while i <= back && lastCols != []
          invariant i - 1 <= back < n && Valid() && (old(firstCols) == [] ==> firstCols == [])
            && (old(lastCols) == [] ==> lastCols == [])
          invariant Between(old(fed), off, n, i, back) && (firstCols != [] ==> i == n)
        {
          UpdateBlock(blocks[back], true, canRemove, off + back);
          back := back - 1;
        }
      }
      assert Between(old(fed), off, n, i, back) && (firstCols != [] || lastCols != [] ==> i > back);
      if cols != [] {
        while i <= back
          invariant 0 <= i <= back + 1 <= n && Valid() && (old(firstCols) == [] ==> firstCols == [])
            && (old(lastCols) == [] ==> lastCols == [])
          invariant Between(old(fed), off, n, i, back) && (i <= back ==> firstCols == [] && lastCols == [])
        {
          UpdateBlock(blocks[i], false, canRemove, off + i);
          i := i + 1;
        }
      }
    }

    constructor (ghost all: seq<Block>, firsts: seq<nat>, lasts: seq<LastCol>, cols: seq<nat>, hasFirstRow: bool,
                 hasLastRow: bool)
      requires Chronological(all) && Distinct(firsts) && Distinct(cols)
      ensures this.all == all && this.firsts == firsts && this.lasts == lasts && this.cols == cols
      ensures Valid() && fed == {} && this.hasFirstRow == hasFirstRow && this.hasLastRow == hasLastRow
    {
      this.all, this.lasts, this.cols, this.hasFirstRow, this.hasLastRow := all, lasts, cols, hasFirstRow, hasLastRow;
      this.firsts := firsts;
      firstCols, lastCols := firsts, Indices(|lasts|);
      firstCand, lastCand, fed, order := map[], map[], {}, [];
      acc, seen := Fresh(cols, EMPTY_ACC), Fresh(cols, []);
      new;
      hide Chronological, Valid;
      Initially();
    }

    lemma Initially()
      requires Chronological(all) && Distinct(firsts) && Distinct(cols) && fed == {} && firstCand == lastCand == map[]
      requires firstCols == firsts && lastCols == Indices(|lasts|) && acc == Fresh(cols, EMPTY_ACC)
        && seen == Fresh(cols, []) && order == []
      ensures Valid()
    {
      hide Chronological, AccFed, Bag, LastOver, FirstOver, NoValue, Indices, Fresh, Flat, PartsAlong;
      forall i | 0 <= i < |cols|
        ensures Fed(cols[i], fed, order)
      {
        NothingFed(all, cols[i]);
      }
      forall k | 0 <= k < |lasts|
        ensures k in lastCols && LastOver(lastCand, all, fed, k, lasts[k])
      {
        assert lastCols[k] == k;
        NothingLast(all, k, lasts[k]);
      }
    }

    ghost predicate Covered(from: int, to: int)
      reads this`fed
    {
      forall p :: from <= p < to ==> p in fed
    }

    // The searches are over: open columns have been looked for in every block.
    method Settle()
      requires Valid() && (firstCols != [] || lastCols != [] ==> Covered(0, |all|))
      modifies this`firstCols, this`lastCols
      ensures Valid() && firstCols == lastCols == []
    {
      hide AccFed, Bag, NoLater, Flat, PartsAlong;
      assert forall c :: c in firstCols ==> FirstOver(firstCand, all, c);
      forall k | 0 <= k < |lasts|
        ensures LastOver(lastCand, all, Below(|all|), k, lasts[k])
      {
        if k in lastCols {
          assert LastOver(lastCand, all, fed, k, lasts[k]);
        }
      }
      firstCols, lastCols := [], [];
    }

    // All answers are what a scan of all rows gives.
    ghost predicate Answers()
      reads this
    {
      && (forall c :: c in firsts ==> FirstOver(firstCand, all, c))
      && (forall k :: 0 <= k < |lasts| ==> LastOver(lastCand, all, Below(|all|), k, lasts[k]))
      && (forall i :: 0 <= i < |cols| ==> cols[i] in acc && AccIs(acc[cols[i]], Values(FlatRows(all), cols[i])))
      && FlagsExact()
    }

    // A sum is flagged exactly when it leaves 64 bits along the order in which the blocks were fed, each of them once.
    ghost predicate FlagsExact()
      reads this
    {
      && Distinct(order) && InRange(order, |all|) && (cols != [] ==> forall p: nat :: p < |all| ==> p in order)
      && (forall i :: 0 <= i < |cols| ==>
            cols[i] in acc && (acc[cols[i]].overflow <==> Flagged(PartsAlong(all, order, cols[i]))))
    }

    lemma Answered()
      requires Valid() && firstCols == lastCols == [] && (cols != [] ==> Covered(0, |all|))
      ensures Answers()
    {
      hide AccIs, Bag, Values, FirstOver, LastOver, Chronological, Flagged, PartsAlong, Flat;
      forall i | 0 <= i < |cols|
        ensures cols[i] in acc && AccIs(acc[cols[i]], Values(FlatRows(all), cols[i]))
        ensures acc[cols[i]].overflow <==> Flagged(PartsAlong(all, order, cols[i]))
      {
        assert Fed(cols[i], fed, order);
        BagAll(all, |all|, fed, cols[i]);
        assert all[..|all|] == all;
        AccBag(acc[cols[i]], Flat(seen[cols[i]]), Values(FlatRows(all), cols[i]));
      }
    }

    // Forwards over the partitions, as long as FIRST columns are open.
    method Forwards(parts: seq<seq<Block>>) returns (first: nat)
      requires Valid() && fed == {} && all == Flat(parts)
      modifies this
      ensures Valid() && first <= |parts| && (first < |parts| ==> firstCols == [])
      ensures forall p :: p in fed ==> 0 <= p < Start(parts, first)
      ensures cols != [] || firstCols != [] || lastCols != [] ==> Covered(0, Start(parts, first))
    {
      hide Valid, Flat;
      first := 0;
      StartOk(parts, 0);
      while first < |parts|
        invariant 0 <= first <= |parts| && Valid()
        invariant forall p :: p in fed ==> 0 <= p < Start(parts, first)
        invariant cols != [] || firstCols != [] || lastCols != [] ==> Covered(0, Start(parts, first))
      {
        if firstCols == [] && !hasFirstRow {
          break;
        }
        StartOk(parts, first);
        UpdatePartition(parts[first], false, Start(parts, first));
        first := first + 1;
      }
    }

    // Backwards over the other partitions, as long as LAST columns are open.
    method Backwards(parts: seq<seq<Block>>, first: nat) returns (last: int)
      requires Valid() && all == Flat(parts) && first <= |parts| && (first < |parts| ==> firstCols == [])
      requires forall p :: p in fed ==> 0 <= p < Start(parts, first)
      requires cols != [] || firstCols != [] || lastCols != [] ==> Covered(0, Start(parts, first))
      modifies this
      ensures Valid() && first - 1 <= last < |parts| && (firstCols != [] ==> first == |parts|)
      ensures last >= first ==> lastCols == []
      ensures forall p :: p in fed ==> 0 <= p < Start(parts, first) || Start(parts, last + 1) <= p < |all|
      ensures cols != [] || firstCols != [] || lastCols != [] ==>
        Covered(0, Start(parts, first)) && Covered(Start(parts, last + 1), |all|)
    {
      hide Valid, Flat;
      last := |parts| - 1;
      StartOk(parts, |parts|);
      while last >= first
        invariant first - 1 <= last < |parts| && Valid() && (firstCols != [] ==> first == |parts|)
        invariant forall p :: p in fed ==> 0 <= p < Start(parts, first) || Start(parts, last + 1) <= p < |all|
        invariant cols != [] || firstCols != [] || lastCols != [] ==>
                    Covered(0, Start(parts, first)) && Covered(Start(parts, last + 1), |all|)
      {
        if lastCols == [] && !hasLastRow {
          break;
        }
        StartOk(parts, last);
        StartGrows(parts, first, last);
        UpdatePartition(parts[last], true, Start(parts, last));
        last := last - 1;
      }
    }

    /** AggregateWithoutBucket: however early the two searches stop, FIRST and LAST are what a scan of all rows in time
        order gives, and so are count, sum, max and min, to which every block contributes once. */
    method AggregateWithoutBucket(parts: seq<seq<Block>>)
      requires Valid() && fed == {} && all == Flat(parts)
      modifies this
      ensures Answers()
    {
      hide Valid, Flat, Answers;
      var first := Forwards(parts);
      var last := Backwards(parts, first);
      StartGrows(parts, first, last + 1);
      Settle();
      if cols != [] {
        while first <= last
          invariant first <= last + 1 <= |parts| && Valid() && firstCols == lastCols == []
          invariant forall p :: p in fed ==> 0 <= p < Start(parts, first) || Start(parts, last + 1) <= p < |all|
          invariant Covered(0, Start(parts, first)) && Covered(Start(parts, last + 1), |all|)
        {
          StartOk(parts, first);
          StartGrows(parts, first + 1, last + 1);
          UpdatePartition(parts[first], true, Start(parts, first));
          first := first + 1;
        }
      }
      Answered();
    }
  }

  function Indices(n: nat): (s: seq<nat>)
    ensures |s| == n && forall i :: 0 <= i < n ==> s[i] == i
  {
    if n == 0 then [] else Indices(n - 1) + [n - 1]
  }

  function Fresh<T>(cols: seq<nat>, x: T): (m: map<nat, T>)
    ensures forall i :: 0 <= i < |cols| ==> cols[i] in m && m[cols[i]] == x
  {
    map c | c in cols :: x
  }

  lemma NothingFed(all: seq<Block>, c: nat)
    ensures AccFed(EMPTY_ACC, []) && Bag(all, |all|, {}, c) == multiset{} == multiset(Flat<int>([]))
    ensures PartsAlong(all, [], c) == []
  {
    BagNone(all, |all|, c);
    NoValues(c);
    FlatNone<int>();
  }

  lemma NothingLast(all: seq<Block>, k: nat, l: LastCol)
    ensures LastOver(map[], all, {}, k, l)
  {
  }

  // The position of the first block of a partition.
  function Start(parts: seq<seq<Block>>, p: nat): nat
    requires p <= |parts|
  {
    |Flat(parts[..p])|
  }

  lemma StartGrows(parts: seq<seq<Block>>, p: nat, q: nat)
    requires p <= q <= |parts|
    ensures Start(parts, p) <= Start(parts, q)
  {
    assert parts[..q][..p] == parts[..p];
    FlatPrefix(parts[..q], p);
  }

  lemma StartOk(parts: seq<seq<Block>>, p: nat)
    requires p <= |parts|
    ensures Start(parts, 0) == 0 && Start(parts, |parts|) == |Flat(parts)| && Start(parts, p) <= |Flat(parts)|
    ensures p < |parts| ==> Start(parts, p + 1) == Start(parts, p) + |parts[p]| <= |Flat(parts)|
    ensures p < |parts| ==> Flat(parts)[Start(parts, p)..Start(parts, p) + |parts[p]|] == parts[p]
  {
    hide Flat;
    assert parts[..|parts|] == parts && parts[..0] == [];
    FlatNone<Block>();
    FlatPrefix(parts, p);
    if p < |parts| {
      FlatPrefix(parts, p + 1);
      assert parts[..p + 1] == parts[..p] + [parts[p]];
      FlatPush(parts[..p], parts[p]);
      SliceOfPrefix(Flat(parts), Flat(parts[..p]), parts[p]);
    }
  }

  lemma SliceOfPrefix(s: seq<Block>, a: seq<Block>, b: seq<Block>)
    requires a + b <= s
    ensures |a| + |b| <= |s| && s[|a|..|a| + |b|] == b
  {
    assert s[..|a + b|] == a + b;
  }

  lemma Sorted(b: Block)
    requires ValidBlock(b)
    ensures forall i, j :: 0 <= i <= j < |b.rows| ==> b.rows[i].ts <= b.rows[j].ts
  {
  }

  lemma NoColumn(b: Block, c: nat)
    requires ValidBlock(b) && c !in b.columns
    ensures NoValue(b.rows, c)
  {
  }

  lemma SameLast(before: map<nat, Candidate>, cands: map<nat, Candidate>, all: seq<Block>, positions: set<int>, k: nat,
                 l: LastCol)
    requires LastOver(before, all, positions, k, l) && (k in before <==> k in cands)
      && (k in cands ==> before[k] == cands[k])
    ensures LastOver(cands, all, positions, k, l)
  {
    forall j | j in positions && 0 <= j < |all|
      ensures NoLater(cands, k, l, all[j].rows)
    {
      assert NoLater(before, k, l, all[j].rows);
    }
  }

  lemma SameFirst(before: map<nat, Candidate>, cands: map<nat, Candidate>, all: seq<Block>, c: nat)
    requires FirstOver(before, all, c) && (c in before <==> c in cands) && (c in cands ==> before[c] == cands[c])
    ensures FirstOver(cands, all, c)
  {
  }
}
