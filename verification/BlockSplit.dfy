/** Splitting the cached rows of one entity into blocks: full blocks first, a last block only if enough rows are left,
    and the rest back to a last segment. */
module BlockSplit {
  import opened Seqs
  import opened Words

  // Cutting rows into blocks: the blocks, and the rows that are too few for another block.
  function Cut<T>(rows: seq<T>, vacuum: bool, minRows: nat, maxRows: nat): (seq<seq<T>>, seq<T>)
    requires 0 < maxRows
    decreases |rows|
  {
    if rows == [] || (!vacuum && |rows| < minRows) then ([], rows)
    else if |rows| <= maxRows then ([rows], [])
    else
      var (blocks, rest) := Cut(rows[maxRows..], vacuum, minRows, maxRows);
      ([rows[..maxRows]] + blocks, rest)
  }

  /** Nothing is lost, doubled or reordered; every block but the last is full, and the last one too if rows are sent
      back; outside a vacuum no block is shorter than the minimum, blocks are cut as long as the minimum is left, and
      the rows sent back are fewer than the minimum; a vacuum sends nothing back. */
  predicate WellCut<T(==)>(rows: seq<T>, blocks: seq<seq<T>>, rest: seq<T>, vacuum: bool, minRows: nat, maxRows: nat)
  {
    && Flat(blocks) + rest == rows
    && (forall i :: 0 <= i < |blocks| ==> 0 < |blocks[i]| <= maxRows)
    && (forall i :: 0 <= i < |blocks| - 1 ==> |blocks[i]| == maxRows)
    && (!vacuum ==> forall i :: 0 <= i < |blocks| ==> |blocks[i]| >= Min(minRows, maxRows))
    && (if vacuum then rest == [] else rest == [] || |rest| < minRows)
    && (rest != [] ==> forall i :: 0 <= i < |blocks| ==> |blocks[i]| == maxRows)
    && (!vacuum ==> forall i :: 0 <= i < |blocks| ==> |Flat(blocks[i..])| + |rest| >= minRows)
  }

  // There is one way only to cut.
  lemma {:induction false} OneCut<T>(rows: seq<T>, a: seq<seq<T>>, r: seq<T>, b: seq<seq<T>>, s: seq<T>, vacuum: bool,
                                     minRows: nat, maxRows: nat)
    requires WellCut(rows, a, r, vacuum, minRows, maxRows) && WellCut(rows, b, s, vacuum, minRows, maxRows)
    ensures a == b && r == s
    decreases |a|
  {
    hide WellCut;
    CutStart(rows, a, r, vacuum, minRows, maxRows);
    CutStart(rows, b, s, vacuum, minRows, maxRows);
    if a != [] {
      var n := |a[0]|;
      assert a[0] == rows[..n] == b[0];
      OneCut(rows[n..], a[1..], r, b[1..], s, vacuum, minRows, maxRows);
      assert a == [a[0]] + a[1..] && b == [b[0]] + b[1..];
    }
  }

  // The first block of a cut, and that the others cut the rows behind it.
  lemma CutStart<T>(rows: seq<T>, blocks: seq<seq<T>>, rest: seq<T>, vacuum: bool, minRows: nat, maxRows: nat)
    requires WellCut(rows, blocks, rest, vacuum, minRows, maxRows)
    ensures blocks == [] <==> rows == [] || (!vacuum && |rows| < minRows)
    ensures blocks == [] ==> rest == rows
    ensures blocks != [] ==>
      && |blocks[0]| == Min(|rows|, maxRows) && blocks[0] == rows[..|blocks[0]|]
      && WellCut(rows[|blocks[0]|..], blocks[1..], rest, vacuum, minRows, maxRows)
  {
    if blocks == [] {
      assert [] + rest == rest;
    } else {
      var n := |blocks[0]|;
      assert blocks[0..] == blocks;
      assert Flat(blocks) + rest == blocks[0] + (Flat(blocks[1..]) + rest);
      assert |blocks| > 1 ==> |Flat(blocks[1..])| >= |blocks[1]|;
      forall i | 0 <= i < |blocks[1..]|
        ensures Flat(blocks[1..][i..]) == Flat(blocks[i + 1..])
      {
        assert blocks[1..][i..] == blocks[i + 1..];
      }
      if |blocks| == 1 {
        assert Flat(blocks[1..]) == [];
      }
    }
  }

  lemma {:induction false} CutConserves<T>(rows: seq<T>, vacuum: bool, minRows: nat, maxRows: nat)
    requires 0 < maxRows
    ensures var (blocks, rest) := Cut(rows, vacuum, minRows, maxRows);
            WellCut(rows, blocks, rest, vacuum, minRows, maxRows)
    decreases |rows|
  {
    hide WellCut;
    if rows == [] || (!vacuum && |rows| < minRows) {
      NoBlock(rows, vacuum, minRows, maxRows);
    } else if |rows| <= maxRows {
      OneBlock(rows, vacuum, minRows, maxRows);
    } else {
      var full, left := rows[..maxRows], rows[maxRows..];
      var (blocks, rest) := Cut(left, vacuum, minRows, maxRows);
      CutConserves(left, vacuum, minRows, maxRows);
      assert full + left == rows;
      MoreBlocks(full, left, blocks, rest, vacuum, minRows, maxRows);
    }
  }

  lemma NoBlock<T>(rows: seq<T>, vacuum: bool, minRows: nat, maxRows: nat)
    requires rows == [] || (!vacuum && |rows| < minRows)
    ensures WellCut(rows, [], rows, vacuum, minRows, maxRows)
  {
    assert [] + rows == rows;
  }

  lemma OneBlock<T>(rows: seq<T>, vacuum: bool, minRows: nat, maxRows: nat)
    requires 0 < |rows| <= maxRows && (vacuum || |rows| >= minRows)
    ensures WellCut(rows, [rows], [], vacuum, minRows, maxRows)
  {
    FlatPush([], rows);
    assert [] + [rows] == [rows] && [] + rows == rows && rows + [] == rows;
  }

  // A full block in front of what is cut already.
  lemma MoreBlocks<T>(full: seq<T>, left: seq<T>, blocks: seq<seq<T>>, rest: seq<T>, vacuum: bool, minRows: nat,
                      maxRows: nat)
    requires 0 < |full| == maxRows && left != [] && WellCut(left, blocks, rest, vacuum, minRows, maxRows)
    requires vacuum || |full| + |left| >= minRows
    ensures WellCut(full + left, [full] + blocks, rest, vacuum, minRows, maxRows)
  {
    hide Flat;
    FirstSpan([full] + blocks);
    assert ([full] + blocks)[1..] == blocks;
    forall i | 0 <= i < |[full] + blocks| && !vacuum
      ensures |Flat(([full] + blocks)[i..])| + |rest| >= minRows
    {
      assert ([full] + blocks)[i..] == if i == 0 then [full] + blocks else blocks[i - 1..];
    }
    assert full + (Flat(blocks) + rest) == (full + Flat(blocks)) + rest;
  }

  class Splitter<T> {
    const minRows: nat
    const maxRows: nat
    var cachedSpans: seq<seq<T>>
    var cachedCount: int
    var block: seq<T>
    var written: seq<seq<T>>
    var residual: seq<seq<T>>

    constructor (minRows: nat, maxRows: nat)
      ensures this.minRows == minRows && this.maxRows == maxRows && Idle() && written == residual == []
    {
      this.minRows, this.maxRows := minRows, maxRows;
      cachedSpans, cachedCount, block, written, residual := [], 0, [], [], [];
    }

    // Between two entities nothing is cached.
    ghost predicate Idle()
      reads this
    {
      cachedSpans == [] && cachedCount == 0 && block == []
    }

    // One more span of the current entity.
    method Cache(span: seq<T>)
      requires cachedCount == |Flat(cachedSpans)|
      modifies this`cachedSpans, this`cachedCount
      ensures cachedSpans == old(cachedSpans) + [span] && Flat(cachedSpans) == old(Flat(cachedSpans)) + span
      ensures cachedCount == |Flat(cachedSpans)|
    {
      FlatPush(cachedSpans, span);
      cachedCount := cachedCount + |span|;
      cachedSpans := cachedSpans + [span];
    }

    // Fills the block from the first cached span, which loses the rows taken.
    method Append() returns (isFull: bool)
      requires cachedSpans != [] && |block| < maxRows
      modifies this`block, this`cachedSpans
      ensures |cachedSpans| == |old(cachedSpans)| && block + Flat(cachedSpans) == old(block + Flat(cachedSpans))
      ensures |block| == Min(old(|block| + |cachedSpans[0]|), maxRows) && isFull == (|block| == maxRows)
    {
      var span := cachedSpans[0];
      var rows := if |span| + |block| > maxRows then maxRows - |block| else |span|;
      assert Flat(cachedSpans) == span + Flat(cachedSpans[1..]) && span == span[..rows] + span[rows..];
      assert block + (span[..rows] + span[rows..] + Flat(cachedSpans[1..]))
          == (block + span[..rows]) + (span[rows..] + Flat(cachedSpans[1..]));
      block := block + span[..rows];
      cachedSpans := [span[rows..]] + cachedSpans[1..];
      isFull := |block| == maxRows;
    }

    method WriteBlock()
      modifies this`written, this`cachedCount, this`block
      ensures written == old(written) + [old(block)] && Flat(written) == old(Flat(written) + block)
      ensures cachedCount == old(cachedCount) - |old(block)| && block == []
    {
      FlatPush(written, block);
      written := written + [block];
      cachedCount := cachedCount - |block|;
      block := [];
    }

    // The state of a run that has sent back `back` so far.
    ghost predicate Running(vacuum: bool, back: seq<seq<T>>)
      reads this
    {
      && 0 < maxRows && |block| < maxRows && cachedCount == |block| + |Flat(cachedSpans)|
      && (block != [] && !vacuum ==> cachedCount >= minRows)
      && (back != [] ==> !vacuum && block == [] && |Flat(back)| + cachedCount < minRows)
    }

    // What is still to be decided.
    ghost function Rest(vacuum: bool, back: seq<seq<T>>): (seq<seq<T>>, seq<T>)
      requires 0 < maxRows
      reads this
    {
      Cut(Flat(back) + (block + Flat(cachedSpans)), vacuum, minRows, maxRows)
    }

    /** WriteCachedBlockSpan: the rows cached for one entity are cut into blocks, the rest is sent back, and nothing
        stays cached. */
    method WriteCachedBlockSpan(vacuum: bool) returns (ghost done: seq<seq<T>>, ghost back: seq<seq<T>>)
      requires 0 < maxRows && block == [] && cachedCount == |Flat(cachedSpans)|
      modifies this
      ensures Idle() && written == old(written) + done && residual == old(residual) + back
      ensures done == Cut(old(Flat(cachedSpans)), vacuum, minRows, maxRows).0
      ensures Flat(back) == Cut(old(Flat(cachedSpans)), vacuum, minRows, maxRows).1
    {
      hide Flat, Cut;
      FlatNone<T>();
      ghost var cut := Cut(Flat(cachedSpans), vacuum, minRows, maxRows);
      done, back := [], [];
      assert [] + ([] + Flat(cachedSpans)) == Flat(cachedSpans);
      while cachedSpans != []
        invariant Running(vacuum, back) && written == old(written) + done && residual == old(residual) + back
        invariant cut.0 == done + Rest(vacuum, back).0 && cut.1 == Rest(vacuum, back).1
        decreases |Flat(cachedSpans)| + |cachedSpans|
      {
        FirstSpan(cachedSpans);
        if |cachedSpans[0]| == 0 {
          assert Flat(cachedSpans) == Flat(cachedSpans[1..]);
          cachedSpans := cachedSpans[1..];
        } else if !vacuum && cachedCount < minRows {
          FlatPush(back, cachedSpans[0]);
          MoveFront(Flat(back), cachedSpans[0], Flat(cachedSpans[1..]));
          back, residual := back + [cachedSpans[0]], residual + [cachedSpans[0]];
          cachedCount := cachedCount - |cachedSpans[0]|;
          cachedSpans := cachedSpans[1..];
        } else {
          var isFull := Append();
          if isFull {
            CutFull(block, Flat(cachedSpans), vacuum, minRows, maxRows);
            assert Rest(vacuum, back).0 == [block] + Rest(vacuum, back).0[1..];
            done := done + [block];
            WriteBlock();
          }
        }
      }
      CutLast(Flat(back), block, vacuum, minRows, maxRows);
      if block != [] {
        done := done + [block];
        WriteBlock();
      }
    }
  }

  // A full block is the first of the cut.
  lemma CutFull<T>(block: seq<T>, rest: seq<T>, vacuum: bool, minRows: nat, maxRows: nat)
    requires 0 < maxRows == |block| && (vacuum || |block + rest| >= minRows)
    ensures var next := Cut([] + ([] + rest), vacuum, minRows, maxRows);
      Cut([] + (block + rest), vacuum, minRows, maxRows).0 == [block] + next.0 &&
      Cut([] + (block + rest), vacuum, minRows, maxRows).1 == next.1
  {
    assert [] + (block + rest) == block + rest && [] + ([] + rest) == rest;
    assert (block + rest)[..maxRows] == block && (block + rest)[maxRows..] == rest;
    if rest == [] {
      assert block + rest == block;
    }
  }

  // What is left when all spans are used up.
  lemma CutLast<T>(back: seq<T>, block: seq<T>, vacuum: bool, minRows: nat, maxRows: nat)
    requires 0 < maxRows && |block| < maxRows
    requires if block == [] then back == [] || (!vacuum && |back| < minRows)
      else back == [] && (vacuum || |block| >= minRows)
    ensures Cut(back + (block + []), vacuum, minRows, maxRows) == if block == [] then ([], back) else ([block], [])
  {
    assert back + (block + []) == if block == [] then back else block;
  }

  lemma FirstSpan<T>(spans: seq<seq<T>>)
    requires spans != []
    ensures Flat(spans) == spans[0] + Flat(spans[1..])
  {
  }

  lemma MoveFront<T>(b: seq<T>, s: seq<T>, rest: seq<T>)
    ensures b + ([] + (s + rest)) == (b + s) + ([] + rest)
  {
    assert [] + (s + rest) == s + rest && [] + rest == rest;
  }
}
