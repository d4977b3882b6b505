/** The raft log index as values: one list of entries per range, newest index first, and what each write
    operation and each replayed record does to it (raft_store.cpp). */
module RaftIndex {
  import opened Words

  // Where the value of one raft log index lives.
  datatype Entry = Entry(index: nat, file: int, offset: nat, len: nat)

  type Log = seq<Entry>

  predicate Descending(log: Log)
  {
    forall i, j :: 0 <= i < j < |log| ==> log[i].index > log[j].index
  }

  predicate Contiguous(log: Log)
  {
    forall i :: 0 <= i < |log| - 1 ==> log[i].index == log[i + 1].index + 1
  }

  // Where a walk along `next` starting at position `from` stops: the first index at most id, or the end.
  function Walk(log: Log, from: nat, id: nat): (r: nat)
    requires from <= |log|
    ensures from <= r <= |log|
    ensures forall k :: from <= k < r ==> log[k].index > id
    ensures r < |log| ==> log[r].index <= id
    decreases |log| - from
  {
    if from < |log| && id < log[from].index then Walk(log, from + 1, id) else from
  }

  // The walk finds the index.
  predicate Has(log: Log, id: nat)
  {
    var i := Walk(log, 0, id);
    i < |log| && log[i].index == id
  }

  lemma HasIff(log: Log, id: nat)
    requires Descending(log)
    ensures Has(log, id) <==> exists i :: 0 <= i < |log| && log[i].index == id
  {
    if i :| 0 <= i < |log| && log[i].index == id {
      assert Walk(log, 0, id) <= i;
    }
  }

  // ---------- what the live index does ----------

  // putIndex without the record it appends: the new entry on top of what it does not displace. The walk
  // stops at the oldest entry even when that one is above the new index.
  function LivePut(log: Log, e: Entry): Log
  {
    if log == [] || e.index > log[0].index + 1 then [e]
    else
      var i := Walk(log, 0, e.index);
      if i == |log| then [e, log[i - 1]]
      else if log[i].index == e.index then [e] + log[i + 1..]
      else [e] + log[i..]
  }

  // multDelete: the resulting list and the span it records, if it records one.
  datatype Deleted = Deleted(log: Log, span: Option<(nat, nat)>)

  function MultDelete(log: Log, start: nat, end: nat): Deleted
  {
    if log == [] || log[0].index < start then Deleted(log, None)
    else
      var t := Walk(log, 0, end);
      if t == |log| then Deleted(log, None)
      else
        var keepEnd := log[t].index == end;
        var end' := if keepEnd then end else log[t].index + 1;
        var j := Walk(log, t + 1, start);
        var start' := if j == |log| then log[j - 1].index else start;
        var rest := if j == |log| then [] else log[j + 1..];
        Deleted((if keepEnd then log[..t + 1] else []) + rest, if start' != end' then Some((start', end')) else None)
  }

  // truncate: the resulting list and the index it records, if it records one.
  datatype Truncated = Truncated(log: Log, index: Option<nat>)

  function Truncate(log: Log, id: nat): Truncated
  {
    if log == [] then Truncated(log, None)
    else if log[0].index < id then Truncated([], Some(log[0].index))
    else if log[0].index == id then Truncated(log[..1], Some(id))
    else
      var j := Walk(log, 1, id);
      if j == |log| then Truncated(log, None)
      else if log[j].index == id then Truncated(log[..j + 1], Some(id))
      else Truncated(log[..j], Some(log[j - 1].index))
  }

  // loadIndex: how replay inserts an entry.
  function LoadPut(log: Log, e: Entry): Log
  {
    if log == [] || e.index > log[0].index then [e] + log
    else
      var j := Walk(log, 1, e.index);
      if j < |log| && log[j].index == e.index then log[..j] + [e] + log[j + 1..]
      else log[..j] + [e] + log[j..]
  }

  // ---------- what the operations promise, and when they keep the promise ----------

  function Below(log: Log, id: nat): Log
  {
    if log == [] then [] else if log[0].index < id then [log[0]] + Below(log[1..], id) else Below(log[1..], id)
  }

  function AtLeast(log: Log, id: nat): Log
  {
    if log == [] then [] else if log[0].index >= id then [log[0]] + AtLeast(log[1..], id) else AtLeast(log[1..], id)
  }

  // The raft rule of section 5.3: a new entry replaces everything at or above its index; after a gap it
  // stands alone.
  function PromisedPut(log: Log, e: Entry): Log
  {
    if log == [] || e.index > log[0].index + 1 then [e] else [e] + Below(log, e.index)
  }

  lemma {:induction false} BelowIsSuffix(log: Log, id: nat)
    requires Descending(log)
    ensures var i := Walk(log, 0, id);
            Below(log, id) == if i < |log| && log[i].index == id then log[i + 1..] else log[i..]
  {
    hide Walk, Below;
    if log == [] {
      AllBelowStay(log, id);
    } else if log[0].index < id {
      AllBelowStay(log, id);
      assert log[0..] == log;
    } else {
      BelowSkip(log, id);
      if log[0].index == id {
        AllBelowStay(log[1..], id);
      } else {
        BelowIsSuffix(log[1..], id);
        var i := Walk(log[1..], 0, id);
        assert i < |log| - 1 ==> log[1..][i] == log[i + 1];
        assert Walk(log, 0, id) == i + 1;
        SuffixShift(log, i);
      }
    }
  }

  lemma BelowSkip(log: Log, id: nat)
    requires log != [] && log[0].index >= id
    ensures Below(log, id) == Below(log[1..], id)
  {
  }

  lemma SuffixShift(log: Log, i: nat)
    requires i + 1 <= |log|
    ensures log[1..][i..] == log[i + 1..] && (i + 2 <= |log| ==> log[1..][i + 1..] == log[i + 2..])
  {
  }

  lemma {:induction false} AllBelowStay(log: Log, id: nat)
    requires forall k :: 0 <= k < |log| ==> log[k].index < id
    ensures Below(log, id) == log
  {
    if log != [] {
      AllBelowStay(log[1..], id);
    }
  }

  lemma {:induction false} NoneAtLeast(log: Log, id: nat)
    requires forall k :: 0 <= k < |log| ==> log[k].index < id
    ensures AtLeast(log, id) == []
  {
    if log != [] {
      NoneAtLeast(log[1..], id);
    }
  }

  lemma {:induction false} AtLeastIsPrefix(log: Log, id: nat)
    requires Descending(log)
    ensures var i := Walk(log, 0, id);
            AtLeast(log, id) == if i < |log| && log[i].index == id then log[..i + 1] else log[..i]
  {
    hide Walk;
    if log != [] {
      if log[0].index <= id {
        NoneAtLeast(log[1..], id);
      } else {
        AtLeastIsPrefix(log[1..], id);
        var i := Walk(log[1..], 0, id);
        assert i < |log| - 1 ==> log[1..][i] == log[i + 1];
        assert Walk(log, 0, id) == i + 1;
        PrefixShift(log, i);
      }
    }
  }

  lemma PrefixShift(log: Log, i: nat)
    requires i + 1 <= |log|
    ensures log[..i + 1] == [log[0]] + log[1..][..i]
    ensures i + 2 <= |log| ==> log[..i + 2] == [log[0]] + log[1..][..i + 1]
  {
  }

  // putIndex follows the raft rule exactly when the new index is not below the oldest one kept.
  lemma PutKeepsPromise(log: Log, e: Entry)
    requires Descending(log)
    ensures LivePut(log, e) == PromisedPut(log, e) <==> log == [] || e.index >= log[|log| - 1].index
  {
    if log != [] && e.index <= log[0].index + 1 {
      BelowIsSuffix(log, e.index);
      var i := Walk(log, 0, e.index);
      if i < |log| {
        assert i == |log| - 1 || log[i].index > log[|log| - 1].index;
      }
    }
  }

  /** loadIndex puts the entry in its place, between the entries above and below it and instead of one with its index,
      exactly when its index is not that of the newest entry; there it is put behind that one, and the index is in the
      list twice. */
  lemma LoadKeepsPromise(log: Log, e: Entry)
    requires Descending(log)
    ensures LoadPut(log, e) == AtLeast(log, e.index + 1) + [e] + Below(log, e.index)
       <==> log == [] || e.index != log[0].index
    ensures log != [] && e.index == log[0].index ==> LoadPut(log, e) == [log[0], e] + log[1..]
  {
    hide Walk, AtLeast, Below, LoadPut;
    Between(log, e.index);
    BelowIsSuffix(log, e.index);
    LoadIs(log, e);
    if log != [] && e.index == log[0].index {
      var promised := AtLeast(log, e.index + 1) + [e] + Below(log, e.index);
      assert |promised| == |log| && |LoadPut(log, e)| == |log| + 1;
    }
  }

  lemma LoadIs(log: Log, e: Entry)
    requires Descending(log)
    ensures var i := Walk(log, 0, e.index);
      if log != [] && e.index == log[0].index then i == 0 && LoadPut(log, e) == [log[0], e] + log[1..]
      else LoadPut(log, e)
           == log[..i] + [e] + if i < |log| && log[i].index == e.index then log[i + 1..] else log[i..]
  {
    hide Walk, Descending, LoadPut;
    var i := Walk(log, 0, e.index);
    if log == [] || e.index > log[0].index {
      assert i == 0;
      LoadInFront(log, e);
    } else {
      WalkOn(log, e.index);
      LoadBehind(log, e);
      if e.index == log[0].index {
        assert log[..1] == [log[0]];
        assert [log[0]] + [e] == [log[0], e];
        SecondBelow(log);
      }
    }
  }

  lemma LoadInFront(log: Log, e: Entry)
    requires log == [] || e.index > log[0].index
    ensures LoadPut(log, e) == log[..0] + [e] + log[0..]
  {
    assert log[..0] + [e] == [e] && log[0..] == log;
  }

  lemma LoadBehind(log: Log, e: Entry)
    requires log != [] && e.index <= log[0].index
    ensures var j := Walk(log, 1, e.index);
      LoadPut(log, e) == log[..j] + [e] + if j < |log| && log[j].index == e.index then log[j + 1..] else log[j..]
  {
    hide Walk;
  }

  lemma SecondBelow(log: Log)
    requires Descending(log) && log != []
    ensures |log| > 1 ==> log[1].index != log[0].index
  {
  }

  // A walk from the second entry.
  lemma WalkOn(log: Log, id: nat)
    requires Descending(log) && log != [] && id <= log[0].index
    ensures if id == log[0].index then Walk(log, 0, id) == 0 && Walk(log, 1, id) == 1
            else Walk(log, 1, id) == Walk(log, 0, id)
  {
    assert |log| > 1 ==> log[0].index > log[1].index;
  }

  // Where the entries above an index end.
  lemma Between(log: Log, id: nat)
    requires Descending(log)
    ensures AtLeast(log, id + 1) == log[..Walk(log, 0, id)]
  {
    hide Walk, AtLeast;
    AtLeastIsPrefix(log, id + 1);
    var i, up := Walk(log, 0, id), Walk(log, 0, id + 1);
    if up + 1 < |log| {
      assert log[up].index > log[up + 1].index;
    }
    assert i == if up < |log| && log[up].index == id + 1 then up + 1 else up;
  }

  // truncate always leaves exactly the entries at or above the given index.
  lemma TruncateKeepsPromise(log: Log, id: nat)
    requires Descending(log)
    ensures Truncate(log, id).log == AtLeast(log, id)
  {
    AtLeastIsPrefix(log, id);
  }

  lemma {:induction false} ContiguousAt(log: Log, i: nat, j: nat)
    requires Contiguous(log) && i <= j < |log|
    ensures log[i].index == log[j].index + (j - i)
  {
    if i < j {
      ContiguousAt(log, i, j - 1);
    }
  }

  lemma ContiguousIsDescending(log: Log)
    requires Contiguous(log)
    ensures Descending(log)
  {
    forall i, j | 0 <= i < j < |log|
      ensures log[i].index > log[j].index
    {
      ContiguousAt(log, i, j);
    }
  }

  // The promise of a span delete: everything in [start, end) goes, the rest stays.
  function PromisedDelete(log: Log, start: nat, end: nat): Log
  {
    if start < end then AtLeast(log, end) + Below(log, start) else log
  }

  // When multDelete keeps it. Some of the list lies in the span, and the list reaches beyond either end of the span
  // only with an entry at that end; but not with the newest entry at the start and older ones behind it.
  predicate DeleteExact(log: Log, start: nat, end: nat)
  {
    || log == [] || log[0].index < start || log[|log| - 1].index > end
    || (if start < end then
          && (Has(log, end) || log[0].index < end)
          && (Has(log, start) || start < log[|log| - 1].index)
          && !(log[0].index == start && |log| > 1)
        else log[|log| - 1].index == end)
  }

  /** On every descending list, with holes or without, and for every span: multDelete removes exactly the entries of
      the span if and only if the list meets DeleteExact. */
  lemma DeleteKeepsPromise(log: Log, start: nat, end: nat)
    requires Descending(log)
    ensures MultDelete(log, start, end).log == PromisedDelete(log, start, end) <==> DeleteExact(log, start, end)
  {
    hide Walk, MultDelete, PromisedDelete, DeleteExact;
    if log == [] || log[0].index < start || Walk(log, 0, end) == |log| {
      UntouchedSpan(log, start, end);
    } else {
      DeletedPart(log, start, end);
    }
  }

  // The list without positions a to b.
  function Outer(log: Log, a: nat, b: nat): Log
    requires a <= b <= |log|
  {
    log[..a] + log[b..]
  }

  lemma DeletedPart(log: Log, start: nat, end: nat)
    requires Descending(log) && log != [] && log[0].index >= start && Walk(log, 0, end) < |log|
    ensures MultDelete(log, start, end).log == PromisedDelete(log, start, end) <==> DeleteExact(log, start, end)
  {
    hide Walk, Below, AtLeast, Descending, Has, MultDelete, Outer;
    SpanPositions(log, start, end);
    var a, b := MultDeleteParts(log, start, end);
    var c, d := PromisedParts(log, start, end);
    PartsEqual(log, a, b, c, d);
  }

  lemma MultDeleteParts(log: Log, start: nat, end: nat) returns (a: nat, b: nat)
    requires log != [] && log[0].index >= start && Walk(log, 0, end) < |log|
    ensures var t := Walk(log, 0, end);
            var j := Walk(log, t + 1, start);
            && a == (if log[t].index == end then t + 1 else 0) && b == (if j == |log| then j else j + 1)
            && a <= b <= |log| && MultDelete(log, start, end).log == Outer(log, a, b)
  {
    hide Walk;
    var t := Walk(log, 0, end);
    var j := Walk(log, t + 1, start);
    a, b := if log[t].index == end then t + 1 else 0, if j == |log| then j else j + 1;
  }

  lemma PromisedParts(log: Log, start: nat, end: nat) returns (c: nat, d: nat)
    requires Descending(log) && Walk(log, 0, end) < |log|
    ensures var t, w := Walk(log, 0, end), Walk(log, 0, start);
            && c == (if start >= end then 0 else if log[t].index == end then t + 1 else t)
            && d == (if start >= end then 0 else if w < |log| && log[w].index == start then w + 1 else w)
            && c <= d <= |log| && PromisedDelete(log, start, end) == Outer(log, c, d)
  {
    hide Walk, Below, AtLeast;
    if start < end {
      BelowIsSuffix(log, start);
      AtLeastIsPrefix(log, end);
      var t, w := Walk(log, 0, end), Walk(log, 0, start);
      c, d := if log[t].index == end then t + 1 else t, if w < |log| && log[w].index == start then w + 1 else w;
    } else {
      c, d := 0, 0;
    }
  }

  lemma UntouchedSpan(log: Log, start: nat, end: nat)
    requires Descending(log) && (log == [] || log[0].index < start || Walk(log, 0, end) == |log|)
    ensures MultDelete(log, start, end).log == PromisedDelete(log, start, end) && DeleteExact(log, start, end)
  {
    hide Walk, Below, AtLeast;
    if start < end {
      BelowIsSuffix(log, start);
      AtLeastIsPrefix(log, end);
    }
  }

  // Where the walks of multDelete stop, and what that says about the ends of the list.
  lemma SpanPositions(log: Log, start: nat, end: nat)
    requires Descending(log) && log != [] && log[0].index >= start && Walk(log, 0, end) < |log|
    ensures var t, w, last := Walk(log, 0, end), Walk(log, 0, start), |log| - 1;
            && Walk(log, t + 1, start) == (if w > t then w else t + 1)
            && (start < end ==> t <= w)
            && (Has(log, end) <==> log[t].index == end) && (Has(log, start) <==> w < |log| && log[w].index == start)
            && (log[0].index <= end <==> t == 0) && (start < log[last].index <==> w == |log|)
            && (log[0].index == start <==> w == 0) && log[last].index <= end
            && (log[last].index == end <==> t == last && log[t].index == end)
  {
    hide Walk;
    var t, w := Walk(log, 0, end), Walk(log, 0, start);
    var j := Walk(log, t + 1, start);
    if w <= t && t + 1 < |log| {
      assert log[w].index > log[t + 1].index;
    }
  }

  // A prefix and a suffix of a list without repetitions.
  lemma PartsEqual(log: Log, a: nat, b: nat, c: nat, d: nat)
    requires Descending(log) && a <= b <= |log| && c <= d <= |log|
    ensures Outer(log, a, b) == Outer(log, c, d) <==> (a == c && b == d) || (a == b && c == d)
  {
    if a == b && c == d {
      assert log[..a] + log[b..] == log == log[..c] + log[d..];
    } else if a < c {
      PartsDiffer(log, a, b, c, d);
    } else if c < a {
      PartsDiffer(log, c, d, a, b);
    } else {
      assert |log[..a] + log[b..]| == a + |log| - b && |log[..c] + log[d..]| == c + |log| - d;
    }
  }

  lemma PartsDiffer(log: Log, a: nat, b: nat, c: nat, d: nat)
    requires Descending(log) && a <= b <= |log| && c <= d <= |log| && a < c && (a < b || c < d)
    ensures log[..a] + log[b..] != log[..c] + log[d..]
  {
    var x, y := log[..a] + log[b..], log[..c] + log[d..];
    if a == b || b == |log| {
      assert |x| != |y|;
    } else {
      assert x[a] == log[b] && y[a] == log[a];
    }
  }

  // On a contiguous list, where the span is not empty, only one entry too many can go.
  lemma DeleteKeepsPromiseContiguous(log: Log, start: nat, end: nat)
    requires Contiguous(log) && start < end
    ensures MultDelete(log, start, end).log == PromisedDelete(log, start, end)
            <==> !(|log| > 1 && log[0].index == start)
  {
    hide MultDelete, PromisedDelete, Walk;
    ContiguousIsDescending(log);
    DeleteKeepsPromise(log, start, end);
    HasIff(log, start);
    HasIff(log, end);
    if log != [] && log[|log| - 1].index <= start <= log[0].index {
      ContiguousAt(log, 0, |log| - 1);
      ContiguousAt(log, log[0].index - start, |log| - 1);
    }
    if log != [] && log[|log| - 1].index <= end <= log[0].index {
      ContiguousAt(log, 0, |log| - 1);
      ContiguousAt(log, log[0].index - end, |log| - 1);
    }
  }

  lemma DeletePositions(log: Log, start: nat, end: nat)
    requires Contiguous(log) && start < end && log != [] && log[0].index >= start
    ensures var t := Walk(log, 0, end);
            && (t == |log| ==> Walk(log, 0, start) == |log|)
            && (t < |log| && log[t].index != end ==> t == 0)
            && (t < |log| && log[t].index > start ==> Walk(log, t + 1, start) == Walk(log, 0, start))
            && (Walk(log, 0, start) < |log| ==> log[Walk(log, 0, start)].index == start)
  {
    var w := Walk(log, 0, start);
    if 0 < w < |log| {
      assert log[w - 1].index == log[w].index + 1;
    }
    var t := Walk(log, 0, end);
    if 0 < t < |log| {
      assert log[t - 1].index == log[t].index + 1;
    }
    ContiguousIsDescending(log);
  }

  // ---------- contiguity ----------

  lemma PutKeepsContiguous(log: Log, e: Entry)
    requires Contiguous(log) && (log == [] || e.index >= log[|log| - 1].index)
    ensures Contiguous(LivePut(log, e))
  {
    if log != [] && e.index <= log[0].index + 1 {
      var i := Walk(log, 0, e.index);
      if 0 < i < |log| {
        assert log[i - 1].index == log[i].index + 1;
      }
    }
  }

  lemma TruncateKeepsContiguous(log: Log, id: nat)
    requires Contiguous(log)
    ensures Contiguous(Truncate(log, id).log)
  {
  }

  lemma CutContiguousIff(log: Log, a: nat, b: nat)
    requires Contiguous(log) && a < b <= |log|
    ensures Contiguous(log[..a + 1] + log[b..]) <==> b == |log| || b == a + 1
  {
    var r := log[..a + 1] + log[b..];
    if b == |log| {
      assert r == log[..a + 1];
    } else if b == a + 1 {
      assert r == log;
    } else {
      ContiguousAt(log, a, b);
      assert r[a] == log[a] && r[a + 1] == log[b];
    }
  }

  lemma SuffixContiguous(log: Log)
    requires Contiguous(log)
    ensures Contiguous([]) && forall k :: 0 <= k <= |log| ==> Contiguous([] + log[k..])
  {
  }

  // Where a span delete cuts: the entries before `keep` and from `from` on stay.
  lemma DeleteCut(log: Log, start: nat, end: nat) returns (keep: nat, from: nat)
    requires Contiguous(log) && log != [] && start < end && log[0].index >= start
    ensures keep <= from <= |log| && MultDelete(log, start, end).log == log[..keep] + log[from..]
    ensures keep > 0 && keep < from ==> log[keep - 1].index == end
    ensures keep > 0 && from < |log| && keep < from ==> log[from - 1].index == start
    ensures keep == from ==> keep == from == |log| && log[|log| - 1].index >= end
    ensures keep == 0 ==> log[0].index < end
    ensures from == |log| && 0 < keep < from ==> log[|log| - 1].index >= start
  {
    hide Walk, Contiguous;
    DeletePositions(log, start, end);
    var t := Walk(log, 0, end);
    if t == |log| {
      keep, from := |log|, |log|;
    } else {
      var j := Walk(log, t + 1, start);
      keep, from := if log[t].index == end then t + 1 else 0, if j == |log| then |log| else j + 1;
    }
  }

  // A span delete leaves a hole exactly when it cuts between two entries that stay.
  lemma DeleteKeepsContiguousIff(log: Log, start: nat, end: nat)
    requires Contiguous(log) && log != [] && start < end
    ensures Contiguous(MultDelete(log, start, end).log)
            <==> start <= log[|log| - 1].index || log[0].index < end
  {
    hide Walk, Contiguous, MultDelete;
    ContiguousAt(log, 0, |log| - 1);
    SuffixContiguous(log);
    if log[0].index >= start {
      var keep, from := DeleteCut(log, start, end);
      if keep > 0 && keep < from {
        CutContiguousIff(log, keep - 1, from);
        ContiguousAt(log, 0, keep - 1);
        if from < |log| {
          ContiguousAt(log, from - 1, |log| - 1);
        }
      } else if keep > 0 {
        assert log[..keep] + log[from..] == log;
      } else {
        assert log[..0] == [];
      }
    } else {
      BelowStart(log, start, end);
    }
  }

  lemma BelowStart(log: Log, start: nat, end: nat)
    requires log == [] || log[0].index < start
    ensures MultDelete(log, start, end).log == log
  {
  }
}
