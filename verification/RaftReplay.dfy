/** Live updates of the raft store against replay of the records they append: for every operation, the exact
    condition under which replay rebuilds the live index, and from it the same for whole runs. */
module RaftReplay {
  import opened Words
  import opened RaftIndex

  // A status slot holds None after a status read of an absent range: operator[] inserts a null pointer.
  datatype Store = Store(ranges: map<nat, Log>, state: map<nat, Option<Entry>>)

  const EMPTY: Store := Store(map[], map[])

  predicate Valid(s: Store)
  {
    forall r :: r in s.ranges ==> s.ranges[r] != [] && Descending(s.ranges[r])
  }

  function LogOf(s: Store, r: nat): Log
  {
    if r in s.ranges then s.ranges[r] else []
  }

  function SetLog(s: Store, r: nat, log: Log): Store
  {
    s.(ranges := if log == [] then s.ranges - {r} else s.ranges[r := log])
  }

  // ---------- records and their layout ----------

  datatype Record =
    | PutRec(range: nat, index: nat, size: nat)
    | DelSpanRec(range: nat, start: nat, end: nat)
    | DelStateRec(range: nat)
    | ClearRec(range: nat)
    | TruncateRec(range: nat, index: nat)

  const HEADER: nat := 25
  const SHORT_HEADER: nat := 9

  function RecLen(rec: Record): (n: nat)
    ensures n > 0
  {
    match rec
    case PutRec(_, _, size) => HEADER + size
    case DelSpanRec(_, _, _) => HEADER
    case TruncateRec(_, _) => HEADER
    case DelStateRec(_) => SHORT_HEADER
    case ClearRec(_) => SHORT_HEADER
  }

  function RecsLen(recs: seq<Record>): nat
  {
    if recs == [] then 0 else RecLen(recs[0]) + RecsLen(recs[1..])
  }

  // One record of file `file` at byte offset `off`.
  function Replay(s: Store, file: int, off: nat, rec: Record): Store
  {
    match rec
    case PutRec(r, index, size) =>
      var e := Entry(index, file, off + HEADER, size);
      if index == 0 then s.(state := s.state[r := Some(e)]) else SetLog(s, r, LoadPut(LogOf(s, r), e))
    case DelSpanRec(r, start, end) => SetLog(s, r, MultDelete(LogOf(s, r), start, end).log)
    case TruncateRec(r, index) => SetLog(s, r, Truncate(LogOf(s, r), index).log)
    case DelStateRec(r) => s.(state := s.state - {r})
    case ClearRec(r) => Store(s.ranges - {r}, s.state - {r})
  }

  function ReplayAll(s: Store, file: int, off: nat, recs: seq<Record>): Store
    decreases |recs|
  {
    if recs == [] then s else ReplayAll(Replay(s, file, off, recs[0]), file, off + RecLen(recs[0]), recs[1..])
  }

  lemma {:induction false} ReplayAppend(s: Store, file: int, off: nat, a: seq<Record>, b: seq<Record>)
    ensures ReplayAll(s, file, off, a + b) == ReplayAll(ReplayAll(s, file, off, a), file, off + RecsLen(a), b)
    ensures RecsLen(a + b) == RecsLen(a) + RecsLen(b)
    decreases |a|
  {
    hide Replay;
    if a == [] {
      assert a + b == b;
    } else {
      assert (a + b)[1..] == a[1..] + b;
      ReplayAppend(Replay(s, file, off, a[0]), file, off + RecLen(a[0]), a[1..], b);
    }
  }

  // ---------- live operations ----------

  datatype Op =
    | PutData(range: nat, index: nat, size: nat)
    | PutState(range: nat, size: nat)
    | Clear(range: nat)
    | TruncateTo(range: nat, index: nat)
    | DeleteState(range: nat)
    | DeleteSpan(range: nat, start: nat, end: nat)
    | ReadState(range: nat)

  // put dispatches on index 0, so a data entry has a positive index.
  predicate OpValid(op: Op)
  {
    op.PutData? ==> op.index > 0
  }

  // The records written before the PUT record itself.
  function PutPrelude(log: Log, r: nat, index: nat): seq<Record>
  {
    if log == [] then []
    else if index > log[0].index + 1 then [TruncateRec(r, log[0].index + 1)]
    else if !Has(log, index) then []
    else [DelSpanRec(r, index, log[0].index + 1)]
  }

  // The store after the operation and the records it appends, when the log file ends at `off`.
  function Live(s: Store, file: int, off: nat, op: Op): (Store, seq<Record>)
  {
    match op
    case PutData(r, index, size) =>
      var prelude := PutPrelude(LogOf(s, r), r, index);
      var e := Entry(index, file, off + RecsLen(prelude) + HEADER, size);
      (SetLog(s, r, LivePut(LogOf(s, r), e)), prelude + [PutRec(r, index, size)])
    case PutState(r, size) =>
      (s.(state := s.state[r := Some(Entry(0, file, off + HEADER, size))]), [PutRec(r, 0, size)])
    case Clear(r) =>
      if r in s.state then (s.(state := s.state - {r}), [ClearRec(r)])
      else if r in s.ranges then (s.(ranges := s.ranges - {r}), [ClearRec(r)])
      else (s, [])
    case TruncateTo(r, index) =>
      var t := Truncate(LogOf(s, r), index);
      (SetLog(s, r, t.log), if t.index.Some? then [TruncateRec(r, t.index.value)] else [])
    case DeleteState(r) =>
      if r in s.state then (s.(state := s.state - {r}), [DelStateRec(r)]) else (s, [])
    case DeleteSpan(r, start, end) =>
      var d := MultDelete(LogOf(s, r), start, end);
      (SetLog(s, r, d.log), if d.span.Some? then [DelSpanRec(r, d.span.value.0, d.span.value.1)] else [])
    case ReadState(r) =>
      (if r in s.state then s else s.(state := s.state[r := None]), [])
  }

  // ---------- the exact domain ----------

  // A put that appends, opens a gap, or overwrites an entry that is not the newest of several.
  predicate PutOk(log: Log, index: nat)
  {
    log == [] || index > log[0].index || (Has(log, index) && (index < log[0].index || |log| == 1))
  }

  predicate TruncateOk(log: Log, index: nat)
  {
    log == [] || index <= log[0].index
  }

  // Not the span whose recorded bounds coincide although an entry was dropped: it begins right above the
  // newest entry at or below its end, or at that entry when the span is empty.
  predicate DeleteOk(log: Log, start: nat, end: nat)
  {
    log == [] || log[0].index < start ||
    var t := Walk(log, 0, end);
    t + 1 >= |log| || start != (if log[t].index == end then end else log[t].index + 1)
  }

  predicate OpOk(s: Store, op: Op)
  {
    match op
    case PutData(r, index, _) => PutOk(LogOf(s, r), index)
    case PutState(_, _) => true
    case Clear(r) => !(r in s.state && r in s.ranges)
    case TruncateTo(r, index) => TruncateOk(LogOf(s, r), index)
    case DeleteState(_) => true
    case DeleteSpan(r, start, end) => DeleteOk(LogOf(s, r), start, end)
    case ReadState(r) => r in s.state
  }

  // In particular every span with an entry of the list inside it is fine.
  lemma NonEmptySpanOk(log: Log, start: nat, end: nat, id: nat)
    requires Descending(log) && start < end && Has(log, id) && start <= id <= end
    ensures DeleteOk(log, start, end)
  {
    var t := Walk(log, 0, end);
    var i := Walk(log, 0, id);
    assert t <= i;
    assert t == i || log[t].index > log[i].index;
  }

  // ---------- one step ----------

  lemma SetLogFacts(s: Store, r: nat, a: Log, b: Log)
    ensures SetLog(SetLog(s, r, a), r, b) == SetLog(s, r, b)
    ensures LogOf(SetLog(s, r, a), r) == a
    ensures SetLog(s, r, a) == SetLog(s, r, b) <==> a == b
  {
    assert SetLog(SetLog(s, r, a), r, b).ranges == SetLog(s, r, b).ranges;
    if SetLog(s, r, a) == SetLog(s, r, b) {
      assert LogOf(SetLog(s, r, a), r) == a && LogOf(SetLog(s, r, b), r) == b;
    }
  }

  lemma Replay1(s: Store, file: int, off: nat, a: Record)
    ensures ReplayAll(s, file, off, [a]) == Replay(s, file, off, a)
  {
    hide Replay;
    assert [a][1..] == [];
  }

  lemma Replay2(s: Store, file: int, off: nat, a: Record, b: Record)
    ensures ReplayAll(s, file, off, [a] + [b]) == Replay(Replay(s, file, off, a), file, off + RecLen(a), b)
    ensures RecsLen([a]) == RecLen(a)
  {
    hide Replay;
    ReplayAppend(s, file, off, [a], [b]);
    Replay1(s, file, off, a);
    Replay1(Replay(s, file, off, a), file, off + RecLen(a), b);
    assert RecsLen([a]) == RecLen(a) + RecsLen([a][1..]);
  }

  // Replaying a conflict: the span delete clears the new index and everything above it, unless the
  // conflict is at the newest of several entries.
  lemma ConflictReplay(log: Log, e: Entry)
    requires log != [] && Descending(log) && Has(log, e.index)
    ensures LoadPut(MultDelete(log, e.index, log[0].index + 1).log, e) == LivePut(log, e)
            <==> e.index < log[0].index || |log| == 1
  {
    hide Walk;
    var i := Walk(log, 0, e.index);
    assert Walk(log, 0, log[0].index + 1) == 0;
    var j := Walk(log, 1, e.index);
    if i > 0 {
      assert j == i;
    } else if |log| > 1 {
      assert log[0].index > log[1].index;
      assert j == 1;
    }
  }

  // A put into a hole or below the oldest entry silently drops the newer entries; replay keeps them.
  lemma HoleReplay(log: Log, e: Entry)
    requires log != [] && Descending(log) && !Has(log, e.index) && e.index <= log[0].index
    ensures LoadPut(log, e) != LivePut(log, e)
  {
    hide Walk;
    assert e.index < log[0].index by { assert Walk(log, 0, e.index) == 0 || e.index < log[0].index; }
    assert LoadPut(log, e)[0] == log[0];
    assert LivePut(log, e)[0] == e;
  }

  ghost predicate Faithful(s: Store, file: int, off: nat, op: Op)
  {
    ReplayAll(s, file, off, Live(s, file, off, op).1) == Live(s, file, off, op).0
  }

  lemma PutStepIff(s: Store, file: int, off: nat, op: Op)
    requires Valid(s) && op.PutData? && OpValid(op)
    ensures Faithful(s, file, off, op) <==> OpOk(s, op)
  {
    hide Walk, Has, LivePut, LoadPut, MultDelete, Truncate, Valid, SetLog, RecsLen, ReplayAll;
    var r, index, size := op.range, op.index, op.size;
    var log := LogOf(s, r);
    assert log != [] ==> Descending(log) by { LogsDescend(s, r); }
    var put := PutRec(r, index, size);
    if log != [] && index > log[0].index + 1 {
      var cut := TruncateRec(r, log[0].index + 1);
      Replay2(s, file, off, cut, put);
      GapReplay(log, Entry(index, file, off + HEADER + HEADER, size));
      SetLogFacts(s, r, [], LivePut(log, Entry(index, file, off + HEADER + HEADER, size)));
    } else if log != [] && Has(log, index) {
      var cut := DelSpanRec(r, index, log[0].index + 1);
      var e := Entry(index, file, off + HEADER + HEADER, size);
      var kept := MultDelete(log, index, log[0].index + 1).log;
      Replay2(s, file, off, cut, put);
      ConflictReplay(log, e);
      SetLogFacts(s, r, kept, LoadPut(kept, e));
      SetLogFacts(s, r, LoadPut(kept, e), LivePut(log, e));
      HasAtMostHead(log, index);
    } else {
      assert RecsLen([]) == 0 by { NoRecs(s, file, off); }
      var e := Entry(index, file, off + HEADER, size);
      Replay1(s, file, off, put);
      assert [] + [put] == [put];
      SetLogFacts(s, r, LoadPut(log, e), LivePut(log, e));
      PlainReplay(log, e);
    }
  }

  lemma NoRecs(s: Store, file: int, off: nat)
    ensures RecsLen([]) == 0 && ReplayAll(s, file, off, []) == s
  {
  }

  lemma LogsDescend(s: Store, r: nat)
    requires Valid(s)
    ensures Descending(LogOf(s, r))
  {
  }

  lemma HasAtMostHead(log: Log, id: nat)
    requires log != [] && Descending(log) && Has(log, id)
    ensures id <= log[0].index
  {
    hide Walk;
    var i := Walk(log, 0, id);
    assert i == 0 || log[0].index > log[i].index;
  }

  lemma GapReplay(log: Log, e: Entry)
    requires log != [] && e.index > log[0].index + 1
    ensures Truncate(log, log[0].index + 1).log == [] && LoadPut([], e) == LivePut(log, e)
  {
  }

  lemma PlainReplay(log: Log, e: Entry)
    requires Descending(log) && (log == [] || (e.index <= log[0].index + 1 && !Has(log, e.index)))
    ensures LoadPut(log, e) == LivePut(log, e) <==> log == [] || e.index > log[0].index
  {
    if log != [] {
      if e.index <= log[0].index {
        HoleReplay(log, e);
      } else {
        assert Walk(log, 0, e.index) == 0;
      }
    }
  }

  lemma TruncateStepIff(s: Store, file: int, off: nat, op: Op)
    requires Valid(s) && op.TruncateTo?
    ensures Faithful(s, file, off, op) <==> OpOk(s, op)
  {
    hide Truncate, SetLog, ReplayAll;
    var r, log := op.range, LogOf(s, op.range);
    var t := Truncate(log, op.index);
    TruncateReplay(log, op.index);
    if t.index.Some? {
      Replay1(s, file, off, TruncateRec(r, t.index.value));
      SetLogFacts(s, r, t.log, Truncate(log, t.index.value).log);
    } else {
      NoRecs(s, file, off);
      SameLog(s, r);
    }
  }

  lemma SameLog(s: Store, r: nat)
    requires Valid(s)
    ensures SetLog(s, r, LogOf(s, r)) == s
  {
    assert SetLog(s, r, LogOf(s, r)).ranges == s.ranges;
  }

  // Truncating again at the recorded index repeats the truncation, unless everything was dropped.
  lemma TruncateReplay(log: Log, index: nat)
    requires Descending(log)
    ensures var t := Truncate(log, index);
            && (t.index.None? ==> t.log == log && TruncateOk(log, index))
            && (t.index.Some? ==> (Truncate(log, t.index.value).log == t.log <==> TruncateOk(log, index)))
  {
    hide Walk;
    if log != [] && index < log[0].index {
      var j := Walk(log, 1, index);
      if 1 < j < |log| {
        var id := log[j - 1].index;
        assert log[0].index > id;
        assert Walk(log, 1, id) == j - 1;
      }
    }
  }

  lemma DeleteStepIff(s: Store, file: int, off: nat, op: Op)
    requires Valid(s) && op.DeleteSpan?
    ensures Faithful(s, file, off, op) <==> OpOk(s, op)
  {
    hide MultDelete, DeleteOk, SetLog, ReplayAll;
    var r, log := op.range, LogOf(s, op.range);
    var d := MultDelete(log, op.start, op.end);
    DeleteReplay(log, op.start, op.end);
    if d.span.Some? {
      var again := MultDelete(log, d.span.value.0, d.span.value.1).log;
      Replay1(s, file, off, DelSpanRec(r, d.span.value.0, d.span.value.1));
      SetLogFacts(s, r, again, d.log);
    } else {
      NoRecs(s, file, off);
      SameLog(s, r);
      SetLogFacts(s, r, d.log, log);
    }
  }

  // Deleting the recorded span repeats the deletion; a deletion that records nothing changed nothing,
  // except in the one excluded case.
  lemma DeleteReplay(log: Log, start: nat, end: nat)
    requires Descending(log)
    ensures var d := MultDelete(log, start, end);
            && (d.span.None? ==> (d.log == log <==> DeleteOk(log, start, end)))
            && (d.span.Some? ==>
                  DeleteOk(log, start, end) && MultDelete(log, d.span.value.0, d.span.value.1).log == d.log)
  {
    hide Walk;
    if log != [] && log[0].index >= start && Walk(log, 0, end) < |log| {
      var d := MultDelete(log, start, end);
      if d.span.Some? {
        DeleteAgain(log, start, end);
      } else {
        DeleteSilently(log, start, end);
      }
    }
  }

  lemma DeleteSilently(log: Log, start: nat, end: nat)
    requires Descending(log) && log != [] && log[0].index >= start && Walk(log, 0, end) < |log|
    requires MultDelete(log, start, end).span.None?
    ensures MultDelete(log, start, end).log == log <==> DeleteOk(log, start, end)
  {
    hide Walk;
    var t := Walk(log, 0, end);
    var j := Walk(log, t + 1, start);
    var d := MultDelete(log, start, end);
    if t + 1 < |log| {
      assert log[t].index > log[t + 1].index;
      assert |d.log| < |log|;
    } else {
      assert j == |log|;
    }
  }

  lemma DeleteAgain(log: Log, start: nat, end: nat)
    requires Descending(log) && log != [] && log[0].index >= start && Walk(log, 0, end) < |log|
    requires MultDelete(log, start, end).span.Some?
    ensures var d := MultDelete(log, start, end);
            DeleteOk(log, start, end) && MultDelete(log, d.span.value.0, d.span.value.1).log == d.log
  {
    hide Walk, Descending, MultDelete, Kept;
    var t := Walk(log, 0, end);
    var j := Walk(log, t + 1, start);
    var end' := RecordedEnd(log, t, end);
    var start' := RecordedStart(log, j, start);
    DeleteIs(log, start, end);
    EndAgain(log, end);
    if j == |log| {
      LowestAgain(log, t);
      BelowEnd(log, t, start);
      KeptLowest(log, t, log[t].index == end);
    }
    DeleteIs(log, start', end');
  }

  // What a deletion keeps and records when the walks stop at t and j.
  function Kept(log: Log, t: nat, keepEnd: bool, j: nat): Log
    requires t < |log| && j <= |log|
  {
    (if keepEnd then log[..t + 1] else []) + if j == |log| then [] else log[j + 1..]
  }

  function RecordedEnd(log: Log, t: nat, end: nat): nat
    requires t < |log|
  {
    if log[t].index == end then end else log[t].index + 1
  }

  function RecordedStart(log: Log, j: nat, start: nat): nat
    requires 0 < j <= |log|
  {
    if j == |log| then log[j - 1].index else start
  }

  lemma DeleteIs(log: Log, start: nat, end: nat)
    requires log != [] && log[0].index >= start && Walk(log, 0, end) < |log|
    ensures var t := Walk(log, 0, end);
            var j := Walk(log, t + 1, start);
            var start', end' := RecordedStart(log, j, start), RecordedEnd(log, t, end);
            && MultDelete(log, start, end).log == Kept(log, t, log[t].index == end, j)
            && MultDelete(log, start, end).span == if start' != end' then Some((start', end')) else None
  {
    hide Walk;
  }

  lemma KeptLowest(log: Log, t: nat, keepEnd: bool)
    requires t < |log|
    ensures Kept(log, t, keepEnd, |log| - 1) == Kept(log, t, keepEnd, |log|)
  {
    assert log[|log|..] == [];
  }

  // The recorded end is found where the end was.
  lemma EndAgain(log: Log, end: nat)
    requires Descending(log) && Walk(log, 0, end) < |log|
    ensures var t := Walk(log, 0, end);
            var end' := RecordedEnd(log, t, end);
            Walk(log, 0, end') == t && (log[t].index == end' <==> log[t].index == end)
  {
    hide Walk;
    var t := Walk(log, 0, end);
    var end' := RecordedEnd(log, t, end);
    var t' := Walk(log, 0, end');
    if t' < t {
      assert log[t'].index > log[t].index;
    }
  }

  lemma BelowEnd(log: Log, t: nat, start: nat)
    requires Descending(log) && t < |log| && Walk(log, t + 1, start) == |log|
    ensures t + 1 < |log| ==> start < log[t].index
  {
    assert t + 1 < |log| ==> log[t].index > log[t + 1].index > start;
  }

  // A span that reaches below the lowest entry is recorded as starting there.
  lemma LowestAgain(log: Log, t: nat)
    requires Descending(log) && t < |log|
    ensures var low := log[|log| - 1].index;
            log[0].index >= low && Walk(log, t + 1, low) == if t < |log| - 1 then |log| - 1 else |log|
  {
    hide Walk;
    var last := |log| - 1;
    assert last == 0 || log[0].index > log[last].index;
  }

  lemma ClearStepIff(s: Store, file: int, off: nat, op: Op)
    requires Valid(s) && op.Clear?
    ensures Faithful(s, file, off, op) <==> OpOk(s, op)
  {
    hide ReplayAll;
    NoRecs(s, file, off);
    Replay1(s, file, off, ClearRec(op.range));
    assert op.range !in s.state ==> s.state - {op.range} == s.state;
    assert op.range !in s.ranges ==> s.ranges - {op.range} == s.ranges;
  }

  lemma StateStepIff(s: Store, file: int, off: nat, op: Op)
    requires op.PutState? || op.DeleteState? || op.ReadState?
    ensures Faithful(s, file, off, op) <==> OpOk(s, op)
  {
    hide ReplayAll;
    NoRecs(s, file, off);
    Replay1(s, file, off, if op.PutState? then PutRec(op.range, 0, op.size) else DelStateRec(op.range));
    assert op.ReadState? && op.range !in s.state ==> op.range in s.state[op.range := None];
  }

  // For every store and every operation: replaying the records of the operation gives the live result
  // exactly on the stated domain.
  lemma StepIff(s: Store, file: int, off: nat, op: Op)
    requires Valid(s) && OpValid(op)
    ensures Faithful(s, file, off, op) <==> OpOk(s, op)
  {
    hide Faithful, OpOk;
    match op
    case PutData(_, _, _) => PutStepIff(s, file, off, op);
    case TruncateTo(_, _) => TruncateStepIff(s, file, off, op);
    case DeleteSpan(_, _, _) => DeleteStepIff(s, file, off, op);
    case Clear(_) => ClearStepIff(s, file, off, op);
    case _ => StateStepIff(s, file, off, op);
  }

  // ---------- what every step keeps ----------

  lemma LivePutDescends(log: Log, e: Entry)
    requires Descending(log) && PutOk(log, e.index)
    ensures Descending(LivePut(log, e))
  {
    hide Walk;
    if log != [] && e.index <= log[0].index + 1 {
      assert Walk(log, 0, e.index) < |log|;
    }
  }

  lemma CutsDescend(log: Log, a: nat, b: nat)
    requires Descending(log)
    ensures Descending(Truncate(log, a).log) && Descending(MultDelete(log, a, b).log)
  {
    hide Walk;
  }

  lemma SetLogValid(s: Store, r: nat, log: Log)
    requires Valid(s) && Descending(log)
    ensures Valid(SetLog(s, r, log))
  {
  }

  lemma LiveKeepsValid(s: Store, file: int, off: nat, op: Op)
    requires Valid(s) && OpValid(op) && OpOk(s, op)
    ensures Valid(Live(s, file, off, op).0)
  {
    hide LivePut, Truncate, MultDelete, PutPrelude, DeleteOk, TruncateOk;
    LogsDescend(s, op.range);
    var log := LogOf(s, op.range);
    match op
    case PutData(r, index, size) =>
      var e := Entry(index, file, off + RecsLen(PutPrelude(log, r, index)) + HEADER, size);
      LivePutDescends(log, e);
      SetLogValid(s, r, LivePut(log, e));
    case TruncateTo(r, index) =>
      CutsDescend(log, index, 0);
      SetLogValid(s, r, Truncate(log, index).log);
    case DeleteSpan(r, start, end) =>
      CutsDescend(log, start, end);
      SetLogValid(s, r, MultDelete(log, start, end).log);
    case _ =>
  }

  // ---------- whole runs ----------

  // The log files: those already full, in the order of their ids from 1 on, and the one being written.
  datatype Disk = Disk(closed: seq<seq<Record>>, current: seq<Record>)

  // A write operation, or the switch to a new file once the current one is over its size limit.
  datatype Action = Do(op: Op) | Rotate

  datatype Run = Run(store: Store, disk: Disk)

  function CurrentId(disk: Disk): nat { |disk.closed| + 1 }

  function Act(run: Run, action: Action): Run
  {
    match action
    case Rotate => Run(run.store, Disk(run.disk.closed + [run.disk.current], []))
    case Do(op) =>
      var (store, recs) := Live(run.store, CurrentId(run.disk), RecsLen(run.disk.current), op);
      Run(store, run.disk.(current := run.disk.current + recs))
  }

  function ActAll(run: Run, actions: seq<Action>): Run
  {
    if actions == [] then run else Act(ActAll(run, actions[..|actions| - 1]), actions[|actions| - 1])
  }

  // The live store and all log files after a sequence of actions on a fresh store.
  function Execute(actions: seq<Action>): Run
  {
    ActAll(Run(EMPTY, Disk([], [])), actions)
  }

  // init: every closed file in order, then the current one.
  function RebuildClosed(closed: seq<seq<Record>>): Store
  {
    if closed == [] then EMPTY
    else ReplayAll(RebuildClosed(closed[..|closed| - 1]), |closed|, 0, closed[|closed| - 1])
  }

  function Rebuild(disk: Disk): Store
  {
    ReplayAll(RebuildClosed(disk.closed), CurrentId(disk), 0, disk.current)
  }

  predicate WellFormed(actions: seq<Action>)
  {
    forall k :: 0 <= k < |actions| && actions[k].Do? ==> OpValid(actions[k].op)
  }

  predicate ActionOk(s: Store, action: Action)
  {
    action.Do? ==> OpOk(s, action.op)
  }

  predicate AllOk(actions: seq<Action>)
  {
    forall k :: 0 <= k < |actions| ==> ActionOk(Execute(actions[..k]).store, actions[k])
  }

  ghost predicate RebuiltAfter(actions: seq<Action>)
  {
    Rebuild(Execute(actions).disk) == Execute(actions).store
  }

  lemma RotateKeeps(disk: Disk)
    ensures Rebuild(Disk(disk.closed + [disk.current], [])) == Rebuild(disk)
  {
    hide ReplayAll;
    var closed := disk.closed + [disk.current];
    assert closed[..|closed| - 1] == disk.closed;
    NoRecs(RebuildClosed(closed), |closed| + 1, 0);
  }

  lemma ActIff(run: Run, action: Action)
    requires Valid(run.store) && Rebuild(run.disk) == run.store && (action.Do? ==> OpValid(action.op))
    ensures Rebuild(Act(run, action).disk) == Act(run, action).store <==> ActionOk(run.store, action)
    ensures ActionOk(run.store, action) ==> Valid(Act(run, action).store)
  {
    hide Live, ReplayAll, RebuildClosed, OpOk, Valid, RecsLen;
    match action
    case Rotate => RotateKeeps(run.disk);
    case Do(op) =>
      var id, off := CurrentId(run.disk), RecsLen(run.disk.current);
      ReplayAppend(RebuildClosed(run.disk.closed), id, 0, run.disk.current, Live(run.store, id, off, op).1);
      StepIff(run.store, id, off, op);
      if OpOk(run.store, op) {
        LiveKeepsValid(run.store, id, off, op);
      }
  }

  lemma RunStep(actions: seq<Action>, k: nat)
    requires k < |actions|
    ensures Execute(actions[..k + 1]) == Act(Execute(actions[..k]), actions[k])
  {
    assert actions[..k + 1][..k] == actions[..k];
  }

  lemma FreshRun()
    ensures Execute([]) == Run(EMPTY, Disk([], [])) && Valid(EMPTY) && RebuiltAfter([])
  {
  }

  lemma {:induction false} RunRebuilds(actions: seq<Action>, k: nat)
    requires k <= |actions| && WellFormed(actions) && AllOk(actions)
    ensures Valid(Execute(actions[..k]).store) && RebuiltAfter(actions[..k])
  {
    hide ActionOk, Valid, Act, Execute, Rebuild;
    if k == 0 {
      assert actions[..0] == [];
      FreshRun();
    } else {
      RunRebuilds(actions, k - 1);
      RunStep(actions, k - 1);
      ActIff(Execute(actions[..k - 1]), actions[k - 1]);
    }
  }

  lemma {:induction false} RebuiltMeansOk(actions: seq<Action>, k: nat)
    requires k < |actions| && WellFormed(actions)
    requires forall i :: 0 <= i <= |actions| ==> RebuiltAfter(actions[..i])
    ensures ActionOk(Execute(actions[..k]).store, actions[k])
    ensures Valid(Execute(actions[..k + 1]).store)
  {
    hide ActionOk, Valid, Act, Execute, Rebuild;
    if k == 0 {
      assert actions[..0] == [];
      FreshRun();
    } else {
      RebuiltMeansOk(actions, k - 1);
    }
    RunStep(actions, k);
    ActIff(Execute(actions[..k]), actions[k]);
  }

  /** Over every run of operations and file switches on a fresh store: replaying the log files rebuilds the
      live index after each step if and only if every operation was applied inside its domain. */
  lemma RunIff(actions: seq<Action>)
    requires WellFormed(actions)
    ensures AllOk(actions) <==> forall k :: 0 <= k <= |actions| ==> RebuiltAfter(actions[..k])
  {
    hide ActionOk, Valid, RebuiltAfter, Execute;
    if AllOk(actions) {
      forall k | 0 <= k <= |actions|
        ensures RebuiltAfter(actions[..k])
      {
        RunRebuilds(actions, k);
      }
    }
    if forall k :: 0 <= k <= |actions| ==> RebuiltAfter(actions[..k]) {
      forall k | 0 <= k < |actions|
        ensures ActionOk(Execute(actions[..k]).store, actions[k])
      {
        RebuiltMeansOk(actions, k);
      }
    }
  }

  // ---------- a run whose last records are lost ----------

  // How many actions had written all their records when the current file held `m` records.
  function Survived(actions: seq<Action>, m: nat): (k: nat)
    ensures k <= |actions|
  {
    if actions == [] || |Execute(actions).disk.current| <= m then |actions|
    else Survived(actions[..|actions| - 1], m)
  }

  // The records before the PUT record of a put: at most one, TRUNCATE before a gap or DELSPAN for a conflict.
  function PreludeOf(s: Store, op: Op): (recs: seq<Record>)
    requires op.PutData?
    ensures |recs| <= 1
  {
    PutPrelude(LogOf(s, op.range), op.range, op.index)
  }

  // The records end between the two records of this action.
  predicate InsidePut(run: Run, action: Action, current: seq<Record>)
  {
    && action.Do? && action.op.PutData? && PreludeOf(run.store, action.op) != []
    && current == run.disk.current + [PreludeOf(run.store, action.op)[0]]
  }

  lemma TwoRecords(s: Store, file: int, off: nat, op: Op)
    ensures var recs := Live(s, file, off, op).1;
            |recs| >= 2 ==> op.PutData? && |recs| == 2 && PreludeOf(s, op) == [recs[0]]
  {
    hide LivePut, Truncate, MultDelete, Has;
  }

  // A prefix of the current file ends behind an action, or between the two records of the next one.
  lemma {:induction false} WhereItEnds(actions: seq<Action>, m: nat)
    requires m <= |Execute(actions).disk.current|
    ensures var k := Survived(actions, m);
            var live, disk := Execute(actions[..k]), Execute(actions).disk;
            && live.disk.closed == disk.closed
            && (live.disk.current == disk.current[..m]
                || (k < |actions| && InsidePut(live, actions[k], disk.current[..m])))
    decreases |actions|
  {
    hide Execute, Live, PreludeOf;
    FreshRun();
    assert actions[..|actions|] == actions;
    var disk := Execute(actions).disk;
    if |disk.current| <= m {
      assert disk.current[..m] == disk.current;
    } else {
      var n := |actions| - 1;
      RunStep(actions, n);
      var front, before := actions[..n], Execute(actions[..n]);
      assert actions[n].Do?;
      var op := actions[n].op;
      var recs := Live(before.store, CurrentId(before.disk), RecsLen(before.disk.current), op).1;
      assert disk.current == before.disk.current + recs;
      if m < |before.disk.current| {
        WhereItEnds(front, m);
        var k := Survived(front, m);
        assert front[..k] == actions[..k] && disk.current[..m] == before.disk.current[..m];
      } else if m == |before.disk.current| {
        SurvivesWhole(front, m);
        assert disk.current[..m] == before.disk.current;
      } else {
        SurvivesWhole(front, m);
        TwoRecords(before.store, CurrentId(before.disk), RecsLen(before.disk.current), op);
        assert disk.current[..m] == before.disk.current + [recs[0]];
      }
    }
  }

  lemma SurvivesWhole(actions: seq<Action>, m: nat)
    requires |Execute(actions).disk.current| <= m
    ensures Survived(actions, m) == |actions|
  {
  }

  // What the first of the two records makes of a list: neither the old list nor the one the put leaves.
  lemma PreludeLog(log: Log, r: nat, index: nat, e: Entry)
    requires Descending(log) && PutOk(log, index) && e.index == index && PutPrelude(log, r, index) != []
    ensures var rec := PutPrelude(log, r, index)[0];
            var left := if rec.TruncateRec? then Truncate(log, rec.index).log
                        else MultDelete(log, index, log[0].index + 1).log;
            left != log && left != LivePut(log, e)
  {
    hide Walk;
    if index <= log[0].index + 1 {
      var i := Walk(log, 0, index);
      assert Walk(log, 0, log[0].index + 1) == 0;
      assert Walk(log, 1, index) == if i == 0 then 1 else i;
      assert |MultDelete(log, index, log[0].index + 1).log| < |LivePut(log, e)| <= |log|;
    }
  }

  // The index with only the first of a put's two records replayed.
  function HalfPut(run: Run, op: Op): Store
    requires op.PutData? && PreludeOf(run.store, op) != []
  {
    Replay(run.store, CurrentId(run.disk), RecsLen(run.disk.current), PreludeOf(run.store, op)[0])
  }

  lemma HalfPutDiffers(run: Run, op: Op)
    requires Valid(run.store) && op.PutData? && OpOk(run.store, op) && PreludeOf(run.store, op) != [] && OpValid(op)
    ensures HalfPut(run, op) != run.store && HalfPut(run, op) != Act(run, Do(op)).store
  {
    hide Walk, LivePut, Truncate, MultDelete, Has, PutOk;
    LogsDescend(run.store, op.range);
    var s, log := run.store, LogOf(run.store, op.range);
    var recs := PreludeOf(s, op);
    var e := Entry(op.index, CurrentId(run.disk), RecsLen(run.disk.current) + RecsLen(recs) + HEADER, op.size);
    PreludeLog(log, op.range, op.index, e);
    SetSame(s, op.range);
    var left := if recs[0].TruncateRec? then Truncate(log, recs[0].index).log
                else MultDelete(log, op.index, log[0].index + 1).log;
    SetLogFacts(s, op.range, left, log);
    SetLogFacts(s, op.range, left, LivePut(log, e));
  }

  lemma SetSame(s: Store, r: nat)
    requires Valid(s)
    ensures SetLog(s, r, LogOf(s, r)) == s
  {
    assert SetLog(s, r, LogOf(s, r)).ranges == s.ranges;
  }

  /** The index that is rebuilt when only the first `m` records of the current file are left. It is the live index
      behind the last action that wrote all its records if and only if nothing more survived; otherwise the first of
      the two records of the next put did, and the index is neither the one before that put nor the one after it. */
  lemma RebuildPrefix(actions: seq<Action>, m: nat)
    requires WellFormed(actions) && AllOk(actions) && m <= |Execute(actions).disk.current|
    ensures var k, disk := Survived(actions, m), Execute(actions).disk;
            var live, current := Execute(actions[..k]), disk.current[..m];
            var rebuilt := Rebuild(Disk(disk.closed, current));
            && live.disk.closed == disk.closed && live.disk.current <= current
            && (rebuilt == live.store <==> live.disk.current == current)
            && (live.disk.current != current ==>
                  && k < |actions| && InsidePut(live, actions[k], current)
                  && rebuilt == HalfPut(live, actions[k].op) != Execute(actions[..k + 1]).store)
  {
    hide Execute, Act, OpOk, Valid, Replay, PreludeOf;
    WhereItEnds(actions, m);
    var k, disk := Survived(actions, m), Execute(actions).disk;
    var live, current := Execute(actions[..k]), disk.current[..m];
    RunRebuilds(actions, k);
    assert Disk(disk.closed, live.disk.current) == live.disk;
    if live.disk.current != current {
      var op := actions[k].op;
      var rec := PreludeOf(live.store, op)[0];
      ReplayAppend(RebuildClosed(disk.closed), CurrentId(disk), 0, live.disk.current, [rec]);
      Replay1(live.store, CurrentId(disk), RecsLen(live.disk.current), rec);
      assert ActionOk(live.store, actions[k]) && OpValid(op);
      HalfPutDiffers(live, op);
      RunStep(actions, k);
    }
  }

  // ---------- contiguity along runs ----------

  predicate AllContiguous(s: Store)
  {
    forall r :: r in s.ranges ==> Contiguous(s.ranges[r])
  }

  // A span delete must take a prefix or a suffix of what it finds.
  predicate LeavesNoHole(s: Store, op: Op)
  {
    op.DeleteSpan? ==>
      var log := LogOf(s, op.range);
      op.start < op.end && (log == [] || op.start <= log[|log| - 1].index || log[0].index < op.end)
  }

  lemma LiveKeepsContiguous(s: Store, file: int, off: nat, op: Op)
    requires Valid(s) && AllContiguous(s) && OpValid(op) && OpOk(s, op) && LeavesNoHole(s, op)
    ensures AllContiguous(Live(s, file, off, op).0)
  {
    hide LivePut, Truncate, MultDelete, PutPrelude, DeleteOk, TruncateOk, Descending, Contiguous;
    LogsDescend(s, op.range);
    var log := LogOf(s, op.range);
    assert Contiguous(log) by { EmptyContiguous(); }
    match op
    case PutData(r, index, size) =>
      var e := Entry(index, file, off + RecsLen(PutPrelude(log, r, index)) + HEADER, size);
      PutOkNotBelow(log, index);
      PutKeepsContiguous(log, e);
    case TruncateTo(r, index) =>
      TruncateKeepsContiguous(log, index);
    case DeleteSpan(r, start, end) =>
      if log != [] {
        DeleteKeepsContiguousIff(log, start, end);
      } else {
        assert MultDelete(log, start, end).log == [] by { DeleteFromNothing(start, end); }
      }
    case _ =>
  }

  lemma EmptyContiguous()
    ensures Contiguous([])
  {
  }

  lemma DeleteFromNothing(start: nat, end: nat)
    ensures MultDelete([], start, end).log == []
  {
  }

  lemma PutOkNotBelow(log: Log, index: nat)
    requires Descending(log) && PutOk(log, index)
    ensures log == [] || index >= log[|log| - 1].index
  {
    hide Walk;
    if log != [] {
      var last, i := |log| - 1, Walk(log, 0, index);
      assert last == 0 || log[0].index > log[last].index;
      assert i < last ==> log[i].index > log[last].index;
    }
  }

  lemma {:induction false} RunContiguous(actions: seq<Action>, k: nat)
    requires k <= |actions| && WellFormed(actions) && AllOk(actions)
    requires forall i :: 0 <= i < |actions| && actions[i].Do? ==>
      LeavesNoHole(Execute(actions[..i]).store, actions[i].op)
    ensures AllContiguous(Execute(actions[..k]).store)
  {
    hide OpOk, Valid, Live, LeavesNoHole, AllContiguous, Execute, RecsLen;
    if k == 0 {
      assert actions[..0] == [];
      FreshRun();
      NothingContiguous();
    } else {
      RunContiguous(actions, k - 1);
      RunRebuilds(actions, k - 1);
      RunStep(actions, k - 1);
      var before := Execute(actions[..k - 1]);
      assert ActionOk(before.store, actions[k - 1]);
      if actions[k - 1].Do? {
        LiveKeepsContiguous(before.store, CurrentId(before.disk), RecsLen(before.disk.current), actions[k - 1].op);
      }
    }
  }

  lemma NothingContiguous()
    ensures AllContiguous(EMPTY)
  {
  }

  // ---------- outside the domain, on runs ----------

  lemma RunAppend(actions: seq<Action>, action: Action)
    requires WellFormed(actions) && AllOk(actions) && (action.Do? ==> OpValid(action.op))
    ensures WellFormed(actions + [action]) && Execute(actions + [action]) == Act(Execute(actions), action)
    ensures ActionOk(Execute(actions).store, action) ==> AllOk(actions + [action])
    ensures RebuiltAfter(actions + [action]) <==> ActionOk(Execute(actions).store, action)
  {
    hide ActionOk, Act, Rebuild, Execute, Valid;
    var all, n := actions + [action], |actions|;
    assert all[..n] == actions && all[..n + 1] == all && actions[..n] == actions;
    RunStep(all, n);
    RunRebuilds(actions, n);
    ActIff(Execute(actions), action);
    forall k | 0 <= k < n
      ensures ActionOk(Execute(all[..k]).store, all[k])
    {
      assert all[..k] == actions[..k];
    }
  }

  // Data entries 1 to n of range 1.
  function Puts(n: nat): (actions: seq<Action>)
    ensures |actions| == n
  {
    if n == 0 then [] else Puts(n - 1) + [Do(PutData(1, n, 1))]
  }

  lemma PutAddsRange(run: Run, r: nat, index: nat, size: nat)
    ensures Act(run, Do(PutData(r, index, size))).store.ranges.Keys == run.store.ranges.Keys + {r}
  {
    hide RecsLen, PutPrelude;
  }

  // The list with entries n to 1.
  predicate CountsDown(log: Log, n: nat)
  {
    |log| == n && forall j :: 0 <= j < n ==> log[j].index == n - j
  }

  lemma PutNext(run: Run, n: nat)
    requires n > 0 && CountsDown(LogOf(run.store, 1), n - 1)
    ensures var next := Act(run, Do(PutData(1, n, 1)));
            && OpOk(run.store, PutData(1, n, 1)) && next.store.state == run.store.state
            && CountsDown(LogOf(next.store, 1), n)
            && next.disk.closed == run.disk.closed && |next.disk.current| == |run.disk.current| + 1
  {
    hide RecsLen;
  }

  lemma {:induction false} PutsInOrder(n: nat)
    ensures WellFormed(Puts(n)) && AllOk(Puts(n)) && Execute(Puts(n)).store.state == map[]
    ensures CountsDown(LogOf(Execute(Puts(n)).store, 1), n)
    ensures Execute(Puts(n)).disk.closed == [] && |Execute(Puts(n)).disk.current| == n
    ensures Execute(Puts(n)).store.ranges.Keys == if n == 0 then {} else {1}
  {
    hide Execute, AllOk, WellFormed, Act, OpOk, CountsDown;
    if n == 0 {
      NoActions();
    } else {
      PutsInOrder(n - 1);
      PutNext(Execute(Puts(n - 1)), n);
      PutAddsRange(Execute(Puts(n - 1)), 1, n, 1);
      RunAppend(Puts(n - 1), Do(PutData(1, n, 1)));
    }
  }

  lemma NoActions()
    ensures WellFormed([]) && AllOk([]) && Execute([]) == Run(EMPTY, Disk([], [])) && CountsDown([], 0)
  {
  }

  // A run inside the domain: entries 1 and 2 of range 1, entry 1 of range 2, and entry 9 of range 1, behind a gap.
  const GAP_RUN: seq<Action> := Puts(2) + [Do(PutData(2, 1, 1))] + [Do(PutData(1, 9, 1))]

  lemma GapRun()
    ensures WellFormed(GAP_RUN) && AllOk(GAP_RUN) && Execute(GAP_RUN).disk.closed == []
    ensures |Execute(GAP_RUN).disk.current| == 5 && |Execute(GAP_RUN[..3]).disk.current| == 3
    ensures forall k :: 0 <= k <= 4 ==>
      Execute(GAP_RUN[..k]).store.ranges.Keys == if k == 0 then {} else if k < 3 then {1} else {1, 2}
    ensures PreludeOf(Execute(GAP_RUN[..3]).store, PutData(1, 9, 1)) == [TruncateRec(1, 3)]
  {
    hide Execute, AllOk, WellFormed, LivePut, RecsLen;
    PutsInOrder(0);
    PutsInOrder(1);
    PutsInOrder(2);
    var three := Puts(2) + [Do(PutData(2, 1, 1))];
    assert GAP_RUN[..3] == three && GAP_RUN[..2] == Puts(2) && GAP_RUN[..1] == Puts(1) && GAP_RUN[..0] == Puts(0);
    assert GAP_RUN[..4] == GAP_RUN;
    RunAppend(Puts(2), Do(PutData(2, 1, 1)));
    PutAddsRange(Execute(Puts(2)), 2, 1, 1);
    RunAppend(three, Do(PutData(1, 9, 1)));
    PutAddsRange(Execute(three), 1, 9, 1);
    assert {1} + {2} == {1, 2} == {1, 2} + {1};
    forall k | 0 <= k <= 4
      ensures Execute(GAP_RUN[..k]).store.ranges.Keys == if k == 0 then {} else if k < 3 then {1} else {1, 2}
    {
      assert k == 0 || k == 1 || k == 2 || k == 3 || k == 4;
    }
  }

  /** Cut behind the TRUNCATE that precedes the last put, the file of that run rebuilds an index that has range 2 and
      not range 1, which the live index never was. */
  lemma HalfPutRun(k: nat)
    requires k <= 4
    ensures WellFormed(GAP_RUN) && AllOk(GAP_RUN) && |Execute(GAP_RUN).disk.current| == 5
    ensures Rebuild(Disk([], Execute(GAP_RUN).disk.current[..4])) != Execute(GAP_RUN[..k]).store
  {
    hide Execute, AllOk, WellFormed, Rebuild, Puts, RecsLen;
    GapRun();
    RebuildPrefix(GAP_RUN, 4);
    SurvivesWhole(GAP_RUN[..3], 4);
    assert Survived(GAP_RUN, 4) == 3;
    var live := Execute(GAP_RUN[..3]);
    assert HalfPut(live, PutData(1, 9, 1)).ranges.Keys == {2};
  }

  /** Runs that end outside the domain, so that replay does not rebuild what is live: a second write of the newest
      index, a truncation past it, a clear of a range with both kinds of entries, and a status read of a range that
      has none. */
  lemma OutsideTheDomain()
    ensures !RebuiltAfter(Puts(2) + [Do(PutData(1, 2, 0))])
    ensures !RebuiltAfter(Puts(2) + [Do(TruncateTo(1, 3))])
    ensures !RebuiltAfter(Puts(2) + [Do(PutState(1, 1))] + [Do(Clear(1))])
    ensures !RebuiltAfter([Do(ReadState(1))])
  {
    hide Execute, AllOk, WellFormed, Puts, RebuiltAfter;
    PutsInOrder(2);
    RunAppend(Puts(2), Do(PutData(1, 2, 0)));
    RunAppend(Puts(2), Do(TruncateTo(1, 3)));
    RunAppend(Puts(2), Do(PutState(1, 1)));
    RunAppend(Puts(2) + [Do(PutState(1, 1))], Do(Clear(1)));
    NoActions();
    assert [] + [Do(ReadState(1))] == [Do(ReadState(1))];
    RunAppend([], Do(ReadState(1)));
  }

  lemma CutLogs(run: Run, r: nat, a: nat, b: nat)
    ensures LogOf(Act(run, Do(DeleteSpan(r, a, b))).store, r) == MultDelete(LogOf(run.store, r), a, b).log
    ensures LogOf(Act(run, Do(TruncateTo(r, a))).store, r) == Truncate(LogOf(run.store, r), a).log
  {
    hide MultDelete, Truncate, RecsLen;
  }

  /** The other puts outside the domain: into a hole that a span delete has left, and below the oldest entry. */
  lemma PutIntoHole()
    ensures !RebuiltAfter(Puts(5) + [Do(DeleteSpan(1, 3, 5))] + [Do(PutData(1, 3, 0))])
    ensures !RebuiltAfter(Puts(3) + [Do(TruncateTo(1, 2))] + [Do(PutData(1, 1, 0))])
  {
    hide Execute, AllOk, WellFormed, Puts, RebuiltAfter, Act, MultDelete, Truncate, PutOk, DeleteOk, TruncateOk,
         LogOf;
    PutsInOrder(5);
    var run := Execute(Puts(5));
    DeleteTwice(LogOf(run.store, 1));
    RunAppend(Puts(5), Do(DeleteSpan(1, 3, 5)));
    CutLogs(run, 1, 3, 5);
    RunAppend(Puts(5) + [Do(DeleteSpan(1, 3, 5))], Do(PutData(1, 3, 0)));
    PutsInOrder(3);
    run := Execute(Puts(3));
    CutAtTwo(LogOf(run.store, 1));
    RunAppend(Puts(3), Do(TruncateTo(1, 2)));
    CutLogs(run, 1, 2, 0);
    RunAppend(Puts(3) + [Do(TruncateTo(1, 2))], Do(PutData(1, 1, 0)));
  }

  lemma CutAtTwo(log: Log)
    requires CountsDown(log, 3)
    ensures TruncateOk(log, 2) && !PutOk(Truncate(log, 2).log, 1)
  {
    assert Walk(log, 1, 2) == 1;
    assert Truncate(log, 2).log == log[..2];
    assert Walk(log[..2], 0, 1) == 2;
  }

  /** Entries 1 to 5, a delete of the span from 3 to 5, and then of the span from 3 to 4, where nothing is left: the
      whole list of the range is dropped, no record says so, and replay brings entries 5, 2 and 1 back. */
  lemma EmptySpanDropsAll()
    ensures var before := Puts(5) + [Do(DeleteSpan(1, 3, 5))];
            var after := before + [Do(DeleteSpan(1, 3, 4))];
            && RebuiltAfter(before) && !RebuiltAfter(after)
            && 1 in Execute(before).store.ranges && 1 !in Execute(after).store.ranges
            && Execute(after).disk == Execute(before).disk
  {
    hide Execute, AllOk, WellFormed, Puts, RebuiltAfter, Act, MultDelete, DeleteOk, CountsDown;
    PutsInOrder(5);
    var run := Execute(Puts(5));
    var before := Puts(5) + [Do(DeleteSpan(1, 3, 5))];
    DeleteTwice(LogOf(run.store, 1));
    RunAppend(Puts(5), Do(DeleteSpan(1, 3, 5)));
    SpanStep(run, 1, 3, 5);
    RunAppend(before, Do(DeleteSpan(1, 3, 4)));
    SpanStep(Execute(before), 1, 3, 4);
  }

  lemma SpanStep(run: Run, r: nat, start: nat, end: nat)
    ensures var d, next := MultDelete(LogOf(run.store, r), start, end), Act(run, Do(DeleteSpan(r, start, end)));
            && LogOf(next.store, r) == d.log && (r in next.store.ranges <==> d.log != [])
            && (d.span.None? ==> next.disk == run.disk)
  {
    hide MultDelete, RecsLen;
    assert run.disk.current + [] == run.disk.current;
  }

  lemma DeleteTwice(log: Log)
    requires CountsDown(log, 5)
    ensures var left := MultDelete(log, 3, 5).log;
            && DeleteOk(log, 3, 5) && left != []
            && MultDelete(left, 3, 4) == Deleted([], None) && !DeleteOk(left, 3, 4) && !PutOk(left, 3)
  {
    assert Walk(log, 0, 5) == 0 && Walk(log, 1, 3) == 2;
    var left := log[..1] + log[3..];
    assert MultDelete(log, 3, 5).log == left;
    assert left[0].index == 5 && left[1].index == 2 && left[2].index == 1;
    assert Walk(left, 0, 4) == 1 && Walk(left, 2, 3) == 2;
  }
}
