/** What the write operations of the raft store promise, and where the entries of its index point: at the value of
    the PUT record they stand for, in every run and in every index rebuilt from files. */
module RaftPromise {
  import opened Words
  import opened RaftIndex
  import opened RaftReplay
  import opened RaftFile

  // ---------- what each operation does ----------

  // Both stores know the same about this range.
  predicate SameAt(a: Store, b: Store, r: nat)
  {
    && (r in a.ranges <==> r in b.ranges) && (r in a.ranges ==> a.ranges[r] == b.ranges[r])
    && (r in a.state <==> r in b.state) && (r in a.state ==> a.state[r] == b.state[r])
  }

  // No operation touches another range, in memory or on disk.
  lemma LiveTouchesOneRange(s: Store, file: int, off: nat, op: Op)
    ensures forall q :: q != op.range ==> SameAt(s, Live(s, file, off, op).0, q)
    ensures forall rec :: rec in Live(s, file, off, op).1 ==> rec.range == op.range
  {
    hide LivePut, Truncate, MultDelete, RecsLen;
  }

  /** clearRange: no list and no status entry of the range is left exactly when it did not have both. If it had both,
      the list stays. A record is written exactly when there was something to clear. */
  lemma ClearKeepsPromise(s: Store, file: int, off: nat, r: nat)
    ensures var (after, recs) := Live(s, file, off, Clear(r));
      && (r !in after.ranges && r !in after.state <==> !(r in s.ranges && r in s.state))
      && (r in s.ranges && r in s.state ==> r !in after.state && r in after.ranges && after.ranges[r] == s.ranges[r])
      && (forall q :: q != r ==> SameAt(s, after, q))
      && recs == if r in s.ranges || r in s.state then [ClearRec(r)] else []
  {
  }

  // The status entry after each operation on it; the lists stay as they are.
  lemma StateKeepsPromise(s: Store, file: int, off: nat, op: Op)
    requires op.PutState? || op.DeleteState? || op.ReadState?
    ensures var (after, recs) := Live(s, file, off, op); var r := op.range;
      && after.ranges == s.ranges && (forall q :: q != r ==> SameAt(s, after, q))
      && (op.DeleteState? ==> r !in after.state && recs == if r in s.state then [DelStateRec(r)] else [])
      && (op.PutState? ==>
         && r in after.state && after.state[r] == Some(Entry(0, file, off + RecsLen(recs) - op.size, op.size))
         && recs == [PutRec(r, 0, op.size)])
      && (op.ReadState? ==>
         recs == [] && r in after.state && after.state[r] == if r in s.state then s.state[r] else None)
  {
    if op.PutState? {
      assert [PutRec(op.range, 0, op.size)][1..] == [];
      assert RecsLen([PutRec(op.range, 0, op.size)]) == HEADER + op.size + RecsLen([]);
    }
  }

  /** The list of the range after each operation on it; the status entries stay as they are. The value of a new entry
      is the end of what is appended to the file. */
  lemma DataKeepsPromise(s: Store, file: int, off: nat, op: Op)
    requires Valid(s) && (op.PutData? || op.TruncateTo? || op.DeleteSpan?)
    ensures var (after, recs) := Live(s, file, off, op);
      var log, log' := LogOf(s, op.range), LogOf(after, op.range);
      && after.state == s.state && (forall q :: q != op.range ==> SameAt(s, after, q))
      && (op.TruncateTo? ==> log' == AtLeast(log, op.index))
      && (op.DeleteSpan? ==>
         (log' == PromisedDelete(log, op.start, op.end) <==> DeleteExact(log, op.start, op.end)))
      && (op.PutData? ==>
         && RecsLen(recs) >= op.size && recs != [] && recs[|recs| - 1] == PutRec(op.range, op.index, op.size)
         && (log' == PromisedPut(log, Entry(op.index, file, off + (RecsLen(recs) - op.size), op.size))
            <==> log == [] || op.index >= log[|log| - 1].index))
  {
    hide LivePut, Truncate, MultDelete, PromisedPut, PromisedDelete, AtLeast, DeleteExact, RecsLen, PutPrelude;
    var r, log := op.range, LogOf(s, op.range);
    LogsDescend(s, r);
    match op
    case TruncateTo(_, index) =>
      TruncateKeepsPromise(log, index);
      SetLogFacts(s, r, Truncate(log, index).log, []);
    case DeleteSpan(_, start, end) =>
      DeleteKeepsPromise(log, start, end);
      SetLogFacts(s, r, MultDelete(log, start, end).log, []);
    case PutData(_, index, size) =>
      var prelude := PutPrelude(log, r, index);
      var e := Entry(index, file, off + RecsLen(prelude) + HEADER, size);
      PutLength(prelude, r, index, size);
      PutKeepsPromise(log, e);
      SetLogFacts(s, r, LivePut(log, e), []);
  }

  lemma PutLength(recs: seq<Record>, r: nat, index: nat, size: nat)
    ensures RecsLen(recs + [PutRec(r, index, size)]) == RecsLen(recs) + HEADER + size
  {
    LengthAppend(recs, [PutRec(r, index, size)]);
    assert [PutRec(r, index, size)][1..] == [];
  }

  lemma LengthAppend(a: seq<Record>, b: seq<Record>)
    ensures RecsLen(a + b) == RecsLen(a) + RecsLen(b)
  {
    ReplayAppend(EMPTY, 0, 0, a, b);
  }

  // ---------- where entries point ----------

  // The entry stands for a PUT record of this file and points right behind its header.
  ghost predicate PointsInto(e: Entry, r: nat, recs: seq<Record>)
  {
    exists i :: 0 <= i < |recs| && recs[i] == PutRec(r, e.index, e.len) && e.offset == RecsLen(recs[..i]) + HEADER
  }

  function FileOf(disk: Disk, id: nat): seq<Record>
    requires 1 <= id <= CurrentId(disk)
  {
    if id == CurrentId(disk) then disk.current else disk.closed[id - 1]
  }

  ghost predicate Points(e: Entry, r: nat, disk: Disk)
  {
    1 <= e.file <= CurrentId(disk) && PointsInto(e, r, FileOf(disk, e.file))
  }

  predicate InLog(s: Store, r: nat, e: Entry) { r in s.ranges && e in s.ranges[r] }

  predicate InState(s: Store, r: nat, e: Entry) { r in s.state && s.state[r] == Some(e) }

  // Every entry of the index points at its value.
  ghost predicate AllPoint(s: Store, disk: Disk)
  {
    && (forall r, e :: InLog(s, r, e) ==> e.index > 0 && Points(e, r, disk))
    && (forall r, e :: InState(s, r, e) ==> e.index == 0 && Points(e, r, disk))
  }

  lemma PointsAppend(e: Entry, r: nat, recs: seq<Record>, more: seq<Record>)
    requires PointsInto(e, r, recs)
    ensures PointsInto(e, r, recs + more)
  {
    var i :| 0 <= i < |recs| && recs[i] == PutRec(r, e.index, e.len) && e.offset == RecsLen(recs[..i]) + HEADER;
    assert (recs + more)[..i] == recs[..i] && (recs + more)[i] == recs[i];
  }

  lemma PointsAtEnd(e: Entry, r: nat, recs: seq<Record>)
    requires e.offset == RecsLen(recs) + HEADER
    ensures PointsInto(e, r, recs + [PutRec(r, e.index, e.len)])
  {
    var all := recs + [PutRec(r, e.index, e.len)];
    assert all[..|recs|] == recs && all[|recs|] == PutRec(r, e.index, e.len);
  }

  lemma AllPointMore(s: Store, disk: Disk, more: seq<Record>)
    requires AllPoint(s, disk)
    ensures AllPoint(s, disk.(current := disk.current + more))
  {
    hide PointsInto, InLog, InState;
    forall r, e | Points(e, r, disk)
      ensures Points(e, r, disk.(current := disk.current + more))
    {
      if e.file == CurrentId(disk) {
        PointsAppend(e, r, disk.current, more);
      }
    }
  }

  lemma AllPointRotated(s: Store, disk: Disk)
    requires AllPoint(s, disk)
    ensures AllPoint(s, Disk(disk.closed + [disk.current], []))
  {
    hide PointsInto, InLog, InState;
    forall r, e | Points(e, r, disk)
      ensures Points(e, r, Disk(disk.closed + [disk.current], []))
    {
    }
  }

  // ---------- over every run ----------

  // A list after an operation holds entries it had before, and the new one.
  lemma LiveEntries(s: Store, file: int, off: nat, op: Op, r: nat, e: Entry)
    ensures InLog(Live(s, file, off, op).0, r, e) ==>
      || InLog(s, r, e)
      || (&& op.PutData? && r == op.range && e.index == op.index && e.len == op.size && e.file == file
          && e.offset == off + RecsLen(PutPrelude(LogOf(s, r), r, op.index)) + HEADER)
    ensures InState(Live(s, file, off, op).0, r, e) ==>
      InState(s, r, e) || (op.PutState? && r == op.range && e == Entry(0, file, off + HEADER, op.size))
  {
    hide LivePut, Truncate, MultDelete, SetLog, PutPrelude, RecsLen;
    var log := LogOf(s, op.range);
    match op
    case PutData(q, index, size) =>
      var added := Entry(index, file, off + RecsLen(PutPrelude(log, q, index)) + HEADER, size);
      PutEntries(log, added, e);
      SetLogEntries(s, q, LivePut(log, added), r, e);
    case TruncateTo(q, index) =>
      CutEntries(log, index, 0, e);
      SetLogEntries(s, q, Truncate(log, index).log, r, e);
    case DeleteSpan(q, start, end) =>
      CutEntries(log, start, end, e);
      SetLogEntries(s, q, MultDelete(log, start, end).log, r, e);
    case _ =>
  }

  lemma PutEntries(log: Log, added: Entry, e: Entry)
    ensures e in LivePut(log, added) || e in LoadPut(log, added) ==> e == added || e in log
  {
    hide Walk;
  }

  lemma CutEntries(log: Log, a: nat, b: nat, e: Entry)
    ensures e in Truncate(log, a).log || e in MultDelete(log, a, b).log ==> e in log
  {
    hide Walk;
  }

  lemma SetLogEntries(s: Store, q: nat, log: Log, r: nat, e: Entry)
    ensures InLog(SetLog(s, q, log), r, e) <==> if r == q then e in log else InLog(s, r, e)
    ensures InState(SetLog(s, q, log), r, e) <==> InState(s, r, e)
    ensures InLog(s, r, e) <==> e in LogOf(s, r)
  {
  }

  lemma ActPoints(run: Run, action: Action)
    requires AllPoint(run.store, run.disk) && (action.Do? ==> OpValid(action.op))
    ensures AllPoint(Act(run, action).store, Act(run, action).disk)
  {
    hide AllPoint, Live, RecsLen;
    match action
    case Rotate => AllPointRotated(run.store, run.disk);
    case Do(op) => OpPoints(run, op);
  }

  lemma OpPoints(run: Run, op: Op)
    requires AllPoint(run.store, run.disk) && OpValid(op)
    ensures AllPoint(Act(run, Do(op)).store, Act(run, Do(op)).disk)
  {
    hide Live, RecsLen, Points, InLog, InState, PutPrelude;
    var file, off := CurrentId(run.disk), RecsLen(run.disk.current);
    var after := Live(run.store, file, off, op);
    var disk := run.disk.(current := run.disk.current + after.1);
    AllPointMore(run.store, run.disk, after.1);
    forall r, e | InLog(after.0, r, e)
      ensures e.index > 0 && Points(e, r, disk)
    {
      LiveEntries(run.store, file, off, op, r, e);
      if !InLog(run.store, r, e) {
        NewEntryPoints(run, op, e);
      }
    }
    forall r, e | InState(after.0, r, e)
      ensures e.index == 0 && Points(e, r, disk)
    {
      LiveEntries(run.store, file, off, op, r, e);
      if !InState(run.store, r, e) {
        NewStatusPoints(run, op, e);
      }
    }
  }

  lemma NewEntryPoints(run: Run, op: Op, e: Entry)
    requires op.PutData? && e.file == CurrentId(run.disk) && e.index == op.index && e.len == op.size
    requires e.offset == RecsLen(run.disk.current)
                         + RecsLen(PutPrelude(LogOf(run.store, op.range), op.range, op.index)) + HEADER
    ensures Points(e, op.range, Act(run, Do(op)).disk)
  {
    hide RecsLen, PutPrelude, LivePut, PointsInto;
    var prelude := PutPrelude(LogOf(run.store, op.range), op.range, op.index);
    var put := PutRec(op.range, op.index, op.size);
    LengthAppend(run.disk.current, prelude);
    PointsAtEnd(e, op.range, run.disk.current + prelude);
    assert run.disk.current + (prelude + [put]) == run.disk.current + prelude + [put];
  }

  lemma NewStatusPoints(run: Run, op: Op, e: Entry)
    requires op.PutState? && e == Entry(0, CurrentId(run.disk), RecsLen(run.disk.current) + HEADER, op.size)
    ensures Points(e, op.range, Act(run, Do(op)).disk)
  {
    hide RecsLen, PointsInto;
    PointsAtEnd(e, op.range, run.disk.current);
  }

  /** In every run, whatever its operations: each entry of the live index points at the value of a PUT record with its
      range, its index and its size. */
  lemma {:induction false} RunPoints(actions: seq<Action>)
    requires WellFormed(actions)
    ensures AllPoint(Execute(actions).store, Execute(actions).disk)
    decreases |actions|
  {
    hide AllPoint, Act;
    if actions == [] {
      NothingPoints(Disk([], []));
    } else {
      var n := |actions| - 1;
      RunPoints(actions[..n]);
      ActPoints(Execute(actions[..n]), actions[n]);
    }
  }

  lemma NothingPoints(disk: Disk)
    ensures AllPoint(EMPTY, disk)
  {
  }

  // ---------- in every index rebuilt from files ----------

  lemma ReplayEntries(s: Store, file: int, off: nat, rec: Record, r: nat, e: Entry)
    ensures InLog(Replay(s, file, off, rec), r, e) ==>
      InLog(s, r, e) || (e.index > 0 && rec == PutRec(r, e.index, e.len) && e.file == file && e.offset == off + HEADER)
    ensures InState(Replay(s, file, off, rec), r, e) ==>
      InState(s, r, e) || (e.index == 0 && rec == PutRec(r, 0, e.len) && e.file == file && e.offset == off + HEADER)
  {
    hide LoadPut, Truncate, MultDelete, SetLog;
    var log := LogOf(s, rec.range);
    match rec
    case PutRec(q, index, size) =>
      var added := Entry(index, file, off + HEADER, size);
      PutEntries(log, added, e);
      SetLogEntries(s, q, LoadPut(log, added), r, e);
    case TruncateRec(q, index) =>
      CutEntries(log, index, 0, e);
      SetLogEntries(s, q, Truncate(log, index).log, r, e);
    case DelSpanRec(q, start, end) =>
      CutEntries(log, start, end, e);
      SetLogEntries(s, q, MultDelete(log, start, end).log, r, e);
    case _ =>
  }

  lemma ReplayPoints(s: Store, disk: Disk, rec: Record)
    requires AllPoint(s, disk)
    ensures AllPoint(Replay(s, CurrentId(disk), RecsLen(disk.current), rec), disk.(current := disk.current + [rec]))
  {
    hide Replay, RecsLen, PointsInto, InLog, InState;
    var file, off := CurrentId(disk), RecsLen(disk.current);
    var disk' := disk.(current := disk.current + [rec]);
    AllPointMore(s, disk, [rec]);
    forall r, e | InLog(Replay(s, file, off, rec), r, e)
      ensures e.index > 0 && Points(e, r, disk')
    {
      ReplayEntries(s, file, off, rec, r, e);
      if !InLog(s, r, e) {
        PointsAtEnd(e, r, disk.current);
      }
    }
    forall r, e | InState(Replay(s, file, off, rec), r, e)
      ensures e.index == 0 && Points(e, r, disk')
    {
      ReplayEntries(s, file, off, rec, r, e);
      if !InState(s, r, e) {
        PointsAtEnd(e, r, disk.current);
      }
    }
  }

  lemma {:induction false} ReplayAllPoints(s: Store, disk: Disk, recs: seq<Record>)
    requires AllPoint(s, disk)
    ensures AllPoint(ReplayAll(s, CurrentId(disk), RecsLen(disk.current), recs),
                     disk.(current := disk.current + recs))
    decreases |recs|
  {
    hide AllPoint, Replay, RecsLen;
    if recs == [] {
      assert disk.current + recs == disk.current;
    } else {
      var next := disk.(current := disk.current + [recs[0]]);
      ReplayPoints(s, disk, recs[0]);
      ReplayAllPoints(Replay(s, CurrentId(disk), RecsLen(disk.current), recs[0]), next, recs[1..]);
      OneLength(recs[0]);
      LengthAppend(disk.current, [recs[0]]);
      assert next.current + recs[1..] == disk.current + recs;
    }
  }

  lemma OneLength(rec: Record)
    ensures RecsLen([rec]) == RecLen(rec) && RecsLen([]) == 0
  {
    assert [rec][1..] == [];
  }

  lemma {:induction false} ClosedPoint(closed: seq<seq<Record>>)
    ensures AllPoint(RebuildClosed(closed), Disk(closed, []))
  {
    hide AllPoint, ReplayAll, RecsLen;
    if closed == [] {
      NothingPoints(Disk([], []));
    } else {
      var n := |closed| - 1;
      ClosedPoint(closed[..n]);
      OneLength(ClearRec(0));
      ReplayAllPoints(RebuildClosed(closed[..n]), Disk(closed[..n], []), closed[n]);
      assert [] + closed[n] == closed[n] && closed == closed[..n] + [closed[n]];
      AllPointRotated(RebuildClosed(closed), Disk(closed[..n], closed[n]));
    }
  }

  /** Whatever records the files hold: each entry of the rebuilt index points at the value of a PUT record with its
      range, its index and its size. */
  lemma RebuildPoints(disk: Disk)
    ensures AllPoint(Rebuild(disk), disk)
  {
    hide AllPoint, ReplayAll, RebuildClosed, RecsLen;
    ClosedPoint(disk.closed);
    OneLength(ClearRec(0));
    ReplayAllPoints(RebuildClosed(disk.closed), Disk(disk.closed, []), disk.current);
    assert [] + disk.current == disk.current;
  }

  // ---------- what the last record of a range leaves behind ----------

  lemma ReplayTouchesOneRange(s: Store, file: int, off: nat, rec: Record, q: nat)
    requires q != rec.range
    ensures SameAt(s, Replay(s, file, off, rec), q)
  {
    hide LoadPut, Truncate, MultDelete;
  }

  lemma {:induction false} OthersReplayed(s: Store, file: int, off: nat, recs: seq<Record>, q: nat)
    requires forall rec :: rec in recs ==> rec.range != q
    ensures SameAt(s, ReplayAll(s, file, off, recs), q)
    decreases |recs|
  {
    hide Replay;
    if recs != [] {
      ReplayTouchesOneRange(s, file, off, recs[0], q);
      OthersReplayed(Replay(s, file, off, recs[0]), file, off + RecLen(recs[0]), recs[1..], q);
    }
  }

  /** What a file rebuilds for a range that no record behind this one names: nothing after a CLEAR, no status entry
      after a status delete, and after a status PUT the entry for that record. */
  lemma LastRecordDecides(s: Store, file: int, off: nat, front: seq<Record>, rec: Record, back: seq<Record>)
    requires forall other :: other in back ==> other.range != rec.range
    ensures var after := ReplayAll(s, file, off, front + [rec] + back); var r := rec.range;
      && (rec.ClearRec? ==> r !in after.ranges && r !in after.state)
      && (rec.DelStateRec? ==> r !in after.state)
      && (rec.PutRec? && rec.index == 0 ==>
         r in after.state && after.state[r] == Some(Entry(0, file, off + RecsLen(front) + HEADER, rec.size)))
  {
    hide LoadPut, Truncate, MultDelete, ReplayAll, RecsLen;
    var before := ReplayAll(s, file, off, front);
    ReplayAppend(s, file, off, front, [rec]);
    Replay1(before, file, off + RecsLen(front), rec);
    ReplayAppend(s, file, off, front + [rec], back);
    OthersReplayed(ReplayAll(s, file, off, front + [rec]), file, off + RecsLen(front + [rec]), back, rec.range);
  }

  // ---------- the bytes entries point at ----------

  lemma {:induction false} FileLength(sts: seq<Stored>)
    requires AllValid(sts)
    ensures |FileBytes(sts)| == RecsLen(Records(sts))
  {
    hide Bytes, ValidStored, RecLen;
    if sts != [] {
      assert sts[0] in sts;
      FileLength(sts[1..]);
    }
  }

  // The value of a PUT record is in the file right behind the records before it and its header.
  lemma PayloadAt(front: seq<Stored>, st: Stored, back: seq<Stored>)
    requires AllValid(front) && AllValid(back) && ValidStored(st) && st.rec.PutRec?
    ensures AllValid(front + [st] + back)
    ensures Records(front + [st] + back)[..|front|] == Records(front) && Records(front + [st] + back)[|front|] == st.rec
    ensures var from := RecsLen(Records(front)) + HEADER; var file := FileBytes(front + [st] + back);
      from + st.rec.size <= |file| && file[from..from + st.rec.size] == st.payload
  {
    hide Bytes, ValidStored, FileBytes, RecsLen, Records;
    FileAppend(front, [st]);
    FileAppend(front + [st], back);
    OneStored(st);
    FileLength(front);
    PutPayload(st);
    var a, b, c := FileBytes(front), Bytes(st), FileBytes(back);
    SliceBehind(a, b, HEADER, st.rec.size);
    assert (a + b + c)[|a| + HEADER..|a| + HEADER + st.rec.size] == (a + b)[|a| + HEADER..|a| + HEADER + st.rec.size];
  }

  lemma OneStored(st: Stored)
    requires ValidStored(st)
    ensures AllValid([st]) && FileBytes([st]) == Bytes(st) && Records([st]) == [st.rec]
  {
    hide Bytes, ValidStored;
    assert [st][1..] == [];
    assert FileBytes([st]) == Bytes(st) + FileBytes([st][1..]) && Records([st]) == [st.rec] + Records([st][1..]);
  }

  lemma PutPayload(st: Stored)
    requires ValidStored(st) && st.rec.PutRec?
    ensures |Bytes(st)| == HEADER + st.rec.size && Bytes(st)[HEADER..HEADER + st.rec.size] == st.payload
  {
    var header := [PUT] + ToLE(st.rec.range, 8) + ToLE(st.rec.index, 8) + ToLE(st.rec.size, 8);
    assert Bytes(st) == header + st.payload && |header| == HEADER;
  }

  lemma SliceBehind(a: seq<Byte>, b: seq<Byte>, from: nat, size: nat)
    requires from + size <= |b|
    ensures (a + b)[|a| + from..|a| + from + size] == b[from..from + size]
  {
  }

  // The bytes an entry points at in its file are the value stored with its record.
  ghost predicate ReadsValue(e: Entry, r: nat, sts: seq<Stored>)
    requires AllValid(sts)
  {
    && e.offset + e.len <= |FileBytes(sts)|
    && exists i :: 0 <= i < |sts| && sts[i].rec == PutRec(r, e.index, e.len)
                   && FileBytes(sts)[e.offset..e.offset + e.len] == sts[i].payload
  }

  lemma PointsReads(e: Entry, r: nat, sts: seq<Stored>)
    requires AllValid(sts) && PointsInto(e, r, Records(sts))
    ensures ReadsValue(e, r, sts)
  {
    hide ValidStored, RecsLen, FileBytes, Records;
    var recs := Records(sts);
    var i :| 0 <= i < |recs| && recs[i] == PutRec(r, e.index, e.len) && e.offset == RecsLen(recs[..i]) + HEADER;
    var front, back := sts[..i], sts[i + 1..];
    assert sts == front + [sts[i]] + back && sts[i] in sts;
    RecordAt(sts, i);
    PayloadAt(front, sts[i], back);
  }

  lemma {:induction false} RecordAt(sts: seq<Stored>, i: nat)
    requires i < |sts|
    ensures Records(sts)[i] == sts[i].rec
  {
    if i > 0 {
      RecordAt(sts[1..], i - 1);
    }
  }

  // The files with these records, with their values.
  ghost predicate Written(files: seq<seq<Stored>>, disk: Disk)
  {
    && |files| == CurrentId(disk)
    && forall k :: 0 <= k < |files| ==> AllValid(files[k]) && Records(files[k]) == FileOf(disk, k + 1)
  }

  ghost predicate AllRead(s: Store, files: seq<seq<Stored>>)
  {
    forall r, e :: InLog(s, r, e) || InState(s, r, e) ==>
      1 <= e.file <= |files| && AllValid(files[e.file - 1]) && ReadsValue(e, r, files[e.file - 1])
  }

  lemma AllPointRead(s: Store, disk: Disk, files: seq<seq<Stored>>)
    requires AllPoint(s, disk) && Written(files, disk)
    ensures AllRead(s, files)
  {
    hide InLog, InState, PointsInto, ReadsValue;
    forall r, e | InLog(s, r, e) || InState(s, r, e)
      ensures 1 <= e.file <= |files| && AllValid(files[e.file - 1]) && ReadsValue(e, r, files[e.file - 1])
    {
      assert Points(e, r, disk) && AllValid(files[e.file - 1]);
      PointsReads(e, r, files[e.file - 1]);
    }
  }

  /** In every run, whatever its operations: the bytes an entry of the live index points at, in the file it names, are
      the value stored with a PUT record of its range and its index; and the same holds of the index rebuilt from the
      files. */
  lemma RunReadsValues(actions: seq<Action>, files: seq<seq<Stored>>)
    requires WellFormed(actions) && Written(files, Execute(actions).disk)
    ensures AllRead(Execute(actions).store, files) && AllRead(Rebuild(Execute(actions).disk), files)
  {
    hide AllPoint, AllRead, Written, Execute, Rebuild;
    RunPoints(actions);
    AllPointRead(Execute(actions).store, Execute(actions).disk, files);
    RebuildPoints(Execute(actions).disk);
    AllPointRead(Rebuild(Execute(actions).disk), Execute(actions).disk, files);
  }

  // The status entry written last: its bytes are the value just appended.
  lemma StatusBytes(s: Store, file: int, sts: seq<Stored>, st: Stored, r: nat)
    requires AllValid(sts) && ValidStored(st) && st.rec.PutRec? && st.rec == PutRec(r, 0, st.rec.size)
    ensures AllValid(sts + [st])
    ensures var after := Live(s, file, RecsLen(Records(sts)), PutState(r, st.rec.size)).0;
      && InState(after, r, Entry(0, file, RecsLen(Records(sts)) + HEADER, st.rec.size))
      && var from := RecsLen(Records(sts)) + HEADER;
         from + st.rec.size <= |FileBytes(sts + [st])| && FileBytes(sts + [st])[from..from + st.rec.size] == st.payload
  {
    hide ValidStored, RecsLen, FileBytes, Records;
    PayloadAt(sts, st, []);
    assert sts + [st] + [] == sts + [st];
  }
}
