/** Opening a store again: when loadFile comes to an end, loading into the heap index, and recovery of a whole run
    from the bytes of its files. */
module RaftRecovery {
  import opened Words
  import opened RaftReplay
  import opened RaftFile
  import RaftStore

  // ---------- when the loading loop ends ----------

  // The offset after some rounds; None once the loop has ended. It does not depend on the index.
  function Visit(f: File, off: nat, rounds: nat): (r: Option<nat>)
    requires Readable(f)
    ensures r.Some? ==> r.value < |f.buf|
    decreases rounds
  {
    if off >= |f.buf| then None
    else if rounds == 0 then Some(off)
    else
      match ReadAt(f, off)
      case Stop(_) => None
      case Go(_, next) => Visit(f, next, rounds - 1)
  }

  lemma {:induction false} RunningIff(s: Store, f: File, off: nat, rounds: nat)
    requires Readable(f)
    ensures Load(s, f, off, rounds).Running? <==> Visit(f, off, rounds).Some?
    decreases rounds
  {
    hide Replay, ReadAt;
    if off < |f.buf| && rounds > 0 && ReadAt(f, off).Go? {
      var step := ReadAt(f, off);
      RunningIff(Replay(s, f.id, off, step.rec), f, step.next, rounds - 1);
    }
  }

  lemma {:induction false} VisitAdd(f: File, off: nat, i: nat, j: nat)
    requires Readable(f)
    ensures Visit(f, off, i).Some? ==> Visit(f, off, i + j) == Visit(f, Visit(f, off, i).value, j)
    ensures Visit(f, off, i).None? ==> Visit(f, off, i + j).None?
    decreases i
  {
    hide ReadAt;
    if i > 0 && off < |f.buf| && ReadAt(f, off).Go? {
      VisitAdd(f, ReadAt(f, off).next, i - 1, j);
    }
  }

  lemma {:induction false} Cycle(f: File, p: nat, d: nat, k: nat)
    requires Readable(f) && d > 0 && Visit(f, p, d) == Some(p)
    ensures Visit(f, p, k).Some?
    decreases k
  {
    hide Visit;
    if k < d {
      VisitAdd(f, p, k, d - k);
    } else {
      Cycle(f, p, d, k - d);
      VisitAdd(f, p, d, k - d);
    }
  }

  // More numbers than values below n: two of them agree.
  lemma {:induction false} Pigeonhole(ps: seq<nat>, n: nat) returns (i: nat, j: nat)
    requires |ps| > n && forall k :: 0 <= k < |ps| ==> ps[k] < n
    ensures i < j < |ps| && ps[i] == ps[j]
    decreases n
  {
    assert ps[0] < n;
    var last := |ps| - 1;
    if k :| 0 <= k < last && ps[k] == ps[last] {
      return k, last;
    }
    var rest := ps[..last];
    // The value n - 1 is given the place of the last number, which does not occur before.
    var moved := seq(last, k requires 0 <= k < last => if rest[k] == n - 1 then ps[last] else rest[k]);
    i, j := Pigeonhole(moved, n - 1);
  }

  /** The loop ends within as many rounds as the buffer has bytes, or it never ends: a wrapped offset that leads
      back into the loop leads there again. */
  lemma NeverEnds(s: Store, f: File, rounds: nat)
    requires Readable(f) && Load(s, f, 0, |f.buf|).Running?
    ensures Load(s, f, 0, rounds).Running?
  {
    hide Load, Visit;
    var n := |f.buf|;
    RunningIff(s, f, 0, n);
    RunningIff(s, f, 0, rounds);
    forall k | 0 <= k <= n
      ensures Visit(f, 0, k).Some?
    {
      VisitAdd(f, 0, k, n - k);
    }
    var ps := seq(n + 1, k requires 0 <= k <= n => Visit(f, 0, k).value);
    var i, j := Pigeonhole(ps, n);
    VisitAdd(f, 0, i, j - i);
    if rounds < i {
      VisitAdd(f, 0, rounds, i - rounds);
    } else {
      Cycle(f, ps[i], j - i, rounds - i);
      VisitAdd(f, 0, i, rounds - i);
    }
  }

  // ---------- loading into the heap index ----------

  datatype Outcome = Success | Failure | Endless

  function OutcomeOf(f: File, loaded: Loaded): Outcome
  {
    if f.buf == [] then Failure
    else
      match loaded
      case Ended(_, ok) => if ok then Success else Failure
      case Running(_, _) => Endless
  }

  // loadFile. Its loop has no bound; here it is given up after as many rounds as the buffer has bytes, when it is
  // known never to end.
  method LoadFile(index: RaftStore.Index, f: File) returns (r: Outcome)
    requires index.Valid() && Readable(f)
    modifies index, index.repr
    ensures index.Valid() && index.View() == Load(old(index.View()), f, 0, |f.buf|).store
    ensures r == OutcomeOf(f, Load(old(index.View()), f, 0, |f.buf|))
    ensures index.disk == old(index.disk) && fresh(index.repr - old(index.repr))
  {
    hide Replay, Parse, RaftStore.Logs;
    var off: nat, rounds: nat := 0, |f.buf|;
    if f.buf == [] {
      return Failure;
    }
    while off < |f.buf| && rounds > 0
      invariant index.Valid() && index.disk == old(index.disk) && fresh(index.repr - old(index.repr))
      invariant Load(old(index.View()), f, 0, |f.buf|) == Load(index.View(), f, off, rounds)
      decreases rounds
    {
      var rec := Parse(f.buf[off..] + f.beyond);
      if rec == None {
        return Failure;
      }
      var end := EndOf(rec.value, off);
      if f.current && end > |f.buf| {
        return Success;
      }
      index.LoadRecord(f.id, off, rec.value);
      off, rounds := end, rounds - 1;
    }
    r := if off < |f.buf| then Endless else Success;
  }

  // ---------- all files of a store ----------

  // The files in the order in which init loads them. None when one of them never comes to an end.
  function LoadFiles(files: seq<File>): Option<Store>
    requires forall f :: f in files ==> Readable(f)
  {
    if files == [] then Some(EMPTY)
    else
      var last := files[|files| - 1];
      match LoadFiles(files[..|files| - 1])
      case None => None
      case Some(s) =>
        match Load(s, last, 0, |last.buf|)
        case Running(_, _) => None
        case Ended(t, _) => Some(t)
  }

  // The loading part of init, on an index just created.
  method Recover(index: RaftStore.Index, files: seq<File>) returns (ok: bool)
    requires index.Valid() && index.View() == EMPTY && forall f :: f in files ==> Readable(f)
    modifies index, index.repr
    ensures index.Valid() && index.disk == old(index.disk) && fresh(index.repr - old(index.repr))
    ensures ok <==> LoadFiles(files).Some?
    ensures ok ==> LoadFiles(files) == Some(index.View())
  {
    hide Replay, ReadAt, RaftStore.Logs;
    var i := 0;
    while i < |files|
      invariant 0 <= i <= |files| && index.Valid() && index.disk == old(index.disk)
      invariant fresh(index.repr - old(index.repr)) && LoadFiles(files[..i]) == Some(index.View())
    {
      assert files[..i + 1][..i] == files[..i];
      var r := LoadFile(index, files[i]);
      if r == Endless {
        NoneStays(files, i + 1);
        return false;
      }
      i := i + 1;
    }
    assert files[..i] == files;
    ok := true;
  }

  lemma {:induction false} NoneStays(files: seq<File>, i: nat)
    requires (forall f :: f in files ==> Readable(f)) && i <= |files| && LoadFiles(files[..i]).None?
    ensures LoadFiles(files).None?
    decreases |files| - i
  {
    hide Load;
    if i == |files| {
      assert files[..i] == files;
    } else {
      assert files[..i + 1][..i] == files[..i];
      NoneStays(files, i + 1);
    }
  }

  // The closed files of a disk as they are found again: whole, under their numbers.
  ghost predicate FoundClosed(files: seq<File>, closed: seq<seq<Stored>>)
  {
    && |files| == |closed|
    && forall k :: 0 <= k < |files| ==>
         && AllValid(closed[k]) && Readable(files[k])
         && files[k].id == k + 1 && files[k].buf == FileBytes(closed[k])
  }

  function RecordsOf(closed: seq<seq<Stored>>): (recs: seq<seq<Record>>)
    ensures |recs| == |closed|
  {
    seq(|closed|, k requires 0 <= k < |closed| => Records(closed[k]))
  }

  lemma {:induction false} ClosedFiles(files: seq<File>, closed: seq<seq<Stored>>)
    requires FoundClosed(files, closed)
    ensures LoadFiles(files) == Some(RebuildClosed(RecordsOf(closed)))
    decreases |files|
  {
    hide Load, ReplayAll, FileBytes, Records, ValidStored;
    if files != [] {
      var n := |files| - 1;
      ClosedFiles(files[..n], closed[..n]);
      assert RecordsOf(closed)[..n] == RecordsOf(closed[..n]);
      WholeFile(RebuildClosed(RecordsOf(closed[..n])), files[n], closed[n]);
    }
  }

  lemma {:induction false} WholeLength(sts: seq<Stored>, n: nat)
    ensures RecsLen(Records(sts)[..WholeRecords(sts, n)]) == WholeBytes(sts, n)
    decreases |sts|
  {
    var m := WholeRecords(sts, n);
    if m > 0 {
      WholeLength(sts[1..], n - RecLen(sts[0].rec));
      assert Records(sts)[..m][1..] == Records(sts[1..])[..m - 1];
    }
  }

  lemma LoadCut(files: seq<File>, closed: seq<seq<Stored>>, last: File, sts: seq<Stored>)
    requires FoundClosed(files, closed) && Readable(last) && AllValid(sts) && |FileBytes(sts)| < TWO_64
    requires last.current && last.id == |files| + 1 && last.buf <= FileBytes(sts) && TailSeen(last, 0, sts)
    ensures forall f :: f in files + [last] ==> Readable(f)
    ensures var recs := Records(sts)[..WholeRecords(sts, |last.buf|)];
            LoadFiles(files + [last]) == Some(Rebuild(Disk(RecordsOf(closed), recs)))
  {
    hide Load, ReplayAll, FileBytes, Records, ValidStored, RebuildClosed, TailSeen, WholeRecords;
    ClosedFiles(files, closed);
    assert (files + [last])[..|files|] == files;
    assert last.buf[0..] == last.buf;
    LoadPrefix(RebuildClosed(RecordsOf(closed)), last, 0, sts, |last.buf|);
  }

  /** Recovery of a run inside its domain from bytes: the closed files are whole, the current one may be cut anywhere,
      as long as a record it ends in is seen to be torn. With `live` the run up to its last action whose records are
      all there, the recovered index is the live one of that point if and only if the whole records end where its
      current file ended. Otherwise they end between the two records of the next action, a put; its first record has
      been replayed, and the index is neither the one before that put nor the one after it. */
  lemma RecoverRun(actions: seq<Action>, files: seq<File>, closed: seq<seq<Stored>>, last: File, sts: seq<Stored>)
    requires WellFormed(actions) && AllOk(actions)
    requires FoundClosed(files, closed) && Readable(last) && AllValid(sts) && |FileBytes(sts)| < TWO_64
    requires last.current && last.id == |files| + 1 && last.buf <= FileBytes(sts) && TailSeen(last, 0, sts)
    requires Execute(actions).disk == Disk(RecordsOf(closed), Records(sts))
    ensures var m := WholeRecords(sts, |last.buf|);
            var k := Survived(actions, m);
            var live, index := Execute(actions[..k]), LoadFiles(files + [last]);
            && index.Some?
            && (index.value == live.store <==> WholeBytes(sts, |last.buf|) == RecsLen(live.disk.current))
            && (index.value != live.store ==>
                  && WholeBytes(sts, |last.buf|) == RecsLen(live.disk.current) + HEADER
                  && k < |actions| && InsidePut(live, actions[k], Records(sts)[..m])
                  && index.value == HalfPut(live, actions[k].op) != Execute(actions[..k + 1]).store)
  {
    hide Load, LoadFiles, Rebuild, FileBytes, Records, RecordsOf, ValidStored, Execute, AllOk, WellFormed, FoundClosed,
         TailSeen, WholeRecords, WholeBytes, Survived, HalfPut, PreludeOf, RecsLen;
    LoadCut(files, closed, last, sts);
    var m := WholeRecords(sts, |last.buf|);
    RebuildPrefix(actions, m);
    WholeLength(sts, |last.buf|);
    var live := Execute(actions[..Survived(actions, m)]);
    if live.disk.current != Records(sts)[..m] {
      PreludeLength(live, actions[Survived(actions, m)].op);
    }
  }

  lemma PreludeLength(run: Run, op: Op)
    requires op.PutData? && PreludeOf(run.store, op) != []
    ensures RecsLen(run.disk.current + [PreludeOf(run.store, op)[0]]) == RecsLen(run.disk.current) + HEADER
  {
    var rec := PreludeOf(run.store, op)[0];
    ReplayAppend(EMPTY, 0, 0, run.disk.current, [rec]);
    assert RecsLen([rec]) == HEADER + RecsLen([]);
  }
}
