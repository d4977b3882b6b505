/** The raft store itself: one singly linked list of index nodes per range, walked and relinked in place, and
    the records that each write appends to the log file. */
module RaftStore {
  import opened Words
  import opened RaftIndex
  import opened RaftReplay

  // `owner` is the range the node was made for: lists of different ranges share no node.
  class Node {
    const entry: Entry
    ghost const owner: nat
    var next: Node?

    constructor (e: Entry, n: Node?, ghost r: nat)
      ensures entry == e && next == n && owner == r
    {
      entry, next, owner := e, n, r;
    }
  }

  ghost function Link(ns: seq<Node>, i: nat): Node?
  {
    if i < |ns| then ns[i] else null
  }

  ghost predicate Placed(r: nat, ns: seq<Node>)
  {
    && (forall i :: 0 <= i < |ns| ==> ns[i].owner == r)
    && (forall i, j :: 0 <= i < j < |ns| ==> ns[i] != ns[j])
  }

  lemma NothingPlaced(r: nat)
    ensures Placed(r, [])
  {
  }

  lemma Apart(r: nat, ns: seq<Node>, q: nat, ms: seq<Node>)
    requires Placed(r, ns) && Placed(q, ms) && r != q
    ensures forall i :: 0 <= i < |ns| ==> ns[i] !in ms
  {
  }

  // The nodes form a null-terminated list in this order.
  ghost predicate Linked(ns: seq<Node>)
    reads ns
  {
    forall i {:trigger ns[i].next} :: 0 <= i < |ns| ==> ns[i].next == Link(ns, i + 1)
  }

  ghost function Entries(ns: seq<Node>): (log: Log)
    ensures |log| == |ns| && forall i :: 0 <= i < |ns| ==> log[i] == ns[i].entry
  {
    seq(|ns|, i requires 0 <= i < |ns| => ns[i].entry)
  }

  ghost function Logs(lists: map<nat, seq<Node>>): map<nat, Log>
  {
    map r | r in lists :: Entries(lists[r])
  }

  lemma LogsUpdate(lists: map<nat, seq<Node>>, r: nat, ns: seq<Node>)
    ensures Logs(lists[r := ns]) == Logs(lists)[r := Entries(ns)]
    ensures Logs(lists - {r}) == Logs(lists) - {r}
    ensures Logs(lists).Keys == lists.Keys && (r in lists ==> Logs(lists)[r] == Entries(lists[r]))
  {
  }

  // A walk along `next` from position `from`.
  method WalkNodes(start: Node?, ghost ns: seq<Node>, ghost from: nat, id: nat) returns (n: Node?, ghost at: nat)
    requires Linked(ns) && from <= |ns| && start == Link(ns, from)
    ensures at == Walk(Entries(ns), from, id) && n == Link(ns, at)
  {
    n, at := start, from;
    while n != null && id < n.entry.index
      invariant from <= at <= |ns| && n == Link(ns, at)
      invariant Walk(Entries(ns), from, id) == Walk(Entries(ns), at, id)
      decreases |ns| - at
    {
      n, at := n.next, at + 1;
    }
  }

  // The last index of a span that ends before `end`, in 64 bits.
  function LastOf(end: nat): nat
  {
    if end == 0 then TWO_64 - 1 else end - 1
  }

  // The entries of the log with these indexes, in increasing order.
  predicate IsSpan(es: seq<Entry>, log: Log, first: int, last: int)
  {
    && |es| == (if first <= last then last - first + 1 else 0)
    && forall k :: 0 <= k < |es| ==> es[k].index == first + k && es[k] in log
  }

  lemma EmptySpan(log: Log, first: int, last: int)
    requires first > last
    ensures IsSpan([], log, first, last)
  {
  }

  lemma SpanGrows(es: seq<Entry>, log: Log, id: int, last: int, at: nat)
    requires IsSpan(es, log, id + 1, last) && id <= last && at < |log| && log[at].index == id
    ensures IsSpan([log[at]] + es, log, id, last)
  {
  }

  // A walk that skipped only larger indexes stops at an index exactly when the list has it.
  lemma WalkFrom(log: Log, at: nat, id: nat)
    requires Descending(log) && at <= |log| && (forall k :: 0 <= k < at ==> log[k].index > id)
    requires at < |log| ==> log[at].index <= id
    ensures Has(log, id) <==> at < |log| && log[at].index == id
  {
    HasIff(log, id);
  }

  // The list after a.next was redirected from position i to `mid` followed by position j.
  ghost function Spliced(ns: seq<Node>, i: nat, mid: seq<Node>, j: nat): seq<Node>
    requires i < j <= |ns|
  {
    ns[..i + 1] + mid + ns[j..]
  }

  lemma EntriesSpliced(ns: seq<Node>, i: nat, mid: seq<Node>, j: nat)
    requires i < j <= |ns|
    ensures Entries(Spliced(ns, i, mid, j)) == Entries(ns)[..i + 1] + Entries(mid) + Entries(ns)[j..]
  {
  }

  lemma PlacedSpliced(r: nat, ns: seq<Node>, i: nat, mid: seq<Node>, j: nat)
    requires Placed(r, ns) && Placed(r, mid) && i < j <= |ns|
    requires forall m :: m in mid ==> m !in ns
    ensures Placed(r, Spliced(ns, i, mid, j))
    ensures forall k :: 0 <= k < |ns| && k != i ==> ns[k] != ns[i]
  {
    assert forall l :: 0 <= l < |mid| ==> mid[l] in mid;
    assert forall k :: 0 <= k < |ns| ==> ns[k] in ns;
  }

  // a.next := n, where n starts `mid` and its last node already points at position j; `mid` may be empty.
  method Relink(a: Node, n: Node?, ghost ns: seq<Node>, ghost i: nat, ghost mid: seq<Node>, ghost j: nat)
    requires Linked(ns) && i < j <= |ns| && a == ns[i] && |mid| <= 1
    requires forall k :: 0 <= k < |ns| && k != i ==> ns[k] != a
    requires if mid == [] then n == Link(ns, j) else n == mid[0] && n != a && mid[0].next == Link(ns, j)
    modifies a
    ensures Linked(Spliced(ns, i, mid, j))
  {
    ghost var cut := Spliced(ns, i, mid, j);
    a.next := n;
    forall k | 0 <= k < |cut|
      ensures cut[k].next == Link(cut, k + 1)
    {
      if k > i + |mid| {
        assert cut[k] == ns[k - i - 1 - |mid| + j];
      }
    }
  }

  ghost predicate Within(ns: seq<Node>, repr: set<Node>)
  {
    forall i :: 0 <= i < |ns| ==> ns[i] in repr
  }

  lemma WithinSpliced(ns: seq<Node>, i: nat, mid: seq<Node>, j: nat, repr: set<Node>)
    requires Within(ns, repr) && i < j <= |ns| && forall m :: m in mid ==> m in repr
    ensures Within(Spliced(ns, i, mid, j), repr)
  {
  }

  // One range's list, hanging off `head`.
  ghost predicate Hangs(r: nat, head: Node, ns: seq<Node>)
    reads ns
  {
    ns != [] && ns[0] == head && Placed(r, ns) && Linked(ns)
  }

  lemma WithinOld(ns: seq<Node>, repr: set<Node>, n: Node)
    requires Within(ns, repr) && n !in repr
    ensures n !in ns
  {
  }

  // A new node in front of a suffix of a list.
  lemma Prepended(r: nat, head: Node, ns: seq<Node>, n: Node, k: nat)
    requires Hangs(r, head, ns) && n.owner == r && n !in ns && k <= |ns| && n.next == Link(ns, k)
    ensures Hangs(r, n, [n] + ns[k..]) && Entries([n] + ns[k..]) == [n.entry] + Entries(ns)[k..]
  {
    var all := [n] + ns[k..];
    forall i | 0 <= i < |all|
      ensures all[i].next == Link(all, i + 1)
    {
      if i > 0 {
        assert all[i] == ns[k + i - 1] && ns[k + i - 1].next == Link(ns, k + i);
      }
    }
  }

  class Index {
    var ranges: map<nat, Node>
    var state: map<nat, Option<Entry>>
    var disk: Disk
    ghost var lists: map<nat, seq<Node>>
    ghost var repr: set<Node>

    ghost predicate Valid()
      reads this, repr
    {
      && ranges.Keys == lists.Keys
      && forall r :: r in lists ==> Within(lists[r], repr) && Hangs(r, ranges[r], lists[r])
    }

    ghost function View(): Store
      reads this
    {
      Store(Logs(lists), state)
    }

    ghost function Now(): Run
      reads this
    {
      Run(View(), disk)
    }

    constructor ()
      ensures Valid() && Now() == Execute([]) && fresh(repr)
    {
      ranges, state, disk := map[], map[], Disk([], []);
      lists, repr := map[], {};
    }

    // A restart: an empty index that replays the files found on disk.
    constructor Reload(files: Disk)
      ensures Valid() && Now() == Run(Rebuild(files), files) && fresh(repr)
    {
      ranges, state, disk := map[], map[], files;
      lists, repr := map[], {};
      new;
      hide ReplayAll, Logs;
      NoLogs();
      var i := 0;
      while i < |files.closed|
        invariant 0 <= i <= |files.closed| && Valid() && fresh(repr) && disk == files
        invariant View() == RebuildClosed(files.closed[..i])
      {
        assert files.closed[..i + 1][..i] == files.closed[..i];
        LoadRecords(i + 1, files.closed[i]);
        i := i + 1;
      }
      assert files.closed[..i] == files.closed;
      LoadRecords(i + 1, files.current);
    }

    // The loop of loadFile over whole records.
    method LoadRecords(file: int, recs: seq<Record>)
      requires Valid()
      modifies this, repr
      ensures Valid() && View() == ReplayAll(old(View()), file, 0, recs) && disk == old(disk)
      ensures fresh(repr - old(repr))
    {
      hide Replay, View;
      var i, off: nat := 0, 0;
      assert recs[0..] == recs;
      while i < |recs|
        invariant 0 <= i <= |recs| && Valid() && disk == old(disk) && fresh(repr - old(repr))
        invariant ReplayAll(old(View()), file, 0, recs) == ReplayAll(View(), file, off, recs[i..])
      {
        assert recs[i..][1..] == recs[i + 1..];
        LoadRecord(file, off, recs[i]);
        off, i := off + RecLen(recs[i]), i + 1;
      }
    }

    method LoadRecord(file: int, off: nat, rec: Record)
      requires Valid()
      modifies this, repr
      ensures Valid() && View() == Replay(old(View()), file, off, rec) && disk == old(disk)
      ensures fresh(repr - old(repr))
    {
      hide Logs, MultDelete, Truncate, LoadPut, SetLog, Hangs, Within;
      match rec
      case PutRec(r, index, size) =>
        if index == 0 {
          state := state[r := Some(Entry(0, file, off + HEADER, size))];
        } else {
          LoadIndex(r, Entry(index, file, off + HEADER, size));
        }
      case DelSpanRec(r, start, end) =>
        var span := DeleteEntries(r, start, end);
      case TruncateRec(r, index) =>
        var cut := TruncateEntries(r, index);
      case DelStateRec(r) =>
        state := state - {r};
      case ClearRec(r) =>
        NoLog(View(), r);
        Erase(r);
        state := state - {r};
    }

    // One entry of WriteRaftLog, and the records it appends.
    method Apply(file: int, off: nat, op: Op) returns (recs: seq<Record>)
      requires Valid()
      modifies this, repr
      ensures Valid() && (View(), recs) == Live(old(View()), file, off, op) && disk == old(disk)
      ensures fresh(repr - old(repr))
    {
      hide Logs, MultDelete, Truncate, LivePut, PutPrelude, SetLog, Hangs, Within;
      recs := [];
      match op
      case PutData(r, index, size) =>
        recs := PutIndex(file, off, r, index, size);
      case PutState(r, size) =>
        state := state[r := Some(Entry(0, file, off + HEADER, size))];
        recs := [PutRec(r, 0, size)];
      case Clear(r) =>
        LogsUpdate(lists, r, []);
        NoLog(View(), r);
        if r in state {
          state := state - {r};
          recs := [ClearRec(r)];
        } else if r in ranges {
          Erase(r);
          recs := [ClearRec(r)];
        }
      case TruncateTo(r, index) =>
        var cut := TruncateEntries(r, index);
        if cut.Some? {
          recs := [TruncateRec(r, cut.value)];
        }
      case DeleteState(r) =>
        if r in state {
          state := state - {r};
          recs := [DelStateRec(r)];
        }
      case DeleteSpan(r, start, end) =>
        var span := DeleteEntries(r, start, end);
        if span.Some? {
          recs := [DelSpanRec(r, span.value.0, span.value.1)];
        }
      case ReadState(r) =>
        if r !in state {
          state := state[r := None];
        }
    }

    /** WriteRaftLog: a batch, collected in `mem` and written once; then the file may be over its limit. None stands for
        an operation of unknown type: the batch fails there, with the operations before it applied to the index and
        nothing written. An index that could be rebuilt before still can if and only if those operations have left it
        as it was. */
    method WriteRaftLog(ops: seq<Option<Op>>, fileMaxSize: nat) returns (ok: bool)
      requires Valid()
      modifies this, repr
      ensures Valid() && fresh(repr - old(repr))
      ensures ok <==> |Known(ops)| == |ops|
      ensures var done := ActAll(old(Now()), DoAll(Known(ops)));
              if ok then Now() == if RecsLen(done.disk.current) > fileMaxSize then Act(done, Rotate) else done
              else Now() == Run(done.store, old(disk))
      ensures !ok && old(Rebuild(disk) == View()) ==> (Rebuild(disk) == View() <==> View() == old(View()))
    {
      hide RecsLen, Hangs, Within, Rebuild, ActAll, Known, Logs;
      var mem: seq<Record>;
      ok, mem := ApplyBatch(ops);
      if ok {
        disk := disk.(current := disk.current + mem);
        if RecsLen(disk.current) > fileMaxSize {
          disk := Disk(disk.closed + [disk.current], []);
        }
      }
    }

    // The loop of WriteRaftLog over the batch.
    method ApplyBatch(ops: seq<Option<Op>>) returns (ok: bool, mem: seq<Record>)
      requires Valid()
      modifies this, repr
      ensures Valid() && fresh(repr - old(repr)) && disk == old(disk)
      ensures ok <==> |Known(ops)| == |ops|
      ensures Run(View(), disk.(current := disk.current + mem)) == ActAll(old(Now()), DoAll(Known(ops)))
    {
      hide Live, Logs, RecsLen, ReplayAll, Hangs, Within, Known;
      var i := 0;
      mem := [];
      var file, fileLen := CurrentId(disk), RecsLen(disk.current);
      assert disk.current + [] == disk.current;
      ghost var known := Known(ops);
      while i < |ops|
        invariant 0 <= i <= |known| && Valid() && disk == old(disk) && fresh(repr - old(repr))
        invariant Run(View(), disk.(current := disk.current + mem)) == ActAll(old(Now()), DoAll(known[..i]))
      {
        if ops[i] == None {
          assert known[..i] == known;
          return false, mem;
        }
        DoAllStep(known, i);
        ReplayAppend(EMPTY, file, 0, disk.current, mem);
        var recs := Apply(file, fileLen + RecsLen(mem), ops[i].value);
        assert (disk.current + mem) + recs == disk.current + (mem + recs);
        mem, i := mem + recs, i + 1;
      }
      assert known[..i] == known;
      ok := true;
    }

    // ranges_[r] = n, where the list of n is known.
    method SetHead(r: nat, n: Node, ghost ns: seq<Node>)
      requires Valid() && Hangs(r, n, ns) && Within(ns, repr)
      modifies this`ranges, this`lists
      ensures Valid() && View() == SetLog(old(View()), r, Entries(ns)) && lists == old(lists)[r := ns]
    {
      LogsUpdate(lists, r, ns);
      ranges, lists := ranges[r := n], lists[r := ns];
    }

    method Erase(r: nat)
      requires Valid()
      modifies this`ranges, this`lists
      ensures Valid() && View() == SetLog(old(View()), r, []) && lists == old(lists) - {r}
    {
      LogsUpdate(lists, r, []);
      ranges, lists := ranges - {r}, lists - {r};
    }

    // a.next := n in the list of range r; `mid` is a new node on the way, if any.
    method Splice(r: nat, a: Node, n: Node?, ghost i: nat, ghost mid: seq<Node>, ghost j: nat)
      requires Valid() && r in lists && i < j <= |lists[r]| && a == lists[r][i]
      requires Placed(r, mid) && |mid| <= 1 && forall m :: m in mid ==> m in repr && m !in lists[r]
      requires if mid == [] then n == Link(lists[r], j) else n == mid[0] && mid[0].next == Link(lists[r], j)
      modifies this`lists, a
      ensures Valid()
      ensures var log := LogOf(old(View()), r);
              View() == SetLog(old(View()), r, log[..i + 1] + Entries(mid) + log[j..])
    {
      hide Entries, Logs, Within, Linked, Placed;
      ghost var ns := lists[r];
      assert Within(ns, repr) && Hangs(r, ranges[r], ns);
      WithinSpliced(ns, i, mid, j, repr);
      EntriesSpliced(ns, i, mid, j);
      LogsUpdate(lists, r, Spliced(ns, i, mid, j));
      PlacedSpliced(r, ns, i, mid, j);
      assert mid != [] ==> mid[0] in mid && a in ns;
      Relink(a, n, ns, i, mid, j);
      forall q | q in lists && q != r
        ensures Hangs(q, ranges[q], lists[q])
      {
        assert old(Hangs(q, ranges[q], lists[q]));
        Apart(r, ns, q, lists[q]);
      }
      lists := lists[r := Spliced(ns, i, mid, j)];
    }
  
    // A new head in front of position k of the list of r.
    method Prepend(r: nat, e: Entry, rest: Node?, ghost k: nat)
      requires Valid() && r in lists && k <= |lists[r]| && rest == Link(lists[r], k)
      modifies this
      ensures Valid() && View() == SetLog(old(View()), r, [e] + LogOf(old(View()), r)[k..])
      ensures fresh(repr - old(repr)) && disk == old(disk)
    {
      hide Logs, Entries, SetLog, Hangs;
      LogsUpdate(lists, r, []);
      ghost var ns := lists[r];
      assert Hangs(r, ranges[r], ns);
      var n := new Node(e, rest, r);
      ghost var all := [n] + ns[k..];
      assert Hangs(r, ranges[r], ns) && n !in ns by { WithinOld(ns, old(repr), n); }
      Prepended(r, ranges[r], ns, n, k);
      repr := repr + {n};
      SetHead(r, n, all);
    }

    // A list of one entry replaces whatever range r had.
    method SetOnly(r: nat, e: Entry)
      requires Valid()
      modifies this
      ensures Valid() && View() == SetLog(old(View()), r, [e])
      ensures fresh(repr - old(repr)) && disk == old(disk)
    {
      var n := new Node(e, null, r);
      assert Hangs(r, n, [n]);
      assert Entries([n]) == [e];
      repr := repr + {n};
      SetHead(r, n, [n]);
    }

    // putIndex
    method PutIndex(file: int, off: nat, r: nat, index: nat, size: nat) returns (recs: seq<Record>)
      requires Valid()
      modifies this
      ensures Valid() && (View(), recs) == Live(old(View()), file, off, PutData(r, index, size))
      ensures fresh(repr - old(repr)) && disk == old(disk)
    {
      hide Logs, Linked, SetLog, RecsLen, LivePut, Has, Entries, Placed, Within;
      LogsUpdate(lists, r, []);
      NoRecs(EMPTY, file, off);
      var put := PutRec(r, index, size);
      if r !in ranges {
        SetOnly(r, Entry(index, file, off + HEADER, size));
        PutAlone([], Entry(index, file, off + HEADER, size));
        return [] + [put];
      }
      assert Hangs(r, ranges[r], lists[r]);
      var max := ranges[r].entry.index;
      if index > max && index != max + 1 {
        var cut := TruncateRec(r, max + 1);
        Replay2(EMPTY, file, off, cut, cut);
        PutAlone(Entries(lists[r]), Entry(index, file, off + HEADER + HEADER, size));
        SetOnly(r, Entry(index, file, off + HEADER + HEADER, size));
        return [cut] + [put];
      }
      recs := PutInside(file, off, r, index, size);
    }

    // A put that does not open a gap: the list is cut behind the walk's last node, or behind the equal index.
    method PutInside(file: int, off: nat, r: nat, index: nat, size: nat) returns (recs: seq<Record>)
      requires Valid() && r in ranges && index <= ranges[r].entry.index + 1
      modifies this
      ensures Valid() && (View(), recs) == Live(old(View()), file, off, PutData(r, index, size))
      ensures fresh(repr - old(repr)) && disk == old(disk)
    {
      hide Logs, Linked, SetLog, RecsLen, LivePut, Has, Entries, Placed, Within;
      LogsUpdate(lists, r, []);
      NoRecs(EMPTY, file, off);
      assert Hangs(r, ranges[r], lists[r]);
      var put := PutRec(r, index, size);
      var max := ranges[r].entry.index;
      var tmp: Node;
      ghost var at: nat;
      tmp, at := LastWalk(ranges[r], lists[r], index);
      if tmp.entry.index == index {
        recs := [DelSpanRec(r, index, max + 1)];
        Replay2(EMPTY, file, off, recs[0], recs[0]);
        var e := Entry(index, file, off + HEADER + HEADER, size);
        PutShape(Entries(lists[r]), e, at);
        LinkAt(lists[r], at);
        Prepend(r, e, tmp.next, at + 1);
        return recs + [put];
      } else {
        var e := Entry(index, file, off + HEADER, size);
        PutShape(Entries(lists[r]), e, at);
        Prepend(r, e, tmp, at);
        return [] + [put];
      }
    }

    // Drops the nodes from position t, or from behind it when that node stays, up to position j.
    method CutOut(r: nat, top: Node, rest: Node?, keep: bool, ghost t: nat, ghost j: nat)
      requires Valid() && r in lists && t < j <= |lists[r]| && top == lists[r][t] && rest == Link(lists[r], j)
      modifies this`ranges, this`lists, repr
      ensures Valid()
      ensures var log := LogOf(old(View()), r);
              View() == SetLog(old(View()), r, (if keep then log[..t + 1] else []) + log[j..])
    {
      hide Logs, Linked, SetLog, Entries, Placed;
      LogsUpdate(lists, r, []);
      ghost var ns := lists[r];
      ghost var log := Entries(ns);
      assert Hangs(r, ranges[r], ns);
      if keep {
        NoEntries();
        NothingPlaced(r);
        Splice(r, top, rest, t, [], j);
        assert log[..t + 1] + [] + log[j..] == log[..t + 1] + log[j..];
      } else if rest != null {
        Suffix(r, ns, j);
        SetHead(r, rest, ns[j..]);
        assert [] + log[j..] == log[j..];
      } else {
        Erase(r);
        assert [] + log[j..] == [];
      }
    }

    // multDelete; the span it deleted, which the caller records when it writes to disk.
    method DeleteEntries(r: nat, start: nat, end: nat) returns (span: Option<(nat, nat)>)
      requires Valid()
      modifies this`ranges, this`lists, repr
      ensures Valid()
      ensures var d := MultDelete(LogOf(old(View()), r), start, end);
              View() == SetLog(old(View()), r, d.log) && span == d.span
    {
      hide Logs, Linked, SetLog, Entries, Walk, MultDelete, Placed, Within;
      LogsUpdate(lists, r, []);
      Unchanged(r);
      DeleteShape(LogOf(View(), r), start, end);
      if r !in ranges {
        return None;
      }
      assert Hangs(r, ranges[r], lists[r]);
      var tmp: Node? := ranges[r];
      if tmp.entry.index < start {
        return None;
      }
      ghost var ns, t, j := lists[r], 0, 0;
      tmp, t := WalkNodes(tmp, ns, 0, end);
      if tmp == null {
        return None;
      }
      var top, end' := tmp, if tmp.entry.index < end then tmp.entry.index + 1 else end;
      var rest: Node?, last: Node;
      rest, last, j := WalkPair(top, ns, t, start);
      var start' := if rest == null then last.entry.index else start;
      if rest != null {
        LinkAt(ns, j);
        rest, j := rest.next, j + 1;
      }
      CutOut(r, top, rest, top.entry.index == end, t, j);
      span := if start' != end' then Some((start', end')) else None;
    }

    // truncate; the index it recorded, if any.
    method TruncateEntries(r: nat, id: nat) returns (index: Option<nat>)
      requires Valid()
      modifies this`ranges, this`lists, repr
      ensures Valid()
      ensures var t := Truncate(LogOf(old(View()), r), id);
              View() == SetLog(old(View()), r, t.log) && index == t.index
    {
      hide Logs, Linked, SetLog, Entries, Walk, Truncate, Placed, Within;
      LogsUpdate(lists, r, []);
      Unchanged(r);
      TruncateShape(LogOf(View(), r), id);
      if r !in ranges {
        return None;
      }
      assert Hangs(r, ranges[r], lists[r]);
      var tmp := ranges[r];
      ghost var n := |lists[r]|;
      if tmp.entry.index < id {
        index := Some(tmp.entry.index);
        Erase(r);
      } else if tmp.entry.index == id {
        CutOut(r, tmp, null, true, 0, n);
        index := Some(id);
      } else {
        ghost var j: nat;
        var next: Node?;
        next, tmp, j := WalkPair(tmp, lists[r], 0, id);
        if next == null {
          return None;
        }
        if next.entry.index == id {
          CutOut(r, next, null, true, j, n);
          index := Some(id);
        } else {
          index := Some(tmp.entry.index);
          CutOut(r, tmp, null, true, j - 1, n);
        }
      }
    }

    // loadIndex
    method LoadIndex(r: nat, e: Entry)
      requires Valid()
      modifies this, repr
      ensures Valid() && View() == SetLog(old(View()), r, LoadPut(LogOf(old(View()), r), e))
      ensures fresh(repr - old(repr)) && disk == old(disk)
    {
      hide Logs, Linked, SetLog, Entries, Walk, LoadPut, Placed, Within;
      LogsUpdate(lists, r, []);
      LoadShape(LogOf(View(), r), e);
      if r !in ranges {
        SetOnly(r, e);
        return;
      }
      assert Hangs(r, ranges[r], lists[r]);
      var tmp := ranges[r];
      ghost var ns := lists[r];
      if e.index > tmp.entry.index {
        Prepend(r, e, tmp, 0);
        assert Entries(ns)[0..] == Entries(ns);
      } else {
        LoadInside(r, e);
      }
    }

    // An entry that is not newer than the head: behind the larger ones, in the place of its own index.
    method LoadInside(r: nat, e: Entry)
      requires Valid() && r in ranges && e.index <= ranges[r].entry.index
      modifies this, repr
      ensures Valid() && View() == SetLog(old(View()), r, LoadPut(LogOf(old(View()), r), e))
      ensures fresh(repr - old(repr)) && disk == old(disk)
    {
      hide Logs, Linked, SetLog, Entries, Walk, LoadPut, Placed, Within;
      LogsUpdate(lists, r, []);
      LoadShape(LogOf(View(), r), e);
      assert Hangs(r, ranges[r], lists[r]);
      ghost var ns := lists[r];
      ghost var j: nat;
      var next: Node?, tmp: Node;
      next, tmp, j := WalkPair(ranges[r], ns, 0, e.index);
      if next != null && next.entry.index == e.index {
        LinkAt(ns, j);
        InsertAfter(r, tmp, next.next, e, j - 1, j + 1);
      } else {
        InsertAfter(r, tmp, next, e, j - 1, j);
      }
    }

    /** Get: the entries of an index span, oldest first, if and only if the list has every one of them. The span's end
        is taken in 64 bits, so an end of 0 asks for everything from `start` on. */
    method Get(r: nat, start: nat, end: nat) returns (entries: Option<seq<Entry>>)
      requires Valid() && 0 < start && end < TWO_64 && Descending(LogOf(View(), r))
      ensures var log := LogOf(View(), r);
              entries.Some? <==> r in ranges && forall id :: start <= id <= LastOf(end) ==> Has(log, id)
      ensures entries.Some? ==> IsSpan(entries.value, LogOf(View(), r), start, LastOf(end))
    {
      hide Logs, Linked, Walk, Placed, Within, Has, IsSpan, Descending;
      LogsUpdate(lists, r, []);
      if r !in ranges {
        return None;
      }
      EmptySpan(LogOf(View(), r), LastOf(end) + 1, LastOf(end));
      ghost var ns := lists[r];
      ghost var at: nat := 0;
      ghost var log := Entries(ns);
      assert Hangs(r, ranges[r], ns) && LogOf(View(), r) == log;
      var node: Node? := ranges[r];
      var found: seq<Entry> := [];
      var id: int := if end == 0 then TWO_64 - 1 else end - 1;
      while id >= start
        invariant start - 1 <= id || (id == LastOf(end) && found == [])
        invariant at <= |ns| && node == Link(ns, at) && forall k :: 0 <= k < at ==> log[k].index > id
        invariant IsSpan(found, log, id + 1, LastOf(end)) && forall i :: id < i <= LastOf(end) ==> Has(log, i)
      {
        node, at := WalkNodes(node, ns, at, id);
        WalkFrom(log, at, id);
        if node == null || node.entry.index != id {
          return None;
        }
        SpanGrows(found, log, id, LastOf(end), at);
        found := [node.entry] + found;
        id := id - 1;
      }
      if LastOf(end) < start {
        EmptySpan(log, start, LastOf(end));
      }
      entries := Some(found);
    }

    method InsertAfter(r: nat, a: Node, b: Node?, e: Entry, ghost i: nat, ghost j: nat)
      requires Valid() && r in lists && i < j <= |lists[r]| && a == lists[r][i] && b == Link(lists[r], j)
      modifies this, repr
      ensures Valid()
      ensures var log := LogOf(old(View()), r); View() == SetLog(old(View()), r, log[..i + 1] + [e] + log[j..])
      ensures fresh(repr - old(repr)) && disk == old(disk)
    {
      hide Logs, Linked, SetLog;
      var n := new Node(e, b, r);
      assert Entries([n]) == [e];
      repr := repr + {n};
      Splice(r, a, n, i, [n], j);
    }

    lemma Unchanged(r: nat)
      requires Valid()
      ensures SetLog(View(), r, LogOf(View(), r)) == View()
    {
      assert SetLog(View(), r, LogOf(View(), r)).ranges == View().ranges;
    }

    lemma Suffix(r: nat, ns: seq<Node>, j: nat)
      requires Placed(r, ns) && Linked(ns) && j < |ns|
      ensures Hangs(r, ns[j], ns[j..]) && Entries(ns[j..]) == Entries(ns)[j..]
    {
      forall i | 0 <= i < |ns| - j
        ensures ns[j..][i].next == Link(ns[j..], i + 1)
      {
        assert ns[j + i].next == Link(ns, j + i + 1);
      }
    }
  }

  // The operations of a batch up to the first one of unknown type.
  function Known(ops: seq<Option<Op>>): (r: seq<Op>)
    ensures |r| <= |ops| && (forall i :: 0 <= i < |r| ==> ops[i] == Some(r[i])) && (|r| < |ops| ==> ops[|r|] == None)
  {
    if ops == [] || ops[0].None? then [] else [ops[0].value] + Known(ops[1..])
  }

  function DoAll(ops: seq<Op>): seq<Action>
  {
    seq(|ops|, i requires 0 <= i < |ops| => Do(ops[i]))
  }

  lemma DoAllStep(ops: seq<Op>, i: nat)
    requires i < |ops|
    ensures DoAll(ops[..i + 1]) == DoAll(ops[..i]) + [Do(ops[i])]
  {
  }

  lemma NoLogs()
    ensures Logs(map[]) == map[]
  {
  }

  lemma NoLog(s: Store, r: nat)
    ensures SetLog(s, r, []) == s.(ranges := s.ranges - {r})
  {
  }

  lemma NoEntries()
    ensures Entries([]) == []
  {
  }

  // A walk that starts behind `top` and remembers the last node it passed.
  method WalkPair(top: Node, ghost ns: seq<Node>, ghost t: nat, id: nat)
    returns (n: Node?, last: Node, ghost at: nat)
    requires Linked(ns) && t < |ns| && top == ns[t]
    ensures at == Walk(Entries(ns), t + 1, id) && n == Link(ns, at) && last == ns[at - 1]
  {
    last, n, at := top, top.next, t + 1;
    while n != null && id < n.entry.index
      invariant t < at <= |ns| && n == Link(ns, at) && last == ns[at - 1]
      invariant Walk(Entries(ns), t + 1, id) == Walk(Entries(ns), at, id)
      decreases |ns| - at
    {
      last, n, at := n, n.next, at + 1;
    }
  }

  lemma DeleteShape(log: Log, start: nat, end: nat)
    ensures log == [] || log[0].index < start || Walk(log, 0, end) == |log| ==>
      MultDelete(log, start, end) == Deleted(log, None)
    ensures log != [] && log[0].index >= start && Walk(log, 0, end) < |log| ==>
      var t, j := Walk(log, 0, end), Walk(log, Walk(log, 0, end) + 1, start);
      var start' := if j == |log| then log[j - 1].index else start;
      var end' := if log[t].index < end then log[t].index + 1 else end;
      MultDelete(log, start, end)
      == Deleted((if log[t].index == end then log[..t + 1] else []) + log[if j == |log| then j else j + 1..],
                 if start' != end' then Some((start', end')) else None)
  {
  }

  lemma TruncateShape(log: Log, id: nat)
    ensures log == [] ==> Truncate(log, id) == Truncated(log, None)
    ensures log != [] && log[0].index < id ==> Truncate(log, id) == Truncated([], Some(log[0].index))
    ensures log != [] && log[0].index == id ==> Truncate(log, id) == Truncated(log[..1] + log[|log|..], Some(id))
    ensures log != [] && log[0].index > id ==>
      var j := Walk(log, 1, id);
      Truncate(log, id) ==
      if j == |log| then Truncated(log, None)
      else if log[j].index == id then Truncated(log[..j + 1] + log[|log|..], Some(id))
      else Truncated(log[..j - 1 + 1] + log[|log|..], Some(log[j - 1].index))
  {
  }

  lemma LoadShape(log: Log, e: Entry)
    ensures log == [] ==> LoadPut(log, e) == [e]
    ensures log != [] && e.index > log[0].index ==> LoadPut(log, e) == [e] + log
    ensures log != [] && e.index <= log[0].index ==>
      var j := Walk(log, 1, e.index);
      LoadPut(log, e)
      == log[..j - 1 + 1] + [e] + log[if j < |log| && log[j].index == e.index then j + 1 else j..]
  {
  }

  lemma PutAlone(log: Log, e: Entry)
    requires log == [] || e.index > log[0].index + 1
    ensures LivePut(log, e) == [e]
  {
  }

  lemma PutShape(log: Log, e: Entry, at: nat)
    requires log != [] && e.index <= log[0].index + 1
    requires var w := Walk(log, 0, e.index); at == if w == |log| then |log| - 1 else w
    ensures Has(log, e.index) <==> log[at].index == e.index
    ensures LivePut(log, e) == [e] + if log[at].index == e.index then log[at + 1..] else log[at..]
  {
  }

  lemma LinkAt(ns: seq<Node>, i: nat)
    requires Linked(ns) && i < |ns|
    ensures ns[i].next == Link(ns, i + 1)
  {
  }

  // putIndex's walk, which never leaves the list: it stops at the oldest node at the latest.
  method LastWalk(head: Node, ghost ns: seq<Node>, id: nat) returns (n: Node, ghost at: nat)
    requires Linked(ns) && ns != [] && head == ns[0]
    ensures at < |ns| && n == ns[at]
    ensures var w := Walk(Entries(ns), 0, id); at == if w == |ns| then |ns| - 1 else w
  {
    n, at := head, 0;
    while n.next != null && id < n.entry.index
      invariant at < |ns| && n == ns[at]
      invariant Walk(Entries(ns), 0, id) == Walk(Entries(ns), at, id)
      decreases |ns| - at
    {
      n, at := n.next, at + 1;
    }
  }
}
