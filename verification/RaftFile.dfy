/** The bytes of a raft log file: what is written for a record, and what loadFile makes of a buffer that may end
    in the middle of a record. Offsets and sizes are added in 64 bits, as loadFile adds them. */
module RaftFile {
  import opened Words
  import opened RaftIndex
  import opened RaftReplay

  const PUT: Byte := 1
  const DELSPAN: Byte := 2
  const DELSTATE: Byte := 3
  const CLEAR: Byte := 4
  const TRUNCATE: Byte := 5

  // A record with the compressed value that follows a PUT header. `extra` is the last field of a TRUNCATE
  // header, which the writer leaves uninitialised.
  datatype Stored = Stored(rec: Record, payload: seq<Byte>, extra: nat)

  predicate ValidStored(st: Stored)
  {
    && st.rec.range < Pow2(64) && st.extra < Pow2(64)
    && match st.rec
       case PutRec(_, index, size) => index < Pow2(64) && size < Pow2(64) && |st.payload| == size
       case DelSpanRec(_, start, end) => start < Pow2(64) && end < Pow2(64) && st.payload == []
       case TruncateRec(_, index) => index < Pow2(64) && st.payload == []
       case DelStateRec(_) => st.payload == []
       case ClearRec(_) => st.payload == []
  }

  predicate AllValid(sts: seq<Stored>)
  {
    forall st :: st in sts ==> ValidStored(st)
  }

  // RaftLogHeader is packed: one type byte and three 64-bit fields.
  function Bytes(st: Stored): (bs: seq<Byte>)
    requires ValidStored(st)
    ensures |bs| == RecLen(st.rec)
  {
    match st.rec
    case PutRec(r, index, size) => [PUT] + ToLE(r, 8) + ToLE(index, 8) + ToLE(size, 8) + st.payload
    case DelSpanRec(r, start, end) => [DELSPAN] + ToLE(r, 8) + ToLE(start, 8) + ToLE(end, 8)
    case TruncateRec(r, index) => [TRUNCATE] + ToLE(r, 8) + ToLE(index, 8) + ToLE(st.extra, 8)
    case DelStateRec(r) => [DELSTATE] + ToLE(r, 8)
    case ClearRec(r) => [CLEAR] + ToLE(r, 8)
  }

  function FileBytes(sts: seq<Stored>): seq<Byte>
    requires AllValid(sts)
  {
    if sts == [] then [] else Bytes(sts[0]) + FileBytes(sts[1..])
  }

  function Records(sts: seq<Stored>): (recs: seq<Record>)
    ensures |recs| == |sts|
  {
    if sts == [] then [] else [sts[0].rec] + Records(sts[1..])
  }

  // How many records fit whole into the first n bytes.
  function WholeRecords(sts: seq<Stored>, n: nat): (m: nat)
    ensures m <= |sts|
  {
    if sts == [] || RecLen(sts[0].rec) > n then 0
    else 1 + WholeRecords(sts[1..], n - RecLen(sts[0].rec))
  }

  // How many bytes those records take.
  function WholeBytes(sts: seq<Stored>, n: nat): (o: nat)
    ensures o <= n
  {
    if sts == [] || RecLen(sts[0].rec) > n then 0
    else RecLen(sts[0].rec) + WholeBytes(sts[1..], n - RecLen(sts[0].rec))
  }

  // ---------- loadFile ----------

  // A file as loadFile sees it: its content in a buffer of exactly that length, and the memory behind the buffer.
  datatype File = File(id: int, current: bool, buf: seq<Byte>, beyond: seq<Byte>)

  // A header that starts in the buffer is read in full, and a file length is far from the end of 64 bits.
  predicate Readable(f: File)
  {
    |f.beyond| >= HEADER && |f.buf| + HEADER < TWO_64
  }

  // The record a header at the front of `bs` describes; None for an unknown type.
  function Parse(bs: seq<Byte>): Option<Record>
    requires |bs| >= HEADER
  {
    var r, a, b := FromLE(bs[1..9]), FromLE(bs[9..17]), FromLE(bs[17..25]);
    if bs[0] == PUT then Some(PutRec(r, a, b))
    else if bs[0] == DELSPAN then Some(DelSpanRec(r, a, b))
    else if bs[0] == DELSTATE then Some(DelStateRec(r))
    else if bs[0] == CLEAR then Some(ClearRec(r))
    else if bs[0] == TRUNCATE then Some(TruncateRec(r, a))
    else None
  }

  // Where the record ends: for a PUT, a sum that wraps.
  function EndOf(rec: Record, off: nat): nat
  {
    if rec.PutRec? then (off + HEADER + rec.size) % TWO_64 else off + RecLen(rec)
  }

  datatype Step = Stop(ok: bool) | Go(rec: Record, next: nat)

  // One round of the loop. The header is read before any length is compared, so the read may run into the
  // memory behind the buffer; only the current file is checked for a missing end.
  function ReadAt(f: File, off: nat): Step
    requires Readable(f) && off < |f.buf|
  {
    match Parse(f.buf[off..] + f.beyond)
    case None => Stop(false)
    case Some(rec) => if f.current && EndOf(rec, off) > |f.buf| then Stop(true) else Go(rec, EndOf(rec, off))
  }

  datatype Loaded = Ended(store: Store, ok: bool) | Running(store: Store, off: nat)

  // The loop from offset `off`, followed for at most `rounds` rounds.
  function Load(s: Store, f: File, off: nat, rounds: nat): Loaded
    requires Readable(f)
    decreases rounds
  {
    if off >= |f.buf| then Ended(s, true)
    else if rounds == 0 then Running(s, off)
    else
      match ReadAt(f, off)
      case Stop(ok) => Ended(s, ok)
      case Go(rec, next) => Load(Replay(s, f.id, off, rec), f, next, rounds - 1)
  }

  // The records those rounds replay.
  function Replayed(f: File, off: nat, rounds: nat): (recs: seq<Record>)
    requires Readable(f)
    decreases rounds
  {
    if off >= |f.buf| || rounds == 0 then []
    else
      match ReadAt(f, off)
      case Stop(_) => []
      case Go(rec, next) => [rec] + Replayed(f, next, rounds - 1)
  }

  // ---------- one record ----------

  lemma Slices(t: Byte, a: seq<Byte>, b: seq<Byte>, c: seq<Byte>, tail: seq<Byte>)
    requires |a| == 8 && |b| == 8 && |c| == 8
    ensures var bs := [t] + a + b + c + tail; bs[0] == t && bs[1..9] == a && bs[9..17] == b && bs[17..25] == c
  {
  }

  lemma HeaderFields(t: Byte, r: nat, a: nat, b: nat, tail: seq<Byte>)
    requires r < Pow2(64) && a < Pow2(64) && b < Pow2(64)
    ensures var bs := [t] + ToLE(r, 8) + ToLE(a, 8) + ToLE(b, 8) + tail;
            bs[0] == t && FromLE(bs[1..9]) == r && FromLE(bs[9..17]) == a && FromLE(bs[17..25]) == b
  {
    hide ToLE, FromLE, Pow2;
    Slices(t, ToLE(r, 8), ToLE(a, 8), ToLE(b, 8), tail);
    LERoundTrip(r, 8);
    LERoundTrip(a, 8);
    LERoundTrip(b, 8);
  }

  lemma ShortFields(t: Byte, r: nat, tail: seq<Byte>)
    requires r < Pow2(64)
    ensures var bs := [t] + ToLE(r, 8) + tail; bs[0] == t && FromLE(bs[1..9]) == r
  {
    var bs := [t] + ToLE(r, 8) + tail;
    assert bs[1..9] == ToLE(r, 8);
    LERoundTrip(r, 8);
  }

  // A whole record is parsed as itself, whatever follows.
  lemma ParseWhole(st: Stored, tail: seq<Byte>)
    requires ValidStored(st) && |Bytes(st) + tail| >= HEADER
    ensures Parse(Bytes(st) + tail) == Some(st.rec)
  {
    hide ToLE, FromLE, Pow2;
    match st.rec
    case PutRec(r, index, size) =>
      assert Bytes(st) + tail == [PUT] + ToLE(r, 8) + ToLE(index, 8) + ToLE(size, 8) + (st.payload + tail);
      HeaderFields(PUT, r, index, size, st.payload + tail);
    case DelSpanRec(r, start, end) => HeaderFields(DELSPAN, r, start, end, tail);
    case TruncateRec(r, index) => HeaderFields(TRUNCATE, r, index, st.extra, tail);
    case DelStateRec(r) => ShortFields(DELSTATE, r, tail);
    case ClearRec(r) => ShortFields(CLEAR, r, tail);
  }

  // The size field of a header that starts at `off`, as far as it lies behind the buffer taken from there.
  function SizeRead(f: File, off: nat): nat
    requires Readable(f) && off < |f.buf|
  {
    FromLE((f.buf[off..] + f.beyond)[17..25])
  }

  // The record at the end of the buffer is seen to be torn: it is no PUT, or its header is whole, or the end
  // computed from the size that happens to be read, modulo 2^64, still lies behind the buffer.
  predicate SeenAsTorn(f: File, off: nat, rec: Record)
    requires Readable(f) && off < |f.buf|
  {
    !rec.PutRec? || |f.buf| - off >= HEADER || (off + HEADER + SizeRead(f, off)) % TWO_64 > |f.buf|
  }

  lemma ParseCut(st: Stored, n: nat, beyond: seq<Byte>)
    requires ValidStored(st) && 0 < n < RecLen(st.rec) && |beyond| >= HEADER
    ensures var bs := Bytes(st)[..n] + beyond;
            var r := Parse(bs);
            && r.Some? && r.value.PutRec? == st.rec.PutRec?
            && (st.rec.PutRec? && n >= HEADER ==> r.value == st.rec)
            && (st.rec.PutRec? ==> r.value.size == FromLE(bs[17..25]))
            && (!st.rec.PutRec? ==> RecLen(r.value) == RecLen(st.rec))
  {
    hide ToLE, FromLE, Pow2;
    var bs := Bytes(st);
    assert (bs[..n] + beyond)[0] == bs[0];
    if st.rec.PutRec? && n >= HEADER {
      var head := [PUT] + ToLE(st.rec.range, 8) + ToLE(st.rec.index, 8) + ToLE(st.rec.size, 8);
      assert bs[..n] + beyond == head + (st.payload[..n - HEADER] + beyond);
      HeaderFields(PUT, st.rec.range, st.rec.index, st.rec.size, st.payload[..n - HEADER] + beyond);
    }
  }

  /** A buffer of the current file that ends inside a record: loading stops there, without a failure, if and only
      if the record is seen to be torn. Otherwise a record that was never written is replayed. */
  lemma ParseTorn(f: File, off: nat, st: Stored)
    requires Readable(f) && f.current && ValidStored(st) && off + RecLen(st.rec) < TWO_64
    requires off < |f.buf| < off + RecLen(st.rec) && f.buf[off..] <= Bytes(st)
    ensures SeenAsTorn(f, off, st.rec) <==> ReadAt(f, off) == Stop(true)
    ensures !SeenAsTorn(f, off, st.rec) ==> ReadAt(f, off).Go? && ReadAt(f, off).next <= |f.buf|
  {
    hide Bytes, Parse, FromLE, Pow2;
    var n := |f.buf| - off;
    assert f.buf[off..] == Bytes(st)[..n];
    ParseCut(st, n, f.beyond);
  }

  // ---------- whole files and torn tails ----------

  // Loading sees the end of the whole records as the end of the file.
  predicate TailSeen(f: File, off: nat, sts: seq<Stored>)
    requires Readable(f) && off <= |f.buf|
  {
    var n := |f.buf| - off;
    var m, o := WholeRecords(sts, n), off + WholeBytes(sts, n);
    o == |f.buf| || (m < |sts| && SeenAsTorn(f, o, sts[m].rec))
  }

  ghost predicate LoadsWhole(s: Store, f: File, off: nat, sts: seq<Stored>, rounds: nat)
    requires Readable(f) && off <= |f.buf|
  {
    var recs := Records(sts)[..WholeRecords(sts, |f.buf| - off)];
    && (Replayed(f, off, rounds) == recs <==> TailSeen(f, off, sts))
    && (TailSeen(f, off, sts) ==> Load(s, f, off, rounds) == Ended(ReplayAll(s, f.id, off, recs), true))
  }

  lemma ReadWhole(f: File, off: nat, st: Stored)
    requires Readable(f) && ValidStored(st) && off + RecLen(st.rec) <= |f.buf| && Bytes(st) <= f.buf[off..]
    ensures ReadAt(f, off) == Go(st.rec, off + RecLen(st.rec))
  {
    hide Parse, Bytes, Pow2;
    var rest := f.buf[off..][RecLen(st.rec)..];
    assert f.buf[off..] + f.beyond == Bytes(st) + (rest + f.beyond);
    ParseWhole(st, rest + f.beyond);
  }

  // One whole record in front of a tail that loads as it should.
  lemma OneMore(s: Store, f: File, off: nat, sts: seq<Stored>, rounds: nat)
    requires Readable(f) && sts != [] && rounds > 0 && off + RecLen(sts[0].rec) <= |f.buf|
    requires ReadAt(f, off) == Go(sts[0].rec, off + RecLen(sts[0].rec))
    requires LoadsWhole(Replay(s, f.id, off, sts[0].rec), f, off + RecLen(sts[0].rec), sts[1..], rounds - 1)
    ensures LoadsWhole(s, f, off, sts, rounds)
  {
    hide Replay, ReadAt, TailSeen, RecLen, Records, WholeRecords;
    var next, more := off + RecLen(sts[0].rec), sts[1..];
    var recs := Records(more)[..WholeRecords(more, |f.buf| - next)];
    WholeStep(f, off, sts);
    var rest := Replayed(f, next, rounds - 1);
    assert Replayed(f, off, rounds) == [sts[0].rec] + rest;
    assert ([sts[0].rec] + rest)[1..] == rest && ([sts[0].rec] + recs)[1..] == recs;
  }

  lemma WholeStep(f: File, off: nat, sts: seq<Stored>)
    requires Readable(f) && sts != [] && off + RecLen(sts[0].rec) <= |f.buf|
    ensures var next, more := off + RecLen(sts[0].rec), sts[1..];
            && Records(sts)[..WholeRecords(sts, |f.buf| - off)]
               == [sts[0].rec] + Records(more)[..WholeRecords(more, |f.buf| - next)]
            && (TailSeen(f, off, sts) <==> TailSeen(f, next, more))
  {
    hide SeenAsTorn, RecLen;
  }

  lemma {:induction false} LoadPrefix(s: Store, f: File, off: nat, sts: seq<Stored>, rounds: nat)
    requires Readable(f) && AllValid(sts) && off <= |f.buf| && off + |FileBytes(sts)| < TWO_64
    requires f.buf[off..] <= FileBytes(sts) && (f.current || f.buf[off..] == FileBytes(sts))
    requires rounds >= |f.buf| - off
    ensures LoadsWhole(s, f, off, sts, rounds)
    decreases |sts|
  {
    hide Replay, Bytes, ValidStored, ReadAt, SeenAsTorn;
    if off == |f.buf| {
    } else {
      assert sts[0] in sts;
      var len, more := RecLen(sts[0].rec), sts[1..];
      if off + len <= |f.buf| {
        assert f.buf[off..][..len] == Bytes(sts[0]);
        assert f.buf[off..][len..] == f.buf[off + len..];
        ReadWhole(f, off, sts[0]);
        LoadPrefix(Replay(s, f.id, off, sts[0].rec), f, off + len, more, rounds - 1);
        OneMore(s, f, off, sts, rounds);
      } else {
        ParseTorn(f, off, sts[0]);
      }
    }
  }

  /** For every well-formed current file, every byte prefix of it and every content of the memory behind the
      buffer: loading the prefix replays exactly the records that are whole in it, and succeeds, if and only if
      the record it ends in, if any, is seen to be torn. */
  lemma TornTail(s: Store, id: int, sts: seq<Stored>, n: nat, beyond: seq<Byte>)
    requires AllValid(sts) && |beyond| >= HEADER && n <= |FileBytes(sts)| && |FileBytes(sts)| + HEADER < TWO_64
    ensures var f := File(id, true, FileBytes(sts)[..n], beyond);
            var recs := Records(sts)[..WholeRecords(sts, n)];
            && (Replayed(f, 0, n) == recs <==> TailSeen(f, 0, sts))
            && (TailSeen(f, 0, sts) ==> Load(s, f, 0, n) == Ended(ReplayAll(s, id, 0, recs), true))
  {
    var f := File(id, true, FileBytes(sts)[..n], beyond);
    assert f.buf[0..] == f.buf;
    LoadPrefix(s, f, 0, sts, n);
  }

  // ---------- appending after a recovery ----------

  lemma {:induction false} WholePrefix(sts: seq<Stored>, n: nat)
    requires AllValid(sts) && n <= |FileBytes(sts)| && WholeBytes(sts, n) == n
    ensures FileBytes(sts)[..n] == FileBytes(sts[..WholeRecords(sts, n)])
    ensures Records(sts[..WholeRecords(sts, n)]) == Records(sts)[..WholeRecords(sts, n)]
    decreases |sts|
  {
    hide Bytes, ValidStored;
    var m := WholeRecords(sts, n);
    if m == 0 {
      assert sts[..m] == [];
    } else {
      assert sts[0] in sts;
      var len := RecLen(sts[0].rec);
      WholePrefix(sts[1..], n - len);
      assert sts[..m][1..] == sts[1..][..m - 1];
      assert FileBytes(sts)[..n] == Bytes(sts[0]) + FileBytes(sts[1..])[..n - len];
    }
  }

  lemma Associate<T>(a: seq<T>, b: seq<T>, c: seq<T>)
    ensures (a + b) + c == a + (b + c)
  {
  }

  lemma {:induction false} FileAppend(a: seq<Stored>, b: seq<Stored>)
    requires AllValid(a) && AllValid(b)
    ensures AllValid(a + b) && FileBytes(a + b) == FileBytes(a) + FileBytes(b)
      && Records(a + b) == Records(a) + Records(b)
  {
    hide Bytes, ValidStored;
    if a == [] {
      assert a + b == b;
    } else {
      assert a[0] in a;
      FileAppend(a[1..], b);
      assert (a + b)[1..] == a[1..] + b;
      Associate(Bytes(a[0]), FileBytes(a[1..]), FileBytes(b));
      Associate([a[0].rec], Records(a[1..]), Records(b));
    }
  }

  lemma {:induction false} AllWhole(sts: seq<Stored>)
    requires AllValid(sts)
    ensures WholeRecords(sts, |FileBytes(sts)|) == |sts| && WholeBytes(sts, |FileBytes(sts)|) == |FileBytes(sts)|
  {
    hide Bytes, ValidStored;
    if sts != [] {
      assert sts[0] in sts;
      AllWhole(sts[1..]);
    }
  }

  // A whole file loads as its records, current or not.
  lemma WholeFile(s: Store, f: File, sts: seq<Stored>)
    requires Readable(f) && AllValid(sts) && f.buf == FileBytes(sts)
    ensures Load(s, f, 0, |f.buf|) == Ended(ReplayAll(s, f.id, 0, Records(sts)), true)
  {
    assert f.buf[0..] == f.buf;
    LoadPrefix(s, f, 0, sts, |f.buf|);
    AllWhole(sts);
    assert Records(sts)[..|sts|] == Records(sts);
  }

  /** loadFile leaves the torn bytes in the file and later records are appended behind them. When the file was cut
      between two records, the next load replays the whole records and then the appended ones. */
  lemma AppendAfterRecovery(s: Store, f: File, sts: seq<Stored>, n: nat, more: seq<Stored>)
    requires Readable(f) && AllValid(sts) && AllValid(more) && n <= |FileBytes(sts)| && WholeBytes(sts, n) == n
    requires f.buf == FileBytes(sts)[..n] + FileBytes(more)
    ensures Load(s, f, 0, |f.buf|)
         == Ended(ReplayAll(s, f.id, 0, Records(sts)[..WholeRecords(sts, n)] + Records(more)), true)
  {
    hide WholeRecords, WholeBytes, Records, FileBytes, ValidStored, Load, ReplayAll;
    WholePrefix(sts, n);
    FileAppend(sts[..WholeRecords(sts, n)], more);
    WholeFile(s, f, sts[..WholeRecords(sts, n)] + more);
  }

  // ---------- where recovery fails, concretely ----------

  lemma SmallLE(v: Byte)
    ensures ToLE(v, 8) == [v, 0, 0, 0, 0, 0, 0, 0]
  {
    assert ToLE(0, 3) == [0, 0, 0];
    assert ToLE(0, 5) == [0, 0] + ToLE(0, 3);
    assert ToLE(0, 7) == [0, 0] + ToLE(0, 5);
    assert ToLE(v, 8) == [v] + ToLE(0, 7);
  }

  const ZEROS: seq<Byte> := [0, 0, 0, 0, 0, 0, 0]

  function Cleared(r: Byte): seq<Byte>
  {
    [CLEAR, r, 0, 0, 0, 0, 0, 0, 0]
  }

  lemma ClearBytes(r: Byte)
    ensures ValidStored(Stored(ClearRec(r), [], 0)) && Bytes(Stored(ClearRec(r), [], 0)) == Cleared(r)
  {
    Pow2Values();
    SmallLE(r);
  }

  const ODD_SIZE: nat := TWO_64 - 29

  // A CLEAR record, then ten bytes of a PUT whose size field lies in the memory behind the buffer.
  function WrappingFile(id: int): File
  {
    File(id, true, Cleared(1) + [PUT, 2, 0, 0, 0, 0, 0, 0, 0, 5], ZEROS + ToLE(ODD_SIZE, 8) + [0] + Cleared(0))
  }

  lemma PutFront(v: Byte, w: Byte, size: nat, tail: seq<Byte>)
    requires size < TWO_64
    ensures |[PUT, v] + ZEROS + [w] + ZEROS + ToLE(size, 8) + tail| >= HEADER
    ensures Parse([PUT, v] + ZEROS + [w] + ZEROS + ToLE(size, 8) + tail) == Some(PutRec(v, w, size))
  {
    hide ToLE, FromLE, Pow2;
    Pow2Values();
    SmallLE(v);
    SmallLE(w);
    assert [PUT, v] + ZEROS + [w] + ZEROS == [PUT] + ToLE(v, 8) + ToLE(w, 8);
    HeaderFields(PUT, v, w, size, tail);
  }

  lemma ClearAt(f: File, off: nat, r: Byte)
    requires Readable(f) && off + SHORT_HEADER <= |f.buf| && f.buf[off..off + SHORT_HEADER] == Cleared(r)
    ensures ReadAt(f, off) == Go(ClearRec(r), off + SHORT_HEADER)
  {
    hide Bytes, ValidStored, ReadAt;
    ClearBytes(r);
    ReadWhole(f, off, Stored(ClearRec(r), [], 0));
  }

  lemma WrappedReads(id: int)
    ensures var f := WrappingFile(id);
            && Readable(f) && |f.buf| == 19
            && ReadAt(f, 0) == Go(ClearRec(1), 9)
            && ReadAt(f, 9) == Go(PutRec(2, 5, ODD_SIZE), 5)
            && ReadAt(f, 5) == Stop(false)
  {
    hide ToLE, FromLE, Parse, ReadAt;
    var f := WrappingFile(id);
    assert f.buf[0..SHORT_HEADER] == Cleared(1);
    ClearAt(f, 0, 1);
    WrappedPut(id);
    assert f.buf[5] == 0;
    ZeroAt(f, 5);
  }

  lemma WrappedPut(id: int)
    ensures ReadAt(WrappingFile(id), 9) == Go(PutRec(2, 5, ODD_SIZE), 5)
  {
    hide ToLE, FromLE, Parse;
    var f, tail := WrappingFile(id), [0] + Cleared(0);
    assert f.buf[9..] == [PUT, 2] + ZEROS + [5];
    assert f.buf[9..] + f.beyond == [PUT, 2] + ZEROS + [5] + ZEROS + ToLE(ODD_SIZE, 8) + tail;
    PutFront(2, 5, ODD_SIZE, tail);
  }

  // A zero byte is no record type.
  lemma ZeroAt(f: File, off: nat)
    requires Readable(f) && off < |f.buf| && f.buf[off] == 0
    ensures ReadAt(f, off) == Stop(false)
  {
    hide FromLE;
    assert (f.buf[off..] + f.beyond)[0] == 0;
  }

  /** The first 19 bytes of a file with a CLEAR and a PUT, and a memory behind the buffer, for which the torn PUT is
      not seen: its end wraps to offset 5, an entry that was never written enters the index, and loading fails on
      the byte found there. The whole records alone leave the index empty. */
  lemma WrappedTail(id: int)
    ensures var f := WrappingFile(id);
            var sts := [Stored(ClearRec(1), [], 0), Stored(PutRec(2, 5, 1), [0], 0)];
            && Readable(f) && AllValid(sts) && f.buf <= FileBytes(sts)
            && ReplayAll(EMPTY, id, 0, Records(sts)[..WholeRecords(sts, 19)]) == EMPTY
            && Load(EMPTY, f, 0, 19) == Ended(Store(map[2 := [Entry(5, id, 34, ODD_SIZE)]], map[]), false)
  {
    hide ReadAt, ToLE;
    var f := WrappingFile(id);
    WrappedReads(id);
    TwoStored();
    var s := Replay(EMPTY, id, 0, ClearRec(1));
    var t := Replay(s, id, 9, PutRec(2, 5, ODD_SIZE));
    assert s.ranges == map[] && s.state == map[];
    assert LogOf(s, 2) == [] && t.ranges == map[2 := [Entry(5, id, 34, ODD_SIZE)] + []];
    assert [Entry(5, id, 34, ODD_SIZE)] + [] == [Entry(5, id, 34, ODD_SIZE)];
    assert Load(EMPTY, f, 0, 19) == Load(s, f, 9, 18) == Load(t, f, 5, 17) == Ended(t, false);
  }

  lemma TwoStored()
    ensures var sts := [Stored(ClearRec(1), [], 0), Stored(PutRec(2, 5, 1), [0], 0)];
            && AllValid(sts) && Cleared(1) + [PUT, 2, 0, 0, 0, 0, 0, 0, 0, 5] <= FileBytes(sts)
            && Records(sts)[..WholeRecords(sts, 19)] == [ClearRec(1)]
  {
    hide ToLE, Pow2;
    var sts := [Stored(ClearRec(1), [], 0), Stored(PutRec(2, 5, 1), [0], 0)];
    Pow2Values();
    ClearBytes(1);
    SmallLE(2);
    SmallLE(5);
    assert FileBytes(sts) == Bytes(sts[0]) + (Bytes(sts[1]) + []);
    assert [PUT, 2, 0, 0, 0, 0, 0, 0, 0, 5] <= Bytes(sts[1]);
    assert WholeRecords(sts[1..], 10) == 0;
  }

  /** A torn CLEAR of one byte, and a CLEAR of range 3 appended behind it: the next load clears range 772 instead
      and fails, so a cut inside a record loses what is appended after the recovery. */
  lemma AppendAfterTorn(s: Store, id: int, beyond: seq<Byte>)
    requires |beyond| >= HEADER
    ensures var one, three := Stored(ClearRec(1), [], 0), Stored(ClearRec(3), [], 0);
            && ValidStored(one) && ValidStored(three)
            && var f := File(id, true, Bytes(one) + Bytes(one)[..1] + Bytes(three), beyond);
            && Replayed(f, 0, |f.buf|) == [ClearRec(1), ClearRec(772)]
            && Load(s, f, 0, |f.buf|) == Ended(ReplayAll(s, id, 0, [ClearRec(1), ClearRec(772)]), false)
  {
    hide ReadAt, Bytes, ValidStored, Replay;
    ClearBytes(1);
    ClearBytes(3);
    var f := File(id, true, Cleared(1) + [CLEAR] + Cleared(3), beyond);
    assert Cleared(1)[..1] == [CLEAR];
    MixedReads(f);
    var t := Replay(s, id, 0, ClearRec(1));
    var u := Replay(t, id, 9, ClearRec(772));
    assert Load(s, f, 0, 19) == Load(t, f, 9, 18) == Load(u, f, 18, 17) == Ended(u, false);
    assert ReplayAll(s, id, 0, [ClearRec(1), ClearRec(772)]) == ReplayAll(t, id, 9, [ClearRec(772)]) == u;
    assert Replayed(f, 18, 17) == [] && Replayed(f, 9, 18) == [ClearRec(772)];
  }

  lemma MixedReads(f: File)
    requires f.current && |f.beyond| >= HEADER && f.buf == Cleared(1) + [CLEAR] + Cleared(3)
    ensures ReadAt(f, 0) == Go(ClearRec(1), 9)
    ensures ReadAt(f, 9) == Go(ClearRec(772), 18)
    ensures ReadAt(f, 18) == Stop(false)
  {
    hide FromLE;
    assert f.buf[0..SHORT_HEADER] == Cleared(1);
    ClearAt(f, 0, 1);
    assert f.buf[9..] == [CLEAR] + Cleared(3);
    var bs := f.buf[9..] + f.beyond;
    var field: seq<Byte> := [CLEAR, 3] + [0, 0, 0, 0, 0, 0];
    assert [CLEAR] + Cleared(3) == [CLEAR] + field + [0];
    assert bs == [CLEAR] + field + ([0] + f.beyond);
    assert bs[0] == CLEAR && bs[1..9] == field;
    FrontLE();
    ZeroAt(f, 18);
  }

  lemma FrontLE()
    ensures FromLE([CLEAR, 3] + [0, 0, 0, 0, 0, 0]) == 772
  {
    hide FromLE;
    var zeros: seq<Byte> := [0, 0, 0, 0, 0, 0];
    FrontByte(CLEAR, [3] + zeros);
    FrontByte(3, zeros);
    FromZeros(zeros);
    assert [CLEAR, 3] + zeros == [CLEAR] + ([3] + zeros);
  }

  lemma FrontByte(b: Byte, bs: seq<Byte>)
    ensures FromLE([b] + bs) == b + 256 * FromLE(bs)
  {
    assert ([b] + bs)[1..] == bs;
  }

  lemma FromZeros(bs: seq<Byte>)
    requires forall k :: 0 <= k < |bs| ==> bs[k] == 0
    ensures FromLE(bs) == 0
  {
    if bs != [] {
      FromZeros(bs[1..]);
    }
  }
}
