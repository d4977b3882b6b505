/** The bytes of a snapshot package: a package holds several batches, each with the package id. */
module SnapshotWire {
  import opened Words

  const SNAPSHOT_VERSION := 2

  // One batch: rows of the table, or delete and tag information.
  datatype Batch = Batch(packageId: nat, tableId: nat, tableVersion: nat, rowNum: nat, rows: seq<Byte>, dels: seq<Byte>)

  // What fits the fields of the format.
  predicate ValidBatch(b: Batch)
  {
    && 0 < b.packageId < Pow2(32) && b.tableId < Pow2(64) && b.tableVersion < Pow2(32) && b.rowNum < Pow2(32)
    && |b.rows| + |b.dels| + 32 < Pow2(32)
  }

  predicate ValidBatches(bs: seq<Batch>)
  {
    |bs| < Pow2(32) && forall i :: 0 <= i < |bs| ==> ValidBatch(bs[i])
  }

  // ---------- reading fields ----------

  function TakeNum(data: seq<Byte>, n: nat): Option<(nat, seq<Byte>)>
  {
    if |data| < n then None else Some((FromLE(data[..n]), data[n..]))
  }

  function TakeBytes(data: seq<Byte>, n: nat): Option<(seq<Byte>, seq<Byte>)>
  {
    if |data| < n then None else Some((data[..n], data[n..]))
  }

  // A length and as many bytes.
  function TakeBlob(data: seq<Byte>): Option<(seq<Byte>, seq<Byte>)>
  {
    match TakeNum(data, 4)
    case None => None
    case Some((len, rest)) => TakeBytes(rest, len)
  }

  lemma NumBack(v: nat, n: nat, tail: seq<Byte>)
    requires v < Pow2(8 * n)
    ensures TakeNum(ToLE(v, n) + tail, n) == Some((v, tail))
  {
    LERoundTrip(v, n);
    var data := ToLE(v, n) + tail;
    assert data[..n] == ToLE(v, n) && data[n..] == tail;
  }

  function Blob(bytes: seq<Byte>): seq<Byte> { ToLE(|bytes|, 4) + bytes }

  lemma BlobBack(bytes: seq<Byte>, tail: seq<Byte>)
    requires |bytes| < Pow2(32)
    ensures TakeBlob(Blob(bytes) + tail) == Some((bytes, tail))
  {
    NumBack(|bytes|, 4, bytes + tail);
    assert Blob(bytes) + tail == ToLE(|bytes|, 4) + (bytes + tail);
    assert (bytes + tail)[..|bytes|] == bytes && (bytes + tail)[|bytes|..] == tail;
  }

  // ---------- one batch ----------

  // The fields in front, the number of the format and what is behind it.
  function Fields(b: Batch, format: nat, tail: seq<Byte>): seq<Byte>
  {
    ToLE(b.packageId, 4) + (ToLE(b.tableId, 8) + (ToLE(b.tableVersion, 4) + (ToLE(b.rowNum, 4)
      + (ToLE(format, 4) + tail))))
  }

  function Body(b: Batch): seq<Byte> { Blob(b.rows) + (Blob(b.dels) + []) }

  function Packed(b: Batch): seq<Byte> { Fields(b, SNAPSHOT_VERSION, Body(b)) }

  // The part behind the snapshot version.
  function UnpackBody(b: Batch, data: seq<Byte>): Option<Batch>
  {
    match TakeBlob(data)
    case None => None
    case Some((rows, rest)) =>
      match TakeBlob(rest)
      case None => None
      case Some((dels, _)) => Some(b.(rows := rows, dels := dels))
  }

  // UnpackageData; formats 1 and 2 of a batch agree, format 0 has rows only.
  function Unpack(data: seq<Byte>): Option<Batch>
  {
    match TakeNum(data, 4)
    case None => None
    case Some((id, d1)) =>
      match TakeNum(d1, 8)
      case None => None
      case Some((table, d2)) =>
        match TakeNum(d2, 4)
        case None => None
        case Some((version, d3)) =>
          match TakeNum(d3, 4)
          case None => None
          case Some((rowNum, d4)) =>
            match TakeNum(d4, 4)
            case None => None
            case Some((format, d5)) =>
              if format == SNAPSHOT_VERSION || format == 1
              then UnpackBody(Batch(id, table, version, rowNum, [], []), d5)
              else if format == 0 then Some(Batch(id, table, version, rowNum, d4, []))
              else None
  }

  lemma PackLength(b: Batch)
    ensures |Packed(b)| == 32 + |b.rows| + |b.dels|
  {
  }

  /** What a batch unpacks to, by the number of its format: formats 1 and 2 carry rows and deletes, format 0 carries
      rows from the place of the number on, and no other format is read. */
  lemma UnpackFormat(b: Batch, format: nat, tail: seq<Byte>)
    requires ValidBatch(b) && format < Pow2(32)
    ensures format == 0 ==> Unpack(Fields(b, format, tail)) == Some(b.(rows := ToLE(0, 4) + tail, dels := []))
    ensures 1 <= format <= 2 && tail == Body(b) ==> Unpack(Fields(b, format, tail)) == Some(b)
    ensures format > 2 ==> Unpack(Fields(b, format, tail)) == None
  {
    hide TakeNum, TakeBlob, Blob, ToLE, Pow2;
    Pow2Values();
    var d5 := ToLE(format, 4) + tail;
    var d4 := ToLE(b.rowNum, 4) + d5;
    var d3 := ToLE(b.tableVersion, 4) + d4;
    var d2 := ToLE(b.tableId, 8) + d3;
    NumBack(b.packageId, 4, d2);
    NumBack(b.tableId, 8, d3);
    NumBack(b.tableVersion, 4, d4);
    NumBack(b.rowNum, 4, d5);
    NumBack(format, 4, tail);
    BlobBack(b.rows, Blob(b.dels) + []);
    BlobBack(b.dels, []);
  }

  lemma UnpackPacked(b: Batch)
    requires ValidBatch(b)
    ensures Unpack(Packed(b)) == Some(b)
  {
    hide Unpack, Fields, Body, Pow2;
    Pow2Values();
    UnpackFormat(b, SNAPSHOT_VERSION, Body(b));
  }

  // ---------- a package ----------

  function Blobs(bs: seq<Batch>): seq<Byte>
  {
    if bs == [] then [] else Blob(Packed(bs[0])) + Blobs(bs[1..])
  }

  // Package; the first 20 bytes are reserved and hold whatever the buffer held.
  function Package(bs: seq<Batch>, reserved: seq<Byte>): seq<Byte>
    requires |reserved| == 20
  {
    if bs == [] then [] else reserved + (ToLE(SNAPSHOT_VERSION, 4) + (ToLE(|bs|, 4) + Blobs(bs)))
  }

  function TakeBlobs(data: seq<Byte>, n: nat): Option<seq<seq<Byte>>>
  {
    if n == 0 then Some([])
    else
      match TakeBlob(data)
      case None => None
      case Some((first, rest)) => Join([first], TakeBlobs(rest, n - 1))
  }

  // Parser: the batches of a package, not yet unpacked. A package of an unknown format has none.
  function Parse(data: seq<Byte>): Option<seq<seq<Byte>>>
  {
    if |data| < 20 then None
    else
      match TakeNum(data[20..], 4)
      case None => None
      case Some((format, rest)) =>
        if format == 1 then Some([data])
        else if format == 2 then (match TakeNum(rest, 4) case None => None case Some((n, blobs)) => TakeBlobs(blobs, n))
        else Some([])
  }

  /** Packages of older formats: one of format 1 is its only batch. One of format 0 is taken for a package without
      batches, although its batch could be unpacked. */
  lemma OldPackages(b: Batch, tail: seq<Byte>)
    requires ValidBatch(b)
    ensures var data := Fields(b, 1, Body(b)); Parse(data) == Some([data]) && Unpack(data) == Some(b)
    ensures var data := Fields(b, 0, tail); Parse(data) == Some([]) && Unpack(data).Some?
  {
    hide Unpack, TakeNum, TakeBlobs, Body, Pow2;
    Pow2Values();
    UnpackFormat(b, 1, Body(b));
    UnpackFormat(b, 0, tail);
    NumBack(1, 4, Body(b));
    NumBack(0, 4, tail);
    FormatAt(b, 1, Body(b));
    FormatAt(b, 0, tail);
  }

  lemma FormatAt(b: Batch, format: nat, tail: seq<Byte>)
    ensures |Fields(b, format, tail)| >= 20 && Fields(b, format, tail)[20..] == ToLE(format, 4) + tail
  {
    hide ToLE;
    var a, c, d, e := ToLE(b.packageId, 4), ToLE(b.tableId, 8), ToLE(b.tableVersion, 4), ToLE(b.rowNum, 4);
    assert Fields(b, format, tail) == (a + c + d + e) + (ToLE(format, 4) + tail);
  }

  function PackedAll(bs: seq<Batch>): (r: seq<seq<Byte>>)
    ensures |r| == |bs| && forall i :: 0 <= i < |bs| ==> r[i] == Packed(bs[i])
  {
    if bs == [] then [] else [Packed(bs[0])] + PackedAll(bs[1..])
  }

  lemma {:induction false} BlobsBack(bs: seq<Batch>)
    requires forall i :: 0 <= i < |bs| ==> ValidBatch(bs[i])
    ensures TakeBlobs(Blobs(bs), |bs|) == Some(PackedAll(bs))
  {
    hide TakeBlob, Blob, Packed;
    if bs != [] {
      PackLength(bs[0]);
      BlobBack(Packed(bs[0]), Blobs(bs[1..]));
      BlobsBack(bs[1..]);
    }
  }

  /** A package that was built is parsed into its batches, whatever the reserved bytes hold. */
  lemma PackageBack(bs: seq<Batch>, reserved: seq<Byte>)
    requires bs != [] && ValidBatches(bs) && |reserved| == 20
    ensures Parse(Package(bs, reserved)) == Some(PackedAll(bs)) && |Package(bs, reserved)| > 20
    ensures forall i :: 0 <= i < |bs| ==> Unpack(PackedAll(bs)[i]) == Some(bs[i])
  {
    hide TakeNum, TakeBlobs, Packed, Unpack, PackedAll, Blobs, ToLE, Pow2;
    Pow2Values();
    var rest := ToLE(|bs|, 4) + Blobs(bs);
    assert Package(bs, reserved)[20..] == ToLE(SNAPSHOT_VERSION, 4) + rest;
    NumBack(SNAPSHOT_VERSION, 4, rest);
    NumBack(|bs|, 4, Blobs(bs));
    BlobsBack(bs);
    forall i | 0 <= i < |bs|
      ensures Unpack(PackedAll(bs)[i]) == Some(bs[i])
    {
      UnpackPacked(bs[i]);
    }
  }
}
