/** Gorilla timestamp compression, after section 4.1.1 of the VLDB 2015 paper: a 64-bit start, a 32-bit first
    delta, then delta-of-deltas in five bit classes. The decoder keeps its running delta in an int32. */
module Gorilla {
  import opened Words
  import opened BitStream

  predicate IsInt32(x: int) { -0x8000_0000 <= x < 0x8000_0000 }

  predicate Column(data: seq<int>) { forall k :: 0 <= k < |data| ==> Int64(data[k]) }

  // ---------- one delta-of-delta ----------

  function EncodeDod(dod: int): Bits
  {
    if dod == 0 then [false]
    else if -63 <= dod <= 64 then NatBits(2, 2) + NatBits(7, dod + 63)
    else if -255 <= dod <= 256 then NatBits(3, 6) + NatBits(9, dod + 255)
    else if -2047 <= dod <= 2048 then NatBits(4, 14) + NatBits(12, dod + 2047)
    else NatBits(4, 15) + NatBits(32, dod % 0x1_0000_0000)
  }

  // Counts leading ones, at most four, and drops the terminating zero if there was one.
  function ReadTag(bits: Bits, seen: nat): Option<(nat, Bits)>
    requires seen <= 4
    decreases 4 - seen
  {
    if seen == 4 then Some((4, bits))
    else if bits == [] then None
    else if !bits[0] then Some((seen, bits[1..]))
    else ReadTag(bits[1..], seen + 1)
  }

  function ReadNat(bits: Bits, n: nat): Option<(nat, Bits)>
  {
    if |bits| < n then None else Some((BitsNat(bits[..n]), bits[n..]))
  }

  function DecodeDod(bits: Bits): Option<(int, Bits)>
  {
    match ReadTag(bits, 0)
    case None => None
    case Some((tag, rest)) =>
      if tag == 0 then Some((0, rest))
      else
        var (width, bias) :=
          if tag == 1 then (7, 63) else if tag == 2 then (9, 255) else if tag == 3 then (12, 2047) else (32, 0);
        match ReadNat(rest, width)
        case None => None
        case Some((v, rest')) => Some((v - bias, rest'))
  }

  lemma TagBits()
    ensures NatBits(2, 2) == [true, false] && NatBits(3, 6) == [true, true, false]
    ensures NatBits(4, 14) == [true, true, true, false] && NatBits(4, 15) == [true, true, true, true]
  {
    assert NatBits(1, 1) == [true] && NatBits(2, 3) == [true, true] && NatBits(3, 7) == [true, true, true];
  }

  lemma ReadNatBack(n: nat, v: nat, tail: Bits)
    requires v < Pow2(n)
    ensures ReadNat(NatBits(n, v) + tail, n) == Some((v, tail))
  {
    BitsRoundTrip(n, v);
    assert (NatBits(n, v) + tail)[..n] == NatBits(n, v);
  }

  lemma ReadTagBack(tail: Bits)
    ensures ReadTag([true, false] + tail, 0) == Some((1, tail))
    ensures ReadTag([true, true, false] + tail, 0) == Some((2, tail))
    ensures ReadTag([true, true, true, false] + tail, 0) == Some((3, tail))
    ensures ReadTag([true, true, true, true] + tail, 0) == Some((4, tail))
  {
  }

  // What the decoder sees of a delta-of-delta: exact in the short classes, modulo 2^32 in the long one.
  function SeenDod(dod: int): int
  {
    if -2047 <= dod <= 2048 then dod else dod % 0x1_0000_0000
  }

  lemma DodRoundTrip(dod: int, tail: Bits)
    ensures DecodeDod(EncodeDod(dod) + tail) == Some((SeenDod(dod), tail))
  {
    hide NatBits, BitsNat, ReadTag, ReadNat, Pow2;
    TagBits();
    Pow2Values();
    if dod == 0 {
      ReadTagZero(tail);
    } else if -63 <= dod <= 64 {
      DodClass([true, false], 7, dod + 63, tail);
    } else if -255 <= dod <= 256 {
      DodClass([true, true, false], 9, dod + 255, tail);
    } else if -2047 <= dod <= 2048 {
      DodClass([true, true, true, false], 12, dod + 2047, tail);
    } else {
      DodClass([true, true, true, true], 32, dod % 0x1_0000_0000, tail);
    }
  }

  lemma ReadTagZero(tail: Bits)
    ensures ReadTag([false] + tail, 0) == Some((0, tail))
  {
  }

  lemma DodClass(tag: Bits, width: nat, v: nat, tail: Bits)
    requires v < Pow2(width)
    ensures (tag + NatBits(width, v)) + tail == tag + (NatBits(width, v) + tail)
    ensures ReadNat(NatBits(width, v) + tail, width) == Some((v, tail))
    ensures ReadTag([true, false] + (NatBits(width, v) + tail), 0) == Some((1, NatBits(width, v) + tail))
    ensures ReadTag([true, true, false] + (NatBits(width, v) + tail), 0) == Some((2, NatBits(width, v) + tail))
    ensures ReadTag([true, true, true, false] + (NatBits(width, v) + tail), 0) == Some((3, NatBits(width, v) + tail))
    ensures ReadTag([true, true, true, true] + (NatBits(width, v) + tail), 0) == Some((4, NatBits(width, v) + tail))
  {
    hide NatBits, ReadTag;
    ReadNatBack(width, v, tail);
    ReadTagBack(NatBits(width, v) + tail);
  }

  // ---------- the running delta ----------

  // Adding what was seen of a delta-of-delta to an int32 running delta gives the next delta modulo 2^32,
  // whatever the true deltas are.
  lemma RunningDelta(prev: int, cur: int)
    ensures WrapInt32(WrapInt32(prev) + SeenDod(cur - prev)) == WrapInt32(cur)
  {
  }

  function Delta(data: seq<int>, k: nat): int
    requires 1 <= k < |data|
  {
    data[k] - data[k - 1]
  }

  // What decoding yields for data[i..], starting from the decoded value `ts` of data[i - 1].
  function Drift(data: seq<int>, i: nat, ts: int): (r: seq<int>)
    requires 1 <= i <= |data|
    decreases |data| - i
  {
    if i == |data| then []
    else
      var next := WrapInt64(ts + WrapInt32(Delta(data, i)));
      [next] + Drift(data, i + 1, next)
  }

  // The decoded column for any input the encoder accepts.
  function Decoded(data: seq<int>): seq<int>
  {
    if data == [] then [] else [data[0]] + Drift(data, 1, data[0])
  }

  // A delta outside int32 never comes back right, not even by wrapping.
  lemma WrongDelta(a: int, b: int)
    requires Int64(a) && Int64(b) && Int64(b - a) && !IsInt32(b - a)
    ensures WrapInt64(a + WrapInt32(b - a)) != b
  {
  }

  lemma {:induction false} DriftExactIff(data: seq<int>, i: nat)
    requires Column(data) && 1 <= i <= |data|
    requires forall k :: i <= k < |data| ==> Int64(Delta(data, k))
    ensures Drift(data, i, data[i - 1]) == data[i..] <==> forall k :: i <= k < |data| ==> IsInt32(Delta(data, k))
    decreases |data| - i
  {
    if i < |data| {
      var next := WrapInt64(data[i - 1] + WrapInt32(Delta(data, i)));
      assert data[i..] == [data[i]] + data[i + 1..];
      if IsInt32(Delta(data, i)) {
        assert next == data[i];
        DriftExactIff(data, i + 1);
        assert Drift(data, i, data[i - 1])[1..] == Drift(data, i + 1, next) && data[i..][1..] == data[i + 1..];
      } else {
        WrongDelta(data[i - 1], data[i]);
        assert Drift(data, i, data[i - 1])[0] != data[i..][0];
      }
    } else {
      assert data[i..] == [];
    }
  }

  // ---------- columns ----------

  // What the encoder accepts. Note that only the first delta is checked against int32.
  predicate Accepted(data: seq<int>)
  {
    && (|data| >= 2 ==> IsInt32(Delta(data, 1)))
    && (forall k :: 2 <= k < |data| ==> Int64(Delta(data, k)) && Int64(Delta(data, k) - Delta(data, k - 1)))
  }

  function EncodeFrom(data: seq<int>, i: nat): Bits
    requires 2 <= i <= |data|
    decreases |data| - i
  {
    if i == |data| then [] else EncodeDod(Delta(data, i) - Delta(data, i - 1)) + EncodeFrom(data, i + 1)
  }

  function DecodeFrom(delta: int, ts: int, bits: Bits, n: nat): Option<seq<int>>
    decreases n
  {
    if n == 0 then Some([])
    else
      match DecodeDod(bits)
      case None => None
      case Some((dod, rest)) =>
        var d := WrapInt32(delta + dod);
        var t := WrapInt64(ts + d);
        Join([t], DecodeFrom(d, t, rest, n - 1))
  }

  function Decode(bits: Bits, count: nat): Option<seq<int>>
  {
    if count == 0 then Some([])
    else
      match ReadNat(bits, 64)
      case None => None
      case Some((v, rest)) =>
        var ts := WrapInt64(v);
        if count == 1 then Some([ts]) else DecodeSecond(ts, rest, count)
  }

  function DecodeSecond(ts: int, bits: Bits, count: nat): Option<seq<int>>
    requires count >= 2
  {
    match ReadNat(bits, 32)
    case None => None
    case Some((v, rest)) =>
      var delta := WrapInt32(v);
      var t := WrapInt64(ts + delta);
      Join([ts, t], DecodeFrom(delta, t, rest, count - 2))
  }

  lemma {:induction false} DecodesToDrift(data: seq<int>, i: nat, ts: int, tail: Bits)
    requires 2 <= i <= |data|
    ensures DecodeFrom(WrapInt32(Delta(data, i - 1)), ts, EncodeFrom(data, i) + tail, |data| - i)
         == Some(Drift(data, i, ts))
    decreases |data| - i
  {
    hide WrapInt32, WrapInt64, EncodeDod, DecodeDod, SeenDod;
    if i < |data| {
      var dod := Delta(data, i) - Delta(data, i - 1);
      var rest := EncodeFrom(data, i + 1) + tail;
      assert EncodeFrom(data, i) + tail == EncodeDod(dod) + rest;
      DodRoundTrip(dod, rest);
      RunningDelta(Delta(data, i - 1), Delta(data, i));
      DecodesToDrift(data, i + 1, WrapInt64(ts + WrapInt32(Delta(data, i))), tail);
    }
  }

  function Encoded(data: seq<int>): Bits
  {
    if data == [] then []
    else
      NatBits(64, data[0] % 0x1_0000_0000_0000_0000)
      + (if |data| == 1 then [] else NatBits(32, Delta(data, 1) % 0x1_0000_0000) + EncodeFrom(data, 2))
  }

  lemma WrapOfMod(x: int)
    ensures WrapInt32(x % 0x1_0000_0000) == WrapInt32(x)
    ensures Int64(x) ==> WrapInt64(x % 0x1_0000_0000_0000_0000) == x
  {
  }

  lemma DecodedSplit(data: seq<int>, t: int)
    requires |data| >= 2 && t == WrapInt64(data[0] + WrapInt32(Delta(data, 1)))
    ensures Decoded(data) == [data[0], t] + Drift(data, 2, t)
  {
    hide WrapInt32, WrapInt64;
  }

  lemma SecondDecodes(data: seq<int>, tail: Bits)
    requires Column(data) && |data| >= 2
    ensures DecodeSecond(data[0], NatBits(32, Delta(data, 1) % 0x1_0000_0000) + EncodeFrom(data, 2) + tail, |data|)
         == Some(Decoded(data))
  {
    hide NatBits, ReadNat, EncodeFrom, DecodeFrom, WrapInt32, WrapInt64, Drift, Decoded, Pow2;
    var head, rest := NatBits(32, Delta(data, 1) % 0x1_0000_0000), EncodeFrom(data, 2) + tail;
    assert head + EncodeFrom(data, 2) + tail == head + rest;
    Pow2Values();
    WrapOfMod(Delta(data, 1));
    ReadNatBack(32, Delta(data, 1) % 0x1_0000_0000, rest);
    var t := WrapInt64(data[0] + WrapInt32(Delta(data, 1)));
    DecodesToDrift(data, 2, t, tail);
    DecodedSplit(data, t);
  }

  // What is decoded from the stream of any accepted column.
  lemma StreamDecodes(data: seq<int>, tail: Bits)
    requires Column(data)
    ensures Decode(Encoded(data) + tail, |data|) == Some(Decoded(data))
  {
    hide NatBits, ReadNat, EncodeFrom, DecodeSecond, Pow2;
    if data != [] {
      var v := data[0] % 0x1_0000_0000_0000_0000;
      Pow2Values();
      assert WrapInt64(v) == data[0];
      if |data| == 1 {
        assert Encoded(data) + tail == NatBits(64, v) + tail;
        ReadNatBack(64, v, tail);
        assert Decoded(data) == [data[0]];
      } else {
        var rest := NatBits(32, Delta(data, 1) % 0x1_0000_0000) + EncodeFrom(data, 2) + tail;
        assert Encoded(data) + tail == NatBits(64, v) + rest;
        ReadNatBack(64, v, rest);
        SecondDecodes(data, tail);
      }
    }
  }

  predicate DeltasFitInt32(data: seq<int>)
  {
    forall k :: 1 <= k < |data| ==> IsInt32(Delta(data, k))
  }

  // Round trip on exactly the accepted columns whose every delta fits int32.
  lemma DecodedExactIff(data: seq<int>)
    requires Column(data) && Accepted(data)
    ensures Decoded(data) == data <==> DeltasFitInt32(data)
  {
    if data != [] {
      DriftExactIff(data, 1);
      assert data == [data[0]] + data[1..];
      assert Decoded(data)[1..] == Drift(data, 1, data[0]);
    }
  }

  // An accepted column that does not survive: the second delta is 2^31.
  lemma AcceptedButLost()
    ensures var data := [0, 0, 0x8000_0000];
            Column(data) && Accepted(data) && Decoded(data) == [0, 0, -0x8000_0000]
  {
    var data := [0, 0, 0x8000_0000];
    assert Delta(data, 1) == 0 && Delta(data, 2) == 0x8000_0000;
    assert Drift(data, 3, -0x8000_0000) == [];
    assert Drift(data, 2, 0) == [-0x8000_0000];
    assert Drift(data, 1, 0) == [0, -0x8000_0000];
  }

  method Compress(data: seq<int>) returns (ok: bool, out: Bits)
    requires Column(data)
    ensures ok <==> Accepted(data)
    ensures ok ==> forall tail :: Decode(out + tail, |data|) == Some(Decoded(data))
    ensures ok ==> (Decoded(data) == data <==> DeltasFitInt32(data))
  {
    hide NatBits, Decode, EncodeDod;
    out := [];
    if |data| > 0 {
      out := NatBits(64, data[0] % 0x1_0000_0000_0000_0000);
      assert |data| == 1 ==> out == Encoded(data);
      if |data| > 1 {
        var delta := data[1] - data[0];
        if delta < -TWO_63 || delta >= TWO_63 {
          return false, out;
        }
        if delta < -0x8000_0000 || delta > 0x7FFF_FFFF {
          return false, out;
        }
        out := out + NatBits(32, delta % 0x1_0000_0000);
        ghost var all := out + EncodeFrom(data, 2);
        assert all == Encoded(data);
        var i := 2;
        while i < |data|
          invariant 2 <= i <= |data| && delta == Delta(data, i - 1)
          invariant forall k :: 2 <= k < i ==> Int64(Delta(data, k)) && Int64(Delta(data, k) - Delta(data, k - 1))
          invariant all == out + EncodeFrom(data, i)
        {
          var current := data[i] - data[i - 1];
          var dod := current - delta;
          if current < -TWO_63 || current >= TWO_63 || dod < -TWO_63 || dod >= TWO_63 {
            assert !(Int64(Delta(data, i)) && Int64(Delta(data, i) - Delta(data, i - 1)));
            return false, out;
          }
          assert out + EncodeFrom(data, i) == (out + EncodeDod(current - delta)) + EncodeFrom(data, i + 1);
          out, delta, i := out + EncodeDod(current - delta), current, i + 1;
        }
        assert out + [] == out;
      }
    }
    ok := true;
    DecodedExactIff(data);
    forall tail
      ensures Decode(out + tail, |data|) == Some(Decoded(data))
    {
      StreamDecodes(data, tail);
    }
  }

  method Decompress(bits: Bits, count: nat) returns (r: Option<seq<int>>)
    ensures r == Decode(bits, count)
  {
    hide DecodeDod, ReadNat, Join;
    if count == 0 {
      return Some([]);
    }
    var first := ReadNat(bits, 64);
    if first == None {
      return None;
    }
    var ts := WrapInt64(first.value.0);
    if count == 1 {
      return Some([ts]);
    }
    var second := ReadNat(first.value.1, 32);
    if second == None {
      return None;
    }
    var delta := WrapInt32(second.value.0);
    r := DecompressRest(delta, WrapInt64(ts + delta), second.value.1, count - 2, [ts, WrapInt64(ts + delta)]);
  }

  method DecompressRest(delta0: int, ts0: int, bits: Bits, n: nat, done: seq<int>) returns (r: Option<seq<int>>)
    ensures r == Join(done, DecodeFrom(delta0, ts0, bits, n))
  {
    hide DecodeDod, Join, WrapInt32, WrapInt64;
    var delta, ts, cursor, out, i := delta0, ts0, bits, done, 0;
    while i < n
      invariant 0 <= i <= n
      invariant Join(done, DecodeFrom(delta0, ts0, bits, n)) == Join(out, DecodeFrom(delta, ts, cursor, n - i))
    {
      var d := DecodeDod(cursor);
      JoinUnits(out, None);
      if d == None {
        return None;
      }
      delta := WrapInt32(delta + d.value.0);
      ts := WrapInt64(ts + delta);
      JoinJoin(out, [ts], DecodeFrom(delta, ts, d.value.1, n - i - 1));
      out, cursor, i := out + [ts], d.value.1, i + 1;
    }
    JoinUnits(out, None);
    return Some(out);
  }
}
