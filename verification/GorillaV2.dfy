/** GorillaIntV2: first value, first delta and delta-of-deltas as zigzag varints of the element type
    (int32 or int64), every subtraction checked for overflow. */
module GorillaV2 {
  import opened Words

  predicate Fits(bits: nat, x: int)
    requires bits >= 1
  {
    -Pow2(bits - 1) <= x < Pow2(bits - 1)
  }

  predicate Column(bits: nat, data: seq<int>)
  {
    (bits == 32 || bits == 64) && forall k :: 0 <= k < |data| ==> Fits(bits, data[k])
  }

  function Delta(data: seq<int>, k: nat): int
    requires 1 <= k < |data|
  {
    data[k] - data[k - 1]
  }

  predicate ElementOk(bits: nat, data: seq<int>, k: nat)
    requires bits >= 1 && 2 <= k < |data|
  {
    Fits(bits, Delta(data, k)) && Fits(bits, Delta(data, k) - Delta(data, k - 1))
  }

  predicate Accepted(bits: nat, data: seq<int>)
    requires bits >= 1
  {
    && (|data| >= 2 ==> Fits(bits, Delta(data, 1)))
    && forall k :: 2 <= k < |data| ==> ElementOk(bits, data, k)
  }

  // TypedPutVarint(EncodeZigZag(v)) and its inverse.
  function Put(v: int): seq<Byte> { EncodeVarint(EncodeZigZag(v)) }

  function Get(bits: nat, bs: seq<Byte>): Option<(int, seq<Byte>)>
  {
    match DecodeVarint(bs, bits)
    case None => None
    case Some((v, rest)) => Some((DecodeZigZag(v), rest))
  }

  lemma PutGet(bits: nat, v: int, tail: seq<Byte>)
    requires bits >= 1 && Fits(bits, v)
    ensures Get(bits, Put(v) + tail) == Some((v, tail))
  {
    ZigZagRoundTrip(v, bits);
    VarintRoundTrip(EncodeZigZag(v), bits, tail);
  }

  function EncodeFrom(data: seq<int>, i: nat): seq<Byte>
    requires 2 <= i <= |data|
    decreases |data| - i
  {
    if i == |data| then [] else Put(Delta(data, i) - Delta(data, i - 1)) + EncodeFrom(data, i + 1)
  }

  function DecodeFrom(bits: nat, delta: int, ts: int, bs: seq<Byte>, n: nat): Option<seq<int>>
    requires bits >= 1
    decreases n
  {
    if n == 0 then Some([])
    else
      match Get(bits, bs)
      case None => None
      case Some((dod, rest)) =>
        var d := SignedWrap(bits, delta + dod);
        var t := SignedWrap(bits, ts + d);
        Join([t], DecodeFrom(bits, d, t, rest, n - 1))
  }

  function Decode(bits: nat, bs: seq<Byte>, count: nat): Option<seq<int>>
    requires bits >= 1
  {
    if count == 0 then Some([])
    else
      match Get(bits, bs)
      case None => None
      case Some((ts, rest)) => if count == 1 then Some([ts]) else DecodeSecond(bits, ts, rest, count)
  }

  function DecodeSecond(bits: nat, ts: int, bs: seq<Byte>, count: nat): Option<seq<int>>
    requires bits >= 1 && count >= 2
  {
    match Get(bits, bs)
    case None => None
    case Some((delta, rest)) =>
      var t := SignedWrap(bits, ts + delta);
      Join([ts, t], DecodeFrom(bits, delta, t, rest, count - 2))
  }

  lemma {:induction false} DecodesRest(bits: nat, data: seq<int>, i: nat, tail: seq<Byte>)
    requires Column(bits, data) && Accepted(bits, data) && 2 <= i <= |data|
    ensures DecodeFrom(bits, Delta(data, i - 1), data[i - 1], EncodeFrom(data, i) + tail, |data| - i) == Some(data[i..])
    decreases |data| - i
  {
    hide Put, Get, SignedWrap, Fits;
    if i < |data| {
      var dod := Delta(data, i) - Delta(data, i - 1);
      var rest := EncodeFrom(data, i + 1) + tail;
      assert EncodeFrom(data, i) + tail == Put(dod) + rest;
      assert ElementOk(bits, data, i);
      PutGet(bits, dod, rest);
      Exact(bits, Delta(data, i));
      Exact(bits, data[i]);
      DecodesRest(bits, data, i + 1, tail);
      assert data[i..] == [data[i]] + data[i + 1..];
    } else {
      assert data[i..] == [];
    }
  }

  lemma Exact(bits: nat, x: int)
    requires bits >= 1 && Fits(bits, x)
    ensures SignedWrap(bits, x) == x
  {
    SignedWrapId(bits, x);
  }

  function Encoded(data: seq<int>): seq<Byte>
  {
    if data == [] then []
    else Put(data[0]) + (if |data| == 1 then [] else Put(Delta(data, 1)) + EncodeFrom(data, 2))
  }

  lemma StreamDecodes(bits: nat, data: seq<int>, tail: seq<Byte>)
    requires Column(bits, data) && Accepted(bits, data)
    ensures Decode(bits, Encoded(data) + tail, |data|) == Some(data)
  {
    hide Put, Get, SignedWrap, Fits, EncodeFrom, DecodeFrom;
    if |data| == 1 {
      assert Encoded(data) + tail == Put(data[0]) + tail;
      PutGet(bits, data[0], tail);
      assert data == [data[0]];
    } else if |data| >= 2 {
      var rest := EncodeFrom(data, 2) + tail;
      assert Encoded(data) + tail == Put(data[0]) + (Put(Delta(data, 1)) + rest);
      PutGet(bits, data[0], Put(Delta(data, 1)) + rest);
      PutGet(bits, Delta(data, 1), rest);
      Exact(bits, data[1]);
      DecodesRest(bits, data, 2, tail);
      assert data == [data[0], data[1]] + data[2..];
    }
  }

  /** Succeeds exactly when no subtraction overflows the element type, and then decoding gives back the
      column, whatever follows the stream. */
  method Compress(bits: nat, data: seq<int>) returns (ok: bool, out: seq<Byte>)
    requires Column(bits, data)
    ensures ok <==> Accepted(bits, data)
    ensures ok ==> forall tail :: Decode(bits, out + tail, |data|) == Some(data)
  {
    hide Put, Decode, Pow2;
    out := [];
    if |data| > 0 {
      out := Put(data[0]);
      assert |data| == 1 ==> out == Encoded(data);
      if |data| > 1 {
        var delta := data[1] - data[0];
        if delta < -Pow2(bits - 1) || delta >= Pow2(bits - 1) {
          return false, out;
        }
        out := out + Put(delta);
        ghost var all := out + EncodeFrom(data, 2);
        assert all == Encoded(data);
        var i := 2;
        while i < |data|
          invariant 2 <= i <= |data| && delta == Delta(data, i - 1)
          invariant forall k :: 2 <= k < i ==> ElementOk(bits, data, k)
          invariant all == out + EncodeFrom(data, i)
        {
          var current := data[i] - data[i - 1];
          var dod := current - delta;
          if current < -Pow2(bits - 1) || current >= Pow2(bits - 1) || dod < -Pow2(bits - 1) || dod >= Pow2(bits - 1) {
            assert !ElementOk(bits, data, i);
            return false, out;
          }
          assert out + EncodeFrom(data, i) == (out + Put(current - delta)) + EncodeFrom(data, i + 1);
          out, delta, i := out + Put(current - delta), current, i + 1;
        }
        assert out + [] == out;
      }
    }
    ok := true;
    forall tail
      ensures Decode(bits, out + tail, |data|) == Some(data)
    {
      StreamDecodes(bits, data, tail);
    }
  }

  method Decompress(bits: nat, bs: seq<Byte>, count: nat) returns (r: Option<seq<int>>)
    requires bits == 32 || bits == 64
    ensures r == Decode(bits, bs, count)
  {
    hide Get, SignedWrap, Join;
    if count == 0 {
      return Some([]);
    }
    var first := Get(bits, bs);
    if first == None {
      return None;
    }
    var ts, cursor := first.value.0, first.value.1;
    if count == 1 {
      return Some([ts]);
    }
    var second := Get(bits, cursor);
    if second == None {
      return None;
    }
    var delta := second.value.0;
    cursor := second.value.1;
    var out := [ts, SignedWrap(bits, ts + delta)];
    ts := SignedWrap(bits, ts + delta);
    var i := 2;
    while i < count
      invariant 2 <= i <= count
      invariant Decode(bits, bs, count) == Join(out, DecodeFrom(bits, delta, ts, cursor, count - i))
    {
      var d := Get(bits, cursor);
      JoinUnits(out, None);
      if d == None {
        return None;
      }
      delta := SignedWrap(bits, delta + d.value.0);
      ts := SignedWrap(bits, ts + delta);
      JoinJoin(out, [ts], DecodeFrom(bits, delta, ts, d.value.1, count - i - 1));
      out, cursor, i := out + [ts], d.value.1, i + 1;
    }
    JoinUnits(out, None);
    return Some(out);
  }
}
