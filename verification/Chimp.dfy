/** Chimp: floating-point words xored with their predecessor, written as a 2-bit case plus the part of
    the xor that is not known to be zero. A word is its 32 or 64 bits. */
module Chimp {
  import opened Words
  import opened BitStream

  // leading_mapping
  function LeadOf(idx: nat): (lead: nat)
    requires idx < 8
    ensures lead <= 24
  {
    [0, 8, 12, 16, 18, 20, 22, 24][idx]
  }

  // upper_bound over leading_mapping, minus one: the largest entry that is at most `lead`.
  function LeadIndex(lead: nat): (idx: nat)
    ensures idx < 8 && LeadOf(idx) <= lead
    ensures idx == 7 || lead < LeadOf(idx + 1)
  {
    if lead >= 24 then 7 else if lead >= 22 then 6 else if lead >= 20 then 5 else if lead >= 18 then 4
    else if lead >= 16 then 3 else if lead >= 12 then 2 else if lead >= 8 then 1 else 0
  }

  predicate IsWord(sz: nat, w: Bits)
  {
    (sz == 32 || sz == 64) && |w| == sz
  }

  predicate Column(sz: nat, data: seq<Bits>)
  {
    (sz == 32 || sz == 64) && forall k :: 0 <= k < |data| ==> |data[k]| == sz
  }

  // What both sides remember between words.
  datatype State = State(prev: Bits, leadIdx: nat)

  predicate ValidState(sz: nat, st: State)
  {
    IsWord(sz, st.prev) && st.leadIdx < 8
  }

  // ---------- one word ----------

  function EncodeOne(sz: nat, st: State, w: Bits): (r: (Bits, State))
    requires ValidState(sz, st) && IsWord(sz, w)
    ensures ValidState(sz, r.1) && r.1.prev == w
  {
    var xored := Xor(w, st.prev);
    if xored == Zeros(sz) then (NatBits(2, 0), State(w, st.leadIdx))
    else
      var trail, idx := TrailingZeros(xored), LeadIndex(LeadingZeros(xored));
      var lead := LeadOf(idx);
      Overlap(xored);
      if trail > 6 then
        var center := sz - lead - trail;
        (NatBits(11, ((1 * 8) + idx) * 64 + center) + xored[lead..sz - trail], State(w, idx))
      else if idx == st.leadIdx then (NatBits(2, 2) + xored[lead..], State(w, idx))
      else (NatBits(5, 3 * 8 + idx) + xored[lead..], State(w, idx))
  }

  // Leading and trailing zeros do not meet.
  lemma Overlap(b: Bits)
    requires b != Zeros(|b|)
    ensures LeadOf(LeadIndex(LeadingZeros(b))) + TrailingZeros(b) < |b|
  {
    var t := TrailingZeros(b);
    forall i | |b| - t <= i < |b|
      ensures !b[i]
    {
      assert b[i] == b[|b| - t..][i - (|b| - t)];
    }
  }

  function ReadBits(bits: Bits, n: nat): Option<(Bits, Bits)>
  {
    if |bits| < n then None else Some((bits[..n], bits[n..]))
  }

  // The xor that a word's bits describe, the new lead index and the unread bits.
  function DecodeXor(sz: nat, leadIdx: nat, bits: Bits): (r: Option<(Bits, nat, Bits)>)
    requires (sz == 32 || sz == 64) && leadIdx < 8
    ensures r.Some? ==> |r.value.0| == sz && r.value.1 < 8
  {
    match ReadBits(bits, 2)
    case None => None
    case Some((tag, rest)) =>
      if tag == [false, false] then Some((Zeros(sz), leadIdx, rest))
      else if tag == [false, true] then DecodeCenter(sz, rest)
      else if tag == [true, false] then DecodeLow(sz, leadIdx, rest)
      else
        match ReadBits(rest, 3)
        case None => None
        case Some((i, rest')) => BitsNatBound(i); assert Pow2(3) == 8; DecodeLow(sz, BitsNat(i), rest')
  }

  function DecodeLow(sz: nat, idx: nat, bits: Bits): Option<(Bits, nat, Bits)>
    requires (sz == 32 || sz == 64) && idx < 8
  {
    match ReadBits(bits, sz - LeadOf(idx))
    case None => None
    case Some((low, rest)) => Some((Zeros(LeadOf(idx)) + low, idx, rest))
  }

  // A 3-bit lead index, a 6-bit length and that many bits. A length that leaves no room for the lead
  // makes the source shift by a negative amount; here it is a failure.
  function DecodeCenter(sz: nat, bits: Bits): (r: Option<(Bits, nat, Bits)>)
    requires sz == 32 || sz == 64
    ensures r.Some? ==> |r.value.0| == sz && r.value.1 < 8
  {
    match ReadBits(bits, 9)
    case None => None
    case Some((head, rest)) =>
      BitsNatBound(head);
      assert Pow2(9) == 512;
      var idx, center := BitsNat(head) / 64, BitsNat(head) % 64;
      if LeadOf(idx) + center > sz then None
      else
        match ReadBits(rest, center)
        case None => None
        case Some((mid, rest')) =>
          Some((Zeros(LeadOf(idx)) + mid + Zeros(sz - LeadOf(idx) - center), idx, rest'))
  }

  // ---------- one word survives ----------

  // An xor is its known zeros around its middle.
  lemma XorParts(b: Bits)
    requires b != Zeros(|b|)
    ensures var lead, trail := LeadOf(LeadIndex(LeadingZeros(b))), TrailingZeros(b);
            && lead + trail < |b| && b == Zeros(lead) + b[lead..]
            && b == Zeros(lead) + b[lead..|b| - trail] + Zeros(trail)
  {
    hide LeadingZeros, TrailingZeros, LeadOf, LeadIndex;
    Overlap(b);
    ZeroEnds(b, LeadingZeros(b), LeadOf(LeadIndex(LeadingZeros(b))), TrailingZeros(b));
  }

  lemma ZeroEnds(b: Bits, n: nat, lead: nat, trail: nat)
    requires lead <= n <= |b| && lead + trail <= |b|
    requires b[..n] == Zeros(n) && b[|b| - trail..] == Zeros(trail)
    ensures b == Zeros(lead) + b[lead..] && b == Zeros(lead) + b[lead..|b| - trail] + Zeros(trail)
  {
    assert b[..lead] == b[..n][..lead] == Zeros(lead);
    assert b == b[..lead] + b[lead..];
    assert b == b[..lead] + b[lead..|b| - trail] + b[|b| - trail..];
  }

  lemma TagBits()
    ensures NatBits(2, 0) == [false, false] && NatBits(2, 1) == [false, true]
    ensures NatBits(2, 2) == [true, false] && NatBits(2, 3) == [true, true]
  {
    assert NatBits(1, 0) == [false] && NatBits(1, 1) == [true];
  }

  lemma ReadBack(head: Bits, tail: Bits)
    ensures ReadBits(head + tail, |head|) == Some((head, tail))
  {
  }

  lemma LowRoundTrip(sz: nat, idx: nat, b: Bits, tail: Bits)
    requires IsWord(sz, b) && idx < 8 && b == Zeros(LeadOf(idx)) + b[LeadOf(idx)..]
    ensures DecodeLow(sz, idx, b[LeadOf(idx)..] + tail) == Some((b, idx, tail))
  {
    ReadBack(b[LeadOf(idx)..], tail);
  }

  // The 11-bit write of tag, lead index and length; the length fits its 6 bits.
  lemma CenterHeader(idx: nat, center: nat)
    requires idx < 8 && center < 64
    ensures NatBits(11, ((1 * 8) + idx) * 64 + center) == NatBits(2, 1) + NatBits(9, idx * 64 + center)
    ensures BitsNat(NatBits(9, idx * 64 + center)) == idx * 64 + center
  {
    assert Pow2(9) == 512;
    NatBitsConcat(2, 1, 9, idx * 64 + center);
    BitsRoundTrip(9, idx * 64 + center);
  }

  lemma CenterRoundTrip(sz: nat, idx: nat, trail: nat, b: Bits, tail: Bits)
    requires IsWord(sz, b) && idx < 8 && LeadOf(idx) + trail < sz && trail > 6
    requires b == Zeros(LeadOf(idx)) + b[LeadOf(idx)..sz - trail] + Zeros(trail)
    ensures var center := sz - LeadOf(idx) - trail;
            center < 64 && DecodeCenter(sz, NatBits(9, idx * 64 + center) + b[LeadOf(idx)..sz - trail] + tail)
                           == Some((b, idx, tail))
  {
    hide NatBits, BitsNat, ReadBits, Zeros, LeadOf;
    var lead := LeadOf(idx);
    var center := sz - lead - trail;
    var head, mid := NatBits(9, idx * 64 + center), b[lead..sz - trail];
    CenterHeader(idx, center);
    ReadBack(mid, tail);
    ReadBack(head, mid + tail);
    assert head + mid + tail == head + (mid + tail);
  }

  lemma NewLeadHeader(idx: nat)
    requires idx < 8
    ensures NatBits(5, 3 * 8 + idx) == NatBits(2, 3) + NatBits(3, idx) && BitsNat(NatBits(3, idx)) == idx
  {
    assert Pow2(3) == 8;
    NatBitsConcat(2, 3, 3, idx);
    BitsRoundTrip(3, idx);
  }

  // Whatever the encoder writes for a word, the decoder recovers the xor and the same lead index, and
  // stops exactly where the next word starts.
  lemma XorRoundTrip(sz: nat, st: State, w: Bits, tail: Bits)
    requires ValidState(sz, st) && IsWord(sz, w)
    ensures DecodeXor(sz, st.leadIdx, EncodeOne(sz, st, w).0 + tail)
         == Some((Xor(w, st.prev), EncodeOne(sz, st, w).1.leadIdx, tail))
  {
    hide NatBits, BitsNat, Xor, Zeros, DecodeCenter, DecodeLow, LeadOf, LeadIndex, LeadingZeros, TrailingZeros;
    TagBits();
    var b := Xor(w, st.prev);
    var bits := EncodeOne(sz, st, w).0;
    if b == Zeros(sz) {
      ReadBack(NatBits(2, 0), tail);
    } else {
      XorParts(b);
      var idx, trail := LeadIndex(LeadingZeros(b)), TrailingZeros(b);
      var lead := LeadOf(idx);
      if trail > 6 {
        var center := sz - lead - trail;
        CenterHeader(idx, center);
        CenterRoundTrip(sz, idx, trail, b, tail);
        var rest := NatBits(9, idx * 64 + center) + b[lead..sz - trail] + tail;
        assert bits + tail == NatBits(2, 1) + rest;
        ReadBack(NatBits(2, 1), rest);
      } else if idx == st.leadIdx {
        LowRoundTrip(sz, idx, b, tail);
        assert bits + tail == NatBits(2, 2) + (b[lead..] + tail);
        ReadBack(NatBits(2, 2), b[lead..] + tail);
      } else {
        NewLeadHeader(idx);
        LowRoundTrip(sz, idx, b, tail);
        var rest := NatBits(3, idx) + (b[lead..] + tail);
        assert bits + tail == NatBits(2, 3) + rest;
        ReadBack(NatBits(2, 3), rest);
        ReadBack(NatBits(3, idx), b[lead..] + tail);
      }
    }
  }

  // ---------- whole columns ----------

  // The rest of the encoding from word i on.
  function EncodeFrom(sz: nat, st: State, data: seq<Bits>, i: nat): Bits
    requires ValidState(sz, st) && Column(sz, data) && i <= |data|
    decreases |data| - i
  {
    if i == |data| then []
    else
      var (bits, st') := EncodeOne(sz, st, data[i]);
      bits + EncodeFrom(sz, st', data, i + 1)
  }

  function DecodeFrom(sz: nat, st: State, bits: Bits, n: nat): Option<seq<Bits>>
    requires ValidState(sz, st)
    decreases n
  {
    if n == 0 then Some([])
    else
      match DecodeXor(sz, st.leadIdx, bits)
      case None => None
      case Some((xored, idx, rest)) =>
        var w := Xor(st.prev, xored);
        Join([w], DecodeFrom(sz, State(w, idx), rest, n - 1))
  }

  function Decode(sz: nat, bits: Bits, count: nat): Option<seq<Bits>>
    requires sz == 32 || sz == 64
  {
    if count == 0 then Some([])
    else
      match ReadBits(bits, sz)
      case None => None
      case Some((first, rest)) => Join([first], DecodeFrom(sz, State(first, 0), rest, count - 1))
  }

  lemma {:induction false} DecodeFromEncoded(sz: nat, st: State, data: seq<Bits>, i: nat, tail: Bits)
    requires ValidState(sz, st) && Column(sz, data) && i <= |data|
    ensures DecodeFrom(sz, st, EncodeFrom(sz, st, data, i) + tail, |data| - i) == Some(data[i..])
    decreases |data| - i
  {
    hide EncodeOne, DecodeXor, Xor;
    if i < |data| {
      var (bits, st') := EncodeOne(sz, st, data[i]);
      var rest := EncodeFrom(sz, st', data, i + 1) + tail;
      assert EncodeFrom(sz, st, data, i) + tail == bits + rest;
      XorRoundTrip(sz, st, data[i], rest);
      XorUndo(st.prev, data[i]);
      DecodeFromEncoded(sz, st', data, i + 1, tail);
      assert data[i..] == [data[i]] + data[i + 1..];
    } else {
      assert data[i..] == [];
    }
  }

  /** Encoding always succeeds, and the decoder recovers every word from the stream, whatever padding
      or other bits follow it. */
  method Compress(sz: nat, data: seq<Bits>) returns (out: Bits)
    requires Column(sz, data)
    ensures forall tail :: Decode(sz, out + tail, |data|) == Some(data)
  {
    hide EncodeOne, Decode;
    out := [];
    if |data| > 0 {
      out := data[0];
      var st, i := State(data[0], 0), 1;
      ghost var all := EncodeFrom(sz, st, data, 1);
      assert data[0] + all == out + EncodeFrom(sz, st, data, i);
      while i < |data|
        invariant 1 <= i <= |data| && ValidState(sz, st)
        invariant data[0] + all == out + EncodeFrom(sz, st, data, i)
      {
        var (bits, st') := EncodeOne(sz, st, data[i]);
        assert out + EncodeFrom(sz, st, data, i) == (out + bits) + EncodeFrom(sz, st', data, i + 1);
        out, st, i := out + bits, st', i + 1;
      }
      assert out + [] == out;
    }
    forall tail
      ensures Decode(sz, out + tail, |data|) == Some(data)
    {
      StreamDecodes(sz, data, tail);
    }
  }

  function Encoded(sz: nat, data: seq<Bits>): Bits
    requires Column(sz, data)
  {
    if data == [] then [] else data[0] + EncodeFrom(sz, State(data[0], 0), data, 1)
  }

  lemma StreamDecodes(sz: nat, data: seq<Bits>, tail: Bits)
    requires Column(sz, data)
    ensures Decode(sz, Encoded(sz, data) + tail, |data|) == Some(data)
  {
    hide EncodeFrom, DecodeFrom;
    if data != [] {
      var st := State(data[0], 0);
      var rest := EncodeFrom(sz, st, data, 1) + tail;
      assert Encoded(sz, data) + tail == data[0] + rest;
      ReadBack(data[0], rest);
      DecodeFromEncoded(sz, st, data, 1, tail);
      assert data == [data[0]] + data[1..];
    }
  }

  method Decompress(sz: nat, bits: Bits, count: nat) returns (r: Option<seq<Bits>>)
    requires sz == 32 || sz == 64
    ensures r == Decode(sz, bits, count)
  {
    hide DecodeXor, Xor, Join;
    if count == 0 {
      return Some([]);
    }
    var first := ReadBits(bits, sz);
    if first == None {
      return None;
    }
    var words, cursor, st, i := [first.value.0], first.value.1, State(first.value.0, 0), 1;
    while i < count
      invariant 1 <= i <= count && ValidState(sz, st)
      invariant Decode(sz, bits, count) == Join(words, DecodeFrom(sz, st, cursor, count - i))
    {
      var x := DecodeXor(sz, st.leadIdx, cursor);
      if x == None {
        JoinUnits(words, None);
        return None;
      }
      var w := Xor(st.prev, x.value.0);
      JoinJoin(words, [w], DecodeFrom(sz, State(w, x.value.1), x.value.2, count - i - 1));
      words, st, cursor, i := words + [w], State(w, x.value.1), x.value.2, i + 1;
    }
    JoinUnits(words, None);
    return Some(words);
  }
}
