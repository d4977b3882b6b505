/** Machine words, little-endian bytes, LEB128 varints and zigzag: the encodings that the integer
    codecs share. Words are unbounded integers here, so every truncation is written out. */
module Words {

  datatype Option<+T> = None | Some(value: T)

  type Byte = b: int | 0 <= b < 256

  const TWO_64 := 0x1_0000_0000_0000_0000

  const TWO_63 := 0x8000_0000_0000_0000

  predicate Int64(x: int) { -TWO_63 <= x < TWO_63 }

  type Word = w: int | 0 <= w < TWO_64

  function Min(a: int, b: int): int { if b < a then b else a }

  function Max(a: int, b: int): int { if b > a then b else a }

  function Pow2(n: nat): (r: int)
    ensures r >= 1
  {
    if n == 0 then 1 else 2 * Pow2(n - 1)
  }

  lemma {:induction false} Pow2Add(m: nat, n: nat)
    ensures Pow2(m + n) == Pow2(m) * Pow2(n)
  {
    if m > 0 {
      Pow2Add(m - 1, n);
      MulAssoc(2, Pow2(m - 1), Pow2(n));
    }
  }

  lemma {:induction false} Pow2Monotone(m: nat, n: nat)
    requires m <= n
    ensures Pow2(m) <= Pow2(n)
  {
    if m < n {
      Pow2Monotone(m, n - 1);
    }
  }

  lemma Pow2Values()
    ensures Pow2(7) == 128 && Pow2(8) == 256 && Pow2(16) == 0x1_0000 && Pow2(32) == 0x1_0000_0000
    ensures Pow2(9) == 512 && Pow2(12) == 4096 && Pow2(31) == 0x8000_0000
    ensures Pow2(44) == 0x1000_0000_0000 && Pow2(60) == 0x1000_0000_0000_0000
    ensures Pow2(63) == 0x8000_0000_0000_0000 && Pow2(64) == 0x1_0000_0000_0000_0000
  {
    assert Pow2(8) == 256;
    Pow2Add(8, 8);
    Pow2Add(16, 16);
    assert Pow2(12) == 4096;
    Pow2Add(32, 12);
    Pow2Add(44, 16);
    Pow2Add(60, 4);
  }

  lemma MulAssoc(a: int, b: int, c: int)
    ensures a * (b * c) == (a * b) * c
  {
  }

  lemma MulGe(x: int, b: int)
    requires x >= 1 && b >= 0
    ensures x * b >= b
  {
  }

  lemma MulLe(x: int, y: int, b: int)
    requires x <= y && b >= 0
    ensures x * b <= y * b
  {
  }

  // Division undoes shift-and-add: the fact behind every "shift left, then add" in the codecs.
  lemma DivModUnique(q: int, r: int, b: int)
    requires b > 0 && 0 <= r < b
    ensures (q * b + r) / b == q && (q * b + r) % b == r
  {
    var n := q * b + r;
    var q', r' := n / b, n % b;
    assert n == q' * b + r';
    assert (q - q') * b == q * b - q' * b && (q' - q) * b == q' * b - q * b;
    if q' < q {
      MulGe(q - q', b);
    } else if q' > q {
      MulGe(q' - q, b);
    }
  }

  // Two's-complement reading of the low `bits` bits of x.
  function SignedWrap(bits: nat, x: int): int
    requires bits >= 1
  {
    var m := x % Pow2(bits);
    if m < Pow2(bits - 1) then m else m - Pow2(bits)
  }

  lemma SignedWrapId(bits: nat, x: int)
    requires bits >= 1 && -Pow2(bits - 1) <= x < Pow2(bits - 1)
    ensures SignedWrap(bits, x) == x
  {
    if x >= 0 {
      DivModUnique(0, x, Pow2(bits));
    } else {
      DivModUnique(-1, x + Pow2(bits), Pow2(bits));
    }
  }

  lemma SignedWrapRange(bits: nat, x: int)
    requires bits >= 1
    ensures -Pow2(bits - 1) <= SignedWrap(bits, x) < Pow2(bits - 1)
  {
  }

  // Wrapping only looks at the value modulo 2^bits.
  lemma SignedWrapShift(bits: nat, x: int, k: int)
    requires bits >= 1
    ensures SignedWrap(bits, x + k * Pow2(bits)) == SignedWrap(bits, x)
  {
    var p := Pow2(bits);
    var q, r := x / p, x % p;
    assert x == q * p + r;
    assert (q + k) * p == q * p + k * p;
    DivModUnique(q + k, r, p);
  }

  // A value that leaves the signed range by less than one full turn comes back with the opposite sign.
  lemma SignedWrapOnce(bits: nat, x: int)
    requires bits >= 1 && -Pow2(bits) < x < Pow2(bits)
    requires !(-Pow2(bits - 1) <= x < Pow2(bits - 1))
    ensures SignedWrap(bits, x) == if x > 0 then x - Pow2(bits) else x + Pow2(bits)
  {
    if x > 0 {
      DivModUnique(0, x, Pow2(bits));
    } else {
      DivModUnique(-1, x + Pow2(bits), Pow2(bits));
    }
  }

  // Conversion to int64 and to int32: SignedWrap with its constants written out.
  function WrapInt64(x: int): int
  {
    var m := x % TWO_64;
    if m < TWO_63 then m else m - TWO_64
  }

  function WrapInt32(x: int): int
  {
    var m := x % 0x1_0000_0000;
    if m < 0x8000_0000 then m else m - 0x1_0000_0000
  }

  lemma WrapsAreSigned(x: int)
    ensures WrapInt64(x) == SignedWrap(64, x) && WrapInt32(x) == SignedWrap(32, x)
  {
    Pow2Values();
  }

  // ---------- fixed-width little-endian ----------

  function ToLE(v: nat, n: nat): (bs: seq<Byte>)
    ensures |bs| == n
  {
    if n == 0 then [] else [v % 256] + ToLE(v / 256, n - 1)
  }

  function FromLE(bs: seq<Byte>): nat
  {
    if bs == [] then 0 else bs[0] + 256 * FromLE(bs[1..])
  }

  lemma Pow2Zero()
    ensures Pow2(0) == 1
  {
  }

  lemma {:induction false} LERoundTrip(v: nat, n: nat)
    requires v < Pow2(8 * n)
    ensures FromLE(ToLE(v, n)) == v
  {
    hide Pow2;
    if n > 0 {
      Pow2Values();
      Pow2Add(8, 8 * (n - 1));
      LERoundTrip(v / 256, n - 1);
      assert ToLE(v, n)[1..] == ToLE(v / 256, n - 1);
    } else {
      Pow2Zero();
    }
  }

  lemma {:induction false} LEBound(bs: seq<Byte>)
    ensures FromLE(bs) < Pow2(8 * |bs|)
  {
    if bs != [] {
      LEBound(bs[1..]);
      Pow2Add(8, 8 * (|bs| - 1));
      assert Pow2(8) == 256;
    }
  }

  // ---------- LEB128 ----------

  function EncodeVarint(v: nat): (bs: seq<Byte>)
    ensures |bs| >= 1
  {
    if v < 128 then [v] else [v % 128 + 128] + EncodeVarint(v / 128)
  }

  // Reads from the front of bs. Shifts are multiples of 7, so "below 32" is the source's bound
  // "at most 28", and "below 64" its bound "at most 63".
  function DecodeVarintFrom(bs: seq<Byte>, bits: nat, shift: nat, acc: nat): Option<(nat, seq<Byte>)>
    decreases |bs|
  {
    if bs == [] || shift >= bits then None
    else
      var acc' := (acc + (bs[0] % 128) * Pow2(shift)) % Pow2(bits);
      if bs[0] < 128 then Some((acc', bs[1..]))
      else DecodeVarintFrom(bs[1..], bits, shift + 7, acc')
  }

  function DecodeVarint(bs: seq<Byte>, bits: nat): Option<(nat, seq<Byte>)>
  {
    DecodeVarintFrom(bs, bits, 0, 0)
  }

  // One loop iteration: seven bits move into the accumulator, the rest waits 128 times higher.
  lemma VarintStep(u: nat, bits: nat, shift: nat, acc: nat)
    requires bits >= 1 && (shift == 0 || u >= 1)
    requires acc + u * Pow2(shift) < Pow2(bits)
    ensures shift < bits
    ensures (acc + (u % 128) * Pow2(shift)) % Pow2(bits) == acc + (u % 128) * Pow2(shift)
    ensures acc + u * Pow2(shift) == acc + (u % 128) * Pow2(shift) + (u / 128) * Pow2(shift + 7)
  {
    var p := Pow2(shift);
    if shift >= bits {
      Pow2Monotone(bits, shift);
      MulGe(u, p);
      assert false;
    }
    Pow2Add(shift, 7);
    assert Pow2(7) == 128;
    assert u == (u / 128) * 128 + u % 128;
    MulAssoc(u / 128, 128, p);
    assert u * p == ((u / 128) * 128) * p + (u % 128) * p;
    MulLe(0, u % 128, p);
    MulLe(u % 128, u, p);
    DivModUnique(0, acc + (u % 128) * p, Pow2(bits));
  }

  lemma VarintFirst(u: nat, tail: seq<Byte>)
    ensures var bs := EncodeVarint(u) + tail;
            && bs[0] % 128 == u % 128 && (bs[0] < 128 <==> u < 128)
            && bs[1..] == if u < 128 then tail else EncodeVarint(u / 128) + tail
  {
    var head, rest := if u < 128 then u else u % 128 + 128, if u < 128 then [] else EncodeVarint(u / 128);
    assert EncodeVarint(u) == [head] + rest;
    HeadAndRest(head, rest, tail);
    assert [] + tail == tail;
  }

  lemma HeadAndRest(head: Byte, rest: seq<Byte>, tail: seq<Byte>)
    ensures ([head] + rest + tail)[0] == head && ([head] + rest + tail)[1..] == rest + tail
  {
  }

  lemma {:induction false} VarintRoundTripFrom(u: nat, bits: nat, shift: nat, acc: nat, tail: seq<Byte>)
    requires bits >= 1 && (shift == 0 || u >= 1)
    requires acc + u * Pow2(shift) < Pow2(bits)
    ensures DecodeVarintFrom(EncodeVarint(u) + tail, bits, shift, acc) == Some((acc + u * Pow2(shift), tail))
    decreases u
  {
    hide Pow2;
    VarintStep(u, bits, shift, acc);
    VarintFirst(u, tail);
    if u >= 128 {
      MulLe(0, u % 128, Pow2(shift));
      VarintRoundTripFrom(u / 128, bits, shift + 7, acc + (u % 128) * Pow2(shift), tail);
    }
  }

  lemma VarintRoundTrip(v: nat, bits: nat, tail: seq<Byte>)
    requires bits >= 1 && v < Pow2(bits)
    ensures DecodeVarint(EncodeVarint(v) + tail, bits) == Some((v, tail))
  {
    hide DecodeVarintFrom, EncodeVarint;
    assert v * Pow2(0) == v;
    VarintRoundTripFrom(v, bits, 0, 0, tail);
  }

  // ---------- zigzag ----------

  function EncodeZigZag(v: int): nat
  {
    if v >= 0 then 2 * v else -2 * v - 1
  }

  function DecodeZigZag(n: nat): int
  {
    if n % 2 == 0 then n / 2 else -(n / 2) - 1
  }

  // Zigzag is a bijection that maps the signed `bits`-bit range onto the unsigned one.
  lemma ZigZagRoundTrip(v: int, bits: nat)
    requires bits >= 1
    ensures DecodeZigZag(EncodeZigZag(v)) == v
    ensures -Pow2(bits - 1) <= v < Pow2(bits - 1) <==> EncodeZigZag(v) < Pow2(bits)
  {
    assert Pow2(bits) == 2 * Pow2(bits - 1);
  }

  // ---------- outcomes of a decode loop ----------

  // Values already decoded, joined with the outcome of the rest.
  function Join<T>(done: seq<T>, rest: Option<seq<T>>): Option<seq<T>>
  {
    match rest
    case None => None
    case Some(vs) => Some(done + vs)
  }

  lemma JoinUnits<T>(a: seq<T>, rest: Option<seq<T>>)
    ensures Join([], rest) == rest && Join(a, Some([])) == Some(a) && Join(a, None) == None
  {
    assert a + [] == a;
    assert rest.Some? ==> [] + rest.value == rest.value;
  }

  lemma JoinJoin<T>(a: seq<T>, b: seq<T>, rest: Option<seq<T>>)
    ensures Join(a, Join(b, rest)) == Join(a + b, rest)
  {
    if rest.Some? {
      assert a + (b + rest.value) == (a + b) + rest.value;
    }
  }
}
