/** Bit streams, most significant bit first: what TsBitWriter::WriteBits appends and what
    TsBitReader::ReadBits takes off the front. */
module BitStream {
  import opened Words

  type Bits = seq<bool>

  // The n low bits of v, as WriteBits(n, v) appends them.
  function NatBits(n: nat, v: nat): (b: Bits)
    ensures |b| == n
  {
    if n == 0 then [] else NatBits(n - 1, v / 2) + [v % 2 == 1]
  }

  // The value ReadBits returns for these bits.
  function BitsNat(b: Bits): nat
  {
    if b == [] then 0 else 2 * BitsNat(b[..|b| - 1]) + (if b[|b| - 1] then 1 else 0)
  }

  lemma {:induction false} BitsRoundTrip(n: nat, v: nat)
    requires v < Pow2(n)
    ensures BitsNat(NatBits(n, v)) == v
  {
    if n > 0 {
      BitsRoundTrip(n - 1, v / 2);
      assert NatBits(n, v)[..n - 1] == NatBits(n - 1, v / 2);
    }
  }

  lemma {:induction false} BitsNatBound(b: Bits)
    ensures BitsNat(b) < Pow2(|b|)
  {
    if b != [] {
      BitsNatBound(b[..|b| - 1]);
    }
  }

  // One WriteBits of a value assembled by shifting equals writing the parts in turn.
  lemma {:induction false} NatBitsConcat(m: nat, a: nat, n: nat, b: nat)
    requires b < Pow2(n)
    ensures a * Pow2(n) >= 0 && NatBits(m + n, a * Pow2(n) + b) == NatBits(m, a) + NatBits(n, b)
  {
    if n == 0 {
      assert NatBits(m, a) + [] == NatBits(m, a);
    } else {
      NatBitsConcat(m, a, n - 1, b / 2);
      assert a * Pow2(n) == 2 * (a * Pow2(n - 1));
      var v := a * Pow2(n) + b;
      assert v / 2 == a * Pow2(n - 1) + b / 2 && v % 2 == b % 2;
    }
  }

  function Zeros(n: nat): (b: Bits)
    ensures |b| == n
  {
    seq(n, _ => false)
  }

  function Xor(a: Bits, b: Bits): (c: Bits)
    requires |a| == |b|
    ensures |c| == |a|
  {
    seq(|a|, i requires 0 <= i < |a| => a[i] != b[i])
  }

  // Undoing an xor, and the only way an xor can vanish.
  lemma XorUndo(a: Bits, b: Bits)
    requires |a| == |b|
    ensures Xor(a, Xor(b, a)) == b
    ensures Xor(b, a) == Zeros(|a|) <==> a == b
  {
    if Xor(b, a) == Zeros(|a|) {
      forall i | 0 <= i < |a|
        ensures a[i] == b[i]
      {
        assert Xor(b, a)[i] == Zeros(|a|)[i];
      }
    }
  }

  // __builtin_clz and __builtin_ctz on a word that is not all zeros.
  function LeadingZeros(b: Bits): (n: nat)
    requires b != Zeros(|b|)
    ensures n < |b| && b[..n] == Zeros(n) && b[n]
  {
    assert |b| > 0;
    if b[0] then 0
    else
      assert [false] + Zeros(|b| - 1) == Zeros(|b|) && b == [b[0]] + b[1..];
      var n := LeadingZeros(b[1..]);
      assert b[..n + 1] == [false] + b[1..][..n];
      n + 1
  }

  function TrailingZeros(b: Bits): (n: nat)
    requires b != Zeros(|b|)
    ensures n < |b| && b[|b| - n..] == Zeros(n) && b[|b| - 1 - n]
  {
    assert |b| > 0;
    var k := |b| - 1;
    if b[k] then 0
    else
      assert Zeros(k) + [false] == Zeros(|b|) && b == b[..k] + [b[k]];
      var n := TrailingZeros(b[..k]);
      assert b[k - n..] == b[..k][k - n..] + [false];
      n + 1
  }
}
