/** Concatenating a sequence of sequences. */
module Seqs {

  function Flat<T>(parts: seq<seq<T>>): seq<T>
  {
    if parts == [] then [] else parts[0] + Flat(parts[1..])
  }

  lemma {:induction false} FlatConcat<T>(a: seq<seq<T>>, b: seq<seq<T>>)
    ensures Flat(a + b) == Flat(a) + Flat(b)
  {
    if a == [] {
      assert a + b == b;
    } else {
      assert (a + b)[1..] == a[1..] + b;
      FlatConcat(a[1..], b);
      assert a[0] + (Flat(a[1..]) + Flat(b)) == (a[0] + Flat(a[1..])) + Flat(b);
    }
  }

  lemma FlatPush<T>(a: seq<seq<T>>, s: seq<T>)
    ensures Flat(a + [s]) == Flat(a) + s
  {
    FlatConcat(a, [s]);
    assert Flat([s]) == s + Flat([]) == s;
  }

  lemma FlatPrefix<T>(a: seq<seq<T>>, n: nat)
    requires n <= |a|
    ensures Flat(a[..n]) <= Flat(a)
  {
    assert a == a[..n] + a[n..];
    FlatConcat(a[..n], a[n..]);
  }

  lemma FlatNone<T>()
    ensures Flat<T>([]) == []
  {
  }
}
