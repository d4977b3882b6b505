/** Simple8B V1: values (zigzagged when signed) packed greedily; a stretch of 120 or 240 equal values is
    written as one word. The decoder trusts the stream not to overrun its output buffer. */
module Simple8BV1 {
  import opened Words
  import opened Simple8BWords
  import opened Simple8BV2

  // ---------- what a word stands for ----------

  function WordItems1(word: Word): (items: seq<nat>)
    ensures |items| == GroupSize(Selector(word))
  {
    if Selector(word) <= 1 then seq(GroupSize(Selector(word)), _ => Payload(word))
    else PackedItems(word)
  }

  function ToItem(t: IntType, x: int): nat
    requires t.Valid() && t.Holds(x)
  {
    if t.signed then EncodeZigZag(x) else x
  }

  function FromItem(t: IntType, item: nat): int
    requires t.Valid()
  {
    var u := item % Pow2(t.Bits());
    if t.signed then DecodeZigZag(u) else u
  }

  lemma ItemRoundTrip(t: IntType, x: int)
    requires t.Valid() && t.Holds(x)
    ensures FromItem(t, ToItem(t, x)) == x
  {
    ZigZagRoundTrip(x, t.Bits());
    assert Pow2(t.Bits()) == 2 * t.Half();
    DivModUnique(0, ToItem(t, x), Pow2(t.Bits()));
  }

  function ToItems(t: IntType, data: seq<int>, i: nat, j: nat): (items: seq<nat>)
    requires Column(t, data) && i <= j <= |data|
    ensures |items| == j - i
  {
    seq<nat>(j - i, k requires 0 <= k < j - i => ToItem(t, data[i + k]))
  }

  predicate Encodable1(t: IntType, data: seq<int>)
    requires Column(t, data)
  {
    forall k :: 0 <= k < |data| ==> ToItem(t, data[k]) < TWO_60
  }

  // ---------- decoding ----------

  // The groups the decoder visits never reach past slot `need`.
  predicate NoOverrun(words: seq<Word>, need: nat)
  {
    words == [] || need == 0
    || (GroupSize(Selector(words[0])) <= need && NoOverrun(words[1..], need - GroupSize(Selector(words[0]))))
  }

  // The items of the words the decoder visits: it stops once `need` slots are filled.
  function Visited(words: seq<Word>, need: nat): (items: seq<nat>)
    requires NoOverrun(words, need)
    ensures |items| <= need
  {
    if words == [] || need == 0 then []
    else WordItems1(words[0]) + Visited(words[1..], need - GroupSize(Selector(words[0])))
  }

  function FromItems(t: IntType, items: seq<nat>): seq<int>
    requires t.Valid()
  {
    seq(|items|, k requires 0 <= k < |items| => FromItem(t, items[k]))
  }

  function ReadWords(bs: seq<Byte>): seq<Word>
  {
    if |bs| < 8 then [] else [NextWord(bs)] + ReadWords(bs[8..])
  }

  lemma {:induction false} ReadWordsOfBytes(words: seq<Word>)
    ensures ReadWords(WordBytes(words)) == words && |WordBytes(words)| % 8 == 0
  {
    if words != [] {
      FirstWord(words);
      ReadWordsOfBytes(words[1..]);
    }
  }

  method DecodeWord1(t: IntType, word: Word, out: array<int>, idx: nat) returns (idx': nat)
    requires t.Valid() && idx + GroupSize(Selector(word)) <= out.Length
    modifies out
    ensures idx' == idx + GroupSize(Selector(word))
    ensures out[..idx'] == old(out[..idx]) + FromItems(t, WordItems1(word))
  {
    hide FromItem;
    var n, i := GroupSize(Selector(word)), 0;
    idx' := idx;
    while i < n
      invariant 0 <= i <= n && idx' == idx + i
      invariant out[..idx] == old(out[..idx])
      invariant forall k :: 0 <= k < i ==> out[idx + k] == FromItem(t, WordItems1(word)[k])
    {
      var item := if Selector(word) <= 1 then Payload(word)
                  else ItemAt(Payload(word) / Pow2(60 % n), n, ItemWidth(Selector(word)), i);
      assert item == WordItems1(word)[i];
      out[idx'] := FromItem(t, item);
      i, idx' := i + 1, idx' + 1;
    }
    assert out[..idx'] == out[..idx] + FromItems(t, WordItems1(word));
  }

  lemma FromItemsConcat(t: IntType, a: seq<nat>, b: seq<nat>)
    requires t.Valid()
    ensures FromItems(t, a + b) == FromItems(t, a) + FromItems(t, b)
  {
    hide FromItem;
  }

  lemma VisitStep(t: IntType, done: seq<int>, bs: seq<Byte>, need: nat)
    requires t.Valid() && |bs| >= 8 && need > 0 && NoOverrun(ReadWords(bs), need)
    ensures var n := GroupSize(Selector(NextWord(bs)));
            && n <= need && NoOverrun(ReadWords(bs[8..]), need - n)
            && done + FromItems(t, Visited(ReadWords(bs), need))
               == (done + FromItems(t, WordItems1(NextWord(bs)))) + FromItems(t, Visited(ReadWords(bs[8..]), need - n))
  {
    hide FromItems, NextWord, WordItems1, GroupSize;
    var word := NextWord(bs);
    assert ReadWords(bs)[1..] == ReadWords(bs[8..]);
    FromItemsConcat(t, WordItems1(word), Visited(ReadWords(bs[8..]), need - GroupSize(Selector(word))));
  }

  /** Fails only when the length is not a multiple of 8; otherwise the output starts with the items of
      the visited words. `requires` is what the source leaves to its caller: no group may overrun. */
  method Decompress1(t: IntType, bs: seq<Byte>, count: nat) returns (ok: bool, out: seq<int>)
    requires t.Valid() && NoOverrun(ReadWords(bs), count)
    ensures ok <==> |bs| % 8 == 0
    ensures ok ==> |out| == count && FromItems(t, Visited(ReadWords(bs), count)) <= out
  {
    hide FromItem, FromItems, Visited, NextWord, ReadWords, WordItems1, NoOverrun, GroupSize, IntType.Valid;
    if |bs| % 8 != 0 {
      return false, [];
    }
    var buffer := new int[count];
    var idx, cursor := 0, bs;
    while |cursor| > 0 && idx < count
      invariant |cursor| % 8 == 0 && 0 <= idx <= count == buffer.Length
      invariant NoOverrun(ReadWords(cursor), count - idx)
      invariant FromItems(t, Visited(ReadWords(bs), count))
             == buffer[..idx] + FromItems(t, Visited(ReadWords(cursor), count - idx))
      decreases |cursor|
    {
      VisitStep(t, buffer[..idx], cursor, count - idx);
      idx := DecodeWord1(t, NextWord(cursor), buffer, idx);
      cursor := cursor[8..];
    }
    VisitEnd(t, cursor, count - idx);
    assert buffer[..idx] + [] == buffer[..idx] <= buffer[..];
    return true, buffer[..];
  }

  lemma VisitEnd(t: IntType, bs: seq<Byte>, need: nat)
    requires t.Valid() && NoOverrun(ReadWords(bs), need) && (|bs| == 0 || need == 0)
    ensures FromItems(t, Visited(ReadWords(bs), need)) == []
  {
  }

  // ---------- encoding ----------

  predicate AllSame(t: IntType, data: seq<int>, i: nat, j: nat)
    requires Column(t, data)
  {
    i < j <= |data| && forall k :: i <= k < j ==> ToItem(t, data[k]) == ToItem(t, data[i])
  }

  predicate GroupFits1(t: IntType, data: seq<int>, i: nat, j: nat, selector: nat)
    requires Column(t, data)
  {
    && i <= j <= |data| && 2 <= selector <= 15
    && forall k :: i <= k < j ==> ValidBits(ToItem(t, data[k])) <= ItemWidth(selector)
  }

  // The inner loop: how far from i equal values or a packed group reach.
  method ScanGroup1(t: IntType, data: seq<int>, i: nat) returns (ok: bool, j: nat, selector: nat)
    requires Column(t, data) && i < |data|
    ensures !ok ==> !Encodable1(t, data)
    ensures ok ==> i < j <= |data| && j - i <= 240 && GroupFits1(t, data, i, j, selector)
    ensures ok && j - i >= 120 ==> AllSame(t, data, i, j)
  {
    hide ToItem, ValidBits, ItemWidth, IntType.Valid, IntType.Holds;
    var header := ToItem(t, data[i]);
    Bits60(header);
    if ValidBits(header) > 60 {
      return false, i, 2;
    }
    selector := SelectorFor(ValidBits(header));
    SelectorFits(ValidBits(header));
    var allSame := true;
    j := i + 1;
    while j < |data|
      invariant i < j <= |data| && GroupFits1(t, data, i, j, selector)
      invariant allSame ==> AllSame(t, data, i, j) && j - i <= 240
      invariant !allSame ==> j - i <= GroupSize(selector)
    {
      var item := ToItem(t, data[j]);
      allSame := allSame && item == header;
      if allSame && j - i < GroupSize(0) {
        j := j + 1;
        continue;
      }
      if j - i >= GroupSize(selector) {
        break;
      }
      Bits60(item);
      if ValidBits(item) > 60 {
        return false, j, selector;
      }
      var current := SelectorFor(ValidBits(item));
      SelectorFits(ValidBits(item));
      TablesMonotone(current, selector);
      TablesMonotone(selector, current);
      if GroupSize(current) < GroupSize(selector) {
        if j - i + 1 <= GroupSize(current) {
          selector := current;
          j := j + 1;
          continue;
        }
        break;
      }
      j := j + 1;
    }
    ok := true;
  }

  method PackGroup1(t: IntType, data: seq<int>, i: nat, selector: nat) returns (word: Word)
    requires Column(t, data) && 2 <= selector <= 15 && GroupFits1(t, data, i, i + GroupSize(selector), selector)
    ensures WordItems1(word) == ToItems(t, data, i, i + GroupSize(selector))
  {
    hide ToItem, ValidBits, IntType.Valid, IntType.Holds;
    var w, n := ItemWidth(selector), GroupSize(selector);
    PaddingAgrees(selector);
    GroupBelow1(t, data, i, selector);
    var batch, k := selector, 0;
    while k < n
      invariant 0 <= k <= n && batch == Pack(selector, ToItems(t, data, i, i + k), w)
    {
      MulLe(0, batch, Pow2(w));
      assert ToItems(t, data, i, i + k + 1)[..k] == ToItems(t, data, i, i + k);
      assert ToItems(t, data, i, i + n)[k] == ToItem(t, data[i + k]);
      DivModUnique(0, ToItem(t, data[i + k]), Pow2(w));
      batch := batch * Pow2(w) + ToItem(t, data[i + k]) % Pow2(w);
      k := k + 1;
    }
    PackedWord(selector, ToItems(t, data, i, i + n));
    word := batch * Pow2(60 % n);
  }

  lemma GroupBelow1(t: IntType, data: seq<int>, i: nat, selector: nat)
    requires Column(t, data) && 2 <= selector <= 15 && GroupFits1(t, data, i, i + GroupSize(selector), selector)
    ensures AllBelow(ToItems(t, data, i, i + GroupSize(selector)), Pow2(ItemWidth(selector)))
  {
    hide ToItem, ValidBits, IntType.Valid, IntType.Holds;
    PaddingAgrees(selector);
    var items := ToItems(t, data, i, i + GroupSize(selector));
    forall k | 0 <= k < |items|
      ensures items[k] < Pow2(ItemWidth(selector))
    {
      ValidBitsBound(items[k], ItemWidth(selector));
    }
  }

  lemma ToItemsConcat(t: IntType, data: seq<int>, i: nat, j: nat, k: nat)
    requires Column(t, data) && i <= j <= k <= |data|
    ensures ToItems(t, data, i, k) == ToItems(t, data, i, j) + ToItems(t, data, j, k)
  {
    hide ToItem, IntType.Valid, IntType.Holds;
  }

  // Packs whole groups of one selector for as long as they fit.
  method EmitPacked(t: IntType, data: seq<int>, i: nat, j: nat, selector: nat, words0: seq<Word>)
    returns (next: nat, words: seq<Word>)
    requires Column(t, data) && GroupFits1(t, data, i, j, selector)
    requires AllItems(WordItems1, words0) == ToItems(t, data, 0, i)
    ensures i <= next <= j && (j - i >= GroupSize(selector) ==> i < next)
    ensures AllItems(WordItems1, words) == ToItems(t, data, 0, next)
  {
    hide ToItem, ValidBits, ItemWidth, IntType.Valid, IntType.Holds, WordItems1, AllItems;
    PaddingAgrees(selector);
    next, words := i, words0;
    while j - next >= GroupSize(selector)
      invariant i <= next <= j && AllItems(WordItems1, words) == ToItems(t, data, 0, next)
      invariant next == i || i < next
    {
      assert GroupFits1(t, data, next, next + GroupSize(selector), selector);
      var word := PackGroup1(t, data, next, selector);
      AllItemsAppend(WordItems1, words, word);
      ToItemsConcat(t, data, 0, next, next + GroupSize(selector));
      words, next := words + [word], next + GroupSize(selector);
    }
  }

  // One round of the outer loop: a word for 240 or 120 equal values, then packed groups.
  method EmitGroups(t: IntType, data: seq<int>, i: nat, j: nat, selector0: nat, words0: seq<Word>)
    returns (next: nat, words: seq<Word>)
    requires Column(t, data) && i < j && j - i <= 240 && GroupFits1(t, data, i, j, selector0)
    requires ToItem(t, data[i]) < TWO_60 && (j - i >= 120 ==> AllSame(t, data, i, j))
    requires AllItems(WordItems1, words0) == ToItems(t, data, 0, i)
    ensures i < next <= j && AllItems(WordItems1, words) == ToItems(t, data, 0, next)
  {
    hide ToItem, ValidBits, ItemWidth, IntType.Valid, IntType.Holds, AllItems;
    next, words := i, words0;
    var selector, sameRun := selector0, j - i >= 120;
    if sameRun {
      var special := if j - i == 240 then 0 else 1;
      var word: Word := special * TWO_60 + ToItem(t, data[i]);
      next := i + GroupSize(special);
      assert Selector(word) == special && Payload(word) == ToItem(t, data[i]);
      assert WordItems1(word) == ToItems(t, data, i, next);
      AllItemsAppend(WordItems1, words, word);
      ToItemsConcat(t, data, 0, i, next);
      words := words + [word];
      if next == j {
        return;
      }
    } else {
      while j - i < GroupSize(selector)
        invariant GroupFits1(t, data, i, j, selector)
        decreases 15 - selector
      {
        TablesMonotone(selector, selector + 1);
        selector := selector + 1;
      }
    }
    assert GroupFits1(t, data, next, j, selector);
    next, words := EmitPacked(t, data, next, j, selector, words);
  }

  // When the items of the words are exactly the column, the decoder's visit ends with the last word.
  lemma {:induction false} VisitsAll(words: seq<Word>)
    ensures NoOverrun(words, |AllItems(WordItems1, words)|)
    ensures Visited(words, |AllItems(WordItems1, words)|) == AllItems(WordItems1, words)
  {
    hide WordItems1, GroupSize;
    if words != [] {
      VisitsAll(words[1..]);
      assert |AllItems(WordItems1, words)| == GroupSize(Selector(words[0])) + |AllItems(WordItems1, words[1..])|;
    }
  }

  /** Fails exactly when some value needs more than 60 bits. Otherwise the group sizes add up to the
      number of values, so decoding never overruns, and it gives back the column. */
  method Compress1(t: IntType, data: seq<int>) returns (ok: bool, out: seq<Byte>)
    requires Column(t, data)
    ensures ok <==> Encodable1(t, data)
    ensures ok ==> |out| % 8 == 0 && NoOverrun(ReadWords(out), |data|)
    ensures ok ==> FromItems(t, Visited(ReadWords(out), |data|)) == data
  {
    hide ToItem, ValidBits, ItemWidth, IntType.Valid, IntType.Holds, WordItems1, AllItems, NoOverrun, Visited,
         ReadWords;
    var i := 0;
    var words: seq<Word> := [];
    NoWords(WordItems1);
    while i < |data|
      invariant 0 <= i <= |data| && AllItems(WordItems1, words) == ToItems(t, data, 0, i)
      invariant forall k :: 0 <= k < i ==> ToItem(t, data[k]) < TWO_60
    {
      var j, selector;
      ok, j, selector := ScanGroup1(t, data, i);
      if !ok {
        return false, [];
      }
      GroupBelow60(t, data, i, j, selector);
      i, words := EmitGroups(t, data, i, j, selector, words);
    }
    ok, out := true, WordBytes(words);
    ReadWordsOfBytes(words);
    VisitsAll(words);
    ItemsRoundTrip(t, data);
  }

  lemma GroupBelow60(t: IntType, data: seq<int>, i: nat, j: nat, selector: nat)
    requires Column(t, data) && GroupFits1(t, data, i, j, selector)
    ensures forall k :: i <= k < j ==> ToItem(t, data[k]) < TWO_60
  {
    hide ToItem, ValidBits, IntType.Valid, IntType.Holds;
    forall k | i <= k < j
      ensures ToItem(t, data[k]) < TWO_60
    {
      Bits60(ToItem(t, data[k]));
    }
  }

  lemma ItemsRoundTrip(t: IntType, data: seq<int>)
    requires Column(t, data)
    ensures FromItems(t, ToItems(t, data, 0, |data|)) == data
  {
    hide ToItem, FromItem, IntType.Valid, IntType.Holds;
    forall k | 0 <= k < |data|
      ensures FromItem(t, ToItem(t, data[k])) == data[k]
    {
      ItemRoundTrip(t, data[k]);
    }
  }

  // The two halves together.
  method RoundTrip1(t: IntType, data: seq<int>) returns (ok: bool, back: seq<int>)
    requires Column(t, data)
    ensures ok <==> Encodable1(t, data)
    ensures ok ==> back == data
  {
    hide NoOverrun, Visited, ReadWords, FromItems;
    var bytes, decoded;
    ok, bytes := Compress1(t, data);
    if !ok {
      return false, [];
    }
    decoded, back := Decompress1(t, bytes, |data|);
  }
}
