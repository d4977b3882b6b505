/** Simple8B V2: delta-of-delta values, zigzagged, then either run-length coded (selector 0) or packed
    (selectors 2 to 15) by a greedy encoder. The encoder and decoder keep the source's loops; the round
    trip goes through the items each 64-bit word stands for. */
module Simple8BV2 {
  import opened Words
  import opened Simple8BWords

  const RUN_LENGTH_LIMIT: nat := 0xFFFF
  const TWO_44: nat := 0x1000_0000_0000

  // The element type T of the column.
  datatype IntType = IntType(signed: bool, bytes: nat) {
    predicate Valid() { bytes == 1 || bytes == 2 || bytes == 4 || bytes == 8 }

    function Bits(): nat { 8 * bytes }

    function Half(): (h: int)
      requires Valid()
      ensures h >= 1
    {
      Pow2(Bits() - 1)
    }

    predicate Holds(x: int)
      requires Valid()
    {
      if signed then -Half() <= x < Half() else 0 <= x < 2 * Half()
    }

    // Conversion of an arbitrary integer to T.
    function Wrap(x: int): int
      requires Valid()
    {
      if signed then SignedWrap(Bits(), x) else x % Pow2(Bits())
    }

    // Width of the type in which CheckedSubForS8B forms a difference.
    function DiffBits(): (n: nat)
      requires Valid()
      ensures n >= 8
    {
      if signed then 64 else Bits()
    }

    // A difference of signed values has to fit 64 bits, one of unsigned values the signed type of their width.
    predicate DiffOk(a: int, b: int)
      requires Valid()
    {
      if signed then -TWO_63 <= a - b < TWO_63 else -Half() <= a - b < Half()
    }
  }

  lemma WrapHolds(t: IntType, x: int)
    requires t.Valid() && t.Holds(x)
    ensures t.Wrap(x) == x
  {
    if t.signed {
      SignedWrapId(t.Bits(), x);
    } else {
      assert Pow2(t.Bits()) == 2 * t.Half();
      DivModUnique(0, x, Pow2(t.Bits()));
    }
  }

  // The difference and an overflow flag. The unsigned case reads the wrapped difference as signed and
  // decides overflow from its sign.
  function CheckedSub(t: IntType, a: int, b: int): (int, bool)
    requires t.Valid()
  {
    var diff := SignedWrap(t.DiffBits(), a - b);
    if t.signed then (diff, diff != a - b)
    else (diff, (a > b && diff < 0) || (a < b && diff > 0))
  }

  lemma DiffOkIs(t: IntType, a: int, b: int)
    requires t.Valid()
    ensures t.DiffOk(a, b) <==> -Pow2(t.DiffBits() - 1) <= a - b < Pow2(t.DiffBits() - 1)
  {
    hide Pow2;
    Pow2Values();
  }

  // The sign test is exact: it reports overflow precisely when the difference does not fit.
  lemma CheckedSubExact(t: IntType, a: int, b: int)
    requires t.Valid() && t.Holds(a) && t.Holds(b)
    ensures CheckedSub(t, a, b).1 <==> !t.DiffOk(a, b)
    ensures t.DiffOk(a, b) ==> CheckedSub(t, a, b).0 == a - b
  {
    hide IntType.DiffOk;
    var n := t.DiffBits();
    DiffOkIs(t, a, b);
    if t.DiffOk(a, b) {
      SignedWrapId(n, a - b);
    } else if t.signed {
      SignedWrapRange(n, a - b);
    } else {
      SignedWrapOnce(n, a - b);
    }
  }

  // ---------- what the encoder accepts ----------

  function Dod(data: seq<int>, k: nat): int
    requires 2 <= k < |data|
  {
    (data[k] - data[k - 1]) - (data[k - 1] - data[k - 2])
  }

  function Item(data: seq<int>, k: nat): nat
    requires 2 <= k < |data|
  {
    EncodeZigZag(Dod(data, k))
  }

  predicate ElementOk(t: IntType, data: seq<int>, k: nat)
    requires t.Valid() && 2 <= k < |data|
  {
    t.DiffOk(data[k], data[k - 1]) && Item(data, k) < TWO_60
  }

  // Every difference fits its type and every zigzagged second difference fits 60 bits.
  predicate Encodable(t: IntType, data: seq<int>)
    requires t.Valid()
  {
    && (|data| >= 2 ==> t.DiffOk(data[1], data[0]))
    && forall k :: 2 <= k < |data| ==> ElementOk(t, data, k)
  }

  predicate Column(t: IntType, data: seq<int>)
  {
    t.Valid() && forall k :: 0 <= k < |data| ==> t.Holds(data[k])
  }

  // ---------- what a word stands for ----------

  function WordItems(word: Word): seq<nat>
  {
    if Selector(word) == 0 then seq(Payload(word) / TWO_44, _ => Payload(word) % TWO_44)
    else PackedItems(word)
  }

  // ---------- decoding, as a function ----------

  // The decoder's running delta (an int64) and running value (a T).
  datatype Cursor = Cursor(delta: int, value: int)

  function Advance(t: IntType, c: Cursor, item: nat): Cursor
    requires t.Valid()
  {
    var d := WrapInt64(c.delta + DecodeZigZag(item));
    Cursor(d, t.Wrap(c.value + d))
  }

  function After(t: IntType, c: Cursor, items: seq<nat>): Cursor
    requires t.Valid()
  {
    if items == [] then c
    else Advance(t, After(t, c, items[..|items| - 1]), items[|items| - 1])
  }

  function Values(t: IntType, c: Cursor, items: seq<nat>): (vs: seq<int>)
    requires t.Valid()
    ensures |vs| == |items|
  {
    if items == [] then [] else Values(t, c, items[..|items| - 1]) + [After(t, c, items).value]
  }

  function Prefix<T>(s: seq<T>, n: nat): (p: seq<T>)
    ensures |p| == if n <= |s| then n else |s|
  {
    if n <= |s| then s[..n] else s
  }

  // The values decoded from the words in bs until `need` of them are there; None when the input runs
  // out first or bytes are left over.
  function DecodeBody(t: IntType, c: Cursor, need: nat, bs: seq<Byte>): Option<seq<int>>
    requires t.Valid()
    decreases |bs|
  {
    if |bs| < 8 || need == 0 then
      if need == 0 && bs == [] then Some([]) else None
    else
      var items := Prefix(WordItems(NextWord(bs)), need);
      Join(Values(t, c, items), DecodeBody(t, After(t, c, items), need - |items|, bs[8..]))
  }

  // The first value: a varint, two little-endian bytes or one byte, by the size of T.
  function ReadFirst(t: IntType, bs: seq<Byte>): Option<(int, seq<Byte>)>
    requires t.Valid()
  {
    if t.bytes >= 4 then
      match DecodeVarint(bs, t.Bits())
      case None => None
      case Some((v, rest)) => Some((if t.signed then DecodeZigZag(v) else v, rest))
    else if |bs| < t.bytes then None
    else Some((t.Wrap(FromLE(bs[..t.bytes])), bs[t.bytes..]))
  }

  function Decode(t: IntType, bs: seq<Byte>, count: nat): Option<seq<int>>
    requires t.Valid()
  {
    if count == 0 then Some([]) else
    match ReadFirst(t, bs)
    case None => None
    case Some((first, rest)) =>
      if count == 1 then (if rest == [] then Some([first]) else None)
      else DecodeTail(t, first, rest, count)
  }

  function DecodeTail(t: IntType, first: int, bs: seq<Byte>, count: nat): Option<seq<int>>
    requires t.Valid() && count >= 2
  {
    match DecodeVarint(bs, 64)
    case None => None
    case Some((v, body)) =>
      var delta := DecodeZigZag(v);
      var second := t.Wrap(first + delta);
      Join([first, second], DecodeBody(t, Cursor(delta, second), count - 2, body))
  }

  // ---------- the decoder ----------

  // One word, item by item, into the output buffer: `idx` is the next free slot.
  method DecodeWord(t: IntType, word: Word, c: Cursor, out: array<int>, idx: nat) returns (c': Cursor, idx': nat)
    requires t.Valid() && idx < out.Length
    modifies out
    ensures out[..idx] == old(out[..idx])
    ensures var items := Prefix(WordItems(word), out.Length - idx);
            idx' == idx + |items| && c' == After(t, c, items) && out[idx..idx'] == Values(t, c, items)
  {
    hide WordItems, ItemOf, Selector, Payload, GroupSize, Advance, IntType.Valid;
    ghost var items := Prefix(WordItems(word), out.Length - idx);
    ItemCount(word);
    c', idx' := c, idx;
    var n, i := if Selector(word) == 0 then Payload(word) / TWO_44 else GroupSize(Selector(word)), 0;
    while i < n && idx' < out.Length
      invariant i <= n == |WordItems(word)| && idx' == idx + i <= out.Length
      invariant out[..idx] == old(out[..idx])
      invariant c' == After(t, c, items[..i]) && out[idx..idx'] == Values(t, c, items[..i])
    {
      var item := ItemOf(word, i);
      assert items[i] == item && items[..i + 1][..i] == items[..i];
      c' := Advance(t, c', item);
      out[idx'] := c'.value;
      assert out[idx..idx' + 1] == out[idx..idx'] + [c'.value];
      i, idx' := i + 1, idx' + 1;
    }
    assert items[..i] == items;
  }

  lemma ItemCount(word: Word)
    ensures |WordItems(word)| == if Selector(word) == 0 then Payload(word) / TWO_44 else GroupSize(Selector(word))
  {
  }

  function ItemOf(word: Word, i: nat): (item: nat)
    requires i < |WordItems(word)|
    ensures item == WordItems(word)[i]
  {
    if Selector(word) == 0 then Payload(word) % TWO_44
    else
      var s := Selector(word);
      ItemAt(Payload(word) / Pow2(60 % GroupSize(s)), GroupSize(s), ItemWidth(s), i)
  }

  lemma BodyStep(t: IntType, done: seq<int>, c: Cursor, need: nat, bs: seq<Byte>)
    requires t.Valid() && |bs| >= 8 && need > 0
    ensures var items := Prefix(WordItems(NextWord(bs)), need);
            Join(done, DecodeBody(t, c, need, bs))
            == Join(done + Values(t, c, items), DecodeBody(t, After(t, c, items), need - |items|, bs[8..]))
  {
    hide After, Values, WordItems, NextWord, Prefix;
    var items := Prefix(WordItems(NextWord(bs)), need);
    JoinJoin(done, Values(t, c, items), DecodeBody(t, After(t, c, items), need - |items|, bs[8..]));
  }

  lemma BodyEnd(t: IntType, done: seq<int>, c: Cursor, need: nat, bs: seq<Byte>)
    requires t.Valid() && (|bs| < 8 || need == 0)
    ensures Join(done, DecodeBody(t, c, need, bs)) == if need == 0 && bs == [] then Some(done) else None
  {
    JoinUnits(done, None);
  }

  method DecompressWords(t: IntType, first: int, delta: int, body: seq<Byte>, count: nat)
    returns (r: Option<seq<int>>)
    requires t.Valid() && count >= 2
    ensures var second := t.Wrap(first + delta);
            r == Join([first, second], DecodeBody(t, Cursor(delta, second), count - 2, body))
  {
    hide After, Values, WordItems, NextWord, Prefix, Join, DecodeBody, IntType.Wrap, IntType.Valid;
    var out := new int[count];
    var c := Cursor(delta, t.Wrap(first + delta));
    out[0], out[1] := first, c.value;
    var idx, cursor := 2, body;
    assert out[..2] == [first, c.value];
    while |cursor| >= 8 && idx < count
      invariant 2 <= idx <= count == out.Length
      invariant Join([first, t.Wrap(first + delta)],
                     DecodeBody(t, Cursor(delta, t.Wrap(first + delta)), count - 2, body))
             == Join(out[..idx], DecodeBody(t, c, count - idx, cursor))
      decreases |cursor|
    {
      BodyStep(t, out[..idx], c, count - idx, cursor);
      ghost var done, idx0 := out[..idx], idx;
      c, idx := DecodeWord(t, NextWord(cursor), c, out, idx);
      assert out[..idx] == done + out[idx0..idx];
      cursor := cursor[8..];
    }
    BodyEnd(t, out[..idx], c, count - idx, cursor);
    assert idx == count ==> out[..idx] == out[..];
    r := if idx == count && cursor == [] then Some(out[..]) else None;
  }

  method Decompress(t: IntType, bs: seq<Byte>, count: nat) returns (r: Option<seq<int>>)
    requires t.Valid()
    ensures r == Decode(t, bs, count)
  {
    hide DecodeBody, ReadFirst, DecodeVarint, Join, IntType.Wrap, IntType.Valid;
    if count == 0 {
      return Some([]);
    }
    var first := ReadFirst(t, bs);
    if first == None {
      return None;
    }
    var cursor := first.value.1;
    if count == 1 {
      return if cursor == [] then Some([first.value.0]) else None;
    }
    var v := DecodeVarint(cursor, 64);
    if v == None {
      return None;
    }
    cursor := v.value.1;
    var delta := DecodeZigZag(v.value.0);
    r := DecompressWords(t, first.value.0, delta, cursor, count);
  }

  // ---------- exactness: decoding the items of an encodable column gives the column ----------

  function Items(data: seq<int>, i: nat, j: nat): (items: seq<nat>)
    requires 2 <= i <= j <= |data|
    ensures |items| == j - i
  {
    seq<nat>(j - i, k requires 0 <= k < j - i => Item(data, i + k))
  }

  // The decoder's cursor when data[..i] has been written.
  function CursorAt(data: seq<int>, i: nat): Cursor
    requires 2 <= i <= |data|
  {
    Cursor(data[i - 1] - data[i - 2], data[i - 1])
  }

  lemma DiffFitsInt64(t: IntType, a: int, b: int)
    requires t.Valid() && t.DiffOk(a, b)
    ensures -0x8000_0000_0000_0000 <= a - b < 0x8000_0000_0000_0000
  {
    Pow2Monotone(t.DiffBits() - 1, 63);
    Pow2Values();
  }

  lemma AdvanceExact(t: IntType, data: seq<int>, k: nat)
    requires Column(t, data) && 2 <= k < |data| && ElementOk(t, data, k)
    ensures Advance(t, CursorAt(data, k), Item(data, k)) == CursorAt(data, k + 1)
  {
    hide IntType.Wrap, IntType.Holds, IntType.DiffOk;
    DiffFitsInt64(t, data[k], data[k - 1]);
    WrapHolds(t, data[k]);
    assert DecodeZigZag(Item(data, k)) == Dod(data, k);
  }

  lemma {:induction false} ValuesExact(t: IntType, data: seq<int>, i: nat, j: nat)
    requires Column(t, data) && Encodable(t, data) && 2 <= i <= j <= |data|
    ensures After(t, CursorAt(data, i), Items(data, i, j)) == CursorAt(data, j)
    ensures Values(t, CursorAt(data, i), Items(data, i, j)) == data[i..j]
    decreases j
  {
    hide Advance, Item, ElementOk;
    if i < j {
      ValuesExact(t, data, i, j - 1);
      assert Items(data, i, j)[..j - i - 1] == Items(data, i, j - 1);
      AdvanceExact(t, data, j - 1);
      assert data[i..j] == data[i..j - 1] + [data[j - 1]];
    }
  }

  // Words whose items are exactly the column's items from i on decode to the rest of the column and
  // are consumed to the last byte.
  lemma {:induction false} BodyDecodes(t: IntType, data: seq<int>, i: nat, words: seq<Word>)
    requires Column(t, data) && Encodable(t, data) && 2 <= i <= |data|
    requires AllItems(WordItems, words) == Items(data, i, |data|)
    requires forall w :: w in words ==> WordItems(w) != []
    ensures DecodeBody(t, CursorAt(data, i), |data| - i, WordBytes(words)) == Some(data[i..])
    decreases |words|
  {
    hide Items, ElementOk, Encodable, WordItems, After, Values, IntType.Valid, IntType.Holds, NextWord, WordBytes,
         AllItems;
    if words == [] {
      NoWords(WordItems);
      assert |Items(data, i, |data|)| == 0;
      assert data[i..] == [];
    } else {
      var j := i + |WordItems(words[0])|;
      WordItemsArePrefix(data, i, words);
      FirstWord(words);
      assert words[0] in words;
      assert Prefix(WordItems(words[0]), |data| - i) == Items(data, i, j);
      ValuesExact(t, data, i, j);
      BodyDecodes(t, data, j, words[1..]);
      assert data[i..] == data[i..j] + data[j..];
    }
  }

  lemma WordItemsArePrefix(data: seq<int>, i: nat, words: seq<Word>)
    requires 2 <= i <= |data| && words != []
    requires AllItems(WordItems, words) == Items(data, i, |data|)
    ensures var j := i + |WordItems(words[0])|;
            && j <= |data| && WordItems(words[0]) == Items(data, i, j)
            && AllItems(WordItems, words[1..]) == Items(data, j, |data|)
  {
    hide Item, WordItems;
    var all, m := AllItems(WordItems, words), |WordItems(words[0])|;
    var j := i + m;
    assert all == WordItems(words[0]) + AllItems(WordItems, words[1..]);
    assert all[..m] == WordItems(words[0]) && all[m..] == AllItems(WordItems, words[1..]);
    assert all[..m] == Items(data, i, j);
    assert all[m..] == Items(data, j, |data|);
  }

  // ---------- the encoder ----------

  const INT64: IntType := IntType(true, 8)

  // The zigzagged second difference at k, computed with the source's three checked subtractions.
  method CheckedItem(t: IntType, data: seq<int>, k: nat) returns (ok: bool, item: nat)
    requires Column(t, data) && 2 <= k < |data| && t.DiffOk(data[k - 1], data[k - 2])
    ensures ok ==> item == Item(data, k) && t.DiffOk(data[k], data[k - 1])
    ensures !ok ==> !ElementOk(t, data, k)
  {
    hide IntType.Holds, IntType.Wrap, CheckedSub, EncodeZigZag;
    var delta, overflow := CheckedSub(t, data[k], data[k - 1]).0, CheckedSub(t, data[k], data[k - 1]).1;
    var prevDelta := CheckedSub(t, data[k - 1], data[k - 2]).0;
    CheckedSubExact(t, data[k], data[k - 1]);
    CheckedSubExact(t, data[k - 1], data[k - 2]);
    if overflow {
      return false, 0;
    }
    DodFits(t, data, k);
    var dod, dodOverflow := CheckedSub(INT64, delta, prevDelta).0, CheckedSub(INT64, delta, prevDelta).1;
    if dodOverflow {
      return false, 0;
    }
    return true, EncodeZigZag(dod);
  }

  // The two differences are int64 values, and a second difference outside int64 has no 60-bit item.
  lemma DodFits(t: IntType, data: seq<int>, k: nat)
    requires t.Valid() && 2 <= k < |data| && t.DiffOk(data[k - 1], data[k - 2]) && t.DiffOk(data[k], data[k - 1])
    ensures var a, b := data[k] - data[k - 1], data[k - 1] - data[k - 2];
            && (CheckedSub(INT64, a, b).1 ==> Item(data, k) >= TWO_60)
            && (!CheckedSub(INT64, a, b).1 ==> CheckedSub(INT64, a, b).0 == Dod(data, k))
  {
    hide IntType.Wrap, CheckedSub, Pow2;
    var a, b := data[k] - data[k - 1], data[k - 1] - data[k - 2];
    DiffFitsInt64(t, data[k], data[k - 1]);
    DiffFitsInt64(t, data[k - 1], data[k - 2]);
    Pow2Values();
    CheckedSubExact(INT64, a, b);
  }

  lemma Bits60(v: nat)
    ensures ValidBits(v) <= 60 <==> v < TWO_60
    ensures ValidBits(v) < 44 ==> v < TWO_44
  {
    ValidBitsBound(v, 60);
    ValidBitsBound(v, 44);
    Pow2Values();
  }

  // Elements [i, j) are all acceptable and fit the item width of the selector.
  predicate GroupFits(t: IntType, data: seq<int>, i: nat, j: nat, selector: nat)
    requires t.Valid()
  {
    && 2 <= i <= j <= |data| && 2 <= selector <= 15
    && forall k :: i <= k < j ==> ElementOk(t, data, k) && ValidBits(Item(data, k)) <= ItemWidth(selector)
  }

  predicate IsRun(data: seq<int>, i: nat, n: nat)
  {
    2 <= i && i + n <= |data| && forall k :: i <= k < i + n ==> Item(data, k) == Item(data, i)
  }

  lemma GroupGrows(t: IntType, data: seq<int>, i: nat, j: nat, selector: nat, selector': nat)
    requires t.Valid() && GroupFits(t, data, i, j, selector) && j < |data|
    requires selector <= selector' <= 15
    requires ElementOk(t, data, j) && ValidBits(Item(data, j)) <= ItemWidth(selector')
    ensures GroupFits(t, data, i, j + 1, selector')
  {
    hide IntType.Valid, ElementOk, Item, ValidBits;
    TablesMonotone(selector, selector');
  }

  // The inner loop: how far from i a run or a packed group reaches.
  method ScanGroup(t: IntType, data: seq<int>, i: nat, item: nat)
    returns (ok: bool, j: nat, selector: nat, runLength: nat, rle: bool)
    requires Column(t, data) && 2 <= i < |data| && item == Item(data, i) && ElementOk(t, data, i)
    ensures !ok ==> !Encodable(t, data)
    ensures ok ==> GroupFits(t, data, i, j, selector)
    ensures ok ==> 1 <= runLength <= j - i && runLength <= RUN_LENGTH_LIMIT && IsRun(data, i, runLength)
    ensures ok && rle ==> runLength == j - i && ValidBits(item) < 44
  {
    hide IntType.Valid, IntType.Holds, IntType.DiffOk, Item, ValidBits, ItemWidth;
    var nbits := ValidBits(item);
    Bits60(item);
    SelectorFits(nbits);
    selector, runLength, j, rle, ok := SelectorFor(nbits), 1, i + 1, nbits < 44, true;
    while j < |data| && runLength < RUN_LENGTH_LIMIT
      invariant i < j <= |data| && GroupFits(t, data, i, j, selector)
      invariant 1 <= runLength <= j - i && runLength <= RUN_LENGTH_LIMIT && IsRun(data, i, runLength)
      invariant rle ==> runLength == j - i && nbits < 44
      invariant !rle && runLength > 1 ==> runLength < GroupSize(selector)
    {
      assert ElementOk(t, data, j - 1);
      var valid, itemJ := CheckedItem(t, data, j);
      if !valid {
        return false, j, selector, runLength, rle;
      }
      Bits60(itemJ);
      if rle && item == itemJ {
        GroupGrows(t, data, i, j, selector, selector);
        j, runLength := j + 1, runLength + 1;
        continue;
      }
      if runLength >= GroupSize(selector) && runLength != 1 {
        assert rle;
        break;
      }
      rle := false;
      if j - i >= GroupSize(selector) {
        break;
      }
      if ValidBits(itemJ) > 60 {
        assert !ElementOk(t, data, j);
        return false, j, selector, runLength, rle;
      }
      var selectorJ := SelectorFor(ValidBits(itemJ));
      SelectorFits(ValidBits(itemJ));
      TablesMonotone(selectorJ, selector);
      TablesMonotone(selector, selectorJ);
      var oldSelector := selector;
      if GroupSize(selectorJ) < GroupSize(selector) {
        if j - i + 1 <= GroupSize(selectorJ) {
          selector := selectorJ;
        } else {
          break;
        }
      }
      GroupGrows(t, data, i, j, oldSelector, selector);
      j := j + 1;
    }
  }

  method PackGroup(t: IntType, data: seq<int>, i: nat, selector: nat) returns (word: Word)
    requires t.Valid() && 2 <= selector <= 15 && GroupFits(t, data, i, i + GroupSize(selector), selector)
    ensures WordItems(word) == Items(data, i, i + GroupSize(selector))
  {
    hide IntType.Valid, Item, ElementOk, ValidBits;
    var w, n := ItemWidth(selector), GroupSize(selector);
    PaddingAgrees(selector);
    var batch, k := selector, i;
    while k < i + n
      invariant i <= k <= i + n && batch == Pack(selector, Items(data, i, k), w)
    {
      MulLe(0, batch, Pow2(w));
      assert Items(data, i, k + 1)[..k - i] == Items(data, i, k);
      batch := batch * Pow2(w) + Item(data, k);
      k := k + 1;
    }
    GroupBelow(t, data, i, selector);
    PackedWord(selector, Items(data, i, i + n));
    word := batch * Pow2(60 % w);
  }

  lemma GroupBelow(t: IntType, data: seq<int>, i: nat, selector: nat)
    requires t.Valid() && 2 <= selector <= 15 && GroupFits(t, data, i, i + GroupSize(selector), selector)
    ensures AllBelow(Items(data, i, i + GroupSize(selector)), Pow2(ItemWidth(selector)))
  {
    hide IntType.Valid, Item, ElementOk, ValidBits;
    PaddingAgrees(selector);
    var items := Items(data, i, i + GroupSize(selector));
    forall k | 0 <= k < |items|
      ensures items[k] < Pow2(ItemWidth(selector))
    {
      assert items[k] == Item(data, i + k);
      ValidBitsBound(items[k], ItemWidth(selector));
    }
  }

  method RunWord(data: seq<int>, i: nat, runLength: nat, item: nat) returns (word: Word)
    requires 1 <= runLength <= RUN_LENGTH_LIMIT && IsRun(data, i, runLength) && i < |data|
    requires item == Item(data, i) && item < TWO_44
    ensures WordItems(word) == Items(data, i, i + runLength)
  {
    hide Item;
    word := runLength * TWO_44 + item;
    assert Selector(word) == 0 && Payload(word) / TWO_44 == runLength && Payload(word) % TWO_44 == item;
  }

  // Chooses between a run and a packed group, as the source does after its inner loop.
  method EmitGroup(t: IntType, data: seq<int>, i: nat, item: nat, j: nat, selector0: nat, runLength: nat, rle0: bool)
    returns (word: Word, next: nat)
    requires t.Valid() && GroupFits(t, data, i, j, selector0) && i < j && item == Item(data, i)
    requires 1 <= runLength <= j - i && runLength <= RUN_LENGTH_LIMIT && IsRun(data, i, runLength)
    requires rle0 ==> runLength == j - i && ValidBits(item) < 44
    ensures i < next <= j && WordItems(word) == Items(data, i, next)
  {
    hide IntType.Valid, Item, ElementOk, ValidBits, ItemWidth, WordItems;
    var selector, rle := selector0, rle0 && runLength > 1;
    if !rle {
      while j - i < GroupSize(selector) && selector < 15
        invariant GroupFits(t, data, i, j, selector)
        decreases 15 - selector
      {
        TablesMonotone(selector, selector + 1);
        selector := selector + 1;
      }
      rle := GroupSize(selector) <= runLength && runLength != 1 && ValidBits(item) < 44;
    }
    if rle {
      Bits60(item);
      word := RunWord(data, i, runLength, item);
      next := i + runLength;
    } else {
      word := PackGroup(t, data, i, selector);
      next := i + GroupSize(selector);
    }
  }

  function FirstBytes(t: IntType, x: int): seq<Byte>
    requires t.Valid() && t.Holds(x)
  {
    if t.bytes >= 4 then EncodeVarint(if t.signed then EncodeZigZag(x) else x)
    else ToLE(x % Pow2(t.Bits()), t.bytes)
  }

  lemma FirstRoundTrip(t: IntType, x: int, tail: seq<Byte>)
    requires t.Valid() && t.Holds(x)
    ensures ReadFirst(t, FirstBytes(t, x) + tail) == Some((x, tail))
  {
    var bs := FirstBytes(t, x) + tail;
    if t.bytes >= 4 {
      ZigZagRoundTrip(x, t.Bits());
      VarintRoundTrip(if t.signed then EncodeZigZag(x) else x, t.Bits(), tail);
    } else {
      var u := x % Pow2(t.Bits());
      LERoundTrip(u, t.bytes);
      assert bs[..t.bytes] == ToLE(u, t.bytes) && bs[t.bytes..] == tail;
      WrapOfMod(t, x);
    }
  }

  lemma WrapOfMod(t: IntType, x: int)
    requires t.Valid() && t.Holds(x)
    ensures t.Wrap(x % Pow2(t.Bits())) == x
  {
    var p := Pow2(t.Bits());
    assert x == (x / p) * p + x % p;
    WrapHolds(t, x);
    if t.signed {
      SignedWrapShift(t.Bits(), x % p, x / p);
    } else {
      DivModUnique(0, x, p);
    }
  }

  function HeaderBytes(t: IntType, data: seq<int>): seq<Byte>
    requires Column(t, data) && |data| >= 2
  {
    FirstBytes(t, data[0]) + EncodeVarint(EncodeZigZag(data[1] - data[0]))
  }

  lemma DeltaRoundTrip(t: IntType, a: int, b: int, tail: seq<Byte>)
    requires t.Valid() && t.DiffOk(a, b)
    ensures DecodeVarint(EncodeVarint(EncodeZigZag(a - b)) + tail, 64) == Some((EncodeZigZag(a - b), tail))
    ensures DecodeZigZag(EncodeZigZag(a - b)) == a - b
  {
    hide DecodeVarint, EncodeVarint, Pow2;
    DiffFitsInt64(t, a, b);
    Pow2Values();
    VarintRoundTrip(EncodeZigZag(a - b), 64, tail);
  }

  lemma TailDecodes(t: IntType, data: seq<int>, words: seq<Word>)
    requires Column(t, data) && Encodable(t, data) && |data| >= 2
    requires AllItems(WordItems, words) == Items(data, 2, |data|)
    requires forall w :: w in words ==> WordItems(w) != []
    ensures DecodeTail(t, data[0], EncodeVarint(EncodeZigZag(data[1] - data[0])) + WordBytes(words), |data|)
         == Some(data)
  {
    hide DecodeBody, DecodeVarint, EncodeVarint, EncodeZigZag, DecodeZigZag, IntType.Wrap, IntType.DiffOk, WordItems,
         WordBytes, AllItems, Item;
    DeltaRoundTrip(t, data[1], data[0], WordBytes(words));
    WrapHolds(t, data[1]);
    BodyDecodes(t, data, 2, words);
    assert [data[0], data[1]] + data[2..] == data;
  }

  // A header followed by words that carry exactly the items decodes to the column.
  lemma StreamDecodes(t: IntType, data: seq<int>, words: seq<Word>)
    requires Column(t, data) && Encodable(t, data) && |data| >= 2
    requires AllItems(WordItems, words) == Items(data, 2, |data|)
    requires forall w :: w in words ==> WordItems(w) != []
    ensures Decode(t, HeaderBytes(t, data) + WordBytes(words), |data|) == Some(data)
  {
    hide DecodeTail, ReadFirst, FirstBytes, EncodeVarint, IntType.Holds, IntType.Valid, WordItems, WordBytes,
         AllItems, Item;
    var tail := EncodeVarint(EncodeZigZag(data[1] - data[0])) + WordBytes(words);
    assert HeaderBytes(t, data) + WordBytes(words) == FirstBytes(t, data[0]) + tail;
    FirstRoundTrip(t, data[0], tail);
    TailDecodes(t, data, words);
  }

  /** The encoder succeeds on exactly the columns whose differences fit their type and whose items fit
      60 bits, and what it writes decodes to the column, filling every slot and using every byte. */
  method Compress(t: IntType, data: seq<int>) returns (ok: bool, out: seq<Byte>)
    requires Column(t, data)
    ensures ok <==> Encodable(t, data)
    ensures ok ==> Decode(t, out, |data|) == Some(data)
  {
    hide Decode, FirstBytes, EncodeVarint, CheckedSub, IntType.DiffOk;
    ShortColumns(t, data);
    if |data| == 0 {
      return true, [];
    }
    out := FirstBytes(t, data[0]);
    if |data| == 1 {
      return true, out;
    }
    CheckedSubExact(t, data[1], data[0]);
    var delta, overflow := CheckedSub(t, data[1], data[0]).0, CheckedSub(t, data[1], data[0]).1;
    if overflow {
      return false, out;
    }
    out := out + EncodeVarint(EncodeZigZag(delta));
    ok, out := CompressBody(t, data, out);
  }

  lemma ShortColumns(t: IntType, data: seq<int>)
    requires Column(t, data)
    ensures |data| == 0 ==> Decode(t, [], 0) == Some(data)
    ensures |data| == 1 ==> Decode(t, FirstBytes(t, data[0]), 1) == Some(data)
  {
    hide FirstBytes, ReadFirst, DecodeTail;
    if |data| == 1 {
      assert FirstBytes(t, data[0]) + [] == FirstBytes(t, data[0]);
      FirstRoundTrip(t, data[0], []);
      assert data == [data[0]];
    }
  }

  lemma ItemsConcat(data: seq<int>, i: nat, j: nat)
    requires 2 <= i <= j <= |data|
    ensures Items(data, 2, j) == Items(data, 2, i) + Items(data, i, j)
  {
    hide Item;
  }

  // The outer loop: one word per iteration.
  method CompressBody(t: IntType, data: seq<int>, header: seq<Byte>) returns (ok: bool, out: seq<Byte>)
    requires Column(t, data) && |data| >= 2 && t.DiffOk(data[1], data[0]) && header == HeaderBytes(t, data)
    ensures ok <==> Encodable(t, data)
    ensures ok ==> Decode(t, out, |data|) == Some(data)
  {
    hide Decode, HeaderBytes, IntType.DiffOk, IntType.Holds, IntType.Valid, Item, WordItems, AllItems, WordBytes;
    out := header;
    var i := 2;
    ghost var words: seq<Word> := [];
    assert AllItems(WordItems, []) == [] && WordBytes([]) == [] by { NoWords(WordItems); }
    while i < |data|
      invariant 2 <= i <= |data| && forall k :: 2 <= k < i ==> ElementOk(t, data, k)
      invariant AllItems(WordItems, words) == Items(data, 2, i) && out == header + WordBytes(words)
      invariant forall w :: w in words ==> WordItems(w) != []
    {
      assert t.DiffOk(data[i - 1], data[i - 2]) by { assert i == 2 || ElementOk(t, data, i - 1); }
      var word, next;
      ok, word, next := CompressGroup(t, data, i);
      if !ok {
        return false, out;
      }
      AllItemsAppend(WordItems, words, word);
      WordBytesAppend(words, word);
      ItemsConcat(data, i, next);
      words := words + [word];
      out := out + ToLE(word, 8);
      i := next;
    }
    StreamDecodes(t, data, words);
    ok := true;
  }

  method CompressGroup(t: IntType, data: seq<int>, i: nat) returns (ok: bool, word: Word, next: nat)
    requires Column(t, data) && 2 <= i < |data| && t.DiffOk(data[i - 1], data[i - 2])
    ensures !ok ==> !Encodable(t, data)
    ensures ok ==> i < next <= |data| && WordItems(word) == Items(data, i, next)
    ensures ok ==> forall k :: i <= k < next ==> ElementOk(t, data, k)
  {
    hide IntType.DiffOk, IntType.Holds, Item, WordItems, ValidBits;
    word, next := 0, i;
    var item;
    ok, item := CheckedItem(t, data, i);
    if !ok {
      return;
    }
    Bits60(item);
    if ValidBits(item) > 60 {
      assert !ElementOk(t, data, i);
      ok := false;
      return;
    }
    var j, selector, runLength, rle;
    ok, j, selector, runLength, rle := ScanGroup(t, data, i, item);
    if !ok {
      return;
    }
    word, next := EmitGroup(t, data, i, item, j, selector, runLength, rle);
  }

  // The two halves together.
  method RoundTrip(t: IntType, data: seq<int>) returns (ok: bool, back: Option<seq<int>>)
    requires Column(t, data)
    ensures ok <==> Encodable(t, data)
    ensures ok ==> back == Some(data)
  {
    var bytes;
    ok, bytes := Compress(t, data);
    back := Decompress(t, bytes, |data|);
  }
}
