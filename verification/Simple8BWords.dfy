/** The 64-bit words of Simple8B: selector tables, packing a group of equal-width items behind a 4-bit
    selector, and unpacking it again (ts_compressor_impl.cpp, namespace _simple8b_detail). */
module Simple8BWords {
  import opened Words

  function ItemWidth(s: nat): nat
    requires s <= 15
  {
    if s <= 1 then 0 else if s <= 9 then s - 1 else if s == 10 then 10 else if s == 11 then 12
    else if s == 12 then 15 else if s == 13 then 20 else if s == 14 then 30 else 60
  }

  function GroupSize(s: nat): nat
    requires s <= 15
  {
    if s == 0 then 240 else if s == 1 then 120 else if s == 2 then 60 else if s == 3 then 30
    else if s == 4 then 20 else if s == 5 then 15 else if s == 6 then 12 else if s == 7 then 10
    else if s == 8 then 8 else if s == 9 then 7 else if s == 10 then 6 else if s == 11 then 5
    else if s == 12 then 4 else if s == 13 then 3 else if s == 14 then 2 else 1
  }

  // NBITS2SELECTOR: the first selector whose item width is at least n; 16 says "cannot be packed".
  function SelectorFor(n: nat): nat
  {
    if n == 0 then 0 else if n <= 8 then n + 1 else if n <= 10 then 10 else if n <= 12 then 11
    else if n <= 15 then 12 else if n <= 20 then 13 else if n <= 30 then 14 else if n <= 60 then 15 else 16
  }

  // The encoder pads by 60 % ITEMWIDTH (V2) or 60 % GROUPSIZE (V1), the decoder by 60 % GROUPSIZE:
  // for every packing selector these agree, and items plus padding fill the 60 payload bits exactly.
  lemma PaddingAgrees(s: nat)
    requires 2 <= s <= 15
    ensures GroupSize(s) >= 1 && ItemWidth(s) >= 1
    ensures 60 % ItemWidth(s) == 60 % GroupSize(s)
    ensures GroupSize(s) * ItemWidth(s) + 60 % GroupSize(s) == 60
  {
  }

  lemma TablesMonotone(a: nat, b: nat)
    requires a <= 15 && b <= 15
    ensures GroupSize(a) < GroupSize(b) <==> a > b
    ensures a <= b ==> ItemWidth(a) <= ItemWidth(b)
  {
  }

  lemma SelectorFits(n: nat)
    requires 1 <= n <= 60
    ensures 2 <= SelectorFor(n) <= 15 && n <= ItemWidth(SelectorFor(n))
    ensures forall s :: 2 <= s <= 15 && n <= ItemWidth(s) ==> SelectorFor(n) <= s
  {
  }

  function ValidBits(v: nat): (n: nat)
    ensures n >= 1
  {
    if v <= 1 then 1 else 1 + ValidBits(v / 2)
  }

  lemma {:induction false} ValidBitsBound(v: nat, n: nat)
    requires n >= 1
    ensures ValidBits(v) <= n <==> v < Pow2(n)
  {
    if v > 1 {
      if n > 1 {
        ValidBitsBound(v / 2, n - 1);
      } else {
        assert Pow2(1) == 2;
      }
    }
  }

  // ---------- packing ----------

  // batch <<= width; batch += item, starting from `head`.
  function Pack(head: nat, items: seq<nat>, width: nat): (p: nat)
  {
    if items == [] then head
    else
      var k := |items| - 1;
      assert Pack(head, items[..k], width) * Pow2(width) >= 0 by {
        MulLe(0, Pack(head, items[..k], width), Pow2(width));
      }
      Pack(head, items[..k], width) * Pow2(width) + items[k]
  }

  predicate AllBelow(items: seq<nat>, bound: int)
  {
    forall k :: 0 <= k < |items| ==> items[k] < bound
  }

  lemma AppendDigit(head: nat, p: nat, d: nat, b: nat, c: nat)
    requires p < c && d < b
    ensures (head * c + p) * b + d == head * (c * b) + (p * b + d)
    ensures p * b + d < c * b
  {
    assert (head * c + p) * b == (head * c) * b + p * b;
    MulAssoc(head, c, b);
    MulLe(p, c - 1, b);
    assert (c - 1) * b == c * b - b;
  }

  // Pow2(n * width), one factor at a time.
  function Radix(n: nat, width: nat): (r: int)
    ensures r >= 1
  {
    if n == 0 then 1
    else
      MulGe(Radix(n - 1, width), Pow2(width));
      Radix(n - 1, width) * Pow2(width)
  }

  lemma {:induction false} RadixIsPow2(n: nat, width: nat)
    ensures n * width >= 0 && Radix(n, width) == Pow2(n * width)
  {
    if n > 0 {
      RadixIsPow2(n - 1, width);
      assert n * width == (n - 1) * width + width;
      Pow2Add((n - 1) * width, width);
    }
  }

  lemma {:induction false} PackSplit(head: nat, items: seq<nat>, width: nat)
    requires AllBelow(items, Pow2(width))
    ensures Pack(head, items, width) == head * Radix(|items|, width) + Pack(0, items, width)
    ensures Pack(0, items, width) < Radix(|items|, width)
  {
    if items != [] {
      var k := |items| - 1;
      PackSplit(head, items[..k], width);
      AppendDigit(head, Pack(0, items[..k], width), items[k], Pow2(width), Radix(k, width));
    }
  }

  lemma DivDiv(n: nat, a: nat, b: nat)
    requires a > 0 && b > 0
    ensures a * b > 0 && n / (a * b) == (n / a) / b
  {
    var q1, r1 := n / a, n % a;
    var q2, r2 := q1 / b, q1 % b;
    assert n == q1 * a + r1 && q1 == q2 * b + r2;
    assert n == q2 * (a * b) + (r2 * a + r1) by {
      assert (q2 * b + r2) * a == (q2 * b) * a + r2 * a;
      assert (q2 * b) * a == q2 * (a * b);
    }
    assert r2 * a <= (b - 1) * a by { MulLe(r2, b - 1, a); }
    assert (b - 1) * a == a * b - a;
    MulLe(0, r2, a);
    DivModUnique(q2, r2 * a + r1, a * b);
  }

  // Item i of n, read back by shifting right by (n - 1 - i) * width bits and masking.
  function ItemAt(p: int, n: nat, width: nat, i: nat): nat
    requires i < n
  {
    (p / Radix(n - 1 - i, width)) % Pow2(width)
  }

  lemma {:induction false} RadixAdd(n: nat, width: nat)
    ensures Radix(n + 1, width) == Pow2(width) * Radix(n, width)
  {
  }

  lemma {:induction false} UnpackItem(items: seq<nat>, width: nat, i: nat)
    requires i < |items| && AllBelow(items, Pow2(width))
    ensures ItemAt(Pack(0, items, width), |items|, width, i) == items[i]
  {
    var k := |items| - 1;
    DivModUnique(Pack(0, items[..k], width), items[k], Pow2(width));
    if i < k {
      UnpackItem(items[..k], width, i);
      RadixAdd(k - 1 - i, width);
      DivDiv(Pack(0, items, width), Pow2(width), Radix(k - 1 - i, width));
    }
  }

  // ---------- whole words ----------

  const TWO_60: nat := 0x1000_0000_0000_0000

  function Selector(word: Word): (s: nat)
    ensures s <= 15
  {
    word / TWO_60
  }

  function Payload(word: Word): nat { word % TWO_60 }

  // The items that the decoders read from a word with a packing selector.
  function PackedItems(word: Word): (items: seq<nat>)
    requires 1 <= Selector(word)
    ensures |items| == GroupSize(Selector(word))
  {
    var s := Selector(word);
    var p := Payload(word) / Pow2(60 % GroupSize(s));
    seq(GroupSize(s), i requires 0 <= i < GroupSize(s) => ItemAt(p, GroupSize(s), ItemWidth(s), i))
  }

  lemma PackedWordParts(s: nat, items: seq<nat>)
    requires 2 <= s <= 15 && |items| == GroupSize(s) && AllBelow(items, Pow2(ItemWidth(s)))
    ensures var pad := Pow2(60 % GroupSize(s));
            var word, body := Pack(s, items, ItemWidth(s)) * pad, Pack(0, items, ItemWidth(s));
            word == s * TWO_60 + body * pad && 0 <= body * pad < TWO_60
  {
    var w, n, pad := ItemWidth(s), GroupSize(s), Pow2(60 % GroupSize(s));
    PaddingAgrees(s);
    PackSplit(s, items, w);
    RadixIsPow2(n, w);
    Pow2Add(n * w, 60 % n);
    Pow2Values();
    AppendDigit(s, Pack(0, items, w), 0, pad, Radix(n, w));
    MulLe(0, Pack(0, items, w), pad);
  }

  // A word built by packing `items` under selector s and shifting in the padding reads back as
  // exactly that selector and those items.
  lemma PackedWord(s: nat, items: seq<nat>)
    requires 2 <= s <= 15 && |items| == GroupSize(s) && AllBelow(items, Pow2(ItemWidth(s)))
    ensures var word := Pack(s, items, ItemWidth(s)) * Pow2(60 % GroupSize(s));
            0 <= word < 0x1_0000_0000_0000_0000 && Selector(word) == s && PackedItems(word) == items
  {
    var w, n, pad := ItemWidth(s), GroupSize(s), Pow2(60 % GroupSize(s));
    PackedWordParts(s, items);
    var body := Pack(0, items, w);
    var word := Pack(s, items, w) * pad;
    assert Selector(word) == s && Payload(word) == body * pad;
    DivModUnique(body, 0, pad);
    forall i | 0 <= i < n
      ensures ItemAt(body, n, w, i) == items[i]
    {
      UnpackItem(items, w, i);
    }
  }

  // The items of a run of words, when `items` says what one word stands for.
  function AllItems(items: Word -> seq<nat>, words: seq<Word>): seq<nat>
  {
    if words == [] then [] else items(words[0]) + AllItems(items, words[1..])
  }

  lemma {:induction false} AllItemsAppend(items: Word -> seq<nat>, words: seq<Word>, word: Word)
    ensures AllItems(items, words + [word]) == AllItems(items, words) + items(word)
  {
    if words == [] {
      assert AllItems(items, [word]) == items(word) + AllItems(items, [word][1..]);
    } else {
      assert (words + [word])[1..] == words[1..] + [word];
      AllItemsAppend(items, words[1..], word);
    }
  }

  function WordBytes(words: seq<Word>): seq<Byte>
  {
    if words == [] then [] else ToLE(words[0], 8) + WordBytes(words[1..])
  }

  lemma {:induction false} WordBytesAppend(words: seq<Word>, word: Word)
    ensures WordBytes(words + [word]) == WordBytes(words) + ToLE(word, 8)
  {
    if words == [] {
      assert WordBytes([word]) == ToLE(word, 8) + WordBytes([word][1..]);
    } else {
      assert (words + [word])[1..] == words[1..] + [word];
      WordBytesAppend(words[1..], word);
    }
  }

  function NextWord(bs: seq<Byte>): Word
    requires |bs| >= 8
  {
    LEBound(bs[..8]);
    Pow2Values();
    FromLE(bs[..8])
  }

  lemma FirstWord(words: seq<Word>)
    requires words != []
    ensures var bs := WordBytes(words);
            |bs| >= 8 && NextWord(bs) == words[0] && bs[8..] == WordBytes(words[1..])
  {
    Pow2Values();
    LERoundTrip(words[0], 8);
    assert WordBytes(words)[..8] == ToLE(words[0], 8);
  }

  lemma NoWords(items: Word -> seq<nat>)
    ensures AllItems(items, []) == [] && WordBytes([]) == []
  {
  }
}
