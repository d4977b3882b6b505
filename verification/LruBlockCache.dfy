/** The LRU block cache: a doubly linked list of blocks spliced by moving pointers (a move leaves its source null),
    most recently used first, with the memory of all listed blocks counted against a limit. */
module LruBlockCache {

  class Block {
    var pre: Block?
    var next: Block?
    var memory: nat

    constructor ()
      ensures pre == null && next == null && memory == 0
    {
      pre, next, memory := null, null, 0;
    }
  }

  ghost predicate Distinct(list: seq<Block>)
  {
    forall i, j :: 0 <= i < j < |list| ==> list[i] != list[j]
  }

  ghost function At(list: seq<Block>, i: int): Block?
  {
    if 0 <= i < |list| then list[i] else null
  }

  // The links of the list spell out the sequence, in both directions.
  ghost predicate Linked(list: seq<Block>)
    reads list
  {
    && (forall i {:trigger list[i].next} :: 0 <= i < |list| ==> list[i].next == At(list, i + 1))
    && (forall i {:trigger list[i].pre} :: 0 <= i < |list| ==> list[i].pre == At(list, i - 1))
  }

  ghost predicate Idle(gone: set<Block>)
    reads gone
  {
    forall b :: b in gone ==> b.pre == null && b.next == null
  }

  ghost predicate Apart(gone: set<Block>, list: seq<Block>)
  {
    forall b :: b in gone ==> b !in list
  }

  // Latest use first, all uses before `now`.
  ghost predicate ByRecency(list: seq<Block>, lastUse: map<Block, nat>, now: nat)
  {
    && (forall i :: 0 <= i < |list| ==> list[i] in lastUse && lastUse[list[i]] < now)
    && (forall i, j :: 0 <= i < j < |list| ==> lastUse[list[i]] > lastUse[list[j]])
  }

  lemma UseNew(list: seq<Block>, b: Block, lastUse: map<Block, nat>, now: nat)
    requires ByRecency(list, lastUse, now) && b !in list
    ensures ByRecency([b] + list, lastUse[b := now], now + 1)
  {
  }

  lemma UseAgain(list: seq<Block>, i: nat, lastUse: map<Block, nat>, now: nat)
    requires ByRecency(list, lastUse, now) && Distinct(list) && i < |list|
    ensures ByRecency(ToFront(list, i), lastUse[list[i] := now], now + 1)
  {
    DistinctToFront(list, i);
  }

  ghost function Sizes(list: seq<Block>): (sizes: seq<nat>)
    reads list
    ensures |sizes| == |list| && forall i :: 0 <= i < |list| ==> sizes[i] == list[i].memory
  {
    seq(|list|, i requires 0 <= i < |list| reads list => list[i].memory)
  }

  function Total(sizes: seq<nat>): nat
  {
    if sizes == [] then 0 else Total(sizes[..|sizes| - 1]) + sizes[|sizes| - 1]
  }

  lemma {:induction false} TotalConcat(a: seq<nat>, b: seq<nat>)
    ensures Total(a + b) == Total(a) + Total(b)
  {
    if b == [] {
      assert a + b == a;
    } else {
      var k := |b| - 1;
      assert (a + b)[..|a| + k] == a + b[..k];
      TotalConcat(a, b[..k]);
    }
  }

  lemma TotalOne(x: nat)
    ensures Total([x]) == x
  {
    assert [x][..0] == [];
  }

  // Moving one element to the front keeps the total.
  lemma TotalToFront(s: seq<nat>, i: nat)
    requires i < |s|
    ensures Total([s[i]] + s[..i] + s[i + 1..]) == Total(s)
  {
    hide Total;
    TotalConcat([s[i]] + s[..i], s[i + 1..]);
    TotalConcat([s[i]], s[..i]);
    TotalConcat(s[..i], [s[i]]);
    TotalConcat(s[..i] + [s[i]], s[i + 1..]);
    assert s[..i] + [s[i]] + s[i + 1..] == s;
  }

  lemma TotalAdd(s: seq<nat>, i: nat, d: nat)
    requires i < |s|
    ensures Total(s[i := s[i] + d]) == Total(s) + d
  {
    hide Total;
    TotalConcat(s[..i], [s[i]]);
    TotalConcat(s[..i] + [s[i]], s[i + 1..]);
    TotalConcat(s[..i], [s[i] + d]);
    TotalConcat(s[..i] + [s[i] + d], s[i + 1..]);
    TotalOne(s[i]);
    TotalOne(s[i] + d);
    assert s == s[..i] + [s[i]] + s[i + 1..];
    assert s[i := s[i] + d] == s[..i] + [s[i] + d] + s[i + 1..];
  }

  // The longest prefix of the recency order whose total fits the limit.
  function Fitting(sizes: seq<nat>, limit: nat): (n: nat)
    ensures n <= |sizes| && Total(sizes[..n]) <= limit
    ensures forall m :: n < m <= |sizes| ==> Total(sizes[..m]) > limit
  {
    if Total(sizes) <= limit then
      assert sizes[..|sizes|] == sizes;
      |sizes|
    else
      var k := |sizes| - 1;
      var n := Fitting(sizes[..k], limit);
      assert sizes[..k][..n] == sizes[..n];
      assert forall m :: n < m <= k ==> sizes[..k][..m] == sizes[..m];
      assert sizes[..|sizes|] == sizes;
      n
  }

  ghost function ToFront(list: seq<Block>, i: nat): seq<Block>
    requires i < |list|
  {
    [list[i]] + list[..i] + list[i + 1..]
  }

  class Cache {
    var head: Block?
    var tail: Block?
    var limit: nat
    var used: nat
    ghost var list: seq<Block>
    ghost var gone: set<Block>  // evicted blocks that readers may still hold
    ghost var lastUse: map<Block, nat>
    ghost var clock: nat

    ghost predicate Chained()
      reads this, list
    {
      Distinct(list) && Linked(list) && head == At(list, 0) && tail == At(list, |list| - 1)
    }

    ghost predicate Valid()
      reads this, list, gone
    {
      && Chained() && ByRecency(list, lastUse, clock)
      && Apart(gone, list) && Idle(gone)
      && used == Total(Sizes(list))
    }

    constructor (maxMemory: nat)
      ensures Valid() && list == [] && gone == {} && limit == maxMemory
    {
      head, tail, limit, used := null, null, maxMemory, 0;
      list, gone, lastUse, clock := [], {}, map[], 0;
    }

    // A block that has just been loaded: it is in no list and its memory is not counted yet.
    method Add(block: Block)
      requires Valid() && block !in list && block !in gone && block.pre == null && block.memory == 0
      modifies this, list, block
      ensures Valid() && list == [block] + old(list) && gone == old(gone)
      ensures limit == old(limit) && used == old(used)
      ensures forall b :: b in list ==> b.memory == old(b.memory)
    {
      hide Total, Distinct, Linked, ByRecency, Sizes;
      TotalConcat([0], Sizes(list));
      TotalOne(0);
      UseNew(list, block, lastUse, clock);
      LinkFront(block);
      lastUse, clock := lastUse[block := clock], clock + 1;
      assert Sizes(list) == [0] + old(Sizes(list));
    }

    method LinkFront(block: Block)
      requires Chained() && block !in list && block.pre == null
      modifies this`head, this`tail, this`list, list`pre, block`next
      ensures Chained() && list == [block] + old(list)
    {
      block.next := head;
      if head != null {
        head.pre := block;
      } else {
        tail := block;
      }
      head := block;
      list := [block] + list;
    }

    // Makes a listed block the most recently used; an evicted block is left alone. `i` is where the block was.
    method Access(block: Block) returns (ghost i: nat)
      requires Valid() && (block in list || block in gone)
      modifies this, list
      ensures Valid() && gone == old(gone) && limit == old(limit) && used == old(used)
      ensures forall b :: b in old(list) ==> b.memory == old(b.memory)
      ensures block !in old(list) ==> list == old(list)
      ensures block in old(list) ==> i < |old(list)| && old(list)[i] == block && list == ToFront(old(list), i)
    {
      hide Total, Distinct, Linked, ByRecency, ToFront, Sizes;
      ghost var l, sizes := list, Sizes(list);
      i := Touch(block);
      assert Sizes(l) == sizes;
      if block in l {
        TotalToFront(sizes, i);
        SizesToFront(l, i);
        UseAgain(l, i, lastUse, clock);
        lastUse, clock := lastUse[block := clock], clock + 1;
      }
    }

    method Touch(block: Block) returns (ghost i: nat)
      requires Chained() && (block in list || block.pre == null)
      modifies this`head, this`tail, this`list, list`pre, list`next
      ensures Chained()
      ensures block !in old(list) ==> list == old(list)
      ensures block in old(list) ==> i < |old(list)| && old(list)[i] == block && list == ToFront(old(list), i)
    {
      hide Distinct, Linked;
      i := 0;
      if block.pre != null {
        i :| i < |list| && list[i] == block;
        LaterHasPre(list, i);
        Splice(block, i);
      } else if block in list {
        FirstHasNoPre(list, block);
        assert ToFront(list, 0) == list;
      }
    }

    // The pointer moves of Access, in the source's order.
    method Splice(block: Block, ghost i: nat)
      requires Chained() && 0 < i < |list| && list[i] == block
      modifies this`head, this`tail, this`list, list`pre, list`next
      ensures Chained() && list == ToFront(old(list), i)
    {
      hide ToFront;
      ghost var l := list;
      var pre := block.pre;
      assert pre == l[i - 1] && (i + 1 < |l| ==> block.next == l[i + 1]);
      // Every link is moved, not copied, so the place it leaves is null until the next step fills it.
      head.pre := pre.next;
      pre.next := null;
      pre.next := block.next;
      block.next := null;
      block.next := head;
      head := null;
      if pre.next != null {
        var after := pre.next;
        head := after.pre;
        after.pre := null;
        after.pre := block.pre;
        block.pre := null;
      } else {
        head := tail;
        tail := null;
        tail := block.pre;
        block.pre := null;
      }
      assert Moved(l, i);
      MovedLinked(l, i);
      list := ToFront(list, i);
    }

    // Takes the least recently used block off the list; its `next` is null already.
    method UnlinkTail() returns (block: Block)
      requires Chained() && tail != null
      modifies this`head, this`tail, this`list, list`pre, list`next
      ensures Chained() && |old(list)| > 0 && block.pre == null && block.next == null
      ensures list == old(list)[..|old(list)| - 1] && block == old(list)[|old(list)| - 1]
    {
      block := tail;
      ghost var k := |list| - 1;
      assert list[k].next == At(list, k + 1);
      tail := block.pre;
      if tail != null {
        tail.next := null;
      } else {
        head := null;
      }
      block.pre := null;
      list := list[..k];
    }

    // KickOffBlocks: drops least recently used blocks until the rest fits. What is left is exactly the longest
    // prefix of the recency order that fits the limit.
    method KickOffBlocks()
      requires Valid()
      modifies this`head, this`tail, this`used, this`list, this`gone, list`pre, list`next
      ensures Valid() && used <= limit
      ensures list == old(list)[..Fitting(old(Sizes(list)), limit)]
      ensures gone == old(gone) + (set b | b in old(list) && b !in list)
    {
      hide Total, Distinct, Linked, ByRecency, Sizes, Fitting, Beyond;
      ghost var l, sizes, g := list, Sizes(list), gone;
      ghost var n := |list|;
      assert l[..n] == l && sizes[..n] == sizes;
      BeyondAll(l);
      while used > limit && tail != null
        invariant n <= |l| && list == l[..n] && Valid() && Sizes(list) == sizes[..n]
        invariant gone == g + Beyond(l, n)
        invariant forall m :: n < m <= |l| ==> Total(sizes[..m]) > limit
        decreases n
      {
        DropTail();
        n := n - 1;
        assert l[..n + 1][..n] == l[..n] && sizes[..n + 1][..n] == sizes[..n];
        BeyondStep(l, n);
      }
      BeyondIs(l, n);
      if tail == null {
        assert sizes[..n] == [];
        NoSizes();
      }
      UniqueFit(sizes, limit, n);
    }

    method DropTail()
      requires Valid() && tail != null
      modifies this`head, this`tail, this`used, this`list, this`gone, list`pre, list`next
      ensures Valid() && |old(list)| > 0
      ensures var k := |old(list)| - 1;
              && list == old(list)[..k] && Sizes(list) == old(Sizes(list))[..k]
              && gone == old(gone) + {old(list)[k]} && old(list)[k] !in list
    {
      hide Total, Linked, Distinct, ByRecency, Apart, Idle, Sizes;
      LastFacts(list, gone, lastUse, clock);
      LastSize(Sizes(list));
      ghost var l, sizes, g := list, Sizes(list), gone;
      var block := UnlinkTail();
      assert Sizes(list) == sizes[..|l| - 1];
      used := used - block.memory;
      gone := gone + {block};
      StillIdle(g, block);
    }

    // Memory charged to a block; it counts against the limit only while the block is listed.
    method AddMemory(block: Block, size: nat)
      requires Valid() && (block in list || block in gone)
      modifies this`head, this`tail, this`used, this`list, this`gone, list, block`memory
      ensures Valid() && block.memory == old(block.memory) + size
      ensures forall b :: b in old(list) && b != block ==> b.memory == old(b.memory)
      ensures block !in old(list) ==> list == old(list) && gone == old(gone) && used == old(used)
      ensures block in old(list) ==>
        exists i :: 0 <= i < |old(list)| && old(list)[i] == block && used <= limit
                    && list == old(list)[..Fitting(old(Sizes(list))[i := old(block.memory) + size], limit)]
      ensures gone == old(gone) + (set b | b in old(list) && b !in list)
    {
      hide Total, Fitting, ByRecency, Sizes, Distinct, Linked, Apart, Idle;
      ghost var sizes := Sizes(list);
      ListedIff();
      if block.pre != null || head == block {
        ghost var i: nat :| i < |list| && list[i] == block;
        GrowListed(block, size, i);
        TotalAdd(sizes, i, size);
        used := used + size;
        KickOffBlocks();
      } else {
        GrowUnlisted(block, size);
      }
    }

    method GrowListed(block: Block, size: nat, ghost i: nat)
      requires Valid() && i < |list| && list[i] == block
      modifies block`memory
      ensures Chained() && ByRecency(list, lastUse, clock) && Apart(gone, list) && Idle(gone)
      ensures block.memory == old(block.memory) + size && Sizes(list) == old(Sizes(list))[i := block.memory]
    {
      hide Total, ByRecency;
      block.memory := block.memory + size;
    }

    method GrowUnlisted(block: Block, size: nat)
      requires Valid() && block !in list
      modifies block`memory
      ensures Valid() && block.memory == old(block.memory) + size
    {
      hide Total, ByRecency, Distinct;
      block.memory := block.memory + size;
      assert Sizes(list) == old(Sizes(list));
    }

    // The source's test for "is in the list".
    lemma ListedIff()
      requires Chained() && Apart(gone, list) && Idle(gone)
      ensures forall b :: b in list || b in gone ==> (b in list <==> b.pre != null || head == b)
    {
      forall b | b in list || b in gone
        ensures b in list <==> b.pre != null || head == b
      {
        if b in list && b.pre == null {
          FirstHasNoPre(list, b);
        }
      }
    }

    method SetMaxMemorySize(max: nat)
      requires Valid()
      modifies this`head, this`tail, this`limit, this`used, this`list, this`gone, list`pre, list`next
      ensures Valid() && limit == max && used <= max
      ensures list == old(list)[..Fitting(old(Sizes(list)), max)]
      ensures gone == old(gone) + (set b | b in old(list) && b !in list)
    {
      limit := max;
      KickOffBlocks();
    }

    method EvictAll()
      requires Valid()
      modifies this`head, this`tail, this`used, this`list, this`gone, list`pre, list`next
      ensures Valid() && list == [] && used == 0 && gone == old(gone) + set b | b in old(list)
    {
      hide Total, Linked, Distinct, ByRecency, Apart, Idle, Sizes, Beyond;
      ghost var l, g, n := list, gone, |list|;
      assert l[..n] == l;
      BeyondAll(l);
      while head != null
        invariant n <= |l| && list == l[..n] && Chained() && ByRecency(list, lastUse, clock)
        invariant gone == g + Beyond(l, n)
        invariant Apart(gone, list) && Idle(gone)
        decreases n
      {
        LastFacts(list, gone, lastUse, clock);
        ghost var before := gone;
        var block := UnlinkTail();
        n := n - 1;
        assert l[..n + 1][..n] == l[..n];
        BeyondStep(l, n);
        gone := gone + {block};
        StillIdle(before, block);
      }
      used := 0;
      assert Sizes(list) == [];
      NoSizes();
      BeyondIs(l, 0);
    }
  }

  // The blocks behind the first n.
  ghost function Beyond(l: seq<Block>, n: nat): set<Block>
    requires n <= |l|
  {
    set b | b in l && b !in l[..n]
  }

  lemma BeyondAll(l: seq<Block>)
    ensures Beyond(l, |l|) == {}
  {
    assert l[..|l|] == l;
  }

  lemma BeyondStep(l: seq<Block>, n: nat)
    requires n < |l| && l[n] !in l[..n]
    ensures Beyond(l, n) == Beyond(l, n + 1) + {l[n]}
  {
    assert l[..n + 1] == l[..n] + [l[n]];
  }

  lemma BeyondIs(l: seq<Block>, n: nat)
    requires n <= |l|
    ensures Beyond(l, n) == (set b | b in l && b !in l[..n]) && Beyond(l, 0) == set b | b in l
  {
    assert l[..0] == [];
  }

  lemma LastFacts(list: seq<Block>, gone: set<Block>, lastUse: map<Block, nat>, now: nat)
    requires list != [] && Distinct(list) && ByRecency(list, lastUse, now) && Apart(gone, list)
    ensures var k := |list| - 1;
            list[k] !in list[..k] && ByRecency(list[..k], lastUse, now) && Apart(gone + {list[k]}, list[..k])
    ensures forall b :: b in gone ==> b !in list
  {
  }

  lemma StillIdle(gone: set<Block>, b: Block)
    requires Idle(gone) && b.pre == null && b.next == null
    ensures Idle(gone + {b})
  {
  }

  lemma NoSizes()
    ensures Total([]) == 0
  {
  }

  lemma LastSize(sizes: seq<nat>)
    requires sizes != []
    ensures Total(sizes) == Total(sizes[..|sizes| - 1]) + sizes[|sizes| - 1]
  {
  }

  lemma UniqueFit(sizes: seq<nat>, limit: nat, n: nat)
    requires n <= |sizes| && Total(sizes[..n]) <= limit && forall m :: n < m <= |sizes| ==> Total(sizes[..m]) > limit
    ensures n == Fitting(sizes, limit)
  {
    hide Total;
  }

  // The links after Access, in terms of the old order.
  ghost predicate Moved(l: seq<Block>, i: nat)
    requires 0 < i < |l|
    reads l
  {
    && l[i].next == l[0] && l[i].pre == null
    && l[i - 1].next == At(l, i + 1)
    && l[0].pre == l[i]
    && (i + 1 < |l| ==> l[i + 1].pre == l[i - 1])
    && (forall j {:trigger l[j].next} :: 0 <= j < |l| && j != i && j != i - 1 ==> l[j].next == At(l, j + 1))
    && (forall j {:trigger l[j].pre} :: 0 < j < |l| && j != i && j != i + 1 ==> l[j].pre == l[j - 1])
  }

  lemma MovedLinked(l: seq<Block>, i: nat)
    requires 0 < i < |l| && Moved(l, i) && Distinct(l)
    ensures Linked(ToFront(l, i)) && Distinct(ToFront(l, i)) && At(ToFront(l, i), 0) == l[i]
    ensures |ToFront(l, i)| == |l| && At(ToFront(l, i), |l| - 1) == if i == |l| - 1 then l[i - 1] else l[|l| - 1]
  {
    var n := ToFront(l, i);
    assert n[0] == l[i];
    assert forall k :: 1 <= k <= i ==> n[k] == l[k - 1];
    assert forall k :: i < k < |l| ==> n[k] == l[k];
    forall k | 0 <= k < |n|
      ensures n[k].next == At(n, k + 1)
    {
      if 1 <= k <= i {
        assert k - 1 != i - 1 ==> l[k - 1].next == At(l, k);
      }
    }
    forall k | 0 <= k < |n|
      ensures n[k].pre == At(n, k - 1)
    {
      if 1 < k <= i {
        assert l[k - 1].pre == l[k - 2];
      }
    }
  }

  lemma DistinctToFront(list: seq<Block>, i: nat)
    requires Distinct(list) && i < |list|
    ensures var n := ToFront(list, i);
            n[0] == list[i] && (forall k :: 1 <= k <= i ==> n[k] == list[k - 1] != list[i])
            && forall k :: i < k < |list| ==> n[k] == list[k] != list[i]
  {
  }

  lemma SizesToFront(list: seq<Block>, i: nat)
    requires i < |list|
    ensures Sizes(ToFront(list, i)) == [Sizes(list)[i]] + Sizes(list)[..i] + Sizes(list)[i + 1..]
    ensures forall b :: b in ToFront(list, i) <==> b in list
  {
    assert list == list[..i] + [list[i]] + list[i + 1..];
  }

  lemma LaterHasPre(list: seq<Block>, i: nat)
    requires Linked(list) && i < |list| && list[i].pre != null
    ensures i > 0
  {
    assert list[i].pre == At(list, i - 1);
  }

  lemma FirstHasNoPre(list: seq<Block>, b: Block)
    requires Linked(list) && b in list && b.pre == null
    ensures b == list[0]
  {
    var i :| 0 <= i < |list| && list[i] == b;
    assert list[i].pre == At(list, i - 1);
  }
}
