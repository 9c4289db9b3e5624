/** The allocator as it runs: list heads in an array, links in the first word of each free block. */
module BuddyAllocator {
  import opened Wrappers
  import opened Bits
  import opened Tiling
  import opened BuddyModel
  import opened BuddyTiling
  import opened BuddyCanonical
  import opened BuddyRuns

  const ORDER_COUNT: nat := MAX_ORDER - MIN_ORDER + 1
  const NULL: nat := 0

  /** The machine's memory, one 64-bit word per address that is a multiple of 8. */
  class Memory {
    var words: map<nat, nat>

    constructor (words: map<nat, nat>)
      ensures this.words == words
    {
      this.words := words;
    }
  }

  /** Address `i` of a list, or null past its end. */
  function Link(s: seq<nat>, i: nat): nat {
    if i < |s| then s[i] else NULL
  }

  /** From `head` the links in memory visit exactly the addresses of `s` and end in null. */
  ghost predicate Chain(words: map<nat, nat>, head: nat, s: seq<nat>) {
    && head == Link(s, 0)
    && forall i :: 0 <= i < |s| ==> s[i] != NULL && s[i] in words && words[s[i]] == Link(s, i + 1)
  }

  /** A chain never comes back to an address: links that end in null are acyclic. */
  lemma {:induction false} ChainFromSameAddress(words: map<nat, nat>, s: seq<nat>, i: nat, j: nat)
    requires Chain(words, Link(s, 0), s) && i <= j < |s| && s[i] == s[j]
    ensures i == j
    decreases |s| - j
  {
    if i < j {
      assert Link(s, i + 1) == Link(s, j + 1);
      if j + 1 < |s| {
        ChainFromSameAddress(words, s, i + 1, j + 1);
      }
    }
  }

  lemma ChainHasNoDuplicates(words: map<nat, nat>, head: nat, s: seq<nat>)
    requires Chain(words, head, s)
    ensures NoDuplicates(s)
  {
    forall i, j | 0 <= i < j < |s| ensures s[i] != s[j] {
      if s[i] == s[j] {
        ChainFromSameAddress(words, s, i, j);
      }
    }
  }

  /** The words of `blocks` are the same in both memories. */
  ghost predicate Untouched(before: map<nat, nat>, after: map<nat, nat>, blocks: set<Block>) {
    && after.Keys == before.Keys
    && forall b, x :: b in blocks && x in before && b.Has(x) ==> after[x] == before[x]
  }

  /** Every 8-byte word of the heap range can be read and written. */
  ghost predicate Mapped(words: map<nat, nat>, start: nat, size: nat) {
    forall x :: start <= x && x + NODE_SIZE <= start + size && x % NODE_SIZE == 0 ==> x in words
  }

  /** No address is on two lists. */
  ghost predicate Separate(lists: FreeLists) {
    forall j, k, a :: 0 <= j < k <= MAX_ORDER && a in lists[j] ==> a !in lists[k]
  }

  // ---------------------------------------------------------------- facts the list operations need

  lemma TiledSeparate(lists: FreeLists, held: set<Block>, start: nat, end: nat, maxOrder: nat)
    requires Tiled(lists, held, start, end, maxOrder)
    ensures Separate(lists)
  {
    forall j, k, a | 0 <= j < k <= MAX_ORDER && a in lists[j] ensures a !in lists[k] {
      var b, c := Block(a, j), Block(a, k);
      FreeSetMember(lists, b);
      FreeSetMember(lists, c);
      if a in lists[k] {
        assert b.Has(a) && c.Has(a);
        SharedByte(FreeSet(lists) + held, start, end, b, c, a);
      }
    }
  }

  /** A block just pushed was on no list before, and its first word is mapped memory of the heap. */
  lemma PushedWasFresh(lists: FreeLists, held: set<Block>, start: nat, end: nat, maxOrder: nat, addr: nat, order: nat)
    requires order <= MAX_ORDER && Tiled(Push(lists, addr, order), held, start, end, maxOrder)
    ensures forall k :: 0 <= k <= MAX_ORDER ==> addr !in lists[k]
    ensures start <= addr && addr + MIN_BLOCK <= end && Aligned(addr - start, MIN_ORDER)
    ensures forall b :: b in held ==> !b.Has(addr)
  {
    var after := Push(lists, addr, order);
    TiledSeparate(after, held, start, end, maxOrder);
    var b := Block(addr, order);
    FreeSetMember(after, b);
    assert b in FreeSet(after) + held;
    assert Pow2(MIN_ORDER) == MIN_BLOCK;
    Pow2Monotone(MIN_ORDER, order);
    assert addr == after[order][0];
    forall k | 0 <= k <= MAX_ORDER ensures addr !in lists[k] {
      if k == order {
        assert forall i :: 0 <= i < |lists[k]| ==> lists[k][i] == after[k][i + 1];
      } else {
        assert lists[k] == after[k];
      }
    }
    forall c | c in held ensures !c.Has(addr) {
      assert c.Apart(b);
    }
  }

  lemma HeapWordMapped(words: map<nat, nat>, start: nat, size: nat, addr: nat)
    requires Mapped(words, start, size) && Aligned(start, MIN_ORDER) && Aligned(addr - start, MIN_ORDER)
    requires start <= addr && addr + MIN_BLOCK <= start + size
    ensures addr in words
  {
    assert Pow2(MIN_ORDER) == MIN_BLOCK;
    AlignedSum(addr - start, start, MIN_ORDER);
    assert addr % MIN_BLOCK == 0;
  }

  // ---------------------------------------------------------------- linked lists in memory

  /** List heads and memory together spell out the abstract free lists. */
  ghost predicate Spells(words: map<nat, nat>, heads: seq<nat>, lists: FreeLists) {
    && |heads| == ORDER_COUNT
    && Separate(lists)
    && forall k :: MIN_ORDER <= k <= MAX_ORDER ==> Chain(words, heads[k - MIN_ORDER], lists[k])
  }

  lemma NothingSpelled(words: map<nat, nat>, heads: seq<nat>)
    requires |heads| == ORDER_COUNT && forall i :: 0 <= i < |heads| ==> heads[i] == NULL
    ensures Spells(words, heads, NoBlocks())
  {
  }

  lemma PushSpells(words: map<nat, nat>, heads: seq<nat>, lists: FreeLists, addr: nat, order: nat)
    requires Spells(words, heads, lists) && MIN_ORDER <= order <= MAX_ORDER && addr != NULL && addr in words
    requires forall k :: 0 <= k <= MAX_ORDER ==> addr !in lists[k]
    ensures Spells(words[addr := heads[order - MIN_ORDER]], heads[order - MIN_ORDER := addr], Push(lists, addr, order))
  {
    var after := Push(lists, addr, order);
    var i := order - MIN_ORDER;
    forall k | MIN_ORDER <= k <= MAX_ORDER
      ensures Chain(words[addr := heads[i]], heads[i := addr][k - MIN_ORDER], after[k])
    {
      assert Chain(words, heads[k - MIN_ORDER], lists[k]);
      forall j | 0 <= j < |lists[k]| ensures lists[k][j] != addr {
        assert lists[k][j] in lists[k];
      }
    }
  }

  lemma PopSpells(words: map<nat, nat>, heads: seq<nat>, lists: FreeLists, order: nat)
    requires Spells(words, heads, lists) && MIN_ORDER <= order <= MAX_ORDER && lists[order] != []
    ensures lists[order][0] in words && lists[order][0] != NULL
    ensures Spells(words, heads[order - MIN_ORDER := words[lists[order][0]]], lists[order := lists[order][1..]])
  {
    var s := lists[order];
    assert Chain(words, heads[order - MIN_ORDER], s);
    assert forall i :: 0 <= i < |s| ==> Link(s[1..], i) == Link(s, i + 1);
  }

  /** Redirecting the predecessor of element `i` to its successor takes the element out of the chain. */
  lemma UnlinkChain(words: map<nat, nat>, head: nat, s: seq<nat>, i: nat)
    requires Chain(words, head, s) && 0 < i < |s|
    ensures s[i] in words && s[i - 1] in words
    ensures Chain(words[s[i - 1] := words[s[i]]], head, s[..i] + s[i + 1..])
  {
    ChainHasNoDuplicates(words, head, s);
    var t, changed := s[..i] + s[i + 1..], words[s[i - 1] := words[s[i]]];
    forall j | 0 <= j < |t| ensures t[j] != NULL && t[j] in changed && changed[t[j]] == Link(t, j + 1) {
      var o := if j < i then j else j + 1;
      assert t[j] == s[o] && words[s[o]] == Link(s, o + 1);
    }
  }

  lemma ChainElsewhere(words: map<nat, nat>, head: nat, s: seq<nat>, addr: nat, value: nat)
    requires Chain(words, head, s) && addr !in s
    ensures Chain(words[addr := value], head, s)
  {
    forall j | 0 <= j < |s| ensures s[j] != addr {
      assert s[j] in s;
    }
  }

  lemma UnlinkSpells(words: map<nat, nat>, heads: seq<nat>, lists: FreeLists, order: nat, i: nat)
    requires Spells(words, heads, lists) && MIN_ORDER <= order <= MAX_ORDER && 0 < i < |lists[order]|
    ensures var s := lists[order];
            && s[i] in words && s[i - 1] in words
            && Spells(words[s[i - 1] := words[s[i]]], heads, lists[order := s[..i] + s[i + 1..]])
  {
    hide Chain;
    var s := lists[order];
    UnlinkChain(words, heads[order - MIN_ORDER], s, i);
    var after := lists[order := s[..i] + s[i + 1..]];
    forall k | MIN_ORDER <= k <= MAX_ORDER && k != order
      ensures Chain(words[s[i - 1] := words[s[i]]], heads[k - MIN_ORDER], after[k])
    {
      assert s[i - 1] in lists[order];
      ChainElsewhere(words, heads[k - MIN_ORDER], lists[k], s[i - 1], words[s[i]]);
    }
    assert forall a :: a in after[order] ==> a in lists[order];
  }

  class BuddyAllocator {
    const mem: Memory
    const freeLists: array<nat>
    var heapStart: nat
    var heapSize: nat
    var maxOrder: Order
    var initialized: bool
    ghost var lists: FreeLists
    ghost var live: map<nat, nat>

    ghost function Model(): Heap
      reads this
    {
      Heap(heapStart, heapSize, maxOrder, lists, live)
    }

    /** List heads and links spell the abstract lists, and the heap range is addressable memory. */
    ghost predicate Linked()
      reads this, mem, freeLists
    {
      && Spells(mem.words, freeLists[..], lists)
      && Mapped(mem.words, heapStart, heapSize)
      && heapStart > 0 && heapStart + heapSize < WORD && Aligned(heapStart, MIN_ORDER)
    }

    ghost predicate Valid()
      reads this, mem, freeLists
    {
      && freeLists.Length == ORDER_COUNT
      && (initialized ==> Linked() && Inv(Model()))
    }

    constructor (mem: Memory)
      ensures Valid() && !initialized && this.mem == mem && fresh(freeLists)
      ensures heapStart == 0 && heapSize == 0 && maxOrder == MIN_ORDER
      ensures forall i :: 0 <= i < freeLists.Length ==> freeLists[i] == NULL
    {
      this.mem := mem;
      freeLists := new nat[ORDER_COUNT](_ => NULL);
      heapStart, heapSize, maxOrder, initialized := 0, 0, MIN_ORDER, false;
      lists, live := NoBlocks(), map[];
    }

    // -------------------------------------------------------------- orders

    static method LargestOrder(size: Usize) returns (order: nat)
      ensures order == LargestOrderFor(size)
    {
      hide LargestOrderFor, Pow2;
      order := MIN_ORDER;
      while order < MAX_ORDER && Pow2(order + 1) <= size
        invariant MIN_ORDER <= order <= MAX_ORDER && (order > MIN_ORDER ==> Pow2(order) <= size)
        decreases MAX_ORDER - order
      {
        order := order + 1;
      }
      LargestOrderIsUnique(size, order);
    }

    static method SmallestOrder(size: Usize) returns (order: Option<nat>)
      ensures order == OrderForSize(size)
    {
      hide OrderForSize, Pow2;
      var bytes := Max(size, NODE_SIZE);
      var k := MIN_ORDER;
      while Pow2(k) < bytes
        invariant MIN_ORDER <= k <= MAX_ORDER && (k > MIN_ORDER ==> Pow2(k - 1) < bytes)
        decreases MAX_ORDER - k
      {
        if k == MAX_ORDER {
          LeastOrderIsUnique(size, None);
          return None;
        }
        k := k + 1;
      }
      LeastOrderIsUnique(size, Some(k));
      return Some(k);
    }

    // -------------------------------------------------------------- intrusive lists

    method PushFreeBlock(addr: Usize, order: nat)
      requires Linked() && MIN_ORDER <= order <= MAX_ORDER && addr != NULL && addr in mem.words
      requires forall k :: 0 <= k <= MAX_ORDER ==> addr !in lists[k]
      modifies freeLists, mem, `lists
      ensures Linked() && lists == Push(old(lists), addr, order)
      ensures mem.words == old(mem.words)[addr := old(freeLists[order - MIN_ORDER])]
    {
      PushSpells(mem.words, freeLists[..], lists, addr, order);
      var index := order - MIN_ORDER;
      mem.words := mem.words[addr := freeLists[index]];
      freeLists[index] := addr;
      lists := Push(lists, addr, order);
    }

    method PopFreeBlock(order: nat) returns (addr: Option<nat>)
      requires Linked() && MIN_ORDER <= order <= MAX_ORDER
      modifies freeLists, `lists
      ensures Linked()
      ensures addr.None? <==> old(lists[order]) == []
      ensures addr.None? ==> lists == old(lists)
      ensures addr.Some? ==> addr.value == old(lists[order])[0] && lists == old(lists)[order := old(lists[order])[1..]]
    {
      var index := order - MIN_ORDER;
      var node := freeLists[index];
      assert Chain(mem.words, node, lists[order]);
      if node == NULL {
        return None;
      }
      PopSpells(mem.words, freeLists[..], lists, order);
      freeLists[index] := mem.words[node];
      lists := lists[order := lists[order][1..]];
      return Some(node);
    }

    /** Walks the list and unlinks exactly the block at `addr`, if it is there; writes only into listed blocks. */
    method RemoveFreeBlock(addr: nat, order: nat) returns (found: bool)
      requires Linked() && MIN_ORDER <= order <= MAX_ORDER
      modifies freeLists, mem, `lists
      ensures Linked() && found == (addr in old(lists[order]))
      ensures lists == if found then old(lists)[order := Without(old(lists[order]), addr)] else old(lists)
      ensures mem.words.Keys == old(mem.words.Keys) && (!found ==> mem.words == old(mem.words))
      ensures forall x :: x in mem.words && x !in lists[order] ==> mem.words[x] == old(mem.words[x])
    {
      var index := order - MIN_ORDER;
      ghost var s, i := lists[order], 0;
      assert Chain(mem.words, freeLists[index], s);
      var prev, current := NULL, freeLists[index];
      while current != NULL
        invariant 0 <= i <= |s| && current == Link(s, i) && prev == (if i > 0 then s[i - 1] else NULL)
        invariant addr !in s[..i]
        decreases |s| - i
      {
        if current == addr {
          var next := mem.words[current];
          WithoutAt(s, i);
          if prev == NULL {
            PopSpells(mem.words, freeLists[..], lists, order);
            freeLists[index] := next;
          } else {
            UnlinkSpells(mem.words, freeLists[..], lists, order, i);
            mem.words := mem.words[prev := next];
            assert Without(s, addr)[i - 1] == prev;
          }
          lists := lists[order := Without(s, addr)];
          return true;
        }
        prev := current;
        current := mem.words[current];
        i := i + 1;
      }
      return false;
    }

    /** Pushes a block that the caller holds; writes into no other held block. */
    method PushHeld(addr: Usize, order: nat, ghost held: set<Block>, ghost end: nat)
      requires Linked() && MIN_ORDER <= order <= maxOrder && end <= heapStart + heapSize
      requires Block(addr, order) !in held
      requires Tiled(lists, held + {Block(addr, order)}, heapStart, end, maxOrder)
      modifies freeLists, mem, `lists
      ensures Linked() && lists == Push(old(lists), addr, order)
      ensures Tiled(lists, held, heapStart, end, maxOrder)
      ensures Untouched(old(mem.words), mem.words, held)
      ensures forall x :: x in mem.words && x != addr ==> mem.words[x] == old(mem.words[x])
    {
      hide Tiled, Spells, Aligned, Pow2;
      PushTiles(lists, held, heapStart, end, maxOrder, addr, order);
      PushedWasFresh(lists, held, heapStart, end, maxOrder, addr, order);
      HeapWordMapped(mem.words, heapStart, heapSize, addr);
      PushFreeBlock(addr, order);
    }

    // -------------------------------------------------------------- init

    /** Seeds the heap, or reports the assertion failure and changes nothing. */
    method Init(start: Usize, size: Usize) returns (panicked: bool)
      requires Valid() && start > 0 && start + size < WORD && Mapped(mem.words, start, size)
      modifies this, freeLists, mem
      ensures panicked <==> start % MIN_BLOCK != 0 || size < MIN_BLOCK
      ensures panicked ==> unchanged(this) && unchanged(freeLists) && unchanged(mem)
      ensures !panicked ==> Valid() && initialized && Model() == Initial(start, size)
      ensures mem.words.Keys == old(mem.words.Keys)
      ensures forall x :: x in mem.words && !(start <= x < start + size) ==> mem.words[x] == old(mem.words[x])
    {
      hide Tiled, Mapped, Spells, LargestOrderFor, Inv, Seed;
      assert Pow2(MIN_ORDER) == MIN_BLOCK;
      if start % Pow2(MIN_ORDER) != 0 || size < Pow2(MIN_ORDER) {
        return true;
      }
      heapStart, heapSize := start, size;
      maxOrder := LargestOrder(size);
      forall i | 0 <= i < freeLists.Length {
        freeLists[i] := NULL;
      }
      lists, live := NoBlocks(), map[];
      NothingSpelled(mem.words, freeLists[..]);
      NoBlocksTiled(start, maxOrder);
      SeedLists();
      initialized := true;
      InitialInv(start, size);
      return false;
    }

    /** The seeding loop of `init`. */
    method SeedLists()
      requires Linked() && lists == NoBlocks() && maxOrder >= MIN_ORDER
      requires Tiled(lists, {}, heapStart, heapStart, maxOrder)
      modifies freeLists, mem, `lists
      ensures Linked() && lists == Seed(NoBlocks(), heapStart, heapSize, maxOrder)
      ensures mem.words.Keys == old(mem.words.Keys)
      ensures forall x :: x in mem.words && !(heapStart <= x < heapStart + heapSize) ==>
                            mem.words[x] == old(mem.words[x])
    {
      hide Tiled, Mapped, Spells, PickOrder, Seed;
      assert Pow2(MIN_ORDER) == MIN_BLOCK;
      var addr: Usize, remaining: Usize := heapStart, heapSize;
      while remaining >= Pow2(MIN_ORDER)
        invariant Linked() && Tiled(lists, {}, heapStart, addr, maxOrder)
        invariant addr + remaining == heapStart + heapSize && heapStart <= addr && Aligned(addr, MIN_ORDER)
        invariant Seed(lists, addr, remaining, maxOrder) == Seed(NoBlocks(), heapStart, heapSize, maxOrder)
        invariant mem.words.Keys == old(mem.words.Keys)
        invariant forall x :: x in mem.words && !(heapStart <= x < heapStart + heapSize) ==>
                                mem.words[x] == old(mem.words[x])
        decreases remaining
      {
        var order := PickLargest(addr, remaining, maxOrder);
        var bytes := Pow2(order);
        SeedUnrolls(lists, addr, remaining, maxOrder);
        if bytes > remaining || addr % bytes != 0 {
          break;
        }
        AppendHeld(lists, heapStart, addr, maxOrder, order);
        PushHeld(addr, order, {}, addr + bytes);
        addr, remaining := addr + bytes, remaining - bytes;
      }
      SeedUnrolls(lists, addr, remaining, maxOrder);
    }

    /** The inner loop of `init`: the largest order that fits and is aligned at `addr`. */
    static method PickLargest(addr: Usize, remaining: Usize, maxOrder: Order) returns (order: nat)
      requires maxOrder >= MIN_ORDER
      ensures order == PickOrder(addr, remaining, maxOrder)
    {
      hide Pow2;
      order := maxOrder;
      while order > MIN_ORDER
        invariant MIN_ORDER <= order <= maxOrder
        invariant PickOrder(addr, remaining, order) == PickOrder(addr, remaining, maxOrder)
      {
        var bytes := Pow2(order);
        if bytes <= remaining && addr % bytes == 0 {
          break;
        }
        order := order - 1;
      }
    }

    // -------------------------------------------------------------- alloc

    /** Takes or splits a block; writes into no block that is held or handed out. */
    method AllocateOrder(order: nat, ghost held: set<Block>) returns (addr: Option<nat>)
      requires MIN_ORDER <= order && Linked()
      requires Tiled(lists, held, heapStart, Model().End(), maxOrder)
      modifies freeLists, mem, `lists
      ensures (addr, lists) == BuddyModel.AllocateOrder(old(lists), maxOrder, order)
      ensures Linked()
      ensures Untouched(old(mem.words), mem.words, held)
      ensures addr.Some? ==> Untouched(old(mem.words), mem.words, {Block(addr.value, order)})
      decreases maxOrder + 1 - order
    {
      hide Tiled, Spells, Aligned, Mapped, Pow2;
      if order > maxOrder {
        return None;
      }
      addr := PopFreeBlock(order);
      if addr.Some? {
        return addr;
      }
      ghost var before, end := lists, Model().End();
      addr := AllocateOrder(order + 1, held);
      if addr.None? {
        return None;
      }
      ghost var lower := Block(addr.value, order);
      AllocateOrderTiles(before, held, heapStart, end, maxOrder, order + 1);
      HalveHeld(lists, held, heapStart, end, maxOrder, order, addr.value);
      TiledBelow(lists, held + {lower}, heapStart, end, maxOrder, Block(addr.value + Pow2(order), order));
      var buddyAddr: Usize := addr.value + Pow2(order);
      ghost var middle := mem.words;
      PushHeld(buddyAddr, order, held + {lower}, end);
      SplitUntouched(old(mem.words), middle, mem.words, held, addr.value, order);
    }

    /** Returns a block for `layout`, or null; no word of a live block changes. */
    method Alloc(layout: Layout) returns (ptr: Usize)
      requires Valid() && layout.size < WORD && layout.align < WORD
      modifies freeLists, mem, `lists, `live
      ensures Valid()
      ensures !initialized ==> ptr == NULL && lists == old(lists) && live == old(live) && mem.words == old(mem.words)
      ensures initialized ==>
                var (addr, after) := BuddyModel.Alloc(old(Model()), layout);
                && Model() == after
                && (addr == None ==> ptr == NULL)
                && (addr.Some? ==> ptr == addr.value && ptr != NULL)
      ensures Untouched(old(mem.words), mem.words, LiveSet(live))
    {
      hide Tiled, Spells, Mapped, Aligned, OrderForSize, BuddyModel.AllocateOrder, LargestOrderFor;
      if !initialized {
        return NULL;
      }
      var size := Max(layout.size, layout.align);
      var order := SmallestOrder(size);
      if order.None? {
        return NULL;
      }
      ghost var before := Model();
      AllocKeepsInv(before, layout);
      var addr := AllocateOrder(order.value, LiveSet(live));
      if addr.None? {
        return NULL;
      }
      live := live[addr.value := order.value];
      LiveSetAdd(before.live, addr.value, order.value);
      LiveBlock(Model(), addr.value);
      return addr.value;
    }

    // -------------------------------------------------------------- dealloc

    /** Merges the block with free buddies as long as there are any; no word of a block still live changes. */
    method Dealloc(ptr: Usize, layout: Layout)
      requires Valid() && layout.size < WORD && layout.align < WORD
      requires ptr != NULL && initialized ==> MayFree(Model(), ptr, layout)
      modifies freeLists, mem, `lists, `live
      ensures Valid()
      ensures ptr == NULL || !initialized ==> lists == old(lists) && live == old(live) && mem.words == old(mem.words)
      ensures ptr != NULL && initialized ==> Model() == BuddyModel.Dealloc(old(Model()), ptr, layout)
      ensures Untouched(old(mem.words), mem.words, LiveSet(live))
    {
      hide Tiled, Spells, Mapped, Aligned, OrderForSize, Release, LargestOrderFor;
      if ptr == NULL || !initialized {
        return;
      }
      var size := Max(layout.size, layout.align);
      var order := SmallestOrder(size);
      if order.None? {
        return;
      }
      ghost var before := Model();
      DeallocKeepsInv(before, ptr, layout);
      LiveBlock(before, ptr);
      LiveSetRemove(live, ptr);
      live := live - {ptr};
      assert LiveSet(live) + {Block(ptr, order.value)} == LiveSet(before.live);
      ReleaseBlock(ptr, order.value, LiveSet(live), Model().End());
    }

    /** The merge loop of `dealloc` and its push. */
    method ReleaseBlock(ptr: Usize, least: nat, ghost held: set<Block>, ghost end: nat)
      requires Linked() && MIN_ORDER <= least <= maxOrder && heapStart <= ptr && end <= heapStart + heapSize
      requires Block(ptr, least) !in held
      requires Tiled(lists, held + {Block(ptr, least)}, heapStart, end, maxOrder)
      modifies freeLists, mem, `lists
      ensures Linked() && lists == Release(old(lists), heapStart, maxOrder, ptr, least)
      ensures Untouched(old(mem.words), mem.words, held)
    {
      hide Tiled, Spells, Mapped, Aligned, Pow2, Buddy, FreeSet;
      var addr: Usize, order := ptr, least;
      while order < maxOrder
        invariant MIN_ORDER <= order <= maxOrder && heapStart <= addr && Block(addr, order) !in held
        invariant Linked() && Tiled(lists, held + {Block(addr, order)}, heapStart, end, maxOrder)
        invariant Release(lists, heapStart, maxOrder, addr, order)
               == Release(old(lists), heapStart, maxOrder, ptr, least)
        invariant Untouched(old(mem.words), mem.words, held)
        decreases maxOrder - order
      {
        var buddy := Buddy(heapStart, addr, order);
        ghost var was, words := lists, mem.words;
        var merged := RemoveFreeBlock(buddy, order);
        if !merged {
          break;
        }
        MergeTiles(was, held, heapStart, end, maxOrder, addr, order);
        RemovalUntouched(words, mem.words, lists, held, heapStart, end, maxOrder, order,
                         Block(Min(addr, buddy), order + 1));
        UntouchedTwice(old(mem.words), words, mem.words, held);
        addr, order := Min(addr, buddy), order + 1;
      }
      ghost var middle := mem.words;
      PushHeld(addr, order, held, end);
      UntouchedTwice(old(mem.words), middle, mem.words, held);
    }
  }

  lemma TiledBelow(lists: FreeLists, held: set<Block>, start: nat, end: nat, maxOrder: nat, b: Block)
    requires Tiled(lists, held + {b}, start, end, maxOrder)
    ensures start <= b.addr && b.End() <= end
  {
    assert b in FreeSet(lists) + (held + {b});
  }

  lemma SplitUntouched(before: map<nat, nat>, middle: map<nat, nat>, after: map<nat, nat>, held: set<Block>,
                       addr: nat, order: nat)
    requires Untouched(before, middle, held) && Untouched(before, middle, {Block(addr, order + 1)})
    requires Untouched(middle, after, held + {Block(addr, order)})
    ensures Untouched(before, after, held) && Untouched(before, after, {Block(addr, order)})
  {
    var whole, lower := Block(addr, order + 1), Block(addr, order);
    assert lower in held + {lower} && whole in {whole} && lower.Within(whole);
  }

  lemma UntouchedTwice(before: map<nat, nat>, middle: map<nat, nat>, after: map<nat, nat>, held: set<Block>)
    requires Untouched(before, middle, held) && Untouched(middle, after, held)
    ensures Untouched(before, after, held)
  {
  }

  /** Unlinking writes only into blocks that stay free, so not into held ones. */
  lemma RemovalUntouched(before: map<nat, nat>, after: map<nat, nat>, lists: FreeLists, held: set<Block>,
                         start: nat, end: nat, maxOrder: nat, order: nat, b: Block)
    requires order <= MAX_ORDER && Tiled(lists, held + {b}, start, end, maxOrder)
    requires after.Keys == before.Keys && forall x :: x in after && x !in lists[order] ==> after[x] == before[x]
    ensures Untouched(before, after, held)
  {
    forall c, x | c in held && x in before && c.Has(x) ensures x !in lists[order] {
      var d := Block(x, order);
      FreeSetMember(lists, d);
      if x in lists[order] {
        assert d.Has(x);
        SharedByte(FreeSet(lists) + (held + {b}), start, end, c, d, x);
      }
    }
  }

  lemma {:induction false} WithoutAt(s: seq<nat>, i: nat)
    requires i < |s| && s[i] !in s[..i]
    ensures Without(s, s[i]) == s[..i] + s[i + 1..]
  {
    if i > 0 {
      assert s[1..][..i - 1] == s[..i][1..];
      WithoutAt(s[1..], i - 1);
      assert s[..i] == [s[0]] + s[1..][..i - 1];
    }
  }

  // ---------------------------------------------------------------- clients

  lemma StoreSpells(words: map<nat, nat>, heads: seq<nat>, lists: FreeLists, x: nat, value: nat)
    requires Spells(words, heads, lists) && forall k :: 0 <= k <= MAX_ORDER ==> x !in lists[k]
    ensures Spells(words[x := value], heads, lists)
  {
    forall k | MIN_ORDER <= k <= MAX_ORDER ensures Chain(words[x := value], heads[k - MIN_ORDER], lists[k]) {
      ChainElsewhere(words, heads[k - MIN_ORDER], lists[k], x, value);
    }
  }

  lemma LiveWordNotListed(h: Heap, b: Block, x: nat)
    requires Inv(h) && b in LiveSet(h.live) && b.Has(x)
    ensures forall k :: 0 <= k <= MAX_ORDER ==> x !in h.lists[k]
  {
    forall k | 0 <= k <= MAX_ORDER ensures x !in h.lists[k] {
      var c := Block(x, k);
      FreeSetMember(h.lists, c);
      if x in h.lists[k] {
        assert c.Has(x);
        SharedByte(FreeSet(h.lists) + LiveSet(h.live), h.start, h.End(), b, c, x);
      }
    }
  }

  /** The owner of a live block may write anything into it: the allocator's state is elsewhere. */
  method StoreByOwner(a: BuddyAllocator, b: Block, x: nat, value: nat)
    requires a.Valid() && a.initialized && b in LiveSet(a.live) && b.Has(x) && x in a.mem.words
    modifies a.mem
    ensures a.Valid() && a.Model() == old(a.Model()) && a.mem.words == old(a.mem.words)[x := value]
  {
    LiveWordNotListed(a.Model(), b, x);
    StoreSpells(a.mem.words, a.freeLists[..], a.lists, x, value);
    a.mem.words := a.mem.words[x := value];
  }

  /** On a settled heap a block that is returned is the one handed out next for the same layout. */
  method ReuseAfterFree(a: BuddyAllocator, layout: Layout) returns (first: Usize, second: Usize)
    requires a.Valid() && a.initialized && Settled(a.Model())
    requires layout.size < WORD && layout.align < WORD
    modifies a, a.freeLists, a.mem
    ensures a.Valid() && first == second
    ensures a.Model() == BuddyModel.Alloc(old(a.Model()), layout).1
  {
    hide Settled, Inv, BuddyModel.Alloc, BuddyModel.Dealloc;
    ghost var before := a.Model();
    AllocKeepsInv(before, layout);
    if BuddyModel.Alloc(before, layout).0.Some? {
      ExactReversal(before, layout);
    }
    first := a.Alloc(layout);
    if first != NULL {
      a.Dealloc(first, layout);
    }
    second := a.Alloc(layout);
  }
}
