/**
 * Coalescing up to an order `a`: blocks are aligned to their offset as far as 2^a goes, and no two buddies of an order
 * below `a` are free. Then the free lists are canonical up to that order. On a start aligned to the largest order `a`
 * can be that order, and all of the heap is canonical.
 */
module BuddyCanonical {
  import opened Wrappers
  import opened Bits
  import opened Tiling
  import opened BuddyModel
  import opened BuddyTiling

  /** A block of order k starts at an offset that is a multiple of 2^min(k, a). */
  ghost predicate OffsetsAligned(blocks: set<Block>, start: nat, a: nat) {
    forall b :: b in blocks ==> start <= b.addr && Aligned(b.addr - start, Min(b.order, a))
  }

  /** Every free list below `a` holds at most one of two buddies. */
  ghost predicate NoFreeBuddies(lists: FreeLists, start: nat, a: nat) {
    forall k, x :: 0 <= k < a && k <= MAX_ORDER && x in lists[k] && start <= x ==> Buddy(start, x, k) !in lists[k]
  }

  ghost predicate Coalesced(lists: FreeLists, held: set<Block>, start: nat, a: nat) {
    && OffsetsAligned(FreeSet(lists) + held, start, a)
    && NoFreeBuddies(lists, start, a)
  }

  ghost predicate SettledTo(h: Heap, a: nat) {
    a <= h.maxOrder && Coalesced(h.lists, LiveSet(h.live), h.start, a)
  }

  ghost predicate Settled(h: Heap) {
    SettledTo(h, h.maxOrder)
  }

  // ---------------------------------------------------------------- buddies of aligned blocks

  lemma AlignedBuddy(start: nat, addr: nat, order: nat)
    requires start <= addr && Aligned(addr - start, order)
    ensures IsLower(start, addr, order) <==> Aligned(addr - start, order + 1)
    ensures var buddy := Buddy(start, addr, order);
            && start <= buddy
            && Aligned(buddy - start, order)
            && Buddy(start, buddy, order) == addr
            && Aligned(Min(addr, buddy) - start, order + 1)
  {
    var off := addr - start;
    BuddyIsNeighbour(start, addr, order);
    AlignedHalves(off, order);
    PowerAligned(order, order);
    AlignedSum(off, Pow2(order), order);
    var buddy := Buddy(start, addr, order);
    BuddyIsNeighbour(start, buddy, order);
    AlignedHalves(buddy - start, order);
  }

  /** Merging clears one more offset bit, as far as the offsets are aligned at all. */
  lemma MergedOffset(start: nat, addr: nat, order: nat, a: nat)
    requires start <= addr && Aligned(addr - start, Min(order, a))
    ensures var low := Min(addr, Buddy(start, addr, order));
            start <= low && Aligned(low - start, Min(order + 1, a))
  {
    hide Aligned;
    if order < a {
      AlignedBuddy(start, addr, order);
    } else {
      LowBuddyInHeap(start, addr, order);
      BuddyIsNeighbour(start, addr, order);
      PowerAligned(a, order);
      AlignedSum(addr - start, Pow2(order), a);
    }
  }

  lemma LowBuddyInHeap(start: nat, addr: nat, order: nat)
    requires start <= addr
    ensures start <= Buddy(start, addr, order)
  {
  }

  /** Pushing an aligned block whose buddy is not free leaves no two free buddies. */
  lemma PushNoBuddies(lists: FreeLists, start: nat, a: nat, addr: nat, order: nat)
    requires order <= MAX_ORDER && start <= addr && Aligned(addr - start, Min(order, a))
    requires NoFreeBuddies(lists, start, a) && OffsetsAligned(FreeSet(lists), start, a)
    requires order >= a || Buddy(start, addr, order) !in lists[order]
    ensures NoFreeBuddies(Push(lists, addr, order), start, a)
  {
    hide Aligned;
    var after := Push(lists, addr, order);
    if order < a {
      AlignedBuddy(start, addr, order);
      BuddyIsNeighbour(start, addr, order);
    }
    forall k, x | 0 <= k < a && k <= MAX_ORDER && x in after[k] && start <= x ensures Buddy(start, x, k) !in after[k] {
      if k == order && x != addr {
        FreeSetMember(lists, Block(x, k));
        AlignedBuddy(start, x, k);
      }
    }
  }

  // ---------------------------------------------------------------- allocation keeps the form

  lemma {:induction false} AllocateOrderCoalesced(lists: FreeLists, held: set<Block>, start: nat, end: nat,
                                                  maxOrder: nat, order: nat, a: nat)
    requires MIN_ORDER <= order && a <= maxOrder <= MAX_ORDER
    requires Tiled(lists, held, start, end, maxOrder) && Coalesced(lists, held, start, a)
    ensures var (addr, after) := AllocateOrder(lists, maxOrder, order);
            addr.Some? ==> Coalesced(after, held + {Block(addr.value, order)}, start, a)
    decreases maxOrder + 1 - order
  {
    hide Tiled, Coalesced;
    if order > maxOrder {
    } else if lists[order] != [] {
      PopCoalesced(lists, held, start, order, a);
    } else {
      AllocateOrderCoalesced(lists, held, start, end, maxOrder, order + 1, a);
      AllocateOrderTiles(lists, held, start, end, maxOrder, order + 1);
      var (addr, rest) := AllocateOrder(lists, maxOrder, order + 1);
      if addr.Some? {
        SplitCoalesced(rest, held, start, end, maxOrder, order, addr.value, a);
      }
    }
  }

  lemma PopCoalesced(lists: FreeLists, held: set<Block>, start: nat, order: nat, a: nat)
    requires Coalesced(lists, held, start, a) && order <= MAX_ORDER && lists[order] != []
    ensures Coalesced(lists[order := lists[order][1..]], held + {Block(lists[order][0], order)}, start, a)
  {
    hide Aligned, Buddy;
    var after, b := lists[order := lists[order][1..]], Block(lists[order][0], order);
    forall c | c in FreeSet(after) + (held + {b}) ensures c in FreeSet(lists) + held {
      FreeSetMember(lists, c);
      FreeSetMember(after, c);
    }
  }

  lemma SplitCoalesced(rest: FreeLists, held: set<Block>, start: nat, end: nat, maxOrder: nat, order: nat, addr: nat,
                       a: nat)
    requires MIN_ORDER <= order < maxOrder <= MAX_ORDER && a <= maxOrder && Block(addr, order + 1) !in held
    requires Tiled(rest, held + {Block(addr, order + 1)}, start, end, maxOrder)
    requires Coalesced(rest, held + {Block(addr, order + 1)}, start, a)
    ensures Coalesced(Push(rest, addr + Pow2(order), order), held + {Block(addr, order)}, start, a)
  {
    hide Aligned, Buddy, Tiled, NoFreeBuddies, FreeSet;
    var whole, lower, upper := Block(addr, order + 1), Block(addr, order), Block(addr + Pow2(order), order);
    var tiles := FreeSet(rest) + (held + {whole});
    assert whole in tiles && FreeSet(rest) <= tiles && held <= tiles;
    AlignedDown(addr - start, Min(order, a), Min(order + 1, a));
    PowerAligned(Min(order, a), order);
    AlignedSum(addr - start, Pow2(order), Min(order, a));
    if order < a {
      AlignedBuddy(start, addr, order);
      BuddyIsNeighbour(start, addr, order);
      AlignedBuddy(start, upper.addr, order);
      LowerHalfNotFree(rest, held, start, end, maxOrder, order, addr);
    }
    FreeSetPush(rest, upper.addr, order);
    FreeSetMember(rest, lower);
    PushNoBuddies(rest, start, a, upper.addr, order);
  }

  lemma LowerHalfNotFree(rest: FreeLists, held: set<Block>, start: nat, end: nat, maxOrder: nat, order: nat, addr: nat)
    requires MIN_ORDER <= order < maxOrder <= MAX_ORDER && Block(addr, order + 1) !in held
    requires Tiled(rest, held + {Block(addr, order + 1)}, start, end, maxOrder)
    ensures Block(addr, order) !in FreeSet(Push(rest, addr + Pow2(order), order))
  {
    SplitTiles(rest, held, start, end, maxOrder, order, addr);
  }

  lemma AllocKeepsSettled(h: Heap, layout: Layout, a: nat)
    requires Inv(h) && SettledTo(h, a)
    ensures SettledTo(Alloc(h, layout).1, a)
  {
    var order := OrderFor(layout);
    AllocKeepsInv(h, layout);
    if order.Some? && Alloc(h, layout).0.Some? {
      AllocateOrderCoalesced(h.lists, LiveSet(h.live), h.start, h.End(), h.maxOrder, order.value, a);
      LiveSetAdd(h.live, Alloc(h, layout).0.value, order.value);
    }
  }

  // ---------------------------------------------------------------- release keeps the form

  lemma {:induction false} ReleaseCoalesced(lists: FreeLists, held: set<Block>, start: nat, maxOrder: nat,
                                            addr: nat, order: nat, a: nat)
    requires order <= maxOrder <= MAX_ORDER && a <= maxOrder && start <= addr && ListsOk(lists, maxOrder)
    requires Coalesced(lists, held + {Block(addr, order)}, start, a)
    ensures Coalesced(Release(lists, start, maxOrder, addr, order), held, start, a)
    decreases maxOrder - order
  {
    hide Coalesced, ListsOk;
    var buddy := Buddy(start, addr, order);
    if order < maxOrder && buddy in lists[order] {
      MergeCoalesced(lists, held, start, maxOrder, addr, order, a);
      var rest := lists[order := Without(lists[order], buddy)];
      ReleaseCoalesced(rest, held, start, maxOrder, Min(addr, buddy), order + 1, a);
    } else {
      PushCoalesced(lists, held, start, addr, order, a);
    }
  }

  lemma MergeCoalesced(lists: FreeLists, held: set<Block>, start: nat, maxOrder: nat, addr: nat, order: nat, a: nat)
    requires order < maxOrder <= MAX_ORDER && start <= addr && ListsOk(lists, maxOrder)
    requires Coalesced(lists, held + {Block(addr, order)}, start, a)
    ensures var buddy := Buddy(start, addr, order);
            var rest := lists[order := Without(lists[order], buddy)];
            && start <= Min(addr, buddy) && ListsOk(rest, maxOrder)
            && Coalesced(rest, held + {Block(Min(addr, buddy), order + 1)}, start, a)
  {
    hide Aligned, ListsOk;
    var b, buddy := Block(addr, order), Buddy(start, addr, order);
    var rest := lists[order := Without(lists[order], buddy)];
    assert b in FreeSet(lists) + (held + {b});
    MergedOffset(start, addr, order, a);
    FreeSetWithout(lists, maxOrder, buddy, order);
    forall k, x | 0 <= k <= MAX_ORDER && x in rest[k] ensures x in lists[k] {
      FreeSetMember(rest, Block(x, k));
      FreeSetMember(lists, Block(x, k));
    }
  }

  lemma PushCoalesced(lists: FreeLists, held: set<Block>, start: nat, addr: nat, order: nat, a: nat)
    requires order <= MAX_ORDER && start <= addr
    requires Coalesced(lists, held + {Block(addr, order)}, start, a)
    requires order >= a || Buddy(start, addr, order) !in lists[order]
    ensures Coalesced(Push(lists, addr, order), held, start, a)
  {
    hide Aligned, NoFreeBuddies;
    var b := Block(addr, order);
    assert b in FreeSet(lists) + (held + {b});
    assert FreeSet(lists) <= FreeSet(lists) + (held + {b});
    FreeSetPush(lists, addr, order);
    PushNoBuddies(lists, start, a, addr, order);
  }

  lemma DeallocKeepsSettled(h: Heap, ptr: nat, layout: Layout, a: nat)
    requires Inv(h) && SettledTo(h, a) && MayFree(h, ptr, layout)
    ensures SettledTo(Dealloc(h, ptr, layout), a)
  {
    LiveBlock(h, ptr);
    LiveSetRemove(h.live, ptr);
    var b := Block(ptr, h.live[ptr]);
    assert LiveSet(h.live - {ptr}) + {b} == LiveSet(h.live);
    ReleaseCoalesced(h.lists, LiveSet(h.live - {ptr}), h.start, h.maxOrder, ptr, b.order, a);
  }

  // ---------------------------------------------------------------- canonical form

  /** A byte of the seeded range that no live block holds. */
  ghost predicate FreeByte(h: Heap, x: int) {
    h.start <= x < h.End() && !Covers(LiveSet(h.live), x)
  }

  /** An offset-aligned region of an order the allocator uses, none of whose bytes is live. */
  ghost predicate WhollyFree(h: Heap, b: Block) {
    && MIN_ORDER <= b.order && h.start <= b.addr && Aligned(b.addr - h.start, b.order)
    && forall x :: b.Has(x) ==> FreeByte(h, x)
  }

  /** A wholly free region that no larger one of an order up to `a` contains. It mentions no free list. */
  ghost predicate MaximalFree(h: Heap, b: Block, a: nat) {
    && b.order <= a && WhollyFree(h, b)
    && forall c: Block :: c.order <= a && WhollyFree(h, c) && b.Within(c) ==> c == b
  }

  lemma FreeByteInFreeBlock(h: Heap, x: int) returns (b: Block)
    requires Inv(h) && FreeByte(h, x)
    ensures b in FreeSet(h.lists) && b.Has(x)
  {
    assert Covers(FreeSet(h.lists) + LiveSet(h.live), x);
    b :| b in FreeSet(h.lists) + LiveSet(h.live) && b.Has(x);
  }

  lemma FreeBlockBytes(h: Heap, b: Block)
    requires Inv(h) && b in FreeSet(h.lists)
    ensures forall x :: b.Has(x) ==> FreeByte(h, x)
  {
    assert b in FreeSet(h.lists) + LiveSet(h.live);
    forall x | b.Has(x) ensures FreeByte(h, x) {
      forall c | c in LiveSet(h.live) ensures !c.Has(x) {
        assert b.Apart(c);
      }
    }
  }

  lemma FreeBlockFacts(h: Heap, b: Block, a: nat)
    requires Inv(h) && SettledTo(h, a) && b in FreeSet(h.lists)
    ensures MIN_ORDER <= b.order <= h.maxOrder && h.start <= b.addr && Aligned(b.addr - h.start, Min(b.order, a))
    ensures b.order < a ==> Block(Buddy(h.start, b.addr, b.order), b.order) !in FreeSet(h.lists)
  {
    hide Aligned, FreeSet, Buddy, Tiles, LargestOrderFor, ListsOk;
    assert b in FreeSet(h.lists) + LiveSet(h.live);
    FreeSetMember(h.lists, b);
    FreeSetMember(h.lists, Block(Buddy(h.start, b.addr, b.order), b.order));
  }

  lemma FreeBlocksApart(h: Heap, b: Block, c: Block, x: int)
    requires Inv(h) && b in FreeSet(h.lists) && c in FreeSet(h.lists) && b.Has(x) && c.Has(x)
    ensures b == c
  {
    SharedByte(FreeSet(h.lists) + LiveSet(h.live), h.start, h.End(), b, c, x);
  }

  /** A free block of at least the order of an aligned region contains it if they meet. */
  lemma RegionNests(h: Heap, b: Block, c: Block, a: nat, x: int)
    requires Inv(h) && SettledTo(h, a) && c in FreeSet(h.lists)
    requires h.start <= b.addr && b.order <= a && b.order <= c.order && Aligned(b.addr - h.start, b.order)
    requires b.Has(x) && c.Has(x)
    ensures b.Within(c)
  {
    hide Inv, SettledTo, Aligned;
    FreeBlockFacts(h, c, a);
    var at := c.addr - h.start;
    AlignedDown(at, b.order, Min(c.order, a));
    PowerAligned(b.order, c.order);
    AlignedSum(at, Pow2(c.order), b.order);
    AlignedInside(b.addr - h.start, b.order, at, at + Pow2(c.order));
  }

  /** The heart of coalescing: an aligned region that is wholly free lies inside one free block. */
  lemma {:induction false} FreeRegionInFreeBlock(h: Heap, b: Block, a: nat) returns (c: Block)
    requires Inv(h) && SettledTo(h, a) && WhollyFree(h, b) && b.order <= a
    ensures c in FreeSet(h.lists) && b.Within(c) && b.order <= c.order
    decreases b.order
  {
    hide Inv, SettledTo, Aligned, FreeByte;
    assert b.Has(b.addr);
    c := FreeByteInFreeBlock(h, b.addr);
    FreeBlockFacts(h, c, a);
    if c.order < b.order {
      HalvesWhollyFree(h, b);
      var k := b.order - 1;
      var left := FreeRegionInFreeBlock(h, Block(b.addr, k), a);
      var right := FreeRegionInFreeBlock(h, Block(b.addr + Pow2(k), k), a);
      FreeBlocksApart(h, c, left, b.addr);
      c := HalvesInOneBlock(h, b, left, right, a);
    } else {
      RegionNests(h, b, c, a, b.addr);
    }
  }

  /** Free blocks around the two halves of `b` cannot be just the halves, which would be free buddies. */
  lemma HalvesInOneBlock(h: Heap, b: Block, left: Block, right: Block, a: nat) returns (c: Block)
    requires Inv(h) && SettledTo(h, a) && 0 < b.order <= a
    requires h.start <= b.addr && Aligned(b.addr - h.start, b.order)
    requires left in FreeSet(h.lists) && right in FreeSet(h.lists)
    requires left.order >= b.order - 1 && Block(b.addr, b.order - 1).Within(left)
    requires right.order >= b.order - 1 && Block(b.addr + Pow2(b.order - 1), b.order - 1).Within(right)
    ensures c in FreeSet(h.lists) && b.Within(c) && b.order <= c.order
  {
    hide Inv, SettledTo, Aligned, FreeSet, Buddy;
    var k := b.order - 1;
    FreeBlockFacts(h, left, a);
    c := if left.order > k then left else right;
    if c.order > k {
      RegionNests(h, b, c, a, if left.order > k then b.addr else b.addr + Pow2(k));
    } else {
      AlignedDown(b.addr - h.start, k, b.order);
      AlignedBuddy(h.start, b.addr, k);
      BuddyIsNeighbour(h.start, b.addr, k);
    }
  }

  lemma HalvesWhollyFree(h: Heap, b: Block)
    requires WhollyFree(h, b) && b.order > MIN_ORDER
    ensures WhollyFree(h, Block(b.addr, b.order - 1))
    ensures WhollyFree(h, Block(b.addr + Pow2(b.order - 1), b.order - 1))
  {
    var k := b.order - 1;
    AlignedDown(b.addr - h.start, k, b.order);
    PowerAligned(k, k);
    AlignedSum(b.addr - h.start, Pow2(k), k);
    var left, right := Block(b.addr, k), Block(b.addr + Pow2(k), k);
    assert forall x :: left.Has(x) || right.Has(x) ==> b.Has(x);
  }

  lemma SameBlock(b: Block, c: Block)
    requires b.Within(c) && c.Within(b)
    ensures b == c
  {
    if b.order < c.order {
      Pow2Monotone(b.order, c.order);
    } else if c.order < b.order {
      Pow2Monotone(c.order, b.order);
    }
  }

  /** The region of the next order around an aligned one is aligned, too, and lies inside every larger free block. */
  lemma ParentInFreeBlock(h: Heap, b: Block, d: Block, a: nat) returns (c: Block)
    requires Inv(h) && SettledTo(h, a) && WhollyFree(h, b) && b.order < a
    requires d in FreeSet(h.lists) && b.Within(d) && b.order < d.order
    ensures c.order == b.order + 1 && b.Within(c) && WhollyFree(h, c)
  {
    hide Inv, SettledTo, Aligned, FreeByte, FreeSet, Buddy;
    AlignedBuddy(h.start, b.addr, b.order);
    BuddyIsNeighbour(h.start, b.addr, b.order);
    c := Block(Min(b.addr, Buddy(h.start, b.addr, b.order)), b.order + 1);
    assert b.Has(b.addr) && c.Has(b.addr);
    RegionNests(h, c, d, a, b.addr);
    FreeBlockBytes(h, d);
  }

  /** The free blocks are the maximal aligned regions of the memory that is not live, as far as coalescing goes. */
  lemma CanonicalForm(h: Heap, b: Block, a: nat)
    requires Inv(h) && SettledTo(h, a) && (b.order < a || a == h.maxOrder)
    ensures b in FreeSet(h.lists) <==> MaximalFree(h, b, a)
  {
    hide Inv, SettledTo, Aligned, FreeByte, FreeSet;
    if b in FreeSet(h.lists) {
      FreeBlockFacts(h, b, a);
      FreeBlockBytes(h, b);
      forall c: Block | c.order <= a && WhollyFree(h, c) && b.Within(c) ensures c == b {
        var d := FreeRegionInFreeBlock(h, c, a);
        assert b.Has(b.addr) && d.Has(b.addr);
        FreeBlocksApart(h, b, d, b.addr);
        SameBlock(b, c);
      }
    }
    if MaximalFree(h, b, a) {
      var d := FreeRegionInFreeBlock(h, b, a);
      FreeBlockFacts(h, d, a);
      if b.order < d.order {
        var c := ParentInFreeBlock(h, b, d, a);
      } else {
        SameBlock(b, d);
      }
    }
  }

  // ---------------------------------------------------------------- seeding

  /** A block of order k starts at a multiple of 2^min(k, a). */
  ghost predicate AlignedUpTo(blocks: set<Block>, a: nat) {
    forall b :: b in blocks ==> Aligned(b.addr, Min(b.order, a))
  }

  lemma {:induction false} SeedAligned(lists: FreeLists, addr: nat, remaining: nat, maxOrder: nat, a: nat)
    requires MIN_ORDER <= maxOrder <= MAX_ORDER && AlignedUpTo(FreeSet(lists), a)
    ensures AlignedUpTo(FreeSet(Seed(lists, addr, remaining, maxOrder)), a)
    decreases remaining
  {
    hide Aligned, FreeSet;
    if remaining >= MIN_BLOCK {
      var order := PickOrder(addr, remaining, maxOrder);
      if Pow2(order) <= remaining && Aligned(addr, order) {
        AlignedDown(addr, Min(order, a), order);
        FreeSetPush(lists, addr, order);
        SeedAligned(Push(lists, addr, order), addr + Pow2(order), remaining - Pow2(order), maxOrder, a);
      }
    }
  }

  lemma InitialAligned(start: nat, size: nat, a: nat)
    ensures AlignedUpTo(FreeSet(Initial(start, size).lists), a)
  {
    assert FreeSet(NoBlocks()) == {};
    SeedAligned(NoBlocks(), start, size, LargestOrderFor(size), a);
  }

  /** Orders below `a` seeded so far: one block each at most, and none yet below `cap`. */
  ghost predicate SeedBound(lists: FreeLists, addr: nat, remaining: nat, a: nat, cap: nat) {
    && cap <= a && Aligned(addr, cap)
    && (cap < a ==> remaining < Pow2(cap))
    && (forall k :: 0 <= k < a && k <= MAX_ORDER ==> |lists[k]| <= 1)
    && (forall k :: 0 <= k < cap && k <= MAX_ORDER ==> lists[k] == [])
  }

  /** At an address aligned to `cap` a rest below 2^cap is seeded with blocks of ever smaller order. */
  lemma SeedOrderFalls(addr: nat, remaining: nat, maxOrder: nat, cap: nat)
    requires MIN_ORDER <= cap <= maxOrder && Aligned(addr, cap) && remaining >= MIN_BLOCK
    ensures var order := PickOrder(addr, remaining, maxOrder);
            && Pow2(order) <= remaining && Aligned(addr, order)
            && (remaining < Pow2(cap) ==> order < cap)
            && (order < cap ==> remaining - Pow2(order) < Pow2(order))
  {
    hide Aligned;
    var order := PickOrder(addr, remaining, maxOrder);
    AlignedDown(addr, MIN_ORDER, cap);
    SeedNeverBreaks(addr, remaining, maxOrder);
    if order < cap {
      AlignedDown(addr, order + 1, cap);
    } else {
      Pow2Monotone(cap, order);
    }
  }

  /** On a start aligned to 2^a `init` seeds at most one block of each order below `a`, so no two buddies. */
  lemma {:induction false} SeedSingles(lists: FreeLists, addr: nat, remaining: nat, maxOrder: nat, a: nat, cap: nat)
    requires MIN_ORDER <= cap <= a <= maxOrder <= MAX_ORDER && SeedBound(lists, addr, remaining, a, cap)
    ensures forall k :: 0 <= k < a ==> |Seed(lists, addr, remaining, maxOrder)[k]| <= 1
    decreases remaining
  {
    hide Aligned, Pow2, PickOrder;
    if remaining >= MIN_BLOCK {
      var order := PickOrder(addr, remaining, maxOrder);
      SeedOrderFalls(addr, remaining, maxOrder, cap);
      var next := Min(order, cap);
      PowerAligned(next, order);
      AlignedDown(addr, next, order);
      AlignedSum(addr, Pow2(order), next);
      SeedSingles(Push(lists, addr, order), addr + Pow2(order), remaining - Pow2(order), maxOrder, a, next);
    }
  }

  lemma SingletonsHaveNoBuddies(lists: FreeLists, start: nat, a: nat)
    requires a <= MAX_ORDER && forall k :: 0 <= k < a ==> |lists[k]| <= 1
    ensures NoFreeBuddies(lists, start, a)
  {
    forall k, x | 0 <= k < a && x in lists[k] && start <= x ensures Buddy(start, x, k) !in lists[k] {
      BuddyIsNeighbour(start, x, k);
    }
  }

  lemma InitialOffsets(start: nat, size: nat, a: nat)
    requires ValidRange(start, size) && Aligned(start, a)
    ensures OffsetsAligned(FreeSet(Initial(start, size).lists), start, a)
  {
    hide Aligned, Tiles, ListsOk, Seed, FreeSet;
    var h := Initial(start, size);
    InitialInv(start, size);
    InitialAligned(start, size, a);
    forall b | b in FreeSet(h.lists) ensures start <= b.addr && Aligned(b.addr - start, Min(b.order, a)) {
      assert b in FreeSet(h.lists) + LiveSet(h.live);
      AlignedDown(start, Min(b.order, a), a);
      AlignedSum(b.addr, start, Min(b.order, a));
    }
  }

  lemma InitialSettled(start: nat, size: nat, a: nat)
    requires ValidRange(start, size) && MIN_ORDER <= a <= LargestOrderFor(size) && Aligned(start, a)
    ensures SettledTo(Initial(start, size), a)
    ensures forall k :: 0 <= k < a ==> |Initial(start, size).lists[k]| <= 1
  {
    hide Seed, FreeSet, OffsetsAligned, NoFreeBuddies;
    var h := Initial(start, size);
    SeedSingles(NoBlocks(), start, size, h.maxOrder, a, a);
    SingletonsHaveNoBuddies(h.lists, start, a);
    InitialOffsets(start, size, a);
    assert FreeSet(h.lists) + LiveSet(h.live) == FreeSet(h.lists);
  }
}
