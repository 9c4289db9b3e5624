/** Exactly how far the buddy allocator coalesces: up to the order the heap start is aligned to, and no further. */
module BuddyExact {
  import opened Wrappers
  import opened Bits
  import opened Tiling
  import opened BuddyModel
  import opened BuddyTiling
  import opened BuddyCanonical
  import opened BuddyRuns
  import opened BuddyAlignment

  /** The guard a caller can check before `init`. */
  predicate AlignedHeap(start: nat, size: nat) {
    Aligned(start, LargestOrderFor(size))
  }

  /** In every reachable state the free blocks are the maximal aligned free regions. */
  ghost predicate AlwaysCanonical(start: nat, size: nat) {
    forall h, b :: Reachable(start, size, h) ==> (b in FreeSet(h.lists) <==> MaximalFree(h, b, h.maxOrder))
  }

  /** The same for the blocks of orders below `a`, maximal among the regions of orders up to `a`. */
  ghost predicate CanonicalBelow(start: nat, size: nat, a: nat) {
    forall h, b: Block ::
      Reachable(start, size, h) && b.order < a ==> (b in FreeSet(h.lists) <==> MaximalFree(h, b, a))
  }

  /** The free blocks depend only on which blocks are live, not on the order of past calls. */
  ghost predicate HistoryIndependent(start: nat, size: nat) {
    forall g, h :: Reachable(start, size, g) && Reachable(start, size, h) && g.live == h.live ==>
                     FreeSet(g.lists) == FreeSet(h.lists)
  }

  /** So do the free blocks of orders below `a`. */
  ghost predicate HistoryIndependentBelow(start: nat, size: nat, a: nat) {
    forall g, h, b: Block ::
      Reachable(start, size, g) && Reachable(start, size, h) && g.live == h.live && b.order < a ==>
        (b in FreeSet(g.lists) <==> b in FreeSet(h.lists))
  }

  /** For every request `alloc` returns null exactly when no aligned region with room for it is wholly free. */
  ghost predicate NullMeansFull(start: nat, size: nat) {
    forall h, layout :: Reachable(start, size, h) ==> (Alloc(h, layout).0.None? <==> !HasRoom(h, Bytes(layout)))
  }

  /** The same for requests that need a block of order k. */
  ghost predicate NullMeansFullAt(start: nat, size: nat, k: nat) {
    forall h, layout :: Reachable(start, size, h) && Needs(layout, k) ==>
                          (Alloc(h, layout).0.None? <==> !HasFreeRegion(h, k))
  }

  ghost predicate Reverses(h: Heap, layout: Layout) {
    var (addr, after) := Alloc(h, layout);
    addr.Some? ==> MayFree(after, addr.value, layout) && Dealloc(after, addr.value, layout) == h
  }

  /** `dealloc` right after `alloc` restores every free list, order of blocks included. */
  ghost predicate AlwaysReverses(start: nat, size: nat) {
    forall h, layout :: Reachable(start, size, h) ==> Reverses(h, layout)
  }

  /** Every result for a request aligned to 2^m is a multiple of 2^m. */
  ghost predicate AlwaysAligned(start: nat, size: nat, m: nat) {
    forall h, layout: Layout :: Reachable(start, size, h) && layout.align == Pow2(m) && Alloc(h, layout).0.Some? ==>
                          Aligned(Alloc(h, layout).0.value, m)
  }

  // ---------------------------------------------------------------- requests of a given order

  function OfOrder(k: nat): Layout {
    Layout(Pow2(k), 1)
  }

  lemma OrderOfPower(size: nat, k: nat)
    requires MIN_ORDER <= k <= MAX_ORDER && size == Pow2(k)
    ensures OrderForSize(size) == Some(k)
  {
    hide OrderForSize, Pow2;
    SmallestBlock();
    Pow2Monotone(MIN_ORDER, k);
    PowerDoubles(k);
    LeastOrderIsUnique(size, Some(k));
  }

  lemma OrderOfLayout(k: nat)
    requires MIN_ORDER <= k <= MAX_ORDER
    ensures OrderFor(OfOrder(k)) == Some(k)
  {
    OrderOfPower(Pow2(k), k);
  }

  // ---------------------------------------------------------------- runs that empty or drain the heap

  lemma {:induction false} FreeEverything(h: Heap) returns (ops: seq<Op>)
    requires Inv(h)
    ensures Runs(h, ops) && After(h, ops).live == map[]
    decreases |h.live|
  {
    hide Inv, Dealloc;
    if h.live == map[] {
      ops := [];
    } else {
      var ptr :| ptr in h.live;
      LiveBlock(h, ptr);
      var layout := OfOrder(h.live[ptr]);
      OrderOfLayout(h.live[ptr]);
      var next := Dealloc(h, ptr, layout);
      DeallocKeepsInv(h, ptr, layout);
      DeallocForgets(h, ptr, layout);
      var rest := FreeEverything(next);
      ops := [DoFree(ptr, layout)] + rest;
      assert ops[1..] == rest;
    }
  }

  lemma DeallocForgets(h: Heap, ptr: nat, layout: Layout)
    requires MayFree(h, ptr, layout)
    ensures Dealloc(h, ptr, layout).live == h.live - {ptr}
    ensures |Dealloc(h, ptr, layout).live| < |h.live|
  {
    assert h.live == (h.live - {ptr})[ptr := h.live[ptr]];
  }

  lemma EmptyListsNoFree(h: Heap)
    requires Inv(h) && forall i :: MIN_ORDER <= i <= h.maxOrder ==> h.lists[i] == []
    ensures FreeSet(h.lists) == {}
  {
    forall b ensures b !in FreeSet(h.lists) {
      FreeSetMember(h.lists, b);
    }
  }

  ghost function FreeBytes(h: Heap): set<int> {
    set x | h.start <= x < h.End() && FreeByte(h, x)
  }

  lemma TileNotCovered(tiles: set<Block>, lo: int, hi: int, others: set<Block>, b: Block)
    requires Tiles(tiles, lo, hi) && b in tiles && others <= tiles && b !in others
    ensures lo <= b.addr < hi && !Covers(others, b.addr) && Covers(others + {b}, b.addr)
  {
    assert b.Has(b.addr) && b in others + {b};
    forall c | c in others ensures !c.Has(b.addr) {
      assert c.Apart(b);
    }
  }

  lemma CoversMore(some: set<Block>, more: set<Block>, x: int)
    requires some <= more && Covers(some, x)
    ensures Covers(more, x)
  {
    var c :| c in some && c.Has(x);
    assert c in more;
  }

  /** A newly live block takes at least its first byte away from the free bytes. */
  lemma NewBlockTakesBytes(h: Heap, after: Heap, b: Block)
    requires Inv(after) && after.start == h.start && after.End() == h.End()
    requires b.addr !in h.live && after.live == h.live[b.addr := b.order]
    ensures FreeByte(h, b.addr) && !FreeByte(after, b.addr)
    ensures forall x :: FreeByte(after, x) ==> FreeByte(h, x)
  {
    hide Aligned, FreeSet, LiveSet, Tiles, Covers;
    LiveSetAdd(h.live, b.addr, b.order);
    NotInLiveSet(h.live, b);
    TileNotCovered(FreeSet(after.lists) + LiveSet(after.live), h.start, h.End(), LiveSet(h.live), b);
    forall x | FreeByte(after, x) ensures FreeByte(h, x) {
      if Covers(LiveSet(h.live), x) {
        CoversMore(LiveSet(h.live), LiveSet(after.live), x);
      }
    }
  }

  lemma NotInLiveSet(live: map<nat, nat>, b: Block)
    requires b.addr !in live
    ensures b !in LiveSet(live)
  {
  }

  lemma AllocTakesBytes(h: Heap, layout: Layout)
    requires Inv(h) && Alloc(h, layout).0.Some?
    ensures FreeBytes(Alloc(h, layout).1) < FreeBytes(h)
  {
    hide Inv, FreeByte, FreeSet, OrderFor, AllocateOrder;
    AllocKeepsInv(h, layout);
    var (addr, after) := Alloc(h, layout);
    var k := AllocRecordsOrder(h, layout);
    NewBlockTakesBytes(h, after, Block(addr.value, k));
    FreeByteInRange(h, addr.value);
    assert addr.value in FreeBytes(h) && addr.value !in FreeBytes(after);
  }

  lemma FreeByteInRange(h: Heap, x: int)
    requires FreeByte(h, x)
    ensures h.start <= x < h.End()
  {
  }

  /** Requests of one block each, until nothing is free. */
  lemma {:induction false} DrainInMinimumBlocks(h: Heap) returns (ops: seq<Op>)
    requires Inv(h) && forall a :: a in h.live ==> h.live[a] == MIN_ORDER
    ensures Runs(h, ops) && Inv(After(h, ops)) && FreeSet(After(h, ops).lists) == {}
    ensures forall a :: a in After(h, ops).live ==> After(h, ops).live[a] == MIN_ORDER
    decreases FreeBytes(h)
  {
    hide Inv, Alloc, FreeByte, FreeSet;
    var layout := OfOrder(MIN_ORDER);
    OrderOfLayout(MIN_ORDER);
    AllocFailsByOrder(h, layout, MIN_ORDER);
    if Alloc(h, layout).0.None? {
      EmptyListsNoFree(h);
      ops := [];
    } else {
      var next := Alloc(h, layout).1;
      AllocKeepsInv(h, layout);
      AllocTakesBytes(h, layout);
      AllocAddsBlock(h, layout);
      var rest := DrainInMinimumBlocks(next);
      ops := [DoAlloc(layout)] + rest;
      assert ops[1..] == rest;
    }
  }

  lemma AllocAddsBlock(h: Heap, layout: Layout)
    requires Alloc(h, layout).0.Some?
    ensures OrderFor(layout).Some?
    ensures Alloc(h, layout).1.live == h.live[Alloc(h, layout).0.value := OrderFor(layout).value]
  {
  }

  /** Whatever the alignment: a state with nothing live that is settled, reached by draining and freeing. */
  lemma SettledEmptyHeap(start: nat, size: nat) returns (g: Heap)
    requires ValidRange(start, size)
    ensures Reachable(start, size, g) && Inv(g) && Settled(g) && g.live == map[]
    ensures g.start == start && g.size == size && g.maxOrder == LargestOrderFor(size)
  {
    hide Inv, SettledTo, FreeSet, ValidRange, Reachable;
    var h := Initial(start, size);
    InitialInv(start, size);
    ReachableInitially(start, size);
    var drain := DrainInMinimumBlocks(h);
    var full := After(h, drain);
    MinimumBlocksSettled(full);
    ReachableFurther(start, size, h, drain);
    var frees := FreeEverything(full);
    g := After(full, frees);
    ReachableFurther(start, size, full, frees);
    ReachableTiles(start, size, full);
    RunKeepsSettled(full, frees, full.maxOrder);
    ReachableTiles(start, size, g);
  }

  lemma MinimumBlocksSettled(h: Heap)
    requires Inv(h) && FreeSet(h.lists) == {} && forall a :: a in h.live ==> h.live[a] == MIN_ORDER
    ensures Settled(h)
  {
    forall k, a | 0 <= k <= MAX_ORDER && a in h.lists[k] ensures false {
      FreeSetMember(h.lists, Block(a, k));
    }
    forall b | b in FreeSet(h.lists) + LiveSet(h.live)
      ensures h.start <= b.addr && Aligned(b.addr - h.start, Min(b.order, h.maxOrder))
    {
      assert b in LiveSet(h.live);
    }
  }

  // ---------------------------------------------------------------- what a misaligned start seeds

  lemma AlignmentOf(start: nat, n: nat) returns (v: nat)
    requires Aligned(start, MIN_ORDER) && !Aligned(start, n) && n >= MIN_ORDER
    ensures MIN_ORDER <= v < n && Aligned(start, v) && !Aligned(start, v + 1)
  {
    v := MIN_ORDER;
    while Aligned(start, v + 1)
      invariant MIN_ORDER <= v < n && Aligned(start, v)
      decreases n - v
    {
      v := v + 1;
    }
  }

  lemma {:induction false} SeedKeeps(lists: FreeLists, addr: nat, remaining: nat, maxOrder: nat)
    requires MIN_ORDER <= maxOrder <= MAX_ORDER
    ensures FreeSet(lists) <= FreeSet(Seed(lists, addr, remaining, maxOrder))
    decreases remaining
  {
    hide FreeSet;
    if remaining >= MIN_BLOCK {
      var order := PickOrder(addr, remaining, maxOrder);
      if Pow2(order) <= remaining && Aligned(addr, order) {
        FreeSetPush(lists, addr, order);
        SeedKeeps(Push(lists, addr, order), addr + Pow2(order), remaining - Pow2(order), maxOrder);
      }
    }
  }

  /** One round of seeding puts the picked block among the free blocks for good. */
  lemma SeedStep(lists: FreeLists, addr: nat, remaining: nat, maxOrder: nat)
    requires MIN_ORDER <= maxOrder <= MAX_ORDER && remaining >= MIN_BLOCK && Aligned(addr, MIN_ORDER)
    ensures var order := PickOrder(addr, remaining, maxOrder);
            && Pow2(order) <= remaining && Aligned(addr, order)
            && Block(addr, order) in FreeSet(Seed(lists, addr, remaining, maxOrder))
            && Seed(lists, addr, remaining, maxOrder)
               == Seed(Push(lists, addr, order), addr + Pow2(order), remaining - Pow2(order), maxOrder)
  {
    hide FreeSet, Seed, PickOrder, Aligned;
    var order := PickOrder(addr, remaining, maxOrder);
    SeedUnrolls(lists, addr, remaining, maxOrder);
    FreeSetPush(lists, addr, order);
    SeedKeeps(Push(lists, addr, order), addr + Pow2(order), remaining - Pow2(order), maxOrder);
  }

  /** The facts about a misaligned heap the counterexamples use: its first two seeds. */
  ghost predicate FirstSeeds(start: nat, size: nat, v: nat, w: nat) {
    var maxOrder := LargestOrderFor(size);
    && MIN_ORDER <= v < maxOrder && v <= w <= maxOrder
    && (w == v ==> size < 3 * Pow2(v))
    && Block(start, v) in FreeSet(Initial(start, size).lists)
    && Block(start + Pow2(v), w) in FreeSet(Initial(start, size).lists)
  }

  /** The first seed is as large as the alignment of the start allows. */
  lemma FirstSeed(start: nat, size: nat, a: nat) returns (v: nat)
    requires ValidRange(start, size) && MIN_ORDER <= a <= LargestOrderFor(size) && !Aligned(start, a)
    ensures MIN_ORDER <= v < a && Aligned(start, v) && !Aligned(start, v + 1) && 2 * Pow2(v) <= size
    ensures Block(start, v) in FreeSet(Initial(start, size).lists)
    ensures var maxOrder := LargestOrderFor(size);
            Initial(start, size).lists
            == Seed(Push(NoBlocks(), start, v), start + Pow2(v), size - Pow2(v), maxOrder)
  {
    hide Aligned, FreeSet, Seed, PickOrder, LargestOrderFor;
    var maxOrder := LargestOrderFor(size);
    v := AlignmentOf(start, a);
    Pow2Monotone(v, maxOrder);
    FirstPick(start, size, maxOrder, v);
    SeedStep(NoBlocks(), start, size, maxOrder);
  }

  lemma MisalignedSeeds(start: nat, size: nat) returns (v: nat, w: nat)
    requires ValidRange(start, size) && !AlignedHeap(start, size)
    ensures FirstSeeds(start, size, v, w) && Aligned(start, v) && !Aligned(start, v + 1)
  {
    hide Aligned, FreeSet, Seed, PickOrder, LargestOrderFor;
    var maxOrder := LargestOrderFor(size);
    v := FirstSeed(start, size, maxOrder);
    w := SecondSeed(Push(NoBlocks(), start, v), start, size, maxOrder, v);
  }

  lemma SecondSeed(lists: FreeLists, start: nat, size: nat, maxOrder: nat, v: nat) returns (w: nat)
    requires MIN_ORDER <= v < maxOrder <= MAX_ORDER && 2 * Pow2(v) <= size
    requires Aligned(start, v) && !Aligned(start, v + 1)
    ensures v <= w <= maxOrder && (w == v ==> size < 3 * Pow2(v))
    ensures Block(start + Pow2(v), w) in FreeSet(Seed(lists, start + Pow2(v), size - Pow2(v), maxOrder))
  {
    hide Aligned, FreeSet, Seed;
    var addr, remaining := start + Pow2(v), size - Pow2(v);
    AlignedHalves(start, v);
    AlignedDown(addr, v, v + 1);
    AlignedDown(addr, MIN_ORDER, v);
    Pow2Monotone(MIN_ORDER, v);
    assert Pow2(MIN_ORDER) == MIN_BLOCK;
    w := PickOrder(addr, remaining, maxOrder);
    SeedStep(lists, addr, remaining, maxOrder);
  }

  lemma FirstPick(start: nat, size: nat, maxOrder: nat, v: nat)
    requires MIN_ORDER <= v < maxOrder && Aligned(start, v) && !Aligned(start, v + 1) && Pow2(v) <= size
    ensures PickOrder(start, size, maxOrder) == v
  {
    hide Aligned;
    var r := PickOrder(start, size, maxOrder);
    if r > v {
      AlignedDown(start, v + 1, r);
    }
  }

  lemma PowerFitsSeededRange(h: Heap, k: nat)
    requires MIN_ORDER <= k && Pow2(k) <= h.size
    ensures h.start + Pow2(k) <= h.End()
  {
    var used := h.size - h.size % MIN_BLOCK;
    assert Pow2(MIN_ORDER) == MIN_BLOCK;
    PowerAligned(MIN_ORDER, k);
    assert Aligned(used, MIN_ORDER);
    if used < Pow2(k) {
      AlignedApart(Pow2(k), used, MIN_ORDER);
    }
  }

  /** With nothing live the first 2^k bytes are a wholly free aligned region. */
  lemma EmptyHeapRegion(h: Heap, k: nat)
    requires h.live == map[] && MIN_ORDER <= k && Pow2(k) <= h.size
    ensures WhollyFree(h, Block(h.start, k))
  {
    PowerFitsSeededRange(h, k);
    ZeroAligned(h.start - h.start, k);
    assert LiveSet(h.live) == {};
  }

  /** So with nothing live a first block of an order below `a` is not maximal. */
  lemma SmallFirstBlockNotMaximal(h: Heap, v: nat, a: nat)
    requires h.live == map[] && MIN_ORDER <= v < a <= h.maxOrder && h.maxOrder == LargestOrderFor(h.size)
    ensures !MaximalFree(h, Block(h.start, v), a)
  {
    hide WhollyFree, LargestOrderFor;
    Pow2Monotone(v + 1, h.maxOrder);
    EmptyHeapRegion(h, v + 1);
    var b, c := Block(h.start, v), Block(h.start, v + 1);
    assert b.Within(c);
  }

  // ---------------------------------------------------------------- canonical form

  lemma CanonicalExactly(start: nat, size: nat)
    requires ValidRange(start, size)
    ensures AlwaysCanonical(start, size) <==> AlignedHeap(start, size)
  {
    hide Inv, SettledTo, MaximalFree, FreeSet, ValidRange, Reachable, Aligned, LargestOrderFor;
    var maxOrder := LargestOrderFor(size);
    if AlignedHeap(start, size) {
      forall h, b | Reachable(start, size, h) ensures b in FreeSet(h.lists) <==> MaximalFree(h, b, h.maxOrder) {
        ReachableTiles(start, size, h);
        ReachableSettled(start, size, h, maxOrder);
        CanonicalForm(h, b, maxOrder);
      }
    } else {
      ReachableInitially(start, size);
      var v := FirstSeed(start, size, maxOrder);
      SmallFirstBlockNotMaximal(Initial(start, size), v, maxOrder);
    }
  }

  lemma CanonicalBelowExactly(start: nat, size: nat, a: nat)
    requires ValidRange(start, size) && MIN_ORDER <= a <= LargestOrderFor(size)
    ensures CanonicalBelow(start, size, a) <==> Aligned(start, a)
  {
    hide Inv, SettledTo, MaximalFree, FreeSet, ValidRange, Reachable, Aligned, LargestOrderFor;
    if Aligned(start, a) {
      forall h, b: Block | Reachable(start, size, h) && b.order < a
        ensures b in FreeSet(h.lists) <==> MaximalFree(h, b, a)
      {
        ReachableSettled(start, size, h, a);
        CanonicalForm(h, b, a);
      }
    } else {
      ReachableInitially(start, size);
      var v := FirstSeed(start, size, a);
      SmallFirstBlockNotMaximal(Initial(start, size), v, a);
    }
  }

  // ---------------------------------------------------------------- history

  lemma SameLiveSameMaximal(g: Heap, h: Heap, b: Block, a: nat)
    requires g.start == h.start && g.size == h.size && g.live == h.live
    ensures MaximalFree(g, b, a) <==> MaximalFree(h, b, a)
  {
    assert forall x :: FreeByte(g, x) <==> FreeByte(h, x);
    assert forall c :: WhollyFree(g, c) <==> WhollyFree(h, c);
  }

  lemma SameLiveSameBlocks(start: nat, size: nat, g: Heap, h: Heap, b: Block, a: nat)
    requires ValidRange(start, size) && MIN_ORDER <= a <= LargestOrderFor(size) && Aligned(start, a)
    requires Reachable(start, size, g) && Reachable(start, size, h) && g.live == h.live
    requires b.order < a || a == LargestOrderFor(size)
    ensures b in FreeSet(g.lists) <==> b in FreeSet(h.lists)
  {
    hide Inv, SettledTo, MaximalFree, FreeSet, ValidRange, Reachable, Aligned, LargestOrderFor;
    ReachableTiles(start, size, g);
    ReachableTiles(start, size, h);
    ReachableSettled(start, size, g, a);
    ReachableSettled(start, size, h, a);
    CanonicalForm(g, b, a);
    CanonicalForm(h, b, a);
    SameLiveSameMaximal(g, h, b, a);
  }

  /** Two states with nothing live: freshly seeded, and drained and refilled. They differ in the first seed. */
  lemma FirstSeedVanishes(start: nat, size: nat, a: nat) returns (g: Heap, b: Block)
    requires ValidRange(start, size) && MIN_ORDER <= a <= LargestOrderFor(size) && !Aligned(start, a)
    ensures Reachable(start, size, g) && g.live == map[] && b.order < a
    ensures b in FreeSet(Initial(start, size).lists) && b !in FreeSet(g.lists)
  {
    hide Inv, SettledTo, MaximalFree, FreeSet, ValidRange, Reachable, Aligned, LargestOrderFor;
    var v := FirstSeed(start, size, a);
    b := Block(start, v);
    g := SettledEmptyHeap(start, size);
    CanonicalForm(g, b, g.maxOrder);
    SmallFirstBlockNotMaximal(g, v, g.maxOrder);
  }

  lemma HistoryIndependentExactly(start: nat, size: nat)
    requires ValidRange(start, size)
    ensures HistoryIndependent(start, size) <==> AlignedHeap(start, size)
  {
    hide FreeSet, ValidRange, Reachable, Aligned, LargestOrderFor, Seed;
    var maxOrder := LargestOrderFor(size);
    if AlignedHeap(start, size) {
      forall g, h | Reachable(start, size, g) && Reachable(start, size, h) && g.live == h.live
        ensures FreeSet(g.lists) == FreeSet(h.lists)
      {
        forall b ensures b in FreeSet(g.lists) <==> b in FreeSet(h.lists) {
          SameLiveSameBlocks(start, size, g, h, b, maxOrder);
        }
      }
    } else {
      ReachableInitially(start, size);
      var g, b := FirstSeedVanishes(start, size, maxOrder);
      assert g.live == Initial(start, size).live;
    }
  }

  lemma HistoryIndependentBelowExactly(start: nat, size: nat, a: nat)
    requires ValidRange(start, size) && MIN_ORDER <= a <= LargestOrderFor(size)
    ensures HistoryIndependentBelow(start, size, a) <==> Aligned(start, a)
  {
    hide FreeSet, ValidRange, Reachable, Aligned, LargestOrderFor, Seed;
    if Aligned(start, a) {
      forall g, h, b: Block | Reachable(start, size, g) && Reachable(start, size, h) && g.live == h.live && b.order < a
        ensures b in FreeSet(g.lists) <==> b in FreeSet(h.lists)
      {
        SameLiveSameBlocks(start, size, g, h, b, a);
      }
    } else {
      ReachableInitially(start, size);
      var g, b := FirstSeedVanishes(start, size, a);
      assert g.live == Initial(start, size).live;
    }
  }

  /** On an aligned heap, once everything is returned, in whatever order, the free blocks are those `init` seeded. */
  lemma FreeingEverythingRestoresSeeds(start: nat, size: nat, h: Heap)
    requires ValidRange(start, size) && AlignedHeap(start, size) && Reachable(start, size, h) && h.live == map[]
    ensures FreeSet(h.lists) == FreeSet(Initial(start, size).lists)
  {
    hide Reachable, FreeSet, AlignedHeap, ValidRange;
    HistoryIndependentExactly(start, size);
    ReachableInitially(start, size);
    assert Initial(start, size).live == h.live;
  }

  // ---------------------------------------------------------------- two states of a misaligned heap

  /** Asking for a nonempty order hands out the head of its list whole. */
  lemma TakeWholeBlock(h: Heap, k: nat) returns (b: Block)
    requires Inv(h) && k <= h.maxOrder && h.lists[k] != [] && OrderFor(OfOrder(k)) == Some(k)
    ensures var next := Alloc(h, OfOrder(k)).1;
            && b in FreeSet(h.lists)
            && FreeSet(next.lists) == FreeSet(h.lists) - {b}
            && LiveSet(next.live) == LiveSet(h.live) + {b}
  {
    hide OrderFor, Aligned, Tiles, Pow2;
    b := Block(h.lists[k][0], k);
    PopIsWithout(h.lists, k);
    FreeSetWithout(h.lists, h.maxOrder, b.addr, k);
    FreeSetMember(h.lists, b);
    AllocKeepsInv(h, OfOrder(k));
    LiveSetAdd(h.live, b.addr, k);
  }

  lemma {:induction false} DrainWhole(h: Heap) returns (ops: seq<Op>)
    requires Inv(h)
    ensures Runs(h, ops) && Inv(After(h, ops)) && FreeSet(After(h, ops).lists) == {}
    ensures LiveSet(After(h, ops).live) == LiveSet(h.live) + FreeSet(h.lists)
    decreases |FreeSet(h.lists)|
  {
    hide Inv, FreeSet, LiveSet, OrderFor, Alloc;
    if FreeSet(h.lists) == {} {
      ops := [];
    } else {
      var c :| c in FreeSet(h.lists);
      FreeBlockOrder(h, c);
      OrderOfLayout(c.order);
      var layout := OfOrder(c.order);
      var b := TakeWholeBlock(h, c.order);
      AllocKeepsInv(h, layout);
      var next := Alloc(h, layout).1;
      assert FreeSet(h.lists) == FreeSet(next.lists) + {b};
      var rest := DrainWhole(next);
      ops := [DoAlloc(layout)] + rest;
      assert ops[1..] == rest;
    }
  }

  lemma FreeBlockOrder(h: Heap, b: Block)
    requires Inv(h) && b in FreeSet(h.lists)
    ensures MIN_ORDER <= b.order <= h.maxOrder && h.lists[b.order] != []
  {
    assert b in FreeSet(h.lists) + LiveSet(h.live);
    FreeSetMember(h.lists, b);
  }

  /** Free lists that hold one block and nothing else. */
  ghost predicate OnlyBlock(lists: FreeLists, b: Block) {
    && b.order <= MAX_ORDER && lists[b.order] == [b.addr]
    && forall k :: 0 <= k <= MAX_ORDER && k != b.order ==> lists[k] == []
  }

  /** Drain the heap block by block, give one block back: its buddy is live, so it stays as it is. */
  lemma Isolated(start: nat, size: nat, h: Heap, b: Block) returns (d: Heap)
    requires ValidRange(start, size) && Reachable(start, size, h) && b in FreeSet(h.lists) + LiveSet(h.live)
    ensures Reachable(start, size, d) && Inv(d) && OnlyBlock(d.lists, b)
    ensures d.start == start && d.maxOrder == LargestOrderFor(size)
  {
    hide Inv, FreeSet, LiveSet, ValidRange, Reachable, OrderFor, LargestOrderFor, Dealloc;
    ReachableTiles(start, size, h);
    var ops := DrainWhole(h);
    var full := After(h, ops);
    ReachableFurther(start, size, h, ops);
    ReachableTiles(start, size, full);
    MemberIsLive(full.live, b);
    LiveBlock(full, b.addr);
    OrderOfLayout(b.order);
    var layout := OfOrder(b.order);
    d := Dealloc(full, b.addr, layout);
    ReachableDealloc(start, size, full, b.addr, layout);
    DeallocKeepsInv(full, b.addr, layout);
    DeallocIntoEmpty(full, b.addr, layout);
    ReachableTiles(start, size, d);
  }

  lemma MemberIsLive(live: map<nat, nat>, b: Block)
    requires b in LiveSet(live)
    ensures b.addr in live && live[b.addr] == b.order
  {
  }

  lemma DeallocIntoEmpty(h: Heap, ptr: nat, layout: Layout)
    requires Inv(h) && FreeSet(h.lists) == {} && MayFree(h, ptr, layout)
    ensures OnlyBlock(Dealloc(h, ptr, layout).lists, Block(ptr, h.live[ptr]))
  {
    forall k | 0 <= k <= MAX_ORDER ensures h.lists[k] == [] {
      if h.lists[k] != [] {
        FreeSetMember(h.lists, Block(h.lists[k][0], k));
      }
    }
  }

  /** In a range shorter than three blocks of order v, two at its start leave room for no third that large. */
  lemma NoThirdBlock(tiles: set<Block>, lo: nat, hi: int, v: nat, c: Block)
    requires Tiles(tiles, lo, hi) && hi < lo + 3 * Pow2(v) && c in tiles && c.order >= v
    requires Block(lo, v) in tiles && Block(lo + Pow2(v), v) in tiles
    ensures c == Block(lo, v) || c == Block(lo + Pow2(v), v)
  {
    hide Pow2;
    Pow2Monotone(v, c.order);
    var a, b := Block(lo, v), Block(lo + Pow2(v), v);
    assert c != a ==> c.Apart(a);
    assert c != b ==> c.Apart(b);
  }

  lemma OnlyTwoFit(h: Heap, v: nat, c: Block)
    requires Inv(h) && v < h.maxOrder && h.size < 3 * Pow2(v)
    requires Block(h.start, v) in FreeSet(h.lists) && Block(h.start + Pow2(v), v) in FreeSet(h.lists)
    requires c in FreeSet(h.lists) && c.order >= v
    ensures c == Block(h.start, v) || c == Block(h.start + Pow2(v), v)
  {
    hide Aligned, FreeSet, LiveSet, Tiles, Pow2;
    NoThirdBlock(FreeSet(h.lists) + LiveSet(h.live), h.start, h.End(), v, c);
  }

  // ---------------------------------------------------------------- no false out-of-memory

  lemma NullMeansFullAtExactly(start: nat, size: nat, k: nat)
    requires ValidRange(start, size) && MIN_ORDER <= k <= MAX_ORDER
    ensures NullMeansFullAt(start, size, k) <==> Aligned(start, k) || k > LargestOrderFor(size)
  {
    hide Inv, SettledTo, ValidRange, Reachable, Aligned, LargestOrderFor, HasFreeRegion, OrderFor, FreeSet, Alloc;
    if Aligned(start, k) || k > LargestOrderFor(size) {
      forall h, layout | Reachable(start, size, h) && Needs(layout, k)
        ensures Alloc(h, layout).0.None? <==> !HasFreeRegion(h, k)
      {
        ReachableTiles(start, size, h);
        if k > LargestOrderFor(size) {
          TooLargeForHeap(h, layout, k);
        } else {
          ReachableSettled(start, size, h, k);
          NoFalseOutOfMemory(h, layout, k, k);
        }
      }
    } else {
      var h := NullAtOddsWithRegions(start, size, k);
    }
  }

  /**
   * A misaligned start: either no seed can serve a request of order k although the memory is all free, or a block that
   * serves one is at the wrong offset, and alone free it serves it again.
   */
  lemma NullAtOddsWithRegions(start: nat, size: nat, k: nat) returns (d: Heap)
    requires ValidRange(start, size) && MIN_ORDER <= k <= LargestOrderFor(size) && !Aligned(start, k)
    ensures Reachable(start, size, d) && Needs(OfOrder(k), k)
    ensures Alloc(d, OfOrder(k)).0.None? <==> HasFreeRegion(d, k)
  {
    hide Inv, Reachable, Aligned, LargestOrderFor, OrderFor, FreeSet, LiveSet, Seed, AllocateOrder, WhollyFree;
    var h := Initial(start, size);
    ReachableInitially(start, size);
    InitialInv(start, size);
    OrderOfLayout(k);
    var (addr, after) := Alloc(h, OfOrder(k));
    if addr.None? {
      LargestFits(h, k);
      EmptyHeapRegion(h, k);
      d := h;
    } else {
      InitialAligned(start, size, k);
      AllocateOrderAligned(h.lists, h.maxOrder, k, k);
      ReachableAlloc(start, size, h, OfOrder(k));
      assert Block(addr.value, k) in LiveSet(after.live) by { LiveSetAdd(h.live, addr.value, k); }
      d := Isolated(start, size, after, Block(addr.value, k));
      MisplacedBlockServes(d, addr.value, k);
    }
  }

  /** A free block at the wrong offset serves a request although no aligned region of its order is free. */
  lemma MisplacedBlockServes(d: Heap, p: nat, k: nat)
    requires Inv(d) && MIN_ORDER <= k <= d.maxOrder && OnlyBlock(d.lists, Block(p, k))
    requires Aligned(p, k) && !Aligned(d.start, k)
    ensures Alloc(d, OfOrder(k)).0.Some? && !HasFreeRegion(d, k)
  {
    hide Inv, Aligned, OrderFor, Alloc, FreeByte;
    OrderOfLayout(k);
    AllocFailsByOrder(d, OfOrder(k), k);
    forall b: Block | b.order == k && WhollyFree(d, b) ensures false {
      RegionIsOnlyBlock(d, Block(p, k), b);
      AlignedSum(p, p - d.start, k);
    }
  }

  lemma NullMeansFullExactly(start: nat, size: nat)
    requires ValidRange(start, size)
    ensures NullMeansFull(start, size) <==> AlignedHeap(start, size)
  {
    hide ValidRange, NullMeansFullAt, LargestOrderFor, Aligned;
    var maxOrder := LargestOrderFor(size);
    if AlignedHeap(start, size) {
      forall k | MIN_ORDER <= k <= MAX_ORDER ensures NullMeansFullAt(start, size, k) {
        if k <= maxOrder {
          AlignedDown(start, k, maxOrder);
        }
        NullMeansFullAtExactly(start, size, k);
      }
      NullMeansFullAtEveryOrder(start, size);
    } else {
      NullMeansFullAtExactly(start, size, maxOrder);
      if NullMeansFull(start, size) {
        NullMeansFullAtOneOrder(start, size, maxOrder);
      }
    }
  }

  lemma NullMeansFullAtEveryOrder(start: nat, size: nat)
    requires forall k :: MIN_ORDER <= k <= MAX_ORDER ==> NullMeansFullAt(start, size, k)
    ensures NullMeansFull(start, size)
  {
    hide Reachable, HasFreeRegion, WhollyFree, OrderFor, AllocateOrder, Pow2;
    forall h, layout | Reachable(start, size, h)
      ensures Alloc(h, layout).0.None? <==> !HasRoom(h, Bytes(layout))
    {
      var order := OrderFor(layout);
      if order.Some? {
        assert NullMeansFullAt(start, size, order.value);
        RoomIsRegion(h, layout, order.value);
      } else {
        forall b: Block | b.order <= MAX_ORDER ensures Pow2(b.order) < Bytes(layout) {
          Pow2Monotone(b.order, MAX_ORDER);
        }
      }
    }
  }

  lemma NullMeansFullAtOneOrder(start: nat, size: nat, k: nat)
    requires NullMeansFull(start, size)
    ensures NullMeansFullAt(start, size, k)
  {
    hide Reachable, HasFreeRegion, HasRoom, Alloc;
    forall h, layout | Reachable(start, size, h) && Needs(layout, k)
      ensures Alloc(h, layout).0.None? <==> !HasFreeRegion(h, k)
    {
      RoomIsRegion(h, layout, k);
    }
  }

  lemma RegionIsOnlyBlock(d: Heap, c: Block, b: Block)
    requires Inv(d) && OnlyBlock(d.lists, c) && WhollyFree(d, b) && b.order == c.order
    ensures b == c
  {
    hide Inv, Aligned;
    assert b.Has(b.addr) && b.Has(b.End() - 1);
    OnlyFreeByteHolder(d, c, b.addr);
    OnlyFreeByteHolder(d, c, b.End() - 1);
  }

  lemma OnlyFreeByteHolder(d: Heap, c: Block, x: int)
    requires Inv(d) && OnlyBlock(d.lists, c) && FreeByte(d, x)
    ensures c.Has(x)
  {
    var b := FreeByteInFreeBlock(d, x);
    FreeSetMember(d.lists, b);
  }

  lemma LargestFits(h: Heap, k: nat)
    requires Inv(h) && MIN_ORDER < k <= h.maxOrder
    ensures Pow2(k) <= h.size
  {
    Pow2Monotone(k, h.maxOrder);
  }

  // ---------------------------------------------------------------- exact reversal

  lemma ReversesExactly(start: nat, size: nat)
    requires ValidRange(start, size)
    ensures AlwaysReverses(start, size) <==> AlignedHeap(start, size)
  {
    hide Inv, Settled, ValidRange, Reachable, Aligned, LargestOrderFor, Reverses, OrderFor, FreeSet, Alloc;
    if AlignedHeap(start, size) {
      forall h, layout | Reachable(start, size, h) ensures Reverses(h, layout) {
        ReachableTiles(start, size, h);
        ReachableSettled(start, size, h, LargestOrderFor(size));
        SettledReverses(h, layout);
      }
    } else {
      var v, w := MisalignedSeeds(start, size);
      if v < w {
        ReachableInitially(start, size);
        var d := Isolated(start, size, Initial(start, size), Block(start + Pow2(v), w));
        UnalignedSplitStays(d, v, w);
      } else {
        ReachableInitially(start, size);
        InitialInv(start, size);
        HalvesMerge(Initial(start, size), v);
      }
    }
  }

  lemma SettledReverses(h: Heap, layout: Layout)
    requires Inv(h) && Settled(h)
    ensures Reverses(h, layout)
  {
    if Alloc(h, layout).0.Some? {
      ExactReversal(h, layout);
    }
  }

  /** The first half of a block at the wrong offset looks for its buddy on the other side and stays split off. */
  lemma UnalignedSplitStays(d: Heap, v: nat, w: nat)
    requires Inv(d) && MIN_ORDER <= v < w <= d.maxOrder && OnlyBlock(d.lists, Block(d.start + Pow2(v), w))
    ensures !Reverses(d, OfOrder(v))
  {
    hide Inv, OrderFor, AllocateOrder, Buddy, Pow2;
    OrderOfLayout(v);
    SplitCascade(d.lists, d.maxOrder, v, w);
    var p := d.start + Pow2(v);
    var (addr, after) := Alloc(d, OfOrder(v));
    assert addr == Some(p) && after.lists[v] == [p + Pow2(v)];
    HalfOffsetBuddy(d.start, v);
    var again := Release(after.lists, d.start, d.maxOrder, p, v);
    assert again == Push(after.lists, p, v);
    assert again[v][0] == p;
  }

  lemma HalfOffsetBuddy(start: nat, v: nat)
    ensures Buddy(start, start + Pow2(v), v) == start
    ensures Buddy(start, start, v) == start + Pow2(v)
  {
    BuddyIsNeighbour(start, start + Pow2(v), v);
    BuddyIsNeighbour(start, start, v);
    assert Pow2(v) == 1 * Pow2(v);
    QuotientOfMultiple(1, Pow2(v));
  }

  /** Two free halves at the start: taking one and giving it back merges them for good. */
  lemma HalvesMerge(h: Heap, v: nat)
    requires Inv(h) && MIN_ORDER <= v < h.maxOrder && h.size < 3 * Pow2(v)
    requires Block(h.start, v) in FreeSet(h.lists) && Block(h.start + Pow2(v), v) in FreeSet(h.lists)
    ensures !Reverses(h, OfOrder(v))
  {
    hide Inv, OrderFor, Needs, Release, Pow2, Buddy;
    OrderOfLayout(v);
    FreeSetMember(h.lists, Block(h.start, v));
    FreeSetMember(h.lists, Block(h.start + Pow2(v), v));
    SplitCascade(h.lists, h.maxOrder, v, v);
    var p := h.lists[v][0];
    FreeSetMember(h.lists, Block(p, v));
    OnlyTwoFit(h, v, Block(p, v));
    HalfOffsetBuddy(h.start, v);
    var buddy := Buddy(h.start, p, v);
    var (addr, after) := Alloc(h, OfOrder(v));
    assert after.lists == h.lists[v := h.lists[v][1..]];
    assert h.lists[v] == [p] + after.lists[v];
    assert buddy in after.lists[v];
    if MayFree(after, p, OfOrder(v)) {
      MergedListShorter(h, v, p);
    }
  }

  lemma MergedListShorter(h: Heap, v: nat, p: nat)
    requires Inv(h) && v < h.maxOrder && h.lists[v] != [] && h.lists[v][0] == p && h.start <= p
    requires Buddy(h.start, p, v) in h.lists[v][1..]
    ensures |Release(h.lists[v := h.lists[v][1..]], h.start, h.maxOrder, p, v)[v]| < |h.lists[v]|
  {
    var lists := h.lists[v := h.lists[v][1..]];
    var buddy := Buddy(h.start, p, v);
    PopIsWithout(h.lists, v);
    FreeSetWithout(h.lists, h.maxOrder, p, v);
    WithoutDeletes(lists[v], buddy);
    LowBuddyInHeap(h.start, p, v);
    ReleaseAbove(lists[v := Without(lists[v], buddy)], h.start, h.maxOrder, Min(p, buddy), v + 1, v);
  }

  lemma {:induction false} ReleaseAbove(lists: FreeLists, start: nat, maxOrder: nat, addr: nat, order: nat, k: nat)
    requires k < order <= maxOrder <= MAX_ORDER && start <= addr
    ensures Release(lists, start, maxOrder, addr, order)[k] == lists[k]
    decreases maxOrder - order
  {
    var buddy := Buddy(start, addr, order);
    if order < maxOrder && buddy in lists[order] {
      LowBuddyInHeap(start, addr, order);
      ReleaseAbove(lists[order := Without(lists[order], buddy)], start, maxOrder, Min(addr, buddy), order + 1, k);
    }
  }

  // ---------------------------------------------------------------- requested alignment

  /** Every result honours alignment 2^m exactly when 2^m divides the heap start or no result exists. */
  lemma AlignedResultsExactly(start: nat, size: nat, m: nat)
    requires ValidRange(start, size)
    ensures AlwaysAligned(start, size, m) <==> Aligned(start, m) || m > LargestOrderFor(size)
  {
    hide Inv, Settled, ValidRange, Reachable, Aligned, LargestOrderFor, OrderFor, FreeSet, Alloc, Pow2;
    if Aligned(start, m) {
      forall h, layout: Layout | Reachable(start, size, h) && layout.align == Pow2(m) && Alloc(h, layout).0.Some?
        ensures Aligned(Alloc(h, layout).0.value, m)
      {
        AllocAligned(start, size, h, layout, m);
      }
    } else if m > LargestOrderFor(size) {
      forall h, layout: Layout | Reachable(start, size, h) && layout.align == Pow2(m)
        ensures Alloc(h, layout).0.None?
      {
        ReachableTiles(start, size, h);
        OverAlignedFails(h, layout, m);
      }
    } else {
      var g := SettledEmptyHeap(start, size);
      SettledServesMisaligned(g, m);
    }
  }

  lemma OverAlignedFails(h: Heap, layout: Layout, m: nat)
    requires layout.align == Pow2(m) && m > h.maxOrder
    ensures Alloc(h, layout).0.None?
  {
    hide OrderForSize;
    if OrderFor(layout).Some? {
      var k := OrderFor(layout).value;
      if k < m {
        Pow2Monotone(k, m);
      }
      AllocFailsByOrder(h, layout, k);
    }
  }

  lemma InvOrders(h: Heap)
    requires Inv(h)
    ensures MIN_ORDER <= h.maxOrder && Aligned(h.start, MIN_ORDER)
  {
  }

  lemma SettledServesMisaligned(g: Heap, m: nat)
    requires Inv(g) && Settled(g) && g.live == map[] && m <= g.maxOrder && !Aligned(g.start, m)
    ensures var layout := Layout(1, Pow2(m));
            Alloc(g, layout).0.Some? && !Aligned(Alloc(g, layout).0.value, m)
  {
    hide SettledTo, OrderFor, Inv, Aligned, Alloc;
    InvOrders(g);
    if m <= MIN_ORDER {
      AlignedDown(g.start, m, MIN_ORDER);
    }
    var layout := Layout(1, Pow2(m));
    OrderOfAlign(m);
    LargestFits(g, m);
    EmptyHeapRegion(g, m);
    assert HasFreeRegion(g, m);
    NoFalseOutOfMemory(g, layout, m, g.maxOrder);
    AllocOffsetAligned(g, layout, m);
    var p := Alloc(g, layout).0.value;
    if Aligned(p, m) {
      AlignedSum(p, p - g.start, m);
    }
  }

  lemma OrderOfAlign(m: nat)
    requires MIN_ORDER <= m <= MAX_ORDER
    ensures OrderFor(Layout(1, Pow2(m))) == Some(m)
  {
    OrderOfPower(Pow2(m), m);
  }

  lemma AllocKeepsStart(h: Heap, layout: Layout)
    ensures Alloc(h, layout).1.start == h.start && Alloc(h, layout).1.maxOrder == h.maxOrder
  {
  }

  lemma AllocOffsetAligned(h: Heap, layout: Layout, k: nat)
    requires Inv(h) && Settled(h) && OrderFor(layout) == Some(k) && Alloc(h, layout).0.Some?
    ensures h.start <= Alloc(h, layout).0.value && Aligned(Alloc(h, layout).0.value - h.start, k)
  {
    hide Inv, OrderFor, Alloc, FreeSet, Aligned;
    AllocKeepsSettled(h, layout, h.maxOrder);
    var (addr, after) := Alloc(h, layout);
    var o := AllocRecordsOrder(h, layout);
    AllocKeepsInv(h, layout);
    AllocKeepsStart(h, layout);
    LiveBlock(after, addr.value);
    var b := Block(addr.value, o);
    assert b in LiveSet(after.live);
    assert b in FreeSet(after.lists) + LiveSet(after.live);
  }
}
