/** Absolute alignment of every block ever held, and how many blocks of an order `init` seeds. */
module BuddyAlignment {
  import opened Wrappers
  import opened Bits
  import opened Tiling
  import opened BuddyModel
  import opened BuddyTiling
  import opened BuddyCanonical
  import opened BuddyRuns

  lemma {:induction false} AllocateOrderAligned(lists: FreeLists, maxOrder: nat, order: nat, a: nat)
    requires maxOrder <= MAX_ORDER && AlignedUpTo(FreeSet(lists), a)
    ensures var (addr, after) := AllocateOrder(lists, maxOrder, order);
            && AlignedUpTo(FreeSet(after), a)
            && (addr.Some? ==> Aligned(addr.value, Min(order, a)))
    decreases maxOrder + 1 - order
  {
    hide Aligned, FreeSet, Pow2;
    if order > maxOrder {
    } else if lists[order] != [] {
      FreeSetMember(lists, Block(lists[order][0], order));
      var after := lists[order := lists[order][1..]];
      forall b | b in FreeSet(after) ensures b in FreeSet(lists) {
        FreeSetMember(after, b);
        FreeSetMember(lists, b);
      }
    } else {
      AllocateOrderAligned(lists, maxOrder, order + 1, a);
      var (addr, rest) := AllocateOrder(lists, maxOrder, order + 1);
      if addr.Some? {
        AlignedDown(addr.value, Min(order, a), Min(order + 1, a));
        PowerAligned(Min(order, a), order);
        AlignedSum(addr.value, Pow2(order), Min(order, a));
        FreeSetPush(rest, addr.value + Pow2(order), order);
      }
    }
  }

  /** Merging clears one more offset bit, which the alignment of the start turns into one more address bit. */
  lemma MergeAligned(start: nat, addr: nat, order: nat, a: nat)
    requires start <= addr && Aligned(start, a) && Aligned(addr, Min(order, a))
    ensures var buddy := Buddy(start, addr, order);
            && start <= Min(addr, buddy)
            && Aligned(Min(addr, buddy), Min(order + 1, a))
  {
    hide Aligned, Buddy;
    AlignedDown(start, Min(order, a), a);
    AlignedSum(addr, start, Min(order, a));
    MergedOffset(start, addr, order, a);
    var low := Min(addr, Buddy(start, addr, order));
    AlignedDown(start, Min(order + 1, a), a);
    AlignedSum(low - start, start, Min(order + 1, a));
    assert low - start + start == low;
  }

  lemma {:induction false} ReleaseAligned(lists: FreeLists, start: nat, maxOrder: nat, addr: nat, order: nat, a: nat)
    requires order <= maxOrder <= MAX_ORDER && start <= addr && ListsOk(lists, maxOrder)
    requires Aligned(start, a) && AlignedUpTo(FreeSet(lists), a) && Aligned(addr, Min(order, a))
    ensures AlignedUpTo(FreeSet(Release(lists, start, maxOrder, addr, order)), a)
    decreases maxOrder - order
  {
    hide Aligned, FreeSet, ListsOk;
    var buddy := Buddy(start, addr, order);
    if order < maxOrder && buddy in lists[order] {
      MergeAligned(start, addr, order, a);
      FreeSetWithout(lists, maxOrder, buddy, order);
      ReleaseAligned(lists[order := Without(lists[order], buddy)], start, maxOrder, Min(addr, buddy), order + 1, a);
    } else {
      FreeSetPush(lists, addr, order);
    }
  }

  ghost predicate HeapAlignedUpTo(h: Heap, a: nat) {
    AlignedUpTo(FreeSet(h.lists), a) && AlignedUpTo(LiveSet(h.live), a)
  }

  lemma StepKeepsAligned(h: Heap, op: Op, a: nat)
    requires Inv(h) && Legal(h, op) && Aligned(h.start, a) && HeapAlignedUpTo(h, a)
    ensures HeapAlignedUpTo(Step(h, op), a)
  {
    hide Aligned, FreeSet, Tiled, OrderFor, LiveSet;
    match op
    case DoAlloc(layout) =>
      var order := OrderFor(layout);
      if order.Some? {
        AllocateOrderAligned(h.lists, h.maxOrder, order.value, a);
        AllocKeepsInv(h, layout);
        if Alloc(h, layout).0.Some? {
          LiveSetAdd(h.live, Alloc(h, layout).0.value, order.value);
        }
      }
    case DoFree(ptr, layout) =>
      LiveBlock(h, ptr);
      LiveSetRemove(h.live, ptr);
      InvListsOk(h);
      ReleaseAligned(h.lists, h.start, h.maxOrder, ptr, h.live[ptr], a);
  }

  lemma InvListsOk(h: Heap)
    requires Inv(h)
    ensures ListsOk(h.lists, h.maxOrder)
  {
  }

  lemma {:induction false} RunKeepsAligned(h: Heap, ops: seq<Op>, a: nat)
    requires Inv(h) && Runs(h, ops) && Aligned(h.start, a) && HeapAlignedUpTo(h, a)
    ensures HeapAlignedUpTo(After(h, ops), a)
    decreases |ops|
  {
    hide Inv, Step, HeapAlignedUpTo, Aligned;
    if ops != [] {
      StepKeepsInv(h, ops[0]);
      StepKeepsAligned(h, ops[0], a);
      RunKeepsAligned(Step(h, ops[0]), ops[1..], a);
    }
  }

  /** If 2^a divides the heap start, every block of order k ever held is a multiple of 2^min(k, a). */
  lemma ReachableAligned(start: nat, size: nat, h: Heap, a: nat)
    requires ValidRange(start, size) && Reachable(start, size, h) && Aligned(start, a)
    ensures AlignedUpTo(FreeSet(h.lists) + LiveSet(h.live), a)
  {
    var ops :| Runs(Initial(start, size), ops) && After(Initial(start, size), ops) == h;
    InitialInv(start, size);
    InitialAligned(start, size, a);
    RunKeepsAligned(Initial(start, size), ops, a);
  }

  /** A result is a multiple of the requested alignment 2^m whenever 2^m divides the heap start. */
  lemma AllocAligned(start: nat, size: nat, h: Heap, layout: Layout, m: nat)
    requires ValidRange(start, size) && Reachable(start, size, h)
    requires layout.align == Pow2(m) && Aligned(start, m) && Alloc(h, layout).0.Some?
    ensures Aligned(Alloc(h, layout).0.value, m)
  {
    hide Aligned, Alloc, Reachable, FreeSet, ValidRange;
    var (addr, after) := Alloc(h, layout);
    ReachableAlloc(start, size, h, layout);
    ReachableAligned(start, size, after, m);
    var k := AllocRecordsOrder(h, layout);
    if k < m {
      Pow2Monotone(k, m);
    }
    var b := Block(addr.value, k);
    assert b in LiveSet(after.live);
    assert b in FreeSet(after.lists) + LiveSet(after.live);
    assert Min(k, m) == m;
  }

  lemma AllocRecordsOrder(h: Heap, layout: Layout) returns (k: nat)
    requires Alloc(h, layout).0.Some?
    ensures OrderFor(layout) == Some(k) && Max(layout.size, layout.align) <= Pow2(k)
    ensures Alloc(h, layout).0.value in Alloc(h, layout).1.live
    ensures Alloc(h, layout).1.live[Alloc(h, layout).0.value] == k
  {
    k := OrderFor(layout).value;
  }

  // ---------------------------------------------------------------- how many seeds of an order

  /** While the address grows more aligned, each order below `u` has been used at most once and none above. */
  ghost predicate Rising(lists: FreeLists, addr: nat, maxOrder: nat, u: nat) {
    && MIN_ORDER <= u <= maxOrder <= MAX_ORDER && Aligned(addr, u)
    && (forall k :: 0 <= k < u ==> |lists[k]| <= 1)
    && (forall k :: u <= k < maxOrder ==> lists[k] == [])
  }

  /** Once the rest is smaller than the alignment, orders fall strictly: each is used at most once more. */
  ghost predicate Falling(lists: FreeLists, addr: nat, remaining: nat, maxOrder: nat, cap: nat) {
    && MIN_ORDER <= cap <= maxOrder <= MAX_ORDER && Aligned(addr, cap) && remaining < Pow2(cap)
    && (forall k :: 0 <= k < cap ==> |lists[k]| <= 1)
    && (forall k :: cap <= k < maxOrder ==> |lists[k]| <= 2)
  }

  lemma {:induction false} FallingSeeds(lists: FreeLists, addr: nat, remaining: nat, maxOrder: nat, cap: nat)
    requires Falling(lists, addr, remaining, maxOrder, cap)
    ensures forall k :: 0 <= k < maxOrder ==> |Seed(lists, addr, remaining, maxOrder)[k]| <= 2
    decreases remaining
  {
    hide Aligned, Pow2, PickOrder;
    if remaining >= MIN_BLOCK {
      var order := PickOrder(addr, remaining, maxOrder);
      SeedOrderFalls(addr, remaining, maxOrder, cap);
      assert order < maxOrder;
      PowerAligned(order, order);
      AlignedSum(addr, Pow2(order), order);
      FallingSeeds(Push(lists, addr, order), addr + Pow2(order), remaining - Pow2(order), maxOrder, order);
    }
  }

  lemma {:induction false} RisingSeeds(lists: FreeLists, addr: nat, remaining: nat, maxOrder: nat, u: nat)
    requires Rising(lists, addr, maxOrder, u)
    ensures forall k :: 0 <= k < maxOrder ==> |Seed(lists, addr, remaining, maxOrder)[k]| <= 2
    decreases remaining
  {
    hide Aligned, Pow2, PickOrder;
    if remaining < Pow2(u) {
      FallingSeeds(lists, addr, remaining, maxOrder, u);
    } else if remaining >= MIN_BLOCK {
      var order := PickOrder(addr, remaining, maxOrder);
      AlignedDown(addr, MIN_ORDER, u);
      SeedNeverBreaks(addr, remaining, maxOrder);
      assert u <= order;
      PowerAligned(order, order);
      AlignedSum(addr, Pow2(order), order);
      if order == maxOrder {
        RisingSeeds(Push(lists, addr, order), addr + Pow2(order), remaining - Pow2(order), maxOrder, maxOrder);
      } else if Aligned(addr, order + 1) {
        assert Pow2(order + 1) == 2 * Pow2(order) by { Pow2Monotone(order, order + 1); Pow2Add(order, 1); PowOne(); }
        FallingSeeds(Push(lists, addr, order), addr + Pow2(order), remaining - Pow2(order), maxOrder, order);
      } else {
        AlignedHalves(addr, order);
        RisingSeeds(Push(lists, addr, order), addr + Pow2(order), remaining - Pow2(order), maxOrder, order + 1);
      }
    }
  }

  lemma PowOne()
    ensures Pow2(1) == 2
  {
  }

  /** `init` seeds at most two blocks of each order below the largest. */
  lemma AtMostTwoSeeds(start: nat, size: nat)
    requires ValidRange(start, size)
    ensures forall k :: 0 <= k < LargestOrderFor(size) ==> |Initial(start, size).lists[k]| <= 2
  {
    RisingSeeds(NoBlocks(), start, size, LargestOrderFor(size), MIN_ORDER);
  }
}
