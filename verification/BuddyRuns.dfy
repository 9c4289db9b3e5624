/** Runs of allocations and releases, and what holds after every run. */
module BuddyRuns {
  import opened Wrappers
  import opened Bits
  import opened Tiling
  import opened BuddyModel
  import opened BuddyTiling
  import opened BuddyCanonical

  datatype Op = DoAlloc(layout: Layout) | DoFree(ptr: nat, layout: Layout)

  predicate Legal(h: Heap, op: Op) {
    op.DoFree? ==> MayFree(h, op.ptr, op.layout)
  }

  function Step(h: Heap, op: Op): Heap
    requires Legal(h, op)
  {
    match op
    case DoAlloc(layout) => Alloc(h, layout).1
    case DoFree(ptr, layout) => Dealloc(h, ptr, layout)
  }

  predicate Runs(h: Heap, ops: seq<Op>)
    decreases |ops|
  {
    ops == [] || (Legal(h, ops[0]) && Runs(Step(h, ops[0]), ops[1..]))
  }

  function After(h: Heap, ops: seq<Op>): Heap
    requires Runs(h, ops)
    decreases |ops|
  {
    if ops == [] then h else After(Step(h, ops[0]), ops[1..])
  }

  /** Some run from the freshly seeded heap ends in `h`. */
  ghost predicate Reachable(start: nat, size: nat, h: Heap) {
    exists ops :: Runs(Initial(start, size), ops) && After(Initial(start, size), ops) == h
  }

  lemma {:induction false} RunsConcat(h: Heap, ops: seq<Op>, more: seq<Op>)
    requires Runs(h, ops) && Runs(After(h, ops), more)
    ensures Runs(h, ops + more) && After(h, ops + more) == After(After(h, ops), more)
    decreases |ops|
  {
    hide Step, Legal;
    if ops == [] {
      assert ops + more == more;
    } else {
      RunsConcat(Step(h, ops[0]), ops[1..], more);
      assert (ops + more)[1..] == ops[1..] + more;
    }
  }

  lemma ReachableFurther(start: nat, size: nat, h: Heap, more: seq<Op>)
    requires Reachable(start, size, h) && Runs(h, more)
    ensures Reachable(start, size, After(h, more))
  {
    var ops :| Runs(Initial(start, size), ops) && After(Initial(start, size), ops) == h;
    RunsConcat(Initial(start, size), ops, more);
  }

  lemma ReachableInitially(start: nat, size: nat)
    ensures Reachable(start, size, Initial(start, size))
  {
    assert Runs(Initial(start, size), []);
  }

  lemma ReachableAlloc(start: nat, size: nat, h: Heap, layout: Layout)
    requires Reachable(start, size, h)
    ensures Reachable(start, size, Alloc(h, layout).1)
  {
    hide Reachable, Alloc;
    var ops := [DoAlloc(layout)];
    assert After(h, ops) == After(Step(h, ops[0]), []);
    ReachableFurther(start, size, h, ops);
  }

  lemma ReachableDealloc(start: nat, size: nat, h: Heap, ptr: nat, layout: Layout)
    requires Reachable(start, size, h) && MayFree(h, ptr, layout)
    ensures Reachable(start, size, Dealloc(h, ptr, layout))
  {
    hide Reachable, Dealloc, MayFree;
    var ops := [DoFree(ptr, layout)];
    assert Legal(h, ops[0]) && Runs(Step(h, ops[0]), []);
    assert After(h, ops) == After(Step(h, ops[0]), []);
    ReachableFurther(start, size, h, ops);
  }

  lemma StepKeepsInv(h: Heap, op: Op)
    requires Inv(h) && Legal(h, op)
    ensures Inv(Step(h, op))
    ensures Step(h, op).start == h.start && Step(h, op).size == h.size
  {
    match op
    case DoAlloc(layout) => AllocKeepsInv(h, layout);
    case DoFree(ptr, layout) => DeallocKeepsInv(h, ptr, layout);
  }

  lemma StepKeepsSettled(h: Heap, op: Op, a: nat)
    requires Inv(h) && SettledTo(h, a) && Legal(h, op)
    ensures SettledTo(Step(h, op), a)
  {
    match op
    case DoAlloc(layout) => AllocKeepsSettled(h, layout, a);
    case DoFree(ptr, layout) => DeallocKeepsSettled(h, ptr, layout, a);
  }

  lemma {:induction false} RunKeepsInv(h: Heap, ops: seq<Op>)
    requires Inv(h) && Runs(h, ops)
    ensures Inv(After(h, ops)) && After(h, ops).start == h.start && After(h, ops).size == h.size
    decreases |ops|
  {
    hide Inv, Step;
    if ops != [] {
      StepKeepsInv(h, ops[0]);
      RunKeepsInv(Step(h, ops[0]), ops[1..]);
    }
  }

  lemma {:induction false} RunKeepsSettled(h: Heap, ops: seq<Op>, a: nat)
    requires Inv(h) && SettledTo(h, a) && Runs(h, ops)
    ensures SettledTo(After(h, ops), a)
    decreases |ops|
  {
    hide Inv, SettledTo, Step;
    if ops != [] {
      StepKeepsInv(h, ops[0]);
      StepKeepsSettled(h, ops[0], a);
      RunKeepsSettled(Step(h, ops[0]), ops[1..], a);
    }
  }

  /** Tiling and conservation: after every run each byte of the seeded range is in exactly one live or free block. */
  lemma ReachableTiles(start: nat, size: nat, h: Heap)
    requires ValidRange(start, size) && Reachable(start, size, h)
    ensures Inv(h) && h.start == start && h.size == size && h.maxOrder == LargestOrderFor(size)
    ensures FreeSet(h.lists) !! LiveSet(h.live)
    ensures Tiles(FreeSet(h.lists) + LiveSet(h.live), start, start + size - size % MIN_BLOCK)
  {
    var ops :| Runs(Initial(start, size), ops) && After(Initial(start, size), ops) == h;
    InitialInv(start, size);
    RunKeepsInv(Initial(start, size), ops);
  }

  /** If 2^a divides the heap start, every reachable state is coalesced up to order `a`. */
  lemma ReachableSettled(start: nat, size: nat, h: Heap, a: nat)
    requires ValidRange(start, size) && MIN_ORDER <= a <= LargestOrderFor(size) && Aligned(start, a)
    requires Reachable(start, size, h)
    ensures Inv(h) && SettledTo(h, a)
  {
    hide Inv, SettledTo;
    ReachableTiles(start, size, h);
    var ops :| Runs(Initial(start, size), ops) && After(Initial(start, size), ops) == h;
    InitialInv(start, size);
    InitialSettled(start, size, a);
    RunKeepsSettled(Initial(start, size), ops, a);
  }

  // ---------------------------------------------------------------- the split cascade

  /** Allocation takes the head of the least nonempty order `j`, leaving one block on each order below it. */
  lemma {:induction false} SplitCascade(lists: FreeLists, maxOrder: nat, order: nat, j: nat)
    requires order <= j <= maxOrder <= MAX_ORDER && lists[j] != []
    requires forall i :: order <= i < j ==> lists[i] == []
    ensures var (addr, after) := AllocateOrder(lists, maxOrder, order);
            && addr == Some(lists[j][0])
            && after[j] == lists[j][1..]
            && (forall i :: order <= i < j ==> after[i] == [lists[j][0] + Pow2(i)])
            && (forall i :: 0 <= i < order || j < i <= MAX_ORDER ==> after[i] == lists[i])
    decreases maxOrder - order
  {
    if order < j {
      SplitCascade(lists, maxOrder, order + 1, j);
    }
  }

  lemma {:induction false} NothingToSplit(lists: FreeLists, maxOrder: nat, order: nat)
    requires maxOrder <= MAX_ORDER
    requires forall i :: order <= i <= maxOrder ==> lists[i] == []
    ensures AllocateOrder(lists, maxOrder, order) == (None, lists)
    decreases maxOrder + 1 - order
  {
    if order <= maxOrder {
      NothingToSplit(lists, maxOrder, order + 1);
    }
  }

  lemma LeastNonempty(lists: FreeLists, maxOrder: nat, order: nat) returns (j: nat)
    requires maxOrder <= MAX_ORDER && exists i :: order <= i <= maxOrder && lists[i] != []
    ensures order <= j <= maxOrder && lists[j] != [] && forall i :: order <= i < j ==> lists[i] == []
  {
    j := order;
    while lists[j] == []
      invariant order <= j <= maxOrder && forall i :: order <= i < j ==> lists[i] == []
      decreases maxOrder - j
    {
      j := j + 1;
    }
  }

  // ---------------------------------------------------------------- the merge cascade

  /** Where a released block starts once it has grown to order `i`. */
  function Climb(start: nat, addr: nat, order: nat, i: nat): (r: nat)
    requires start <= addr
    ensures start <= r
    decreases i
  {
    if i <= order then addr
    else
      var x := Climb(start, addr, order, i - 1);
      Min(x, Buddy(start, x, i - 1))
  }

  lemma {:induction false} ClimbFurther(start: nat, addr: nat, order: nat, i: nat)
    requires start <= addr && order < i
    ensures start <= Min(addr, Buddy(start, addr, order))
    ensures Climb(start, addr, order, i) == Climb(start, Min(addr, Buddy(start, addr, order)), order + 1, i)
    decreases i
  {
    hide Buddy;
    LowBuddyInHeap(start, addr, order);
    assert Climb(start, addr, order, order) == addr;
    if i > order + 1 {
      ClimbFurther(start, addr, order, i - 1);
    }
  }

  /** Merging up to order `i` clears the offset bits from the order of the block up to that one. */
  lemma {:induction false} ClimbClearsBits(start: nat, addr: nat, order: nat, i: nat)
    requires start <= addr && order <= i
    ensures var off := addr - start;
            Climb(start, addr, order, i) - start == off - off % Pow2(i) + off % Pow2(order)
    decreases i
  {
    hide Buddy, Pow2;
    if i > order {
      var off, p, x := addr - start, Pow2(i - 1), Climb(start, addr, order, i - 1);
      ClimbClearsBits(start, addr, order, i - 1);
      BuddyIsNeighbour(start, x, i - 1);
      Pow2Monotone(order, i - 1);
      PowerDoubles(i);
      NewRemainder(off, p, off % Pow2(order));
      DoubledRemainder(off, p);
    }
  }

  /** `dealloc` takes the buddy off the list of each order from `order` to `k - 1` and pushes the block they make up. */
  lemma {:induction false} MergeCascade(lists: FreeLists, start: nat, maxOrder: nat, addr: nat, order: nat, k: nat)
    requires order <= k <= maxOrder <= MAX_ORDER && start <= addr
    requires forall i :: order <= i < k ==> Buddy(start, Climb(start, addr, order, i), i) in lists[i]
    requires k < maxOrder ==> Buddy(start, Climb(start, addr, order, k), k) !in lists[k]
    ensures var after := Release(lists, start, maxOrder, addr, order);
            && after[k] == [Climb(start, addr, order, k)] + lists[k]
            && (forall i :: order <= i < k ==>
                  after[i] == Without(lists[i], Buddy(start, Climb(start, addr, order, i), i)))
            && (forall i :: 0 <= i < order || k < i <= MAX_ORDER ==> after[i] == lists[i])
    decreases k - order
  {
    hide Buddy;
    assert Climb(start, addr, order, order) == addr;
    if order < k {
      var buddy := Buddy(start, addr, order);
      var rest, low := lists[order := Without(lists[order], buddy)], Min(addr, buddy);
      ClimbFurther(start, addr, order, order + 1);
      forall i | order < i <= k
        ensures start <= low && Climb(start, addr, order, i) == Climb(start, low, order + 1, i)
      {
        ClimbFurther(start, addr, order, i);
      }
      MergeCascade(rest, start, maxOrder, low, order + 1, k);
    }
  }

  /** There always is such an order `k`. */
  lemma MergeStops(lists: FreeLists, start: nat, maxOrder: nat, addr: nat, order: nat) returns (k: nat)
    requires order <= maxOrder <= MAX_ORDER && start <= addr
    ensures order <= k <= maxOrder
    ensures forall i :: order <= i < k ==> Buddy(start, Climb(start, addr, order, i), i) in lists[i]
    ensures k < maxOrder ==> Buddy(start, Climb(start, addr, order, k), k) !in lists[k]
  {
    k := order;
    while k < maxOrder && Buddy(start, Climb(start, addr, order, k), k) in lists[k]
      invariant order <= k <= maxOrder
      invariant forall i :: order <= i < k ==> Buddy(start, Climb(start, addr, order, i), i) in lists[i]
    {
      k := k + 1;
    }
  }

  // ---------------------------------------------------------------- when allocation fails

  /** An allocation of order k fails exactly when every free list from order k up is empty. */
  lemma AllocFailsByOrder(h: Heap, layout: Layout, k: nat)
    requires Needs(layout, k)
    ensures Alloc(h, layout).0.None? <==> forall i :: k <= i <= h.maxOrder ==> h.lists[i] == []
  {
    hide OrderFor;
    if forall i :: k <= i <= h.maxOrder ==> h.lists[i] == [] {
      NothingToSplit(h.lists, h.maxOrder, k);
    } else {
      var j := LeastNonempty(h.lists, h.maxOrder, k);
      SplitCascade(h.lists, h.maxOrder, k, j);
    }
  }

  /** For every request: an allocation fails exactly when all lists of blocks as large as the request are empty. */
  lemma AllocFailsIff(h: Heap, layout: Layout)
    ensures Alloc(h, layout).0.None? <==>
            forall i :: MIN_ORDER <= i <= h.maxOrder && Max(layout.size, layout.align) <= Pow2(i) ==> h.lists[i] == []
  {
    hide OrderFor, Pow2, AllocateOrder;
    var order := OrderFor(layout);
    if order.None? {
      forall i | MIN_ORDER <= i <= h.maxOrder ensures Pow2(i) < Bytes(layout) {
        Pow2Monotone(i, MAX_ORDER);
      }
    } else {
      var k := order.value;
      AllocFailsByOrder(h, layout, k);
      forall i | MIN_ORDER <= i <= h.maxOrder ensures Bytes(layout) <= Pow2(i) <==> k <= i {
        if k <= i {
          Pow2Monotone(k, i);
        } else {
          Pow2Monotone(i, k - 1);
        }
      }
    }
  }

  /** The block handed out has room for the request, and less than twice that unless it is the smallest. */
  lemma BlockLessThanTwice(h: Heap, layout: Layout)
    requires Alloc(h, layout).0.Some?
    ensures var (addr, after) := Alloc(h, layout);
            && addr.value in after.live
            && Max(layout.size, layout.align) <= Pow2(after.live[addr.value])
            && (Max(layout.size, layout.align) > MIN_BLOCK ==>
                  Pow2(after.live[addr.value]) < 2 * Max(layout.size, layout.align))
            && (Max(layout.size, layout.align) <= MIN_BLOCK ==> after.live[addr.value] == MIN_ORDER)
  {
    hide OrderFor, Pow2, AllocateOrder;
    var k := OrderFor(layout).value;
    SmallestBlock();
    if k > MIN_ORDER {
      Pow2Monotone(MIN_ORDER, k - 1);
      assert Pow2(k) == 2 * Pow2(k - 1) by { PowerDoubles(k); }
    }
  }

  lemma PowerDoubles(k: nat)
    requires k > 0
    ensures Pow2(k) == 2 * Pow2(k - 1)
  {
  }

  // ---------------------------------------------------------------- no false out-of-memory

  /** Some wholly free, offset-aligned region of 2^k bytes exists. */
  ghost predicate HasFreeRegion(h: Heap, k: nat) {
    exists b: Block :: b.order == k && WhollyFree(h, b)
  }

  lemma FreeBlockHoldsRegion(h: Heap, c: Block, k: nat, a: nat)
    requires Inv(h) && SettledTo(h, a) && c in FreeSet(h.lists) && MIN_ORDER <= k <= a && k <= c.order
    ensures HasFreeRegion(h, k)
  {
    hide Inv, SettledTo, FreeByte, Aligned;
    FreeBlockBytes(h, c);
    FreeBlockFacts(h, c, a);
    var b := Block(c.addr, k);
    AlignedDown(c.addr - h.start, k, Min(c.order, a));
    Pow2Monotone(k, c.order);
    assert forall x :: b.Has(x) ==> c.Has(x);
    assert WhollyFree(h, b);
  }

  lemma RegionNeedsRoom(h: Heap, b: Block)
    requires Inv(h) && WhollyFree(h, b) && b.order <= MAX_ORDER
    ensures b.order <= h.maxOrder
  {
    assert b.Has(b.addr) && b.Has(b.End() - 1);
    assert FreeByte(h, b.addr) && FreeByte(h, b.End() - 1);
    if b.order > h.maxOrder {
      Pow2Monotone(h.maxOrder + 1, b.order);
    }
  }

  /** `alloc` returns null exactly when no wholly free region of that order exists, however its bytes were freed. */
  lemma NoFalseOutOfMemory(h: Heap, layout: Layout, k: nat, a: nat)
    requires Inv(h) && SettledTo(h, a) && Needs(layout, k) && k <= a
    ensures Alloc(h, layout).0.None? <==> !HasFreeRegion(h, k)
  {
    hide Inv, Aligned, FreeByte, Alloc, FreeSet;
    AllocFailsByOrder(h, layout, k);
    if HasFreeRegion(h, k) {
      var b: Block :| b.order == k && WhollyFree(h, b);
      var c := FreeRegionInFreeBlock(h, b, a);
      FreeBlockFacts(h, c, a);
      FreeSetMember(h.lists, c);
    }
    if Alloc(h, layout).0.Some? {
      var j := LeastNonempty(h.lists, h.maxOrder, k);
      var c := Block(h.lists[j][0], j);
      FreeSetMember(h.lists, c);
      FreeBlockHoldsRegion(h, c, k, a);
    }
  }

  /** Requests of an order above the largest fail, and there is no region for them. */
  lemma TooLargeForHeap(h: Heap, layout: Layout, k: nat)
    requires Inv(h) && Needs(layout, k) && k > h.maxOrder
    ensures Alloc(h, layout).0.None? && !HasFreeRegion(h, k)
  {
    hide Inv, Alloc;
    AllocFailsByOrder(h, layout, k);
    forall b: Block | b.order == k && WhollyFree(h, b) ensures false {
      RegionNeedsRoom(h, b);
    }
  }

  /** Some wholly free, offset-aligned region of an order `alloc` knows has room for the bytes. */
  ghost predicate HasRoom(h: Heap, bytes: nat) {
    exists b: Block :: WhollyFree(h, b) && b.order <= MAX_ORDER && bytes <= Pow2(b.order)
  }

  lemma RoomIsRegion(h: Heap, layout: Layout, k: nat)
    requires Needs(layout, k)
    ensures HasRoom(h, Bytes(layout)) <==> HasFreeRegion(h, k)
  {
    hide FreeByte, Aligned, Pow2;
    if HasRoom(h, Bytes(layout)) {
      var b: Block :| WhollyFree(h, b) && b.order <= MAX_ORDER && Bytes(layout) <= Pow2(b.order);
      if b.order < k {
        Pow2Monotone(b.order, k - 1);
      }
      AlignedDown(b.addr - h.start, k, b.order);
      Pow2Monotone(k, b.order);
      var c := Block(b.addr, k);
      assert forall x :: c.Has(x) ==> b.Has(x);
      assert WhollyFree(h, c);
    }
  }

  // ---------------------------------------------------------------- exact reversal

  lemma LowerHalfBuddy(start: nat, addr: nat, order: nat, j: nat)
    requires order < j && start <= addr && Aligned(addr - start, j)
    ensures Buddy(start, addr, order) == addr + Pow2(order)
  {
    hide Aligned;
    AlignedDown(addr - start, order, j);
    AlignedDown(addr - start, order + 1, j);
    AlignedBuddy(start, addr, order);
    BuddyIsNeighbour(start, addr, order);
  }

  /** Releasing the block climbs back through the halves the split left, one order at a time. */
  lemma {:induction false} ReleaseUndoesSplit(before: FreeLists, lists: FreeLists, start: nat, maxOrder: nat,
                                              addr: nat, order: nat, j: nat)
    requires order <= j <= maxOrder <= MAX_ORDER && start <= addr && Aligned(addr - start, j)
    requires before[j] != [] && before[j][0] == addr && lists[j] == before[j][1..]
    requires j < maxOrder ==> Buddy(start, addr, j) !in before[j]
    requires forall i :: order <= i < j ==> before[i] == [] && lists[i] == [addr + Pow2(i)]
    requires forall i :: 0 <= i < order || j < i <= MAX_ORDER ==> lists[i] == before[i]
    ensures Release(lists, start, maxOrder, addr, order) == before
    decreases maxOrder - order
  {
    hide Aligned, Buddy;
    if order < j {
      LowerHalfBuddy(start, addr, order, j);
      var rest := lists[order := Without(lists[order], addr + Pow2(order))];
      assert rest[order] == [];
      ReleaseUndoesSplit(before, rest, start, maxOrder, addr, order + 1, j);
    } else {
      assert before[j] == [addr] + lists[j];
      assert Push(lists, addr, order) == before;
    }
  }

  /** `alloc` then `dealloc` restores every free list as a sequence, so the next `alloc` returns the same address. */
  lemma ExactReversal(h: Heap, layout: Layout)
    requires Inv(h) && Settled(h) && Alloc(h, layout).0.Some?
    ensures var (addr, after) := Alloc(h, layout);
            MayFree(after, addr.value, layout) && Dealloc(after, addr.value, layout) == h
  {
    hide Inv, Settled, OrderFor, Release;
    var k := OrderFor(layout).value;
    AllocKeepsInv(h, layout);
    AllocFailsByOrder(h, layout, k);
    var j := LeastNonempty(h.lists, h.maxOrder, k);
    OrderReversal(h, k, j);
    var (addr, after) := Alloc(h, layout);
    assert after.live - {addr.value} == h.live;
  }

  lemma OrderReversal(h: Heap, k: nat, j: nat)
    requires Inv(h) && Settled(h) && k <= j <= h.maxOrder && h.lists[j] != []
    requires forall i :: k <= i < j ==> h.lists[i] == []
    ensures var (addr, after) := AllocateOrder(h.lists, h.maxOrder, k);
            && addr.Some? && h.start <= addr.value
            && Release(after, h.start, h.maxOrder, addr.value, k) == h.lists
  {
    hide Inv, SettledTo, Aligned, Buddy, FreeSet, AllocateOrder, Release;
    SplitCascade(h.lists, h.maxOrder, k, j);
    var c := Block(h.lists[j][0], j);
    FreeSetMember(h.lists, c);
    FreeBlockFacts(h, c, h.maxOrder);
    FreeSetMember(h.lists, Block(Buddy(h.start, c.addr, j), j));
    ReleaseUndoesSplit(h.lists, AllocateOrder(h.lists, h.maxOrder, k).1, h.start, h.maxOrder, c.addr, k, j);
  }
}
