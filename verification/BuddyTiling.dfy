/** In every reachable state free and live blocks tile the seeded range. */
module BuddyTiling {
  import opened Wrappers
  import opened Bits
  import opened Tiling
  import opened BuddyModel

  function FreeSet(lists: FreeLists): set<Block> {
    set k: nat, i: nat | k < |lists| && i < |lists[k]| :: Block(lists[k][i], k)
  }

  function LiveSet(live: map<nat, nat>): set<Block> {
    set a | a in live :: Block(a, live[a])
  }

  ghost predicate NoDuplicates(s: seq<nat>) {
    forall i, j :: 0 <= i < j < |s| ==> s[i] != s[j]
  }

  /** Free lists hold each block once, at an order between MIN_ORDER and `maxOrder`. */
  ghost predicate ListsOk(lists: FreeLists, maxOrder: nat) {
    && MIN_ORDER <= maxOrder <= MAX_ORDER
    && (forall k :: 0 <= k <= MAX_ORDER && !(MIN_ORDER <= k <= maxOrder) ==> lists[k] == [])
    && (forall k :: 0 <= k <= MAX_ORDER ==> NoDuplicates(lists[k]))
  }

  /** All blocks of `blocks` start a multiple of 64 bytes into the heap and have an order the heap uses. */
  ghost predicate BlocksOk(blocks: set<Block>, start: nat, maxOrder: nat) {
    forall b :: b in blocks ==>
      MIN_ORDER <= b.order <= maxOrder && start <= b.addr && Aligned(b.addr - start, MIN_ORDER)
  }

  /** The free lists and the blocks `held` by others tile the range, with no block in both. */
  ghost predicate Tiled(lists: FreeLists, held: set<Block>, start: nat, end: nat, maxOrder: nat) {
    && ListsOk(lists, maxOrder)
    && FreeSet(lists) !! held
    && BlocksOk(FreeSet(lists) + held, start, maxOrder)
    && Tiles(FreeSet(lists) + held, start, end)
  }

  /** The invariant of the allocator: free and live blocks are disjoint and cover the seeded range. */
  ghost predicate Inv(h: Heap) {
    && ValidRange(h.start, h.size)
    && h.maxOrder == LargestOrderFor(h.size)
    && Tiled(h.lists, LiveSet(h.live), h.start, h.End(), h.maxOrder)
  }

  // ---------------------------------------------------------------- free sets and list operations

  lemma FreeSetMember(lists: FreeLists, b: Block)
    ensures b in FreeSet(lists) <==> b.order <= MAX_ORDER && b.addr in lists[b.order]
  {
    if b.order <= MAX_ORDER && b.addr in lists[b.order] {
      var i :| 0 <= i < |lists[b.order]| && lists[b.order][i] == b.addr;
      assert b == Block(lists[b.order][i], b.order);
    }
  }

  lemma FreeSetPush(lists: FreeLists, addr: nat, order: nat)
    requires order <= MAX_ORDER
    ensures FreeSet(Push(lists, addr, order)) == FreeSet(lists) + {Block(addr, order)}
  {
    var after := Push(lists, addr, order);
    forall b ensures b in FreeSet(after) <==> b in FreeSet(lists) + {Block(addr, order)} {
      FreeSetMember(lists, b);
      FreeSetMember(after, b);
    }
  }

  lemma PushKeepsListsOk(lists: FreeLists, maxOrder: nat, addr: nat, order: nat)
    requires ListsOk(lists, maxOrder) && MIN_ORDER <= order <= maxOrder
    requires Block(addr, order) !in FreeSet(lists)
    ensures ListsOk(Push(lists, addr, order), maxOrder)
  {
    FreeSetMember(lists, Block(addr, order));
    var s := [addr] + lists[order];
    assert forall i :: 0 < i < |s| ==> s[i] == lists[order][i - 1];
  }

  lemma {:induction false} WithoutDeletes(s: seq<nat>, x: nat)
    requires NoDuplicates(s)
    ensures forall y :: y in Without(s, x) <==> y in s && y != x
    ensures NoDuplicates(Without(s, x))
    ensures x in s ==> |Without(s, x)| == |s| - 1
  {
    if s != [] {
      assert s == [s[0]] + s[1..];
      if s[0] != x {
        WithoutDeletes(s[1..], x);
        var t := Without(s[1..], x);
        assert Without(s, x) == [s[0]] + t;
        assert forall i :: 0 <= i < |t| ==> t[i] in s[1..];
      }
    }
  }

  lemma FreeSetWithout(lists: FreeLists, maxOrder: nat, addr: nat, order: nat)
    requires ListsOk(lists, maxOrder) && order <= MAX_ORDER
    ensures var after := lists[order := Without(lists[order], addr)];
            ListsOk(after, maxOrder) && FreeSet(after) == FreeSet(lists) - {Block(addr, order)}
  {
    var after := lists[order := Without(lists[order], addr)];
    WithoutDeletes(lists[order], addr);
    forall b ensures b in FreeSet(after) <==> b in FreeSet(lists) - {Block(addr, order)} {
      FreeSetMember(lists, b);
      FreeSetMember(after, b);
    }
  }

  lemma PopIsWithout(lists: FreeLists, order: nat)
    requires order <= MAX_ORDER && lists[order] != []
    ensures lists[order][1..] == Without(lists[order], lists[order][0])
  {
  }

  // ---------------------------------------------------------------- allocation

  /** `AllocateOrder` hands a block of the tiling to the caller, or changes nothing. */
  lemma {:induction false} AllocateOrderTiles(lists: FreeLists, held: set<Block>, start: nat, end: nat, maxOrder: nat,
                                              order: nat)
    requires order >= MIN_ORDER && maxOrder <= MAX_ORDER && Tiled(lists, held, start, end, maxOrder)
    ensures var (addr, after) := AllocateOrder(lists, maxOrder, order);
            && (addr.None? ==> after == lists)
            && (addr.Some? ==>
                  && Block(addr.value, order) !in held
                  && Tiled(after, held + {Block(addr.value, order)}, start, end, maxOrder))
    decreases maxOrder + 1 - order
  {
    hide Tiled;
    if order > maxOrder {
    } else if lists[order] != [] {
      PopTiles(lists, held, start, end, maxOrder, order);
    } else {
      AllocateOrderTiles(lists, held, start, end, maxOrder, order + 1);
      var (addr, rest) := AllocateOrder(lists, maxOrder, order + 1);
      if addr.Some? {
        SplitTiles(rest, held, start, end, maxOrder, order, addr.value);
      }
    }
  }

  lemma PopTiles(lists: FreeLists, held: set<Block>, start: nat, end: nat, maxOrder: nat, order: nat)
    requires Tiled(lists, held, start, end, maxOrder) && order <= MAX_ORDER && lists[order] != []
    ensures Block(lists[order][0], order) !in held
    ensures Tiled(lists[order := lists[order][1..]], held + {Block(lists[order][0], order)}, start, end, maxOrder)
  {
    var b := Block(lists[order][0], order);
    PopIsWithout(lists, order);
    FreeSetWithout(lists, maxOrder, b.addr, order);
    FreeSetMember(lists, b);
    assert FreeSet(lists) - {b} + (held + {b}) == FreeSet(lists) + held;
  }

  /** A held block falls into two held halves. */
  lemma HalveHeld(lists: FreeLists, held: set<Block>, start: nat, end: nat, maxOrder: nat, order: nat, addr: nat)
    requires MIN_ORDER <= order < maxOrder && Block(addr, order + 1) !in held
    requires Tiled(lists, held + {Block(addr, order + 1)}, start, end, maxOrder)
    ensures var lower, upper := Block(addr, order), Block(addr + Pow2(order), order);
            && lower !in held && upper !in held + {lower}
            && Tiled(lists, held + {lower} + {upper}, start, end, maxOrder)
  {
    hide Aligned, Tiles;
    var whole, lower, upper := Block(addr, order + 1), Block(addr, order), Block(addr + Pow2(order), order);
    var tiles := FreeSet(lists) + (held + {whole});
    assert whole in tiles && Halves(whole) == {lower, upper};
    SplitTile(tiles, start, end, whole);
    assert tiles - {whole} + Halves(whole) == FreeSet(lists) + (held + {lower} + {upper});
    PowerAligned(MIN_ORDER, order);
    AlignedSum(addr - start, Pow2(order), MIN_ORDER);
    assert BlocksOk(tiles, start, maxOrder);
  }

  /** Pushing a held block frees it. */
  lemma PushTiles(lists: FreeLists, held: set<Block>, start: nat, end: nat, maxOrder: nat, addr: nat, order: nat)
    requires MIN_ORDER <= order <= maxOrder && Block(addr, order) !in held
    requires Tiled(lists, held + {Block(addr, order)}, start, end, maxOrder)
    ensures Tiled(Push(lists, addr, order), held, start, end, maxOrder)
  {
    hide Aligned, Tiles;
    var b := Block(addr, order);
    FreeSetPush(lists, addr, order);
    PushKeepsListsOk(lists, maxOrder, addr, order);
    assert FreeSet(lists) + {b} + held == FreeSet(lists) + (held + {b});
  }

  /** One level of the split: keep the lower half, push the upper. */
  lemma SplitTiles(rest: FreeLists, held: set<Block>, start: nat, end: nat, maxOrder: nat, order: nat, addr: nat)
    requires MIN_ORDER <= order < maxOrder && Block(addr, order + 1) !in held
    requires Tiled(rest, held + {Block(addr, order + 1)}, start, end, maxOrder)
    ensures Block(addr, order) !in held
    ensures Tiled(Push(rest, addr + Pow2(order), order), held + {Block(addr, order)}, start, end, maxOrder)
  {
    hide Tiled;
    HalveHeld(rest, held, start, end, maxOrder, order, addr);
    PushTiles(rest, held + {Block(addr, order)}, start, end, maxOrder, addr + Pow2(order), order);
  }

  lemma LiveSetAdd(live: map<nat, nat>, addr: nat, order: nat)
    requires addr !in live
    ensures LiveSet(live[addr := order]) == LiveSet(live) + {Block(addr, order)}
  {
    var after := live[addr := order];
    forall b | b in LiveSet(live) + {Block(addr, order)} ensures b in LiveSet(after) {
      assert b.addr in after && after[b.addr] == b.order;
    }
  }

  lemma LiveSetRemove(live: map<nat, nat>, addr: nat)
    requires addr in live
    ensures LiveSet(live - {addr}) == LiveSet(live) - {Block(addr, live[addr])}
  {
    forall b | b in LiveSet(live) - {Block(addr, live[addr])} ensures b in LiveSet(live - {addr}) {
      assert b.addr in live && live[b.addr] == b.order && b.addr != addr;
      var after := live - {addr};
      assert b.addr in after && b == Block(b.addr, after[b.addr]);
    }
  }

  /** Two blocks of a tiling never start at the same address. */
  lemma AddressNotLive(tiles: set<Block>, lo: int, hi: int, live: map<nat, nat>, b: Block)
    requires Tiles(tiles, lo, hi) && b in tiles && LiveSet(live) <= tiles && b !in LiveSet(live)
    ensures b.addr !in live
  {
    assert b.addr in live ==> Block(b.addr, live[b.addr]) in LiveSet(live);
    forall c | c in LiveSet(live) ensures c.addr != b.addr {
      assert c.Apart(b);
    }
  }

  lemma AllocKeepsInv(h: Heap, layout: Layout)
    requires Inv(h)
    ensures Inv(Alloc(h, layout).1)
    ensures Alloc(h, layout).0.None? ==> Alloc(h, layout).1 == h
    ensures Alloc(h, layout).0.Some? ==> Alloc(h, layout).0.value !in h.live
  {
    hide Aligned, Tiles, OrderForSize, AllocateOrder, FreeSet, LargestOrderFor, ListsOk;
    var order := OrderFor(layout);
    if order.Some? {
      AllocateOrderTiles(h.lists, LiveSet(h.live), h.start, h.End(), h.maxOrder, order.value);
      var (addr, after) := AllocateOrder(h.lists, h.maxOrder, order.value);
      if addr.Some? {
        var b := Block(addr.value, order.value);
        AddressNotLive(FreeSet(after) + (LiveSet(h.live) + {b}), h.start, h.End(), h.live, b);
        LiveSetAdd(h.live, b.addr, b.order);
      }
    }
  }

  // ---------------------------------------------------------------- release

  /** Buddies are the two halves of one block, so merging them joins two neighbours. */
  lemma BuddiesMakeUpABlock(start: nat, addr: nat, order: nat)
    requires addr >= start
    ensures var buddy := Buddy(start, addr, order);
            && buddy != addr
            && Halves(Block(Min(addr, buddy), order + 1)) == {Block(addr, order), Block(buddy, order)}
  {
    BuddyIsNeighbour(start, addr, order);
  }

  /** One merge: the buddy leaves its free list and the caller holds the block both make up. */
  lemma MergeTiles(lists: FreeLists, held: set<Block>, start: nat, end: nat, maxOrder: nat, addr: nat, order: nat)
    requires MIN_ORDER <= order < maxOrder && addr >= start && Block(addr, order) !in held
    requires Tiled(lists, held + {Block(addr, order)}, start, end, maxOrder)
    requires Buddy(start, addr, order) in lists[order]
    ensures var buddy := Buddy(start, addr, order);
            var whole := Block(Min(addr, buddy), order + 1);
            && whole !in held && start <= whole.addr
            && Tiled(lists[order := Without(lists[order], buddy)], held + {whole}, start, end, maxOrder)
  {
    hide Aligned, Tiles, Buddy, FreeSet;
    var b, buddy := Block(addr, order), Block(Buddy(start, addr, order), order);
    var rest := lists[order := Without(lists[order], buddy.addr)];
    FreeSetWithout(lists, maxOrder, buddy.addr, order);
    FreeSetMember(lists, buddy);
    BuddiesMakeUpABlock(start, addr, order);
    var whole := Block(Min(addr, buddy.addr), order + 1);
    var tiles := FreeSet(lists) + (held + {b});
    assert b in tiles && buddy in tiles && whole.addr in {b.addr, buddy.addr};
    JoinTiles(tiles, start, end, whole);
    assert tiles - Halves(whole) + {whole} == FreeSet(rest) + (held + {whole});
  }

  /** The merge loop of `dealloc` puts the released block back into the tiling. */
  lemma {:induction false} ReleaseTiles(lists: FreeLists, held: set<Block>, start: nat, end: nat, maxOrder: nat,
                                        addr: nat, order: nat)
    requires MIN_ORDER <= order <= maxOrder && addr >= start && Block(addr, order) !in held
    requires Tiled(lists, held + {Block(addr, order)}, start, end, maxOrder)
    ensures Tiled(Release(lists, start, maxOrder, addr, order), held, start, end, maxOrder)
    decreases maxOrder - order
  {
    var buddy := Buddy(start, addr, order);
    if order < maxOrder && buddy in lists[order] {
      MergeTiles(lists, held, start, end, maxOrder, addr, order);
      ReleaseTiles(lists[order := Without(lists[order], buddy)], held, start, end, maxOrder,
                   Min(addr, buddy), order + 1);
    } else {
      PushTiles(lists, held, start, end, maxOrder, addr, order);
    }
  }

  lemma LiveBlock(h: Heap, ptr: nat)
    requires Inv(h) && ptr in h.live
    ensures Block(ptr, h.live[ptr]) in LiveSet(h.live)
    ensures h.start <= ptr && MIN_ORDER <= h.live[ptr] <= h.maxOrder
    ensures ptr < h.start + h.size
  {
    var b := Block(ptr, h.live[ptr]);
    assert b in FreeSet(h.lists) + LiveSet(h.live);
    assert MIN_ORDER <= b.order;
  }

  lemma DeallocKeepsInv(h: Heap, ptr: nat, layout: Layout)
    requires Inv(h) && MayFree(h, ptr, layout)
    ensures Inv(Dealloc(h, ptr, layout))
  {
    hide Tiled, ValidRange, OrderFor, Release;
    LiveBlock(h, ptr);
    var b := Block(ptr, h.live[ptr]);
    LiveSetRemove(h.live, ptr);
    assert LiveSet(h.live - {ptr}) + {b} == LiveSet(h.live);
    ReleaseTiles(h.lists, LiveSet(h.live - {ptr}), h.start, h.End(), h.maxOrder, ptr, b.order);
  }

  // ---------------------------------------------------------------- seeding

  /** The guard behind which `init` leaves its loop early is never true. */
  lemma SeedNeverBreaks(addr: nat, remaining: nat, maxOrder: nat)
    requires remaining >= MIN_BLOCK && Aligned(addr, MIN_ORDER) && maxOrder >= MIN_ORDER
    ensures var order := PickOrder(addr, remaining, maxOrder);
            Pow2(order) <= remaining && Aligned(addr, order)
  {
    assert Pow2(MIN_ORDER) == MIN_BLOCK;
  }

  lemma RemainderUnchanged(remaining: nat, order: nat)
    requires MIN_ORDER <= order && Pow2(order) <= remaining
    ensures (remaining - Pow2(order)) % MIN_BLOCK == remaining % MIN_BLOCK
  {
    assert Pow2(order) % MIN_BLOCK == 0 by {
      PowerAligned(MIN_ORDER, order);
      assert Pow2(MIN_ORDER) == MIN_BLOCK;
    }
    RemainderShift(remaining, Pow2(order));
  }

  lemma RemainderShift(x: int, y: int)
    requires y % MIN_BLOCK == 0
    ensures (x - y) % MIN_BLOCK == x % MIN_BLOCK
  {
  }

  lemma SeedUnrolls(lists: FreeLists, addr: nat, remaining: nat, maxOrder: nat)
    requires MIN_ORDER <= maxOrder <= MAX_ORDER && Aligned(addr, MIN_ORDER)
    ensures remaining < MIN_BLOCK ==> Seed(lists, addr, remaining, maxOrder) == lists
    ensures remaining >= MIN_BLOCK ==>
              var order := PickOrder(addr, remaining, maxOrder);
              && Pow2(order) <= remaining && Aligned(addr, order)
              && Seed(lists, addr, remaining, maxOrder)
                 == Seed(Push(lists, addr, order), addr + Pow2(order), remaining - Pow2(order), maxOrder)
  {
    if remaining >= MIN_BLOCK {
      SeedNeverBreaks(addr, remaining, maxOrder);
    }
  }

  /** The next block of the seeding loop, laid at the end of those already pushed. */
  lemma AppendHeld(lists: FreeLists, start: nat, addr: nat, maxOrder: nat, order: nat)
    requires MIN_ORDER <= order <= maxOrder && start <= addr
    requires Aligned(start, MIN_ORDER) && Aligned(addr, MIN_ORDER)
    requires Tiled(lists, {}, start, addr, maxOrder)
    ensures Tiled(lists, {} + {Block(addr, order)}, start, addr + Pow2(order), maxOrder)
    ensures Aligned(addr + Pow2(order), MIN_ORDER)
  {
    hide Aligned;
    var b := Block(addr, order);
    var blocks := FreeSet(lists);
    assert blocks + {} == blocks && blocks + ({} + {b}) == blocks + {b};
    AppendTile(blocks, start, addr, b);
    AlignedSum(addr, start, MIN_ORDER);
    PowerAligned(MIN_ORDER, order);
    AlignedSum(addr, Pow2(order), MIN_ORDER);
    assert BlocksOk(blocks, start, maxOrder);
  }

  /** The seeding loop lays blocks end to end and stops with fewer than 64 bytes left. */
  lemma {:induction false} SeedTiles(lists: FreeLists, start: nat, addr: nat, remaining: nat, maxOrder: nat)
    requires MIN_ORDER <= maxOrder <= MAX_ORDER && start <= addr
    requires Aligned(start, MIN_ORDER) && Aligned(addr, MIN_ORDER)
    requires Tiled(lists, {}, start, addr, maxOrder)
    ensures Tiled(Seed(lists, addr, remaining, maxOrder), {}, start,
                  addr + remaining - remaining % MIN_BLOCK, maxOrder)
    decreases remaining
  {
    hide Tiled, Aligned;
    if remaining >= MIN_BLOCK {
      var order := PickOrder(addr, remaining, maxOrder);
      SeedNeverBreaks(addr, remaining, maxOrder);
      AppendHeld(lists, start, addr, maxOrder, order);
      PushTiles(lists, {}, start, addr + Pow2(order), maxOrder, addr, order);
      SeedTiles(Push(lists, addr, order), start, addr + Pow2(order), remaining - Pow2(order), maxOrder);
      RemainderUnchanged(remaining, order);
    }
  }

  lemma NoBlocksTiled(start: nat, maxOrder: nat)
    requires MIN_ORDER <= maxOrder <= MAX_ORDER
    ensures Tiled(NoBlocks(), {}, start, start, maxOrder)
  {
    assert FreeSet(NoBlocks()) == {};
  }

  lemma InitialInv(start: nat, size: nat)
    requires ValidRange(start, size)
    ensures Inv(Initial(start, size))
  {
    hide Tiled, Seed, Aligned;
    var h := Initial(start, size);
    NoBlocksTiled(start, h.maxOrder);
    SeedTiles(NoBlocks(), start, start, size, h.maxOrder);
    assert LiveSet(h.live) == {};
  }
}
