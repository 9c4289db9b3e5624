/** The buddy allocator as functions on sequences: what each method of the allocator computes. */
module BuddyModel {
  import opened Wrappers
  import opened Bits
  import opened Tiling

  const MIN_ORDER: nat := 6
  const MAX_ORDER: nat := 30
  const MIN_BLOCK: nat := 64
  const NODE_SIZE: nat := 8

  /** The size and alignment of an allocation request. */
  datatype Layout = Layout(size: nat, align: nat)

  /** `lists[k]` is the free list of order k, head first; orders below MIN_ORDER stay empty. */
  type FreeLists = s: seq<seq<nat>> | |s| == MAX_ORDER + 1
    witness seq(MAX_ORDER + 1, _ => [])

  type Order = k: nat | k <= MAX_ORDER

  /** `live` maps the address of every block handed out and not yet returned to its order. */
  datatype Heap = Heap(start: nat, size: nat, maxOrder: Order, lists: FreeLists, live: map<nat, nat>) {
    /** End of the range that `Initial` seeds: a final remainder below 64 bytes is not used. */
    function End(): nat { start + size - size % MIN_BLOCK }
  }

  // ---------------------------------------------------------------- orders

  /** The largest order from MIN_ORDER to MAX_ORDER whose block fits in `size`, MIN_ORDER if none does. */
  function LargestOrderFor(size: nat): (r: Order)
    ensures IsLargestOrder(size, r)
  {
    LargestFrom(MIN_ORDER, size)
  }

  predicate IsLargestOrder(size: nat, r: nat) {
    && MIN_ORDER <= r <= MAX_ORDER
    && (r > MIN_ORDER ==> Pow2(r) <= size)
    && (r < MAX_ORDER ==> size < Pow2(r + 1))
  }

  function LargestFrom(order: nat, size: nat): (r: Order)
    requires MIN_ORDER <= order <= MAX_ORDER
    requires order > MIN_ORDER ==> Pow2(order) <= size
    ensures order <= r && IsLargestOrder(size, r)
    decreases MAX_ORDER - order
  {
    if order < MAX_ORDER && Pow2(order + 1) <= size then LargestFrom(order + 1, size) else order
  }

  lemma LargestOrderIsUnique(size: nat, r: nat)
    requires IsLargestOrder(size, r)
    ensures r == LargestOrderFor(size)
  {
    hide LargestOrderFor;
    var s := LargestOrderFor(size);
    if r < s {
      Pow2Monotone(r + 1, s);
    } else if s < r {
      Pow2Monotone(s + 1, r);
    }
  }

  /** The least order whose block holds `size` bytes and a list node. */
  function OrderForSize(size: nat): (r: Option<nat>)
    ensures IsLeastOrder(Max(size, NODE_SIZE), r)
  {
    OrderFrom(MIN_ORDER, Max(size, NODE_SIZE))
  }

  predicate IsLeastOrder(bytes: nat, r: Option<nat>) {
    match r
    case None => bytes > Pow2(MAX_ORDER)
    case Some(k) =>
      MIN_ORDER <= k <= MAX_ORDER && bytes <= Pow2(k) && (k > MIN_ORDER ==> Pow2(k - 1) < bytes)
  }

  function OrderFrom(order: nat, bytes: nat): (r: Option<nat>)
    requires MIN_ORDER <= order <= MAX_ORDER
    requires order > MIN_ORDER ==> Pow2(order - 1) < bytes
    ensures IsLeastOrder(bytes, r)
    decreases MAX_ORDER - order
  {
    if Pow2(order) >= bytes then Some(order)
    else if order == MAX_ORDER then None
    else OrderFrom(order + 1, bytes)
  }

  lemma LeastOrderIsUnique(size: nat, r: Option<nat>)
    requires IsLeastOrder(Max(size, NODE_SIZE), r)
    ensures r == OrderForSize(size)
  {
    hide OrderForSize, Pow2;
    var s := OrderForSize(size);
    match (r, s)
    case (Some(j), Some(k)) =>
      if j < k {
        Pow2Monotone(j, k - 1);
      } else if k < j {
        Pow2Monotone(k, j - 1);
      }
    case (Some(j), None) => Pow2Monotone(j, MAX_ORDER);
    case (None, Some(k)) => Pow2Monotone(k, MAX_ORDER);
    case (None, None) =>
  }

  /** How many bytes a block must have to serve a request. */
  function Bytes(layout: Layout): nat {
    Max(layout.size, layout.align)
  }

  /** `k` is the least order of a block for the request. */
  predicate Needs(layout: Layout, k: nat) {
    MIN_ORDER <= k <= MAX_ORDER && Bytes(layout) <= Pow2(k) && (k > MIN_ORDER ==> Pow2(k - 1) < Bytes(layout))
  }

  function OrderFor(layout: Layout): (r: Option<nat>)
    ensures r.None? <==> Bytes(layout) > Pow2(MAX_ORDER)
    ensures forall k: nat :: r == Some(k) <==> Needs(layout, k)
  {
    OrderIsNeeded(layout);
    OrderForSize(Max(layout.size, layout.align))
  }

  lemma OrderIsNeeded(layout: Layout)
    ensures var r := OrderForSize(Bytes(layout));
            (r.None? <==> Bytes(layout) > Pow2(MAX_ORDER)) && forall k: nat :: r == Some(k) <==> Needs(layout, k)
  {
    hide OrderForSize, Pow2;
    SmallestBlock();
    Pow2Monotone(MIN_ORDER, MAX_ORDER);
    var r := OrderForSize(Bytes(layout));
    if r.Some? {
      Pow2Monotone(r.value, MAX_ORDER);
      if r.value > MIN_ORDER {
        Pow2Monotone(MIN_ORDER, r.value - 1);
      }
    }
    forall k: nat ensures r == Some(k) <==> Needs(layout, k) {
      if Needs(layout, k) {
        if k > MIN_ORDER {
          Pow2Monotone(MIN_ORDER, k - 1);
        }
        LeastOrderIsUnique(Bytes(layout), Some(k));
      }
    }
  }

  lemma SmallestBlock()
    ensures Pow2(MIN_ORDER) == MIN_BLOCK
  {
  }

  // ---------------------------------------------------------------- free lists

  function NoBlocks(): FreeLists {
    seq(MAX_ORDER + 1, _ => [])
  }

  function Push(lists: FreeLists, addr: nat, order: nat): FreeLists
    requires order <= MAX_ORDER
  {
    lists[order := [addr] + lists[order]]
  }

  /** `s` without the first occurrence of `x`. */
  function Without(s: seq<nat>, x: nat): seq<nat> {
    if s == [] then []
    else if s[0] == x then s[1..]
    else [s[0]] + Without(s[1..], x)
  }

  // ---------------------------------------------------------------- seeding

  /** The inner loop of `init`: the largest order up to `order` that fits and is aligned at `addr`. */
  function PickOrder(addr: nat, remaining: nat, order: nat): (r: nat)
    requires order >= MIN_ORDER
    ensures MIN_ORDER <= r <= order
    ensures r > MIN_ORDER ==> Pow2(r) <= remaining && Aligned(addr, r)
    ensures forall k :: r < k <= order ==> !(Pow2(k) <= remaining && Aligned(addr, k))
  {
    if order > MIN_ORDER && !(Pow2(order) <= remaining && Aligned(addr, order))
    then PickOrder(addr, remaining, order - 1)
    else order
  }

  /** The outer loop of `init`: carve blocks out of `remaining` bytes at `addr` and push each. */
  function Seed(lists: FreeLists, addr: nat, remaining: nat, maxOrder: nat): FreeLists
    requires MIN_ORDER <= maxOrder <= MAX_ORDER
    decreases remaining
  {
    if remaining < MIN_BLOCK then lists
    else
      var order := PickOrder(addr, remaining, maxOrder);
      if Pow2(order) > remaining || !Aligned(addr, order) then lists
      else Seed(Push(lists, addr, order), addr + Pow2(order), remaining - Pow2(order), maxOrder)
  }

  /** What `init` accepts: a 64-aligned start that is not the null page, and at least one block. */
  predicate ValidRange(start: nat, size: nat) {
    start > 0 && Aligned(start, MIN_ORDER) && size >= MIN_BLOCK
  }

  function Initial(start: nat, size: nat): Heap {
    var maxOrder := LargestOrderFor(size);
    Heap(start, size, maxOrder, Seed(NoBlocks(), start, size, maxOrder), map[])
  }

  // ---------------------------------------------------------------- allocation

  /** `allocate_order`: the block it takes, if any, and the free lists it leaves. */
  function AllocateOrder(lists: FreeLists, maxOrder: nat, order: nat): (Option<nat>, FreeLists)
    requires maxOrder <= MAX_ORDER
    decreases maxOrder + 1 - order
  {
    if order > maxOrder then (None, lists)
    else if lists[order] != [] then (Some(lists[order][0]), lists[order := lists[order][1..]])
    else
      var (addr, rest) := AllocateOrder(lists, maxOrder, order + 1);
      if addr.None? then (None, rest)
      else (addr, Push(rest, addr.value + Pow2(order), order))
  }

  function Alloc(h: Heap, layout: Layout): (Option<nat>, Heap)
  {
    var order := OrderFor(layout);
    if order.None? then (None, h)
    else
      var (addr, lists) := AllocateOrder(h.lists, h.maxOrder, order.value);
      if addr.None? then (None, h.(lists := lists))
      else (addr, h.(lists := lists, live := h.live[addr.value := order.value]))
  }

  // ---------------------------------------------------------------- release

  /** `buddy_of`: toggle bit `order` of the offset from the heap start. */
  function Buddy(start: nat, addr: nat, order: nat): nat
    requires addr >= start
  {
    start + Xor(addr - start, Pow2(order))
  }

  /** Bit `order` of the offset of `addr` is clear. */
  predicate IsLower(start: nat, addr: nat, order: nat) {
    ((addr - start) / Pow2(order)) % 2 == 0
  }

  /** A buddy is a neighbour at distance 2^order, whatever the alignment of the heap. */
  lemma BuddyIsNeighbour(start: nat, addr: nat, order: nat)
    requires addr >= start
    ensures Buddy(start, addr, order) ==
            if IsLower(start, addr, order) then addr + Pow2(order) else addr - Pow2(order)
  {
    XorTogglesBit(addr - start, order);
  }

  /** The merge loop of `dealloc` followed by its push. */
  function Release(lists: FreeLists, start: nat, maxOrder: nat, addr: nat, order: nat): FreeLists
    requires maxOrder <= MAX_ORDER && order <= MAX_ORDER && addr >= start
    decreases maxOrder - order
  {
    if order < maxOrder && Buddy(start, addr, order) in lists[order] then
      var buddy := Buddy(start, addr, order);
      Release(lists[order := Without(lists[order], buddy)], start, maxOrder, Min(addr, buddy), order + 1)
    else Push(lists, addr, order)
  }

  /** What `dealloc` demands: `ptr` is live and `layout` has the order it was handed out with. */
  predicate MayFree(h: Heap, ptr: nat, layout: Layout) {
    h.start <= ptr && ptr in h.live && OrderFor(layout) == Some(h.live[ptr])
  }

  function Dealloc(h: Heap, ptr: nat, layout: Layout): Heap
    requires MayFree(h, ptr, layout)
  {
    h.(lists := Release(h.lists, h.start, h.maxOrder, ptr, OrderFor(layout).value), live := h.live - {ptr})
  }
}
