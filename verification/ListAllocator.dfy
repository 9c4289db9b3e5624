/** The list allocator as it runs: nodes in memory at the start of each free region, linked from a head node. */
module ListAllocator {
  import opened Wrappers
  import opened Bits
  import opened ListHeap

  const NULL: nat := 0
  const HALF_SPACE: nat := 0x8000_0000_0000_0000

  datatype ListNode = ListNode(size: nat, next: nat)

  /** Address of region `i` of the list, or null past its end. */
  function Link(free: seq<Extent>, i: nat): nat {
    if i < |free| then free[i].start else NULL
  }

  /** From `first` the nodes in memory describe exactly the regions of `free`, in order. */
  ghost predicate Spells(nodes: map<nat, ListNode>, first: nat, free: seq<Extent>) {
    && first == Link(free, 0)
    && forall i :: 0 <= i < |free| ==>
         free[i].start != NULL && free[i].start in nodes
         && nodes[free[i].start] == ListNode(free[i].size, Link(free, i + 1))
  }

  ghost predicate StartsDistinct(free: seq<Extent>) {
    forall i, j :: 0 <= i < j < |free| ==> free[i].start != free[j].start
  }

  lemma PrependSpells(nodes: map<nat, ListNode>, first: nat, free: seq<Extent>, e: Extent)
    requires Spells(nodes, first, free) && e.start != NULL
    requires forall i :: 0 <= i < |free| ==> free[i].start != e.start
    ensures Spells(nodes[e.start := ListNode(e.size, first)], e.start, [e] + free)
  {
    var longer := [e] + free;
    assert forall i :: 0 <= i < |free| ==> longer[i + 1] == free[i];
  }

  /** Node `i` dropped: its predecessor, or the head, links to its successor. */
  lemma DropSpells(nodes: map<nat, ListNode>, first: nat, free: seq<Extent>, i: nat)
    requires Spells(nodes, first, free) && StartsDistinct(free) && i < |free|
    ensures var less := free[..i] + free[i + 1..];
            if i == 0 then Spells(nodes, Link(free, 1), less)
            else Spells(nodes[free[i - 1].start := ListNode(free[i - 1].size, Link(free, i + 1))], first, less)
  {
    var less := free[..i] + free[i + 1..];
    var after := if i == 0 then nodes
                 else nodes[free[i - 1].start := ListNode(free[i - 1].size, Link(free, i + 1))];
    forall j | 0 <= j < |less|
      ensures less[j].start != NULL && less[j].start in after
              && after[less[j].start] == ListNode(less[j].size, Link(less, j + 1))
    {
      DroppedAt(free, i, j);
      DroppedAt(free, i, j + 1);
    }
    DroppedAt(free, i, 0);
  }

  lemma DroppedAt(free: seq<Extent>, i: nat, j: nat)
    requires i < |free| && j < |free|
    ensures var less, k := free[..i] + free[i + 1..], if j < i then j else j + 1;
            Link(less, j) == Link(free, k) && (j < |less| ==> less[j] == free[k])
  {
  }

  /** Node `i` replaced by a node for `e` with the same successor. */
  lemma ReplaceSpells(nodes: map<nat, ListNode>, first: nat, free: seq<Extent>, i: nat, e: Extent)
    requires Spells(nodes, first, free) && StartsDistinct(free) && i < |free| && e.start != NULL
    requires forall j :: 0 <= j < |free| && j != i ==> free[j].start != e.start
    ensures var with := free[..i] + [e] + free[i + 1..];
            var written := nodes[e.start := ListNode(e.size, Link(free, i + 1))];
            && (i == 0 ==> Spells(written, e.start, with))
            && (i > 0 ==>
                  Spells(written[free[i - 1].start := ListNode(free[i - 1].size, e.start)], first, with))
  {
    var with := free[..i] + [e] + free[i + 1..];
    var written := nodes[e.start := ListNode(e.size, Link(free, i + 1))];
    var after := if i == 0 then written else written[free[i - 1].start := ListNode(free[i - 1].size, e.start)];
    forall j | 0 <= j < |with|
      ensures with[j].start != NULL && with[j].start in after
              && after[with[j].start] == ListNode(with[j].size, Link(with, j + 1))
    {
      assert with[j] == if j == i then e else free[j];
      assert Link(with, j + 1) == if j + 1 == i then e.start else Link(free, j + 1);
    }
  }

  class ListAllocator {
    var headNext: nat
    var initialized: bool
    var nodes: map<nat, ListNode>
    ghost var heap: Heap
    ghost var lo: nat
    ghost var hi: nat

    ghost predicate Valid()
      reads this
    {
      if initialized then Spells(nodes, headNext, heap.free) && Inv(heap, lo, hi) && 0 < lo <= hi <= HALF_SPACE
      else headNext == NULL
    }

    constructor (nodes: map<nat, ListNode>)
      ensures Valid() && !initialized
    {
      headNext, initialized := NULL, false;
      this.nodes := nodes;
      heap, lo, hi := Heap([], map[], {}), 0, 0;
    }

    /** Puts the whole range on the list, or reports the assertion failure and changes nothing. */
    method Init(start: Usize, size: Usize) returns (panicked: bool)
      requires Valid() && !initialized && start > 0 && start + size <= HALF_SPACE
      modifies this
      ensures panicked <==> start % NODE_ALIGN != 0 || size < NODE_SIZE
      ensures panicked ==> unchanged(this)
      ensures !panicked ==> Valid() && initialized && heap == Initial(start, size) && lo == start && hi == start + size
    {
      if start % NODE_ALIGN != 0 || size < NODE_SIZE {
        return true;
      }
      InitialInv(start, size);
      initialized := true;
      heap, lo, hi := Heap([], map[], {}), start, start + size;
      AddFreeRegion(start, size);
      heap := Initial(start, size);
      return false;
    }

    /** Links a region in front of the list; its assertions on alignment and size are preconditions here. */
    method AddFreeRegion(addr: Usize, size: nat)
      requires Spells(nodes, headNext, heap.free)
      requires addr != NULL && addr % NODE_ALIGN == 0 && size >= NODE_SIZE
      requires forall i :: 0 <= i < |heap.free| ==> heap.free[i].start != addr
      modifies `headNext, `nodes
      ensures Spells(nodes, headNext, [Extent(addr, size)] + heap.free)
      ensures forall x :: x in old(nodes) && x != addr ==> x in nodes && nodes[x] == old(nodes[x])
    {
      PrependSpells(nodes, headNext, heap.free, Extent(addr, size));
      nodes := nodes[addr := ListNode(size, headNext)];
      headNext := addr;
    }

    /** Takes the first region in list order that can serve the request, or returns null. */
    method Alloc(layout: Layout) returns (ptr: nat)
      requires Valid() && LayoutOk(layout)
      modifies this
      ensures Valid() && initialized == old(initialized) && lo == old(lo) && hi == old(hi)
      ensures !initialized ==> ptr == NULL && unchanged(this)
      ensures initialized ==>
                var (addr, after) := ListHeap.Alloc(old(heap), layout);
                && heap == after
                && (addr.None? ==> ptr == NULL)
                && (addr.Some? ==> ptr == addr.value && ptr != NULL)
    {
      hide Inv, ListHeap.AllocFromRegion, Spells, FirstFit;
      if !initialized {
        return NULL;
      }
      var adjusted := AdjustLayout(layout);
      if adjusted.None? {
        return NULL;
      }
      var l := adjusted.value;
      AllocKeepsInv(heap, lo, hi, layout);
      var i := 0;
      var prev, current := NULL, headNext;
      SpelledAt(nodes, headNext, heap.free, 0);
      while current != NULL
        invariant unchanged(this)
        invariant i <= |heap.free| && current == Link(heap.free, i)
        invariant prev == (if i > 0 then heap.free[i - 1].start else NULL)
        invariant i + FirstFit(heap.free[i..], l) == FirstFit(heap.free, l)
        decreases |heap.free| - i
      {
        SpelledAt(nodes, headNext, heap.free, i);
        FirstFitStep(heap.free, l, i);
        RegionInHeap(heap, lo, hi, i);
        assert current + l.align - 1 < WORD;  // the sum that `align_up` forms fits in a word
        var region := Extent(current, nodes[current].size);
        var found := ListHeap.AllocFromRegion(region, l);
        if found.Some? {
          var start := found.value;
          Take(l, i, prev, region, start);
          return start;
        }
        prev := current;
        current := nodes[current].next;
        i := i + 1;
        assert heap.free[i..] == heap.free[i - 1..][1..];
      }
      SpelledAt(nodes, headNext, heap.free, i);
      assert heap.free[i..] == [];
      return NULL;
    }

    /** Relinks the list around the block: the rest of the region becomes a node, or the region leaves the list. */
    method Take(l: Layout, ghost i: nat, prev: nat, region: Extent, start: nat)
      requires Spells(nodes, headNext, heap.free) && Inv(heap, lo, hi) && l.align > 0 && l.size > 0
      requires i < |heap.free| && heap.free[i] == region && 0 < lo
      requires prev == (if i > 0 then heap.free[i - 1].start else NULL)
      requires ListHeap.AllocFromRegion(region, l) == Some(start)
      modifies `headNext, `nodes, `heap
      ensures var was := old(heap);
              heap == Heap(was.free[..i] + Excess(region, start, l.size) + was.free[i + 1..],
                           was.live[start := l.size], was.gaps + Gap(region, start))
      ensures Spells(nodes, headNext, heap.free) && start != NULL
    {
      hide Inv, Spells, ListHeap.AllocFromRegion;
      ghost var free := heap.free;
      SpelledAt(nodes, headNext, free, i);
      RegionInHeap(heap, lo, hi, i);
      var blockEnd := start + l.size;
      var excess := region.End() - blockEnd;
      StartsDiffer(heap, lo, hi, i, if excess > 0 then blockEnd else region.start);
      if i > 0 {
        SpelledAt(nodes, headNext, free, i - 1);
      }
      var next := nodes[region.start].next;
      if excess >= NODE_SIZE {
        ghost var e := Extent(blockEnd, excess);
        ReplaceSpells(nodes, headNext, free, i, e);
        nodes := nodes[blockEnd := ListNode(excess, next)];
        if prev == NULL {
          headNext := blockEnd;
        } else {
          nodes := nodes[prev := nodes[prev].(next := blockEnd)];
        }
      } else {
        DropSpells(nodes, headNext, free, i);
        assert free[..i] + [] + free[i + 1..] == free[..i] + free[i + 1..];
        if prev == NULL {
          headNext := next;
        } else {
          nodes := nodes[prev := nodes[prev].(next := next)];
        }
      }
      heap := Heap(free[..i] + Excess(region, start, l.size) + free[i + 1..],
                   heap.live[start := l.size], heap.gaps + Gap(region, start));
    }

    /** Puts the block back in front of the list; the assertions of the list never fail. */
    method Dealloc(ptr: Usize, layout: Layout)
      requires Valid() && LayoutOk(layout)
      requires ptr != NULL ==> initialized && (AdjustLayout(layout).Some? ==> MayFree(heap, ptr, layout))
      modifies this
      ensures Valid() && initialized == old(initialized) && lo == old(lo) && hi == old(hi)
      ensures ptr == NULL || AdjustLayout(layout).None? ==> unchanged(this)
      ensures ptr != NULL && AdjustLayout(layout).Some? ==> heap == ListHeap.Dealloc(old(heap), ptr, layout)
    {
      if ptr == NULL {
        return;
      }
      var adjusted := AdjustLayout(layout);
      if adjusted.None? {
        return;
      }
      DeallocKeepsInv(heap, lo, hi, ptr, layout);
      LiveStartNotFree(heap, lo, hi, ptr);
      AddFreeRegion(ptr, adjusted.value.size);
      heap := ListHeap.Dealloc(heap, ptr, layout);
    }
  }

  lemma SpelledAt(nodes: map<nat, ListNode>, first: nat, free: seq<Extent>, i: nat)
    requires Spells(nodes, first, free) && i <= |free|
    ensures first == Link(free, 0)
    ensures i < |free| ==> free[i].start != NULL && free[i].start in nodes
                           && nodes[free[i].start] == ListNode(free[i].size, Link(free, i + 1))
    ensures Link(free, i) == NULL ==> i == |free|
  {
  }

  lemma FirstFitStep(free: seq<Extent>, l: Layout, i: nat)
    requires l.align > 0 && i < |free|
    ensures FirstFit(free[i..], l) ==
            if ListHeap.AllocFromRegion(free[i], l).Some? then 0 else 1 + FirstFit(free[i + 1..], l)
  {
    assert free[i..][1..] == free[i + 1..];
  }

  lemma FreeApart(h: Heap, lo: nat, hi: nat, i: nat, j: nat)
    requires Inv(h, lo, hi) && i < |h.free| && j < |h.free| && i != j
    ensures h.free[i].Apart(h.free[j]) && h.free[i].size > 0 && h.free[j].size > 0
  {
    assert h.free[i] in FreeSet(h.free) && h.free[j] in FreeSet(h.free);
    assert h.free[i] in Parts(h) && h.free[j] in Parts(h);
  }

  /** No other node starts inside region `i`. */
  lemma StartsDiffer(h: Heap, lo: nat, hi: nat, i: nat, x: nat)
    requires Inv(h, lo, hi) && i < |h.free| && (h.free[i].Has(x) || x == h.free[i].start)
    ensures StartsDistinct(h.free)
    ensures forall j :: 0 <= j < |h.free| && j != i ==> h.free[j].start != x
  {
    hide Inv;
    forall j, k | 0 <= j < k < |h.free| ensures h.free[j].start != h.free[k].start {
      FreeApart(h, lo, hi, j, k);
    }
    forall j | 0 <= j < |h.free| && j != i ensures h.free[j].start != x {
      FreeApart(h, lo, hi, i, j);
    }
  }

  lemma RegionInHeap(h: Heap, lo: nat, hi: nat, i: nat)
    requires Inv(h, lo, hi) && i < |h.free|
    ensures lo <= h.free[i].start && h.free[i].End() <= hi
  {
    assert h.free[i] in Parts(h);
  }

  lemma LiveStartNotFree(h: Heap, lo: nat, hi: nat, ptr: nat)
    requires Inv(h, lo, hi) && ptr in h.live
    ensures forall i :: 0 <= i < |h.free| ==> h.free[i].start != ptr
    ensures ptr % NODE_ALIGN == 0 && h.live[ptr] >= NODE_SIZE
  {
    var b := Extent(ptr, h.live[ptr]);
    assert b in LiveSet(h.live);
    forall i | 0 <= i < |h.free| ensures h.free[i].start != ptr {
      assert h.free[i] in FreeSet(h.free);
      LiveElsewhere(h, lo, hi, h.free[i], b);
    }
  }
}
