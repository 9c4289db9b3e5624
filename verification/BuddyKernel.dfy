/** The kernel's own heap: 100 MiB at an address aligned to 256 KiB, far less than its largest order. */
module BuddyKernel {
  import opened Wrappers
  import opened Bits
  import opened Tiling
  import opened BuddyModel
  import opened BuddyTiling
  import opened BuddyCanonical
  import opened BuddyRuns
  import opened BuddyAlignment
  import opened BuddyExact

  const HEAP_START: nat := 0x4444_4444_0000
  const HEAP_SIZE: nat := 1024 * 1024 * 100

  lemma PowersUsed()
    ensures Pow2(6) == 0x40 && Pow2(18) == 0x4_0000 && Pow2(19) == 0x8_0000
    ensures Pow2(26) == 0x400_0000 && Pow2(27) == 0x800_0000
  {
    assert Pow2(12) == 0x1000;
    Pow2Add(6, 12);
    Pow2Add(12, 12);
    Pow2Add(24, 2);
  }

  lemma KernelRange()
    ensures ValidRange(HEAP_START, HEAP_SIZE) && LargestOrderFor(HEAP_SIZE) == 26
    ensures Aligned(HEAP_START, 18) && !Aligned(HEAP_START, 19) && !AlignedHeap(HEAP_START, HEAP_SIZE)
  {
    hide LargestOrderFor, Pow2;
    PowersUsed();
    var r := LargestOrderFor(HEAP_SIZE);
    if r > 26 {
      Pow2Monotone(27, r);
    } else if r < 26 {
      Pow2Monotone(r + 1, 26);
    }
  }

  /** On the kernel's heap none of the four laws of a fully coalescing allocator holds. */
  lemma KernelHeapIsNotCanonical()
    ensures !AlwaysCanonical(HEAP_START, HEAP_SIZE)
    ensures !HistoryIndependent(HEAP_START, HEAP_SIZE)
    ensures !NullMeansFull(HEAP_START, HEAP_SIZE)
    ensures !AlwaysReverses(HEAP_START, HEAP_SIZE)
  {
    hide AlwaysCanonical, HistoryIndependent, NullMeansFull, AlwaysReverses, AlignedHeap, ValidRange;
    KernelRange();
    CanonicalExactly(HEAP_START, HEAP_SIZE);
    HistoryIndependentExactly(HEAP_START, HEAP_SIZE);
    NullMeansFullExactly(HEAP_START, HEAP_SIZE);
    ReversesExactly(HEAP_START, HEAP_SIZE);
  }

  /** Up to 256 KiB it coalesces completely, and no further: canonical form and independence of the past. */
  lemma KernelCoalesces(a: nat)
    requires MIN_ORDER <= a <= 26
    ensures CanonicalBelow(HEAP_START, HEAP_SIZE, a) <==> a <= 18
    ensures HistoryIndependentBelow(HEAP_START, HEAP_SIZE, a) <==> a <= 18
  {
    hide CanonicalBelow, HistoryIndependentBelow, ValidRange, Aligned;
    KernelRange();
    KernelAligned(a);
    CanonicalBelowExactly(HEAP_START, HEAP_SIZE, a);
    HistoryIndependentBelowExactly(HEAP_START, HEAP_SIZE, a);
  }

  /** A null for up to 256 KiB means that no such region is free; for 512 KiB to 64 MiB it need not. */
  lemma KernelNullMeansFull(k: nat)
    requires MIN_ORDER <= k <= MAX_ORDER
    ensures NullMeansFullAt(HEAP_START, HEAP_SIZE, k) <==> k <= 18 || k > 26
  {
    hide NullMeansFullAt, ValidRange, Aligned;
    KernelRange();
    KernelAligned(k);
    NullMeansFullAtExactly(HEAP_START, HEAP_SIZE, k);
  }

  lemma KernelAligned(a: nat)
    ensures Aligned(HEAP_START, a) <==> a <= 18
  {
    hide Aligned;
    KernelRange();
    if a <= 18 {
      AlignedDown(HEAP_START, a, 18);
    } else if Aligned(HEAP_START, a) {
      AlignedDown(HEAP_START, 19, a);
    }
  }

  /** Alignments up to 256 KiB are always honoured there; larger ones are not, but those over 64 MiB get nothing. */
  lemma KernelAlignment(m: nat)
    ensures AlwaysAligned(HEAP_START, HEAP_SIZE, m) <==> m <= 18 || m > 26
  {
    hide AlwaysAligned, ValidRange, Aligned;
    KernelRange();
    KernelAligned(m);
    AlignedResultsExactly(HEAP_START, HEAP_SIZE, m);
  }

  /** The freshly initialised kernel heap is wholly free, yet a request for 64 MiB fails on it. */
  lemma KernelRefuses64MiB()
    ensures var h := Initial(HEAP_START, HEAP_SIZE);
            && OrderFor(OfOrder(26)) == Some(26)
            && Alloc(h, OfOrder(26)).0 == None
            && h.live == map[] && HasFreeRegion(h, 26)
  {
    hide Seed, FreeSet, OrderFor, Pow2, LargestOrderFor, WhollyFree;
    PowersUsed();
    KernelRange();
    var h := Initial(HEAP_START, HEAP_SIZE);
    OrderOfLayout(26);
    InitialInv(HEAP_START, HEAP_SIZE);
    NoLargestSeed(h);
    AllocFailsByOrder(h, OfOrder(26), 26);
    EmptyHeapRegion(h, 26);
  }

  lemma SeedBounds(h: Heap, b: Block)
    requires h == Initial(HEAP_START, HEAP_SIZE) && Inv(h) && h.maxOrder == 26 && b in FreeSet(h.lists)
    ensures Aligned(b.addr, Min(b.order, 26)) && HEAP_START <= b.addr && b.End() <= HEAP_START + HEAP_SIZE
  {
    hide Seed, LargestOrderFor, Aligned, Pow2;
    InitialAligned(HEAP_START, HEAP_SIZE, 26);
    assert b in FreeSet(h.lists) + LiveSet(h.live);
  }

  lemma NoLargestSeed(h: Heap)
    requires h == Initial(HEAP_START, HEAP_SIZE) && Inv(h) && h.maxOrder == 26
    ensures h.lists[26] == []
  {
    hide Seed, FreeSet, LargestOrderFor, Pow2, Inv;
    PowersUsed();
    if h.lists[26] != [] {
      var b := Block(h.lists[26][0], 26);
      FreeSetMember(h.lists, b);
      SeedBounds(h, b);
    }
  }
}
