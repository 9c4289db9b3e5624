/** The first-fit list allocator: what its calls compute, and where every byte of the heap is. */
module ListHeap {
  import opened Wrappers
  import opened Bits

  const NODE_SIZE: nat := 16
  const NODE_ALIGN: nat := 8
  const ISIZE_MAX: nat := 0x7FFF_FFFF_FFFF_FFFF

  datatype Layout = Layout(size: nat, align: nat)

  /** `size` bytes from `start`. */
  datatype Extent = Extent(start: nat, size: nat) {
    function End(): nat { start + size }

    predicate Has(x: int) { start <= x < End() }

    predicate Apart(other: Extent) { End() <= other.start || other.End() <= start }
  }

  /** `adjust_layout`: room and alignment for a list node, unless the rounded size passes the address limit. */
  function AdjustLayout(l: Layout): (r: Option<Layout>)
    ensures r.None? <==> Max(l.size, NODE_SIZE) + Max(l.align, NODE_ALIGN) - 1 > ISIZE_MAX
    ensures r.Some? ==> r.value == Layout(Max(l.size, NODE_SIZE), Max(l.align, NODE_ALIGN))
  {
    var size := if l.size < NODE_SIZE then NODE_SIZE else l.size;
    var align := if l.align < NODE_ALIGN then NODE_ALIGN else l.align;
    if size + (align - 1) > ISIZE_MAX then None else Some(Layout(size, align))
  }

  /** The least multiple of `align` that is not below `addr`. */
  function AlignUp(addr: nat, align: nat): (r: nat)
    requires align > 0
    ensures addr <= r < addr + align && r % align == 0
  {
    Rounded(addr, align);
    (addr + align - 1) / align * align
  }

  lemma Rounded(addr: nat, align: nat)
    requires align > 0
    ensures var r := (addr + align - 1) / align * align; addr <= r < addr + align && r % align == 0
  {
    MultipleModulo((addr + align - 1) / align, align);
  }

  /** A block of `size` bytes at `a`, the first aligned address in the region, fills it or leaves room for a node. */
  predicate Serves(e: Extent, size: nat, align: nat, a: nat)
    requires align > 0
  {
    && e.start <= a < e.start + align && a % align == 0
    && (a + size == e.End() || a + size + NODE_SIZE <= e.End())
  }

  /** `alloc_from_region`: where the block would start, unless it does not fit or leaves a rest too small for a node. */
  function AllocFromRegion(e: Extent, l: Layout): (r: Option<nat>)
    requires l.align > 0
    ensures forall a: nat :: r == Some(a) <==> Serves(e, l.size, l.align, a)
  {
    var start := AlignUp(e.start, l.align);
    FirstAlignedIsUnique(e.start, l.align, start);
    if start + l.size > e.End() then None
    else if 0 < e.End() - (start + l.size) < NODE_SIZE then None
    else Some(start)
  }

  lemma FirstAlignedIsUnique(from: nat, align: nat, a: nat)
    requires align > 0 && from <= a < from + align && a % align == 0
    ensures forall b: nat :: from <= b < from + align && b % align == 0 ==> b == a
  {
    forall b: nat | from <= b < from + align && b % align == 0 ensures b == a {
      var p, q := a / align, b / align;
      assert a == p * align && b == q * align;
      assert (p - q) * align == a - b;
      MultipleBound(p - q, align);
    }
  }

  /** Index of the first region, in list order, that can serve the request; the length of the list if none can. */
  function FirstFit(free: seq<Extent>, l: Layout): (i: nat)
    requires l.align > 0
    ensures i <= |free|
    ensures i < |free| ==> AllocFromRegion(free[i], l).Some?
    ensures forall j :: 0 <= j < i ==> AllocFromRegion(free[j], l).None?
  {
    if free == [] || AllocFromRegion(free[0], l).Some? then 0 else 1 + FirstFit(free[1..], l)
  }

  /** What is left of region `e` behind the block at `start`. */
  function Excess(e: Extent, start: nat, size: nat): seq<Extent>
    requires start + size <= e.End()
  {
    if start + size < e.End() then [Extent(start + size, e.End() - (start + size))] else []
  }

  /** What is lost of region `e` in front of the block at `start`. */
  function Gap(e: Extent, start: nat): set<Extent>
    requires e.start <= start
  {
    if e.start < start then {Extent(e.start, start - e.start)} else {}
  }

  /** Free regions in list order, live blocks by address, and the bytes lost to alignment. */
  datatype Heap = Heap(free: seq<Extent>, live: map<nat, nat>, gaps: set<Extent>)

  function Alloc(h: Heap, layout: Layout): (Option<nat>, Heap) {
    var adjusted := AdjustLayout(layout);
    if adjusted.None? then (None, h)
    else
      var l := adjusted.value;
      var i := FirstFit(h.free, l);
      if i == |h.free| then (None, h)
      else
        var e := h.free[i];
        var start := AllocFromRegion(e, l).value;
        (Some(start), Heap(h.free[..i] + Excess(e, start, l.size) + h.free[i + 1..],
                           h.live[start := l.size], h.gaps + Gap(e, start)))
  }

  /** What `dealloc` demands: a live address with a layout of the same adjusted size. */
  predicate MayFree(h: Heap, ptr: nat, layout: Layout) {
    && ptr in h.live && AdjustLayout(layout).Some?
    && AdjustLayout(layout).value.size == h.live[ptr]
  }

  function Dealloc(h: Heap, ptr: nat, layout: Layout): Heap
    requires MayFree(h, ptr, layout)
  {
    Heap([Extent(ptr, h.live[ptr])] + h.free, h.live - {ptr}, h.gaps)
  }

  // ---------------------------------------------------------------- every byte is in exactly one place

  ghost predicate Covered(parts: set<Extent>, x: int) {
    exists e :: e in parts && e.Has(x)
  }

  /** Nonempty extents that cover `lo .. hi` exactly once. */
  ghost predicate Partition(parts: set<Extent>, lo: nat, hi: nat) {
    && (forall e :: e in parts ==> lo <= e.start && e.End() <= hi && e.size > 0)
    && (forall e, f :: e in parts && f in parts && e != f ==> e.Apart(f))
    && (forall x :: lo <= x < hi ==> Covered(parts, x))
  }

  function FreeSet(free: seq<Extent>): set<Extent> {
    set e | e in free
  }

  function LiveSet(live: map<nat, nat>): set<Extent> {
    set a | a in live :: Extent(a, live[a])
  }

  ghost predicate Distinct(free: seq<Extent>) {
    forall i, j :: 0 <= i < j < |free| ==> free[i] != free[j]
  }

  /** Free regions, live blocks and gaps are different extents and partition the heap. */
  ghost predicate Inv(h: Heap, lo: nat, hi: nat) {
    && Distinct(h.free)
    && FreeSet(h.free) !! LiveSet(h.live) && FreeSet(h.free) !! h.gaps && LiveSet(h.live) !! h.gaps
    && Partition(FreeSet(h.free) + LiveSet(h.live) + h.gaps, lo, hi)
    && (forall e :: e in FreeSet(h.free) ==> e.size >= NODE_SIZE)
    && (forall a :: a in h.live ==> a % NODE_ALIGN == 0 && h.live[a] >= NODE_SIZE)
  }

  /** An extent may be replaced by extents that partition it. */
  lemma ReplaceExtent(parts: set<Extent>, lo: nat, hi: nat, e: Extent, pieces: set<Extent>)
    requires Partition(parts, lo, hi) && e in parts && Partition(pieces, e.start, e.End())
    ensures Partition(parts - {e} + pieces, lo, hi)
    ensures pieces * parts <= {e}
  {
    var after := parts - {e} + pieces;
    forall p | p in pieces && p in parts ensures p == e {
      assert p.Has(p.start) && e.Has(p.start);
      assert p != e ==> p.Apart(e);
    }
    forall p, f | p in pieces && f in parts - {e} ensures p.Apart(f) && f.Apart(p) {
      assert e.Apart(f);
    }
    forall x | lo <= x < hi ensures Covered(after, x) {
      assert Covered(parts, x);
      var f :| f in parts && f.Has(x);
      if f == e {
        assert Covered(pieces, x);
        var p :| p in pieces && p.Has(x);
        assert p in after;
      } else {
        assert f in after;
      }
    }
  }

  /** The pieces of a region that serves a request: gap, block, rest. */
  function Pieces(e: Extent, start: nat, size: nat): set<Extent>
    requires e.start <= start && start + size <= e.End()
  {
    Gap(e, start) + {Extent(start, size)} + FreeSet(Excess(e, start, size))
  }

  lemma PiecesPartition(e: Extent, start: nat, size: nat)
    requires e.start <= start && start + size <= e.End() && size > 0
    ensures Partition(Pieces(e, start, size), e.start, e.End())
  {
    var block := Extent(start, size);
    var pieces := Pieces(e, start, size);
    assert FreeSet(Excess(e, start, size))
        == if start + size < e.End() then {Extent(start + size, e.End() - (start + size))} else {};
    forall x | e.start <= x < e.End() ensures Covered(pieces, x) {
      var p := if x < start then Extent(e.start, start - e.start)
               else if block.Has(x) then block else Extent(start + size, e.End() - (start + size));
      assert p in pieces && p.Has(x);
    }
  }

  lemma ReplacedAt(free: seq<Extent>, i: nat, excess: seq<Extent>, k: nat)
    requires i < |free|
    ensures var after, n := free[..i] + excess + free[i + 1..], |excess|;
            && (k < i ==> after[k] == free[k])
            && (i <= k < i + n ==> after[k] in excess)
            && (i + n <= k < |after| ==> after[k] == free[k - n + 1])
  {
  }

  lemma FreeSetReplace(free: seq<Extent>, i: nat, excess: seq<Extent>)
    requires Distinct(free) && i < |free| && |excess| <= 1
    requires forall e :: e in excess ==> e !in free
    ensures var after := free[..i] + excess + free[i + 1..];
            Distinct(after) && FreeSet(after) == FreeSet(free) - {free[i]} + FreeSet(excess)
  {
    var after, n := free[..i] + excess + free[i + 1..], |excess|;
    forall j, k | 0 <= j < k < |after| ensures after[j] != after[k] {
      ReplacedAt(free, i, excess, j);
      ReplacedAt(free, i, excess, k);
    }
    forall e | e in free && e != free[i] ensures e in after {
      var k :| 0 <= k < |free| && free[k] == e;
      ReplacedAt(free, i, excess, if k < i then k else k + n - 1);
    }
    forall e | e in after ensures e in FreeSet(free) - {free[i]} + FreeSet(excess) {
      var k :| 0 <= k < |after| && after[k] == e;
      ReplacedAt(free, i, excess, k);
    }
    assert forall e :: e in excess ==> e in after;
  }

  lemma LiveSetAdd(live: map<nat, nat>, a: nat, size: nat)
    requires a !in live
    ensures LiveSet(live[a := size]) == LiveSet(live) + {Extent(a, size)}
  {
    var after := live[a := size];
    forall e | e in LiveSet(live) + {Extent(a, size)} ensures e in LiveSet(after) {
      assert e.start in after && after[e.start] == e.size;
    }
  }

  lemma LiveSetRemove(live: map<nat, nat>, a: nat)
    requires a in live
    ensures LiveSet(live - {a}) == LiveSet(live) - {Extent(a, live[a])}
  {
    var after := live - {a};
    forall e | e in LiveSet(live) - {Extent(a, live[a])} ensures e in LiveSet(after) {
      assert e.start in live && e.start != a && e == Extent(e.start, after[e.start]);
    }
  }

  // ---------------------------------------------------------------- the invariant over every run

  lemma ExcessNotFree(parts: set<Extent>, lo: nat, hi: nat, e: Extent, start: nat, size: nat)
    requires Partition(parts, lo, hi) && e in parts && e.start <= start && start + size <= e.End() && size > 0
    ensures forall p :: p in Pieces(e, start, size) && p != e ==> p !in parts
    ensures e in Pieces(e, start, size) ==> Pieces(e, start, size) == {e} && e == Extent(start, size)
  {
    PiecesPartition(e, start, size);
    ReplaceExtent(parts, lo, hi, e, Pieces(e, start, size));
  }

  function Parts(h: Heap): set<Extent> {
    FreeSet(h.free) + LiveSet(h.live) + h.gaps
  }

  lemma StartNotLive(h: Heap, lo: nat, hi: nat, e: Extent, start: nat)
    requires Inv(h, lo, hi) && e in h.free && e.Has(start)
    ensures start !in h.live
  {
    if start in h.live {
      var b := Extent(start, h.live[start]);
      assert b in LiveSet(h.live) && e in FreeSet(h.free);
      LiveElsewhere(h, lo, hi, e, b);
    }
  }

  lemma LiveElsewhere(h: Heap, lo: nat, hi: nat, e: Extent, b: Extent)
    requires Inv(h, lo, hi) && e in FreeSet(h.free) && b in LiveSet(h.live)
    ensures e.Apart(b) && b.size > 0
  {
    assert e in Parts(h) && b in Parts(h);
  }

  /** Region `i` serves a request at `start`: gap, block and rest take its place. */
  lemma ServeKeepsInv(h: Heap, lo: nat, hi: nat, i: nat, start: nat, size: nat)
    requires Inv(h, lo, hi) && i < |h.free| && start % NODE_ALIGN == 0 && size >= NODE_SIZE
    requires h.free[i].start <= start && start + size <= h.free[i].End()
    requires start + size == h.free[i].End() || start + size + NODE_SIZE <= h.free[i].End()
    ensures var e := h.free[i];
            Inv(Heap(h.free[..i] + Excess(e, start, size) + h.free[i + 1..], h.live[start := size],
                     h.gaps + Gap(e, start)), lo, hi)
  {
    hide Partition, Distinct;
    var e := h.free[i];
    var excess, pieces, parts := Excess(e, start, size), Pieces(e, start, size), Parts(h);
    assert e in FreeSet(h.free) && e in parts;
    StartNotLive(h, lo, hi, e, start);
    PiecesPartition(e, start, size);
    ReplaceExtent(parts, lo, hi, e, pieces);
    ExcessNotFree(parts, lo, hi, e, start, size);
    FreeSetReplace(h.free, i, excess);
    LiveSetAdd(h.live, start, size);
    var after := Heap(h.free[..i] + excess + h.free[i + 1..], h.live[start := size], h.gaps + Gap(e, start));
    assert Parts(after) == parts - {e} + pieces;
  }

  lemma NodeAligned(start: nat, align: nat, k: nat)
    requires align == Pow2(k) && start % (if align < NODE_ALIGN then NODE_ALIGN else align) == 0
    ensures start % NODE_ALIGN == 0
  {
    assert Pow2(3) == NODE_ALIGN;
    if k >= 3 {
      Pow2Monotone(3, k);
      AlignedDown(start, 3, k);
    } else {
      Pow2Monotone(k, 3);
    }
  }

  /** Layouts have a power of two as alignment. */
  ghost predicate LayoutOk(l: Layout) {
    exists k :: l.align == Pow2(k)
  }

  lemma AllocKeepsInv(h: Heap, lo: nat, hi: nat, layout: Layout)
    requires Inv(h, lo, hi) && LayoutOk(layout)
    ensures Inv(Alloc(h, layout).1, lo, hi)
    ensures Alloc(h, layout).0.Some? ==> Alloc(h, layout).0.value !in h.live
  {
    hide Inv, AllocFromRegion, FirstFit;
    var adjusted := AdjustLayout(layout);
    if adjusted.Some? && FirstFit(h.free, adjusted.value) < |h.free| {
      var l := adjusted.value;
      var i := FirstFit(h.free, l);
      var start := AllocFromRegion(h.free[i], l).value;
      var k :| layout.align == Pow2(k);
      NodeAligned(start, layout.align, k);
      StartNotLive(h, lo, hi, h.free[i], start);
      ServeKeepsInv(h, lo, hi, i, start, l.size);
    }
  }

  lemma DeallocKeepsInv(h: Heap, lo: nat, hi: nat, ptr: nat, layout: Layout)
    requires Inv(h, lo, hi) && MayFree(h, ptr, layout)
    ensures Inv(Dealloc(h, ptr, layout), lo, hi)
  {
    hide Partition;
    var b, after := Extent(ptr, h.live[ptr]), Dealloc(h, ptr, layout);
    LiveSetRemove(h.live, ptr);
    assert b in LiveSet(h.live) && b !in FreeSet(h.free);
    assert FreeSet(after.free) == FreeSet(h.free) + {b};
    assert Parts(after) == Parts(h);
  }

  function Initial(start: nat, size: nat): Heap {
    Heap([Extent(start, size)], map[], {})
  }

  lemma InitialInv(start: nat, size: nat)
    requires size >= NODE_SIZE
    ensures Inv(Initial(start, size), start, start + size)
  {
    var e, h := Extent(start, size), Initial(start, size);
    assert Parts(h) == {e};
    forall x | start <= x < start + size ensures Covered({e}, x) {
      assert e in {e} && e.Has(x);
    }
  }

  // ---------------------------------------------------------------- runs

  datatype Op = DoAlloc(layout: Layout) | DoFree(ptr: nat, layout: Layout)

  ghost predicate Legal(h: Heap, op: Op) {
    LayoutOk(op.layout) && (op.DoFree? ==> MayFree(h, op.ptr, op.layout))
  }

  ghost function Step(h: Heap, op: Op): Heap
    requires Legal(h, op)
  {
    match op
    case DoAlloc(layout) => Alloc(h, layout).1
    case DoFree(ptr, layout) => Dealloc(h, ptr, layout)
  }

  ghost predicate Runs(h: Heap, ops: seq<Op>)
    decreases |ops|
  {
    ops == [] || (Legal(h, ops[0]) && Runs(Step(h, ops[0]), ops[1..]))
  }

  ghost function After(h: Heap, ops: seq<Op>): Heap
    requires Runs(h, ops)
    decreases |ops|
  {
    if ops == [] then h else After(Step(h, ops[0]), ops[1..])
  }

  /** After every run each byte of the heap is in exactly one free region, live block or alignment gap. */
  lemma {:induction false} RunKeepsInv(h: Heap, lo: nat, hi: nat, ops: seq<Op>)
    requires Inv(h, lo, hi) && Runs(h, ops)
    ensures Inv(After(h, ops), lo, hi)
    decreases |ops|
  {
    hide Inv, Alloc, Dealloc, MayFree;
    if ops != [] {
      match ops[0] {
        case DoAlloc(layout) => AllocKeepsInv(h, lo, hi, layout);
        case DoFree(ptr, layout) => DeallocKeepsInv(h, lo, hi, ptr, layout);
      }
      RunKeepsInv(Step(h, ops[0]), lo, hi, ops[1..]);
    }
  }

  lemma HeapAccounting(start: nat, size: nat, ops: seq<Op>)
    requires size >= NODE_SIZE && Runs(Initial(start, size), ops)
    ensures var h := After(Initial(start, size), ops);
            && Inv(h, start, start + size)
            && Partition(FreeSet(h.free) + LiveSet(h.live) + h.gaps, start, start + size)
  {
    InitialInv(start, size);
    RunKeepsInv(Initial(start, size), start, start + size, ops);
  }

  /** A request is refused exactly when its rounded size passes the address limit or no free region serves it. */
  lemma NullExactly(h: Heap, layout: Layout)
    ensures var size, align := Max(layout.size, NODE_SIZE), Max(layout.align, NODE_ALIGN);
            Alloc(h, layout).0.None? <==>
            size + align - 1 > ISIZE_MAX || forall e, a: nat :: e in h.free ==> !Serves(e, size, align, a)
  {
    hide FirstFit, AllocFromRegion, Serves;
    var adjusted := AdjustLayout(layout);
    if adjusted.Some? {
      var l := adjusted.value;
      var i := FirstFit(h.free, l);
      if i < |h.free| {
        assert Serves(h.free[i], l.size, l.align, AllocFromRegion(h.free[i], l).value);
      }
    }
  }

  /**
   * `i` is the first region that serves the request, at `a`: it gives the block, its place in the list goes to the rest
   * if there is one, the other regions keep their places, and only the bytes in front of the block are lost.
   */
  lemma AllocExactly(h: Heap, layout: Layout, i: nat, a: nat)
    requires i < |h.free|
    requires var size, align := Max(layout.size, NODE_SIZE), Max(layout.align, NODE_ALIGN);
             && size + align - 1 <= ISIZE_MAX && Serves(h.free[i], size, align, a)
             && forall j, b: nat :: 0 <= j < i ==> !Serves(h.free[j], size, align, b)
    ensures var size, e := Max(layout.size, NODE_SIZE), h.free[i];
            var (addr, after) := Alloc(h, layout);
            && addr == Some(a) && after.live == h.live[a := size]
            && |after.free| == (if a + size == e.End() then |h.free| - 1 else |h.free|)
            && (forall j :: 0 <= j < i ==> after.free[j] == h.free[j])
            && (a + size < e.End() ==> after.free[i] == Extent(a + size, e.End() - (a + size)))
            && (forall j :: i < j < |h.free| ==> after.free[j - |h.free| + |after.free|] == h.free[j])
            && (a == e.start ==> after.gaps == h.gaps)
            && (a > e.start ==> after.gaps == h.gaps + {Extent(e.start, a - e.start)})
  {
    hide FirstFit, AllocFromRegion, Serves;
    var l := AdjustLayout(layout).value;
    var k := FirstFit(h.free, l);
    assert AllocFromRegion(h.free[i], l) == Some(a);
    assert k == i;
    assert a + l.size <= h.free[i].End() && h.free[i].start <= a by { ServesInside(h.free[i], l.size, l.align, a); }
  }

  lemma ServesInside(e: Extent, size: nat, align: nat, a: nat)
    requires align > 0 && Serves(e, size, align, a)
    ensures e.start <= a && a + size <= e.End() && a % align == 0
  {
  }

  /**
   * A block given back is found first by the next request of its layout, and nothing else has changed then, if and only
   * if the block is aligned as the request asks.
   */
  lemma ReturnedBlockIsReused(h: Heap, lo: nat, hi: nat, ptr: nat, layout: Layout)
    requires Inv(h, lo, hi) && LayoutOk(layout) && MayFree(h, ptr, layout)
    ensures Alloc(Dealloc(h, ptr, layout), layout) == (Some(ptr), h) <==> ptr % Max(layout.align, NODE_ALIGN) == 0
  {
    hide Inv, AllocFromRegion, FirstFit;
    var l, between := AdjustLayout(layout).value, Dealloc(h, ptr, layout);
    if ptr % l.align == 0 {
      assert Serves(between.free[0], l.size, l.align, ptr);
      AllocExactly(between, layout, 0, ptr);
      var after := Alloc(between, layout).1;
      assert after.free == h.free;
      assert after.live == h.live;
    }
  }

  // ---------------------------------------------------------------- where list nodes are written

  ghost predicate NodesAligned(h: Heap) {
    forall e :: e in h.free ==> e.start % NODE_ALIGN == 0
  }

  /** Serving a request keeps all list nodes aligned exactly when it takes a whole region or a multiple of 8. */
  lemma NodesStayAligned(h: Heap, lo: nat, hi: nat, layout: Layout)
    requires Inv(h, lo, hi) && LayoutOk(layout) && NodesAligned(h) && Alloc(h, layout).0.Some?
    ensures var l := AdjustLayout(layout).value;
            var e := h.free[FirstFit(h.free, l)];
            NodesAligned(Alloc(h, layout).1) <==>
            (Alloc(h, layout).0.value + l.size == e.End() || l.size % NODE_ALIGN == 0)
  {
    hide Inv, FirstFit, AllocFromRegion, Serves, Excess, Pow2;
    var l := AdjustLayout(layout).value;
    var i := FirstFit(h.free, l);
    assert Serves(h.free[i], l.size, l.align, AllocFromRegion(h.free[i], l).value);
    var e, start := h.free[i], AllocFromRegion(h.free[i], l).value;
    var k :| layout.align == Pow2(k);
    ServesInside(e, l.size, l.align, start);
    NodeAligned(start, layout.align, k);
    AlignedRest(h.free, i, start, l.size);
  }

  /** The nodes left when region `i` serves a request at an aligned address. */
  lemma AlignedRest(free: seq<Extent>, i: nat, start: nat, size: nat)
    requires i < |free| && (forall e :: e in free ==> e.start % NODE_ALIGN == 0) && start % NODE_ALIGN == 0
    requires start + size <= free[i].End()
    ensures (forall e :: e in free[..i] + Excess(free[i], start, size) + free[i + 1..] ==> e.start % NODE_ALIGN == 0)
            <==> (start + size == free[i].End() || size % NODE_ALIGN == 0)
  {
    var rest := Excess(free[i], start, size);
    var after := free[..i] + rest + free[i + 1..];
    if start + size < free[i].End() {
      var node := Extent(start + size, free[i].End() - (start + size));
      assert rest == [node] && after[i] == node;
    }
    forall e | e in after && e !in rest ensures e in free {
    }
  }

  /** A request of `s` bytes cannot leave a misaligned rest in a heap of `size` bytes. */
  predicate Harmless(s: nat, size: nat) {
    s <= NODE_SIZE || s % NODE_ALIGN == 0 || s + NODE_SIZE > size
  }

  lemma StepKeepsNodesAligned(h: Heap, lo: nat, hi: nat, op: Op)
    requires Inv(h, lo, hi) && Legal(h, op) && NodesAligned(h) && lo <= hi
    requires op.DoAlloc? ==> Harmless(op.layout.size, hi - lo)
    ensures NodesAligned(Step(h, op))
  {
    hide FirstFit, AllocFromRegion, Partition;
    match op
    case DoAlloc(layout) =>
      if Alloc(h, layout).0.Some? {
        var l := AdjustLayout(layout).value;
        var e := h.free[FirstFit(h.free, l)];
        NodesStayAligned(h, lo, hi, layout);
        InsideHeap(h, lo, hi, e);
      }
    case DoFree(ptr, layout) =>
  }

  lemma InsideHeap(h: Heap, lo: nat, hi: nat, e: Extent)
    requires Inv(h, lo, hi) && e in h.free
    ensures lo <= e.start && e.End() <= hi
  {
    assert e in FreeSet(h.free) + LiveSet(h.live) + h.gaps;
  }

  ghost predicate Requests(ops: seq<Op>, sizes: set<nat>) {
    forall i :: 0 <= i < |ops| && ops[i].DoAlloc? ==> ops[i].layout.size in sizes
  }

  /** After every run whose requests have one of the given sizes all list nodes are aligned. */
  ghost predicate AlwaysNodesAligned(start: nat, size: nat, sizes: set<nat>) {
    forall ops :: Runs(Initial(start, size), ops) && Requests(ops, sizes) ==>
                    NodesAligned(After(Initial(start, size), ops))
  }

  lemma {:induction false} RunKeepsNodesAligned(h: Heap, lo: nat, hi: nat, ops: seq<Op>, sizes: set<nat>)
    requires Inv(h, lo, hi) && lo <= hi && NodesAligned(h) && Runs(h, ops) && Requests(ops, sizes)
    requires forall s :: s in sizes ==> Harmless(s, hi - lo)
    ensures NodesAligned(After(h, ops))
    decreases |ops|
  {
    hide Inv, NodesAligned, Step, Legal, Harmless;
    if ops != [] {
      StepKeepsNodesAligned(h, lo, hi, ops[0]);
      RunKeepsInv(h, lo, hi, ops[..1]);
      assert After(h, ops[..1]) == After(Step(h, ops[0]), ops[..1][1..]) == Step(h, ops[0]);
      RunKeepsNodesAligned(Step(h, ops[0]), lo, hi, ops[1..], sizes);
    }
  }

  /** One request is enough: at the start of a fresh heap, leaving room for a node behind it. */
  lemma HarmfulRequest(start: nat, size: nat, s: nat) returns (ops: seq<Op>)
    requires start % NODE_ALIGN == 0 && size <= ISIZE_MAX && !Harmless(s, size)
    ensures Runs(Initial(start, size), ops) && Requests(ops, {s})
    ensures !NodesAligned(After(Initial(start, size), ops))
  {
    var h, layout := Initial(start, size), Layout(s, 1);
    assert layout.align == Pow2(0);
    ops := [DoAlloc(layout)];
    assert AlignUp(start, NODE_ALIGN) == start;
    assert AllocFromRegion(h.free[0], Layout(s, NODE_ALIGN)) == Some(start);
    var after := Alloc(h, layout).1;
    assert after.free == [Extent(start + s, size - s)];
    assert After(h, ops) == After(Step(h, ops[0]), []) == after;
    assert Extent(start + s, size - s) in after.free;
  }

  lemma InitialNodesAligned(start: nat, size: nat)
    requires start % NODE_ALIGN == 0
    ensures NodesAligned(Initial(start, size))
  {
  }

  /** All list nodes are aligned after all runs if and only if no request is harmful, whatever its alignment is. */
  lemma NodesAlignedExactly(start: nat, size: nat, sizes: set<nat>)
    requires start % NODE_ALIGN == 0 && NODE_SIZE <= size <= ISIZE_MAX
    ensures AlwaysNodesAligned(start, size, sizes) <==> forall s :: s in sizes ==> Harmless(s, size)
  {
    hide NodesAligned, Runs, After, Harmless;
    var h := Initial(start, size);
    if forall s :: s in sizes ==> Harmless(s, size) {
      InitialInv(start, size);
      InitialNodesAligned(start, size);
      forall ops | Runs(h, ops) && Requests(ops, sizes) ensures NodesAligned(After(h, ops)) {
        RunKeepsNodesAligned(h, start, start + size, ops, sizes);
      }
    } else {
      var s :| s in sizes && !Harmless(s, size);
      var ops := HarmfulRequest(start, size, s);
    }
  }
}
