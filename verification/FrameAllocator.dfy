/** The physical frame allocator: a walk over the boot memory map, one 4 KiB frame at a time. */
module FrameAllocator {
  import opened Wrappers

  const FRAME_SIZE: nat := 4096
  const PHYSICAL_LIMIT: nat := 0x10_0000_0000_0000

  datatype Region = Region(base: Usize, length: Usize, usable: bool) {
    /** The end of the region does not fit in a machine word. */
    predicate Overflows() { base + length >= WORD }

    predicate Has(x: int) { base <= x < base + length }
  }

  /** Usable regions whose end fits in a word lie in the physical address space of the machine. */
  ghost predicate MapOk(m: seq<Region>) {
    forall i :: 0 <= i < |m| && m[i].usable ==>
      m[i].base <= PHYSICAL_LIMIT && (!m[i].Overflows() ==> m[i].base + m[i].length <= PHYSICAL_LIMIT)
  }

  /** `(value + 4095) & !4095`. */
  function AlignUp(value: nat): (r: nat)
    ensures r % FRAME_SIZE == 0 && value <= r < value + FRAME_SIZE
  {
    (value + FRAME_SIZE - 1) / FRAME_SIZE * FRAME_SIZE
  }

  function AlignDown(value: nat): (r: nat)
    ensures r % FRAME_SIZE == 0 && r <= value < r + FRAME_SIZE
  {
    value / FRAME_SIZE * FRAME_SIZE
  }

  /** The bit operations of the source on the words it uses them on. */
  lemma MaskIsRounding(x: bv64)
    requires x <= 0x10_0000_0000_0FFF
    ensures x & !0xFFF == x / 4096 * 4096
  {
  }

  /** Every frame from `first`, which is one, up to `end`. */
  function Span(first: nat, end: nat): (frames: seq<nat>)
    ensures first % FRAME_SIZE == 0 ==> forall f :: f in frames <==> first <= f < end && f % FRAME_SIZE == 0
    ensures forall i :: 0 <= i < |frames| ==> frames[i] == first + i * FRAME_SIZE
    decreases end - first
  {
    if first < end then [first] + Span(first + FRAME_SIZE, end) else []
  }

  /** The whole frames inside a region, in ascending order. */
  function WholeFrames(r: Region): seq<nat> {
    Span(AlignUp(r.base), AlignDown(r.base + r.length))
  }

  /** What the allocator has still to hand out when it stands at region `i` with `next` (0: not started). */
  function Rest(m: seq<Region>, i: nat, next: nat): seq<nat>
    decreases |m| - i
  {
    if i >= |m| then []
    else if !m[i].usable then Rest(m, i + 1, 0)
    else if m[i].Overflows() then []
    else
      Span(if next == 0 then AlignUp(m[i].base) else next, AlignDown(m[i].base + m[i].length)) + Rest(m, i + 1, 0)
  }

  /** The frames handed out in all, in map order: none from the first usable region that overflows on. */
  function Frames(m: seq<Region>): seq<nat> {
    Rest(m, 0, 0)
  }

  function UsableMemory(m: seq<Region>): nat {
    if m == [] then 0 else (if m[0].usable then m[0].length else 0) + UsableMemory(m[1..])
  }

  class BootInfoFrameAllocator {
    const memoryMap: seq<Region>
    var currentRegion: nat
    var nextFrame: Usize

    ghost predicate Valid()
      reads this
    {
      && MapOk(memoryMap)
      && currentRegion <= |memoryMap|
      && nextFrame % FRAME_SIZE == 0 && nextFrame <= PHYSICAL_LIMIT
      && (nextFrame != 0 ==> currentRegion < |memoryMap| && memoryMap[currentRegion].usable)
    }

    /** The frames not handed out yet, in order. */
    ghost function Pending(): seq<nat>
      reads this
    {
      Rest(memoryMap, currentRegion, nextFrame)
    }

    constructor (memoryMap: seq<Region>)
      requires MapOk(memoryMap)
      ensures Valid() && this.memoryMap == memoryMap && Pending() == Frames(memoryMap)
    {
      this.memoryMap := memoryMap;
      currentRegion, nextFrame := 0, 0;
    }

    /** `usable_memory`: the lengths of the usable regions, summed in map order. */
    method UsableBytes() returns (total: nat)
      ensures total == UsableMemory(memoryMap)
    {
      total := 0;
      for i := 0 to |memoryMap|
        invariant total + UsableMemory(memoryMap[i..]) == UsableMemory(memoryMap)
      {
        assert memoryMap[i..][1..] == memoryMap[i + 1..];
        if memoryMap[i].usable {
          total := total + memoryMap[i].length;
        }
      }
    }

    method NextUsableRegion() returns (region: Option<Region>)
      requires Valid()
      modifies this
      ensures Valid() && Pending() == old(Pending())
      ensures region == if currentRegion < |memoryMap| then Some(memoryMap[currentRegion]) else None
      ensures region.Some? ==> region.value.usable
      ensures old(currentRegion) <= currentRegion
    {
      while currentRegion < |memoryMap|
        invariant Valid() && Pending() == old(Pending()) && old(currentRegion) <= currentRegion
        decreases |memoryMap| - currentRegion
      {
        var r := memoryMap[currentRegion];
        if r.usable {
          return Some(r);
        }
        currentRegion := currentRegion + 1;
        nextFrame := 0;
      }
      return None;
    }

    /** Hands out the first pending frame; once none is pending, every call returns none. */
    method AllocateFrame() returns (frame: Option<nat>)
      requires Valid()
      modifies this
      ensures Valid()
      ensures frame.None? <==> old(Pending()) == []
      ensures frame.None? ==> Pending() == []
      ensures frame.Some? ==> old(Pending()) == [frame.value] + Pending()
    {
      while true
        invariant Valid() && Pending() == old(Pending())
        decreases |memoryMap| - currentRegion
      {
        var region := NextUsableRegion();
        if region.None? {
          return None;
        }
        var r := region.value;
        var start: Usize := AlignUp(r.base);
        if r.Overflows() {
          return None;
        }
        var end: Usize := AlignDown(r.base + r.length);
        if nextFrame == 0 {
          nextFrame := start;
        }
        if nextFrame < end {
          var f := nextFrame;
          nextFrame := nextFrame + FRAME_SIZE;
          return Some(f);
        }
        currentRegion := currentRegion + 1;
        nextFrame := 0;
      }
    }
  }

  // ---------------------------------------------------------------- the whole run

  /** Asks for `n` frames: they are the first `n` of the map, then none. */
  method Take(a: BootInfoFrameAllocator, n: nat) returns (frames: seq<nat>)
    requires a.Valid()
    modifies a
    ensures a.Valid()
    ensures frames == if n <= |old(a.Pending())| then old(a.Pending())[..n] else old(a.Pending())
    ensures a.Pending() == old(a.Pending())[|frames|..]
  {
    frames := [];
    for i := 0 to n
      invariant a.Valid() && frames + a.Pending() == old(a.Pending())
      invariant |frames| == i || (|frames| < i && a.Pending() == [])
    {
      var f := a.AllocateFrame();
      if f.Some? {
        frames := frames + [f.value];
      }
    }
  }

  ghost predicate NoOverflow(m: seq<Region>) {
    forall i :: 0 <= i < |m| && m[i].usable ==> !m[i].Overflows()
  }

  /** `f` is a whole frame inside the region. */
  predicate FrameOf(r: Region, f: nat) {
    f % FRAME_SIZE == 0 && r.base <= f && f + FRAME_SIZE <= r.base + r.length
  }

  /** `f` is a whole frame inside a usable region. */
  ghost predicate UsableFrame(m: seq<Region>, f: nat) {
    exists i :: 0 <= i < |m| && m[i].usable && FrameOf(m[i], f)
  }

  lemma FrameInRegion(r: Region, f: nat)
    ensures f in WholeFrames(r) <==> FrameOf(r, f)
  {
  }

  lemma {:induction false} RestIsUsableFrames(m: seq<Region>, i: nat, f: nat)
    requires NoOverflow(m) && i <= |m|
    ensures f in Rest(m, i, 0) <==> UsableFrame(m[i..], f)
    decreases |m| - i
  {
    if i < |m| {
      RestIsUsableFrames(m, i + 1, f);
      FrameInRegion(m[i], f);
      UsableFrameSplits(m[i..], f);
      assert m[i..][1..] == m[i + 1..];
    }
  }

  lemma UsableFrameSplits(m: seq<Region>, f: nat)
    requires m != []
    ensures UsableFrame(m, f) <==> (m[0].usable && f in WholeFrames(m[0])) || UsableFrame(m[1..], f)
  {
    FrameInRegion(m[0], f);
    if UsableFrame(m[1..], f) {
      var i :| 0 <= i < |m[1..]| && m[1..][i].usable && FrameOf(m[1..][i], f);
      assert m[i + 1] == m[1..][i];
    }
    if UsableFrame(m, f) {
      var i :| 0 <= i < |m| && m[i].usable && FrameOf(m[i], f);
      assert i > 0 ==> m[1..][i - 1] == m[i];
    }
  }

  /** A usable region that overflows ends the walk: it and all later regions give no frame. */
  lemma {:induction false} OverflowEndsWalk(m: seq<Region>, i: nat, k: nat)
    requires i <= k < |m| && m[k].usable && m[k].Overflows()
    ensures Rest(m, i, 0) == Rest(m[..k], i, 0)
    decreases k - i
  {
    if i < k {
      OverflowEndsWalk(m, i + 1, k);
    }
  }

  lemma {:induction false} RestInRegions(m: seq<Region>, i: nat, f: nat)
    requires f in Rest(m, i, 0) && i <= |m|
    ensures exists k :: i <= k < |m| && m[k].usable && FrameOf(m[k], f)
    decreases |m| - i
  {
    if m[i].usable && f in WholeFrames(m[i]) {
      FrameInRegion(m[i], f);
    } else {
      RestInRegions(m, i + 1, f);
    }
  }

  /** The walk hands out the frames of the regions in front of the first usable one that overflows. */
  lemma WalkedPart(m: seq<Region>) returns (k: nat)
    ensures k <= |m| && NoOverflow(m[..k]) && Frames(m) == Rest(m[..k], 0, 0)
    ensures k < |m| ==> m[k].usable && m[k].Overflows()
    ensures forall i :: 0 <= i < k && m[i].usable ==> !m[i].Overflows()
  {
    k := 0;
    while k < |m| && !(m[k].usable && m[k].Overflows())
      invariant k <= |m| && forall i :: 0 <= i < k && m[i].usable ==> !m[i].Overflows()
    {
      k := k + 1;
    }
    if k < |m| {
      OverflowEndsWalk(m, 0, k);
    } else {
      assert m[..k] == m;
    }
  }

  /** The region has a whole frame below the end of physical memory. */
  predicate HoldsFrame(r: Region) {
    AlignUp(r.base) + FRAME_SIZE <= Min(r.base + r.length, PHYSICAL_LIMIT)
  }

  /** A usable region with a frame, at or behind a usable one that overflows. */
  predicate Lost(m: seq<Region>, i: nat, j: nat)
    requires i <= j < |m|
  {
    m[i].usable && m[i].Overflows() && m[j].usable && HoldsFrame(m[j])
  }

  ghost predicate NothingLost(m: seq<Region>) {
    forall i, j :: 0 <= i <= j < |m| ==> !Lost(m, i, j)
  }

  lemma FrameIsHeld(r: Region, f: nat)
    requires FrameOf(r, f) && f < PHYSICAL_LIMIT
    ensures HoldsFrame(r)
  {
    assert AlignUp(r.base) <= f;
  }

  lemma HeldFrame(r: Region)
    requires HoldsFrame(r)
    ensures FrameOf(r, AlignUp(r.base)) && AlignUp(r.base) < PHYSICAL_LIMIT
  {
  }

  /**
   * Of disjoint usable regions the frames handed out are exactly the whole frames of physical memory inside, if and
   * only if neither a usable region that overflows nor a usable one behind it holds such a frame.
   */
  lemma FramesExactly(m: seq<Region>)
    requires MapOk(m) && UsableDisjoint(m)
    ensures (forall f: nat :: f in Frames(m) <==> UsableFrame(m, f) && f < PHYSICAL_LIMIT) <==> NothingLost(m)
  {
    hide AlignUp, HoldsFrame, FrameOf;
    if NothingLost(m) {
      forall f: nat ensures f in Frames(m) <==> UsableFrame(m, f) && f < PHYSICAL_LIMIT {
        FramesIfNothingLost(m, f);
      }
    } else {
      var i, j :| 0 <= i <= j < |m| && Lost(m, i, j);
      HeldFrame(m[j]);
      NeverHandedOut(m, i, j, AlignUp(m[j].base));
    }
  }

  lemma LostRegion(m: seq<Region>, i: nat, j: nat)
    requires i <= j < |m| && m[i].usable && m[i].Overflows() && m[j].usable && HoldsFrame(m[j])
    ensures !NothingLost(m)
  {
    assert Lost(m, i, j);
  }

  lemma FramesIfNothingLost(m: seq<Region>, f: nat)
    requires MapOk(m) && NothingLost(m)
    ensures f in Frames(m) <==> UsableFrame(m, f) && f < PHYSICAL_LIMIT
  {
    hide HoldsFrame, Rest, AlignUp, NothingLost;
    var k := WalkedPart(m);
    RestIsUsableFrames(m[..k], 0, f);
    assert m[..k][0..] == m[..k];
    if UsableFrame(m, f) && f < PHYSICAL_LIMIT {
      var j :| 0 <= j < |m| && m[j].usable && FrameOf(m[j], f);
      FrameIsHeld(m[j], f);
      if j >= k {
        LostRegion(m, k, j);
      }
      assert m[..k][j] == m[j];
    }
    if UsableFrame(m[..k], f) {
      var j :| 0 <= j < k && m[..k][j].usable && FrameOf(m[..k][j], f);
      assert m[j] == m[..k][j];
    }
  }

  lemma NeverHandedOut(m: seq<Region>, i: nat, j: nat, f: nat)
    requires UsableDisjoint(m) && i <= j < |m| && m[i].usable && m[i].Overflows() && m[j].usable && FrameOf(m[j], f)
    ensures f !in Frames(m)
  {
    var k := WalkedPart(m);
    if f in Frames(m) {
      RestInRegions(m[..k], 0, f);
    }
  }

  ghost predicate UsableDisjoint(m: seq<Region>) {
    forall i, j :: 0 <= i < j < |m| && m[i].usable && m[j].usable ==>
      m[i].base + m[i].length <= m[j].base || m[j].base + m[j].length <= m[i].base
  }

  ghost predicate Distinct(s: seq<nat>) {
    forall i, j :: 0 <= i < j < |s| ==> s[i] != s[j]
  }

  /** Disjoint usable regions: no frame is handed out twice. */
  lemma FramesDistinct(m: seq<Region>, i: nat)
    requires UsableDisjoint(m) && i <= |m|
    ensures Distinct(Rest(m, i, 0))
  {
    hide Rest;
    forall a, b | 0 <= a < b < |Rest(m, i, 0)| ensures Rest(m, i, 0)[a] != Rest(m, i, 0)[b] {
      var j, k := FramesInMapOrder(m, i, a, b);
    }
  }

  lemma {:induction false} SpanLength(first: nat, end: nat)
    requires first % FRAME_SIZE == 0 && end % FRAME_SIZE == 0
    ensures |Span(first, end)| * FRAME_SIZE == if first <= end then end - first else 0
    decreases end - first
  {
    if first < end {
      SpanLength(first + FRAME_SIZE, end);
    }
  }

  /** No more frames than usable memory has room for. */
  lemma {:induction false} FramesFitMemory(m: seq<Region>, i: nat)
    requires i <= |m|
    ensures |Rest(m, i, 0)| * FRAME_SIZE <= UsableMemory(m[i..])
    decreases |m| - i
  {
    if i < |m| {
      FramesFitMemory(m, i + 1);
      assert m[i..][1..] == m[i + 1..];
      SpanLength(AlignUp(m[i].base), AlignDown(m[i].base + m[i].length));
    }
  }

  /**
   * Frames come in map order, and in ascending order inside a region: of two frames the one handed out first lies in an
   * earlier usable region, or in the same one at a lower address.
   */
  lemma {:induction false} FramesInMapOrder(m: seq<Region>, i: nat, a: nat, b: nat) returns (j: nat, k: nat)
    requires i <= |m| && a < b < |Rest(m, i, 0)|
    ensures i <= j <= k < |m| && m[j].usable && m[k].usable
    ensures FrameOf(m[j], Rest(m, i, 0)[a]) && FrameOf(m[k], Rest(m, i, 0)[b])
    ensures j == k ==> Rest(m, i, 0)[a] < Rest(m, i, 0)[b]
    decreases |m| - i
  {
    hide Rest, FrameOf, Span;
    RestSplits(m, i);
    var here := if m[i].usable then WholeFrames(m[i]) else [];
    if b < |here| {
      j, k := i, i;
      assert here[a] in here && here[b] in here;
      FrameInRegion(m[i], here[a]);
      FrameInRegion(m[i], here[b]);
      assert here[a] < here[b] by { Ascending(m[i], a, b); }
    } else if a < |here| {
      assert here[a] in here;
      FrameInRegion(m[i], here[a]);
      var later := Rest(m, i + 1, 0);
      assert later[b - |here|] in later;
      RestInRegions(m, i + 1, later[b - |here|]);
      j := i;
      k :| i + 1 <= k < |m| && m[k].usable && FrameOf(m[k], later[b - |here|]);
    } else {
      j, k := FramesInMapOrder(m, i + 1, a - |here|, b - |here|);
    }
  }

  lemma RestSplits(m: seq<Region>, i: nat)
    requires i <= |m| && Rest(m, i, 0) != []
    ensures i < |m|
    ensures Rest(m, i, 0) == (if m[i].usable then WholeFrames(m[i]) else []) + Rest(m, i + 1, 0)
  {
  }

  lemma Ascending(r: Region, a: nat, b: nat)
    requires a < b < |WholeFrames(r)|
    ensures WholeFrames(r)[a] < WholeFrames(r)[b]
  {
    hide Span;
  }

  // ---------------------------------------------------------------- usable memory

  ghost predicate UsableByte(m: seq<Region>, x: int) {
    exists i :: 0 <= i < |m| && m[i].usable && m[i].Has(x)
  }

  /** The bytes of usable regions. */
  ghost function UsableBytes(m: seq<Region>): set<int> {
    set x | 0 <= x < 2 * WORD && UsableByte(m, x)
  }

  ghost function Interval(lo: int, hi: int): (r: set<int>)
    requires lo <= hi
    ensures forall x :: x in r <==> lo <= x < hi
    ensures |r| == hi - lo
    decreases hi - lo
  {
    if lo < hi then Interval(lo, hi - 1) + {hi - 1} else {}
  }

  lemma UsableByteSplits(m: seq<Region>, x: int)
    requires m != []
    ensures UsableByte(m, x) <==> (m[0].usable && m[0].Has(x)) || UsableByte(m[1..], x)
  {
    if UsableByte(m, x) {
      var i :| 0 <= i < |m| && m[i].usable && m[i].Has(x);
      assert i > 0 ==> m[1..][i - 1] == m[i];
    }
    if UsableByte(m[1..], x) {
      var i :| 0 <= i < |m[1..]| && m[1..][i].usable && m[1..][i].Has(x);
      assert m[i + 1] == m[1..][i];
    }
  }

  lemma LaterByteElsewhere(m: seq<Region>, x: int)
    requires m != [] && UsableDisjoint(m) && UsableByte(m[1..], x)
    ensures !(m[0].usable && m[0].Has(x))
  {
    var i :| 0 <= i < |m[1..]| && m[1..][i].usable && m[1..][i].Has(x);
    assert m[i + 1] == m[1..][i];
  }

  lemma FirstRegionBytes(m: seq<Region>)
    requires m != [] && UsableDisjoint(m)
    ensures var here := if m[0].usable then Interval(m[0].base, m[0].base + m[0].length) else {};
            UsableBytes(m) == here + UsableBytes(m[1..]) && here !! UsableBytes(m[1..])
  {
    hide Interval, UsableByte, UsableDisjoint;
    var here := if m[0].usable then Interval(m[0].base, m[0].base + m[0].length) else {};
    forall x ensures x in UsableBytes(m) <==> x in here || x in UsableBytes(m[1..]) {
      UsableByteSplits(m, x);
    }
    forall x | x in UsableBytes(m[1..]) ensures x !in here {
      LaterByteElsewhere(m, x);
    }
  }

  /** For disjoint usable regions `usable_memory` is the number of their bytes. */
  lemma {:induction false} UsableMemoryCounts(m: seq<Region>)
    requires UsableDisjoint(m)
    ensures UsableMemory(m) == |UsableBytes(m)|
  {
    if m == [] {
      assert UsableBytes(m) == {};
    } else {
      hide UsableBytes, Interval;
      FirstRegionBytes(m);
      assert UsableDisjoint(m[1..]) by { LaterDisjoint(m); }
      UsableMemoryCounts(m[1..]);
    }
  }

  lemma LaterDisjoint(m: seq<Region>)
    requires m != [] && UsableDisjoint(m)
    ensures UsableDisjoint(m[1..])
  {
  }

  /** If none of them overflows the sum stays within the physical address space, so within a word. */
  lemma UsableMemoryFits(m: seq<Region>)
    requires MapOk(m) && UsableDisjoint(m) && NoOverflow(m)
    ensures UsableMemory(m) <= PHYSICAL_LIMIT < WORD
  {
    UsableMemoryCounts(m);
    hide Interval;
    assert UsableBytes(m) <= Interval(0, PHYSICAL_LIMIT);
    SubsetSize(UsableBytes(m), Interval(0, PHYSICAL_LIMIT));
  }

  lemma SubsetSize(a: set<int>, b: set<int>)
    requires a <= b
    ensures |a| <= |b|
  {
    assert b == a + (b - a);
  }
}
