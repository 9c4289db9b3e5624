/** Sets of power-of-two blocks that cover an address range exactly once. */
module Tiling {
  import opened Bits

  /** The bytes `addr .. addr + 2^order`. */
  datatype Block = Block(addr: nat, order: nat) {
    function End(): nat { addr + Pow2(order) }

    predicate Has(x: int) { addr <= x < End() }

    predicate Within(outer: Block) { outer.addr <= addr && End() <= outer.End() }

    predicate Apart(other: Block) { End() <= other.addr || other.End() <= addr }
  }

  /** Some block of `tiles` contains byte `x`. */
  ghost predicate Covers(tiles: set<Block>, x: int) {
    exists b :: b in tiles && b.Has(x)
  }

  /** Every byte of `lo .. hi` lies in exactly one block of `tiles`, and no block leaves the range. */
  ghost predicate Tiles(tiles: set<Block>, lo: int, hi: int) {
    && (forall b :: b in tiles ==> lo <= b.addr && b.End() <= hi)
    && (forall b, c :: b in tiles && c in tiles && b != c ==> b.Apart(c))
    && (forall x :: lo <= x < hi ==> Covers(tiles, x))
  }

  /** In a tiling, blocks that share a byte are the same block. */
  lemma SharedByte(tiles: set<Block>, lo: int, hi: int, b: Block, c: Block, x: int)
    requires Tiles(tiles, lo, hi) && b in tiles && c in tiles
    requires b.Has(x) && c.Has(x)
    ensures b == c
  {
  }

  function Halves(b: Block): set<Block>
    requires b.order > 0
  {
    {Block(b.addr, b.order - 1), Block(b.addr + Pow2(b.order - 1), b.order - 1)}
  }

  lemma HalvesMakeUp(b: Block, x: int)
    requires b.order > 0
    ensures b.Has(x) <==> exists h :: h in Halves(b) && h.Has(x)
    ensures forall h :: h in Halves(b) ==> h.Within(b) && h.Has(h.addr)
    ensures forall h, i :: h in Halves(b) && i in Halves(b) && h != i ==> h.Apart(i)
    ensures b !in Halves(b)
  {
    var k := b.order - 1;
    var left, right := Block(b.addr, k), Block(b.addr + Pow2(k), k);
    assert left in Halves(b) && right in Halves(b);
    if b.Has(x) {
      var h := if left.Has(x) then left else right;
      assert h in Halves(b) && h.Has(x);
    }
  }

  lemma SplitCovers(tiles: set<Block>, b: Block, x: int)
    requires b in tiles && b.order > 0 && Covers(tiles, x)
    ensures Covers(tiles - {b} + Halves(b), x)
  {
    var c :| c in tiles && c.Has(x);
    if c == b {
      HalvesMakeUp(b, x);
      var h :| h in Halves(b) && h.Has(x);
      assert h in tiles - {b} + Halves(b);
    } else {
      assert c in tiles - {b} + Halves(b);
    }
  }

  /** Replacing a block by its two halves keeps the tiling. */
  lemma SplitTile(tiles: set<Block>, lo: int, hi: int, b: Block)
    requires Tiles(tiles, lo, hi) && b in tiles && b.order > 0
    ensures Tiles(tiles - {b} + Halves(b), lo, hi)
    ensures Halves(b) !! tiles
  {
    HalvesMakeUp(b, b.addr);
    forall h | h in Halves(b) ensures h !in tiles {
      assert b.Has(h.addr);
    }
    forall h, c | h in Halves(b) && c in tiles - {b} ensures h.Apart(c) && c.Apart(h) {
      assert b.Apart(c);
    }
    forall x | lo <= x < hi ensures Covers(tiles - {b} + Halves(b), x) {
      assert Covers(tiles, x);
      SplitCovers(tiles, b, x);
    }
  }

  /** Replacing two neighbouring halves by the block they make up keeps the tiling. */
  lemma JoinTiles(tiles: set<Block>, lo: int, hi: int, b: Block)
    requires Tiles(tiles, lo, hi) && b.order > 0 && Halves(b) <= tiles
    ensures Tiles(tiles - Halves(b) + {b}, lo, hi)
    ensures b !in tiles
  {
    var k := b.order - 1;
    var left, right := Block(b.addr, k), Block(b.addr + Pow2(k), k);
    var joined := tiles - Halves(b) + {b};
    assert left in tiles && right in tiles;
    assert left.Has(left.addr) && b.Has(left.addr);
    forall c | c in tiles - Halves(b) ensures c.Apart(b) {
      assert c.Apart(left) && c.Apart(right);
      assert c.Has(c.addr);
    }
    forall x | lo <= x < hi ensures Covers(joined, x) {
      assert Covers(tiles, x);
      var c :| c in tiles && c.Has(x);
      var d := if c in Halves(b) then b else c;
      assert d in joined && d.Has(x);
    }
  }

  /** A tiling extends by a block placed at its end. */
  lemma AppendTile(tiles: set<Block>, lo: int, hi: int, b: Block)
    requires Tiles(tiles, lo, hi) && b.addr == hi && lo <= hi
    ensures Tiles(tiles + {b}, lo, b.End())
    ensures b !in tiles
  {
    forall x | lo <= x < b.End() ensures Covers(tiles + {b}, x) {
      if x < hi {
        assert Covers(tiles, x);
        var c :| c in tiles && c.Has(x);
        assert c in tiles + {b};
      } else {
        assert b in tiles + {b} && b.Has(x);
      }
    }
  }
}
