/** The allocator's three entry points over one pool: `Init` (init_myalloc),
    `Alloc` (myalloc) and `Free` (myfree). The pool is a value: its size and a
    store of 4-byte tags keyed by byte offset from the start of the pool.
    Payload bytes are never read or written, so they are not modelled. */
module Allocator {

  import opened Options
  import opened Tags
  import opened Layout
  import opened BlockList
  import opened Steps

  datatype Pool = Pool(size: int, tags: map<int, int>)

  /** The scan from offset 0 reads a well-formed block list ending exactly at
      the end of the pool (invariants I1 and I2). */
  predicate Valid(h: Pool) {
    Walk(h.tags, 0, h.size).Some?
  }

  /** The block list a valid pool holds. */
  function Blocks(h: Pool): seq<Block>
    requires Valid(h)
  {
    Walk(h.tags, 0, h.size).value
  }

  /** Invariants I1-I3 together. */
  predicate Inv(h: Pool) {
    Valid(h) && NoAdjacentFree(Blocks(h))
  }

  /** `addr` is the payload address of a block of the pool. */
  predicate IsBlockAddr(h: Pool, addr: int) {
    Valid(h) && FindBlock(Blocks(h), addr - TagWidth).Some?
  }

  /** The index of the block whose payload starts at `addr`. */
  function BlockIndex(h: Pool, addr: int): nat
    requires IsBlockAddr(h, addr)
  {
    FindBlock(Blocks(h), addr - TagWidth).value
  }

  lemma ValidTiles(h: Pool)
    requires Valid(h)
    ensures Tiles(h.tags, 0, Blocks(h), h.size)
    ensures Total(Blocks(h)) == h.size
  {
    WalkTiles(h.tags, 0, Blocks(h), h.size);
    TilesTotal(h.tags, 0, Blocks(h), h.size);
  }

  /** Set up a pool of `size` bytes over whatever the memory held before:
      one free block whose header at offset 0 and footer at `size - 4` both
      hold `size - 8`. */
  function Init(size: int, junk: map<int, int>): (h: Pool)
    requires size >= Overhead
    ensures Inv(h)
    ensures Blocks(h) == [Block(size - Overhead, false)]
    ensures h.tags[0] == size - Overhead && h.tags[size - TagWidth] == size - Overhead
  {
    var h := Pool(size, junk[0 := size - Overhead][size - TagWidth := size - Overhead]);
    assert Tiles(h.tags, 0, [Block(size - Overhead, false)], size) by {
      assert [Block(size - Overhead, false)][1..] == [];
    }
    WalkTiles(h.tags, 0, [Block(size - Overhead, false)], size);
    h
  }

  /** The scan's test of one header: a used block (negative header) never
      qualifies for a request of non-negative size. */
  function Qualifies(tag: int, size: int): (q: bool)
    ensures size >= 0 ==> (q <==> Fits(Decode(tag), size))
  {
    tag >= size + Overhead
  }

  /** The best-fit scan (myalloc's loop): walk the blocks from offset 0,
      keeping the header offset of the smallest qualifying block seen so far;
      a later block of equal size replaces it. */
  method Scan(h: Pool, size: int) returns (loc: Option<int>)
    requires Valid(h) && size >= 0
    ensures loc.None? <==> BestFit(Blocks(h), size).None?
    ensures loc.Some? ==> loc.value == Offset(Blocks(h), BestFit(Blocks(h), size).value)
  {
    ghost var bs := Blocks(h);
    ValidTiles(h);
    OffsetEnd(bs);
    var p := 0;
    loc := None;
    ghost var k: nat := 0;
    ghost var best: Option<nat> := None;
    while p < h.size
      invariant k <= |bs| && p == Offset(bs, k)
      invariant best == BestFit(bs[..k], size)
      invariant best.Some? ==> best.value < k && loc == Some(Offset(bs, best.value))
      invariant best.None? ==> loc.None?
      decreases h.size - p
    {
      ScanStep(h.tags, bs, h.size, k, size);
      var tag := h.tags[p];
      if loc.None? {
        if Qualifies(tag, size) {
          loc := Some(p);
        }
      } else {
        if Qualifies(tag, size) {
          if tag <= h.tags[loc.value] {
            loc := Some(p);
          }
        }
      }
      best := BestFit(bs[..k + 1], size);
      p := p + Abs(tag) + Overhead;
      k := k + 1;
    }
    if k < |bs| {
      OffsetWithin(bs, k);
    }
    assert bs[..k] == bs;
  }

  /** One step of the scan, read off the tags: where the next header is, and
      how the best fit so far changes with the header at `Offset(bs, k)`. */
  lemma ScanStep(t: map<int, int>, bs: seq<Block>, e: int, k: nat, size: int)
    requires Tiles(t, 0, bs, e) && k < |bs| && size >= 0
    ensures Offset(bs, k) in t
    ensures Offset(bs, k + 1) == Offset(bs, k) + Abs(t[Offset(bs, k)]) + Overhead
    ensures var best := BestFit(bs[..k], size);
      && (best.Some? ==> best.value < k && Offset(bs, best.value) in t)
      && BestFit(bs[..k + 1], size) ==
           if Qualifies(t[Offset(bs, k)], size)
              && (best.None? || t[Offset(bs, k)] <= t[Offset(bs, best.value)])
           then Some(k) else best
  {
    TagsAt(t, bs, e, k);
    var best := BestFit(bs[..k], size);
    if best.Some? {
      TagsAt(t, bs, e, best.value);
    }
    BestFitStep(bs, k, size);
  }

  /** Carving block `i` (header at `loc`) of a valid pool yields a valid pool
      holding the split block list and differing only inside block `i`; the
      new used block is found at `loc + 4`, and its footer holds `-size`. */
  lemma CarveOutcome(h: Pool, i: nat, size: nat, loc: int)
    requires Valid(h) && i < |Blocks(h)| && Fits(Blocks(h)[i], size) && loc == Offset(Blocks(h), i)
    ensures loc in h.tags
    ensures loc + size + TagWidth in Carve(h.tags, loc, size)
    ensures Carve(h.tags, loc, size)[loc + size + TagWidth] == -(size as int)
    ensures SameOutside(h.tags, Carve(h.tags, loc, size), loc, loc + Footprint(Blocks(h)[i]))
    ensures var h' := Pool(h.size, Carve(h.tags, loc, size));
      && Valid(h')
      && Blocks(h') == Split(Blocks(h), i, size)
      && IsBlockAddr(h', loc + TagWidth)
      && BlockIndex(h', loc + TagWidth) == i
      && Blocks(h')[i] == Decode(-(size as int))
  {
    var bs := Blocks(h);
    ValidTiles(h);
    CarveTiles(h.tags, bs, h.size, i, size, loc);
    var bs' := Split(bs, i, size);
    WalkTiles(Carve(h.tags, loc, size), 0, bs', h.size);
    assert bs'[..i] == bs[..i];
    assert Offset(bs', i) == loc;
  }

  /** Carving a block for a non-empty request keeps I1-I3. */
  lemma CarveKeepsInv(h: Pool, i: nat, size: nat, loc: int)
    requires Inv(h) && i < |Blocks(h)| && Fits(Blocks(h)[i], size) && loc == Offset(Blocks(h), i)
    requires size > 0
    ensures loc in h.tags && Inv(Pool(h.size, Carve(h.tags, loc, size)))
  {
    CarveOutcome(h, i, size, loc);
    SplitKeepsNoAdjacentFree(Blocks(h), i, size);
  }

  /** Freeing the block just carved out of block `i` gives back the block
      list the pool held before the carve. */
  lemma CarveFreeRoundTrip(h: Pool, i: nat, size: nat, loc: int)
    requires Inv(h) && i < |Blocks(h)| && Fits(Blocks(h)[i], size) && loc == Offset(Blocks(h), i)
    ensures loc in h.tags
    ensures var h' := Pool(h.size, Carve(h.tags, loc, size));
      && IsBlockAddr(h', loc + TagWidth)
      && Blocks(Free(h', loc + TagWidth)) == Blocks(h)
  {
    CarveOutcome(h, i, size, loc);
    ReleaseSplitRoundTrip(Blocks(h), i, size);
  }

  /** myalloc's split of the chosen block `i`, whose header is at `loc`: the
      tag writes, then the payload address read back through the used
      block's footer (`loc + size + 4 + (-size)`), which is `loc + 4`. */
  method CarveBlock(h: Pool, ghost i: nat, size: nat, loc: int) returns (h': Pool, addr: int)
    requires Valid(h) && i < |Blocks(h)| && Fits(Blocks(h)[i], size) && loc == Offset(Blocks(h), i)
    ensures h'.size == h.size && Valid(h')
    ensures Blocks(h') == Split(Blocks(h), i, size)
    ensures SameOutside(h.tags, h'.tags, loc, loc + Footprint(Blocks(h)[i]))
    ensures addr == loc + TagWidth
    ensures IsBlockAddr(h', addr) && BlockIndex(h', addr) == i && Blocks(h')[i] == Decode(-(size as int))
    ensures size > 0 && Inv(h) ==> Inv(h')
    ensures Inv(h) ==> Blocks(Free(h', addr)) == Blocks(h)
  {
    CarveOutcome(h, i, size, loc);
    h' := Pool(h.size, Carve(h.tags, loc, size));
    var cur := loc + size + TagWidth;
    assert h'.tags[cur] == -(size as int);
    addr := cur + h'.tags[cur];
    if size > 0 && Inv(h) {
      CarveKeepsInv(h, i, size, loc);
    }
    if Inv(h) {
      CarveFreeRoundTrip(h, i, size, loc);
    }
  }

  /** Best-fit allocation of `size` bytes. When no block qualifies the result
      is None and the pool is untouched. Otherwise the chosen block is split
      and the address one tag past its header is returned, recovered from the
      used block's footer as the allocator does. */
  method Alloc(h: Pool, size: int) returns (h': Pool, r: Option<int>)
    requires Valid(h) && size >= 0
    ensures h'.size == h.size && Valid(h')
    ensures BestFit(Blocks(h), size).None? ==> r.None? && h' == h
    ensures BestFit(Blocks(h), size).Some? ==>
      var bs, i := Blocks(h), BestFit(Blocks(h), size).value;
      && r == Some(Offset(bs, i) + TagWidth)
      && Blocks(h') == Split(bs, i, size)
      && SameOutside(h.tags, h'.tags, Offset(bs, i), Offset(bs, i) + Footprint(bs[i]))
    ensures r.Some? ==> IsBlockAddr(h', r.value) && Blocks(h')[BlockIndex(h', r.value)] == Decode(-size)
    ensures size > 0 && Inv(h) ==> Inv(h')
    ensures r.Some? && Inv(h) ==> Blocks(Free(h', r.value)) == Blocks(h)
  {
    var loc := Scan(h, size);
    if loc.None? {
      h', r := h, None;
      return;
    }
    var addr;
    h', addr := CarveBlock(h, BestFit(Blocks(h), size).value, size, loc.value);
    r := Some(addr);
  }

  /** Release the block whose payload starts at `addr`: mark it free, then
      coalesce with a free right neighbour, then with a free left neighbour.
      The bound checks come before the neighbour tags are read. */
  function Free(h: Pool, addr: int): (r: Pool)
    requires IsBlockAddr(h, addr)
    ensures Valid(r) && r.size == h.size
    ensures Blocks(r) == Release(Blocks(h), BlockIndex(h, addr))
  {
    var bs := Blocks(h);
    var i := BlockIndex(h, addr);
    ValidTiles(h);
    ReleaseTagsTiles(h.tags, bs, h.size, i, addr);
    var t3 := LeftTags(RightTags(MarkTags(h.tags, addr), addr, h.size), addr, h.size);
    WalkTiles(t3, 0, Release(bs, i), h.size);
    Pool(h.size, t3)
  }

  /** Releasing any block of a pool that satisfies I1-I3 keeps them. */
  lemma FreeKeepsInv(h: Pool, addr: int)
    requires Inv(h) && IsBlockAddr(h, addr)
    ensures Inv(Free(h, addr))
  {
    ReleaseKeepsNoAdjacentFree(Blocks(h), BlockIndex(h, addr));
  }
}
