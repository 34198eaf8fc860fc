/** The tag writes `myalloc` and `myfree` perform on the pool, one function per
    step, each proved to carry out the matching block-level operation of
    `BlockList` on any tag store that tiles the pool. Offsets are byte offsets
    from the start of the pool; `addr` is a payload address, one tag past a
    block's header. */
module Steps {

  import opened Tags
  import opened Layout
  import opened BlockList

  /** Split the free block whose header is at `loc`: the leftover header,
      then the used header and footer, then the leftover footer, placed where
      the leftover header says. */
  function Carve(t: map<int, int>, loc: int, size: int): map<int, int>
    requires loc in t
  {
    var rest := loc + size + Overhead;
    var t1 := t[rest := t[loc] - size - Overhead];
    var t2 := t1[loc := -size];
    var t3 := t2[loc + size + TagWidth := -size];
    t3[t3[rest] + rest + TagWidth := t3[rest]]
  }

  /** Carving a free block of payload `f` at `loc` writes a used block and a
      leftover block that together cover the old block's bytes, and nothing
      outside them. */
  lemma CarveLocal(t: map<int, int>, loc: int, f: int, size: nat, hi: int)
    requires loc in t && t[loc] == f && f >= size + Overhead && hi == loc + f + Overhead
    ensures Tiles(Carve(t, loc, size), loc, [Decode(-(size as int)), Block(f - size - Overhead, false)], hi)
    ensures SameOutside(t, Carve(t, loc, size), loc, hi)
    ensures loc + size + TagWidth in Carve(t, loc, size)
    ensures Carve(t, loc, size)[loc + size + TagWidth] == -(size as int)
  {
    var u := Carve(t, loc, size);
    var used := Decode(-(size as int));
    var left := Block(f - size - Overhead, false);
    assert u[loc + size + Overhead] == f - size - Overhead;
    assert Tiles(u, loc + size + Overhead, [left], loc + f + Overhead) by {
      assert [left][1..] == [];
    }
    assert Tiles(u, loc, [used, left], loc + f + Overhead) by {
      assert [used, left][1..] == [left];
    }
  }

  /** Carving block `i` of a tiling tiles the pool with the split block list,
      writes nothing outside the chosen block, and leaves the used footer
      holding `-size`, from which the payload address is recovered. */
  lemma CarveTiles(t: map<int, int>, bs: seq<Block>, e: int, i: nat, size: nat, loc: int)
    requires Tiles(t, 0, bs, e) && i < |bs| && Fits(bs[i], size) && loc == Offset(bs, i)
    ensures loc in t
    ensures Tiles(Carve(t, loc, size), 0, Split(bs, i, size), e)
    ensures SameOutside(t, Carve(t, loc, size), loc, loc + Footprint(bs[i]))
    ensures loc + size + TagWidth in Carve(t, loc, size)
    ensures Carve(t, loc, size)[loc + size + TagWidth] == -(size as int)
  {
    TagsAt(t, bs, e, i);
    var f := bs[i].payload;
    var mid := [Decode(-(size as int)), Block(f - size - Overhead, false)];
    CarveLocal(t, loc, f, size, Offset(bs, i + 1));
    SplitParts(bs, i, size);
    TilesSplice(t, Carve(t, loc, size), bs, e, i, i + 1, mid, Split(bs, i, size));
  }

  /** The tags `MarkTags` reads are in the store. */
  predicate MarkReads(t: map<int, int>, addr: int) {
    addr - TagWidth in t
  }

  /** Mark the block at `addr` free: header and footer become `|header|`. */
  function MarkTags(t: map<int, int>, addr: int): map<int, int>
    requires MarkReads(t, addr)
  {
    var t1 := t[addr - TagWidth := Abs(t[addr - TagWidth])];
    t1[addr + t1[addr - TagWidth] := t1[addr - TagWidth]]
  }

  lemma MarkTagsTiles(t: map<int, int>, bs: seq<Block>, e: int, i: nat, addr: int)
    requires Tiles(t, 0, bs, e) && i < |bs|
    requires addr == Offset(bs, i) + TagWidth
    ensures MarkReads(t, addr)
    ensures Tiles(MarkTags(t, addr), 0, MarkFree(bs, i), e)
  {
    TagsAt(t, bs, e, i);
    var loc := Offset(bs, i);
    var b := Block(bs[i].payload, false);
    MarkLocal(t, loc, bs[i].payload, Offset(bs, i + 1));
    assert MarkFree(bs, i) == bs[..i] + [b] + bs[i + 1..];
    TilesSplice(t, MarkTags(t, addr), bs, e, i, i + 1, [b], MarkFree(bs, i));
  }

  /** Marking the block at `loc` free rewrites only its own two tags. */
  lemma MarkLocal(t: map<int, int>, loc: int, x: nat, hi: int)
    requires loc in t && Abs(t[loc]) == x && loc + x + TagWidth in t && hi == loc + x + Overhead
    ensures MarkReads(t, loc + TagWidth)
    ensures Tiles(MarkTags(t, loc + TagWidth), loc, [Block(x, false)], hi)
    ensures SameOutside(t, MarkTags(t, loc + TagWidth), loc, hi)
  {
    assert [Block(x, false)][1..] == [];
  }

  /** Header of the block after the one at `addr`. */
  function NextHeader(t: map<int, int>, addr: int): int
    requires addr - TagWidth in t
  {
    addr + Abs(t[addr - TagWidth]) + TagWidth
  }

  /** Every tag `RightTags` reads is in the store and inside the pool
      `[0, end)`: the end-of-pool test comes before the next header is read. */
  predicate RightReads(t: map<int, int>, addr: int, end: int) {
    && addr - TagWidth in t && 0 <= addr - TagWidth < end
    && (NextHeader(t, addr) != end ==> NextHeader(t, addr) in t && 0 <= NextHeader(t, addr) < end)
  }

  /** Coalesce the free block at `addr` with its right neighbour when that
      neighbour exists and is free: the header grows by the neighbour's
      payload and 8, and the neighbour's footer is rewritten to match. */
  function RightTags(t: map<int, int>, addr: int, end: int): map<int, int>
    requires RightReads(t, addr, end)
  {
    var next := NextHeader(t, addr);
    if next != end && t[next] >= 0 then
      var t1 := t[addr - TagWidth := t[addr - TagWidth] + t[next]];
      var t2 := t1[addr - TagWidth := t1[addr - TagWidth] + Overhead];
      t2[addr + t2[addr - TagWidth] := t2[addr - TagWidth]]
    else t
  }

  lemma RightTagsTiles(t: map<int, int>, bs: seq<Block>, e: int, i: nat, addr: int)
    requires Tiles(t, 0, bs, e) && i < |bs| && !bs[i].used
    requires addr == Offset(bs, i) + TagWidth
    ensures RightReads(t, addr, e)
    ensures Tiles(RightTags(t, addr, e), 0, MergeRight(bs, i), e)
  {
    if i + 1 < |bs| && !bs[i + 1].used {
      RightTagsMerge(t, bs, e, i, addr);
    } else {
      RightTagsKeep(t, bs, e, i, addr);
    }
  }

  /** With a free right neighbour, the two blocks become one. */
  lemma RightTagsMerge(t: map<int, int>, bs: seq<Block>, e: int, i: nat, addr: int)
    requires Tiles(t, 0, bs, e) && i + 1 < |bs| && !bs[i].used && !bs[i + 1].used
    requires addr == Offset(bs, i) + TagWidth
    ensures RightReads(t, addr, e)
    ensures Tiles(RightTags(t, addr, e), 0,
                  bs[..i] + [Merge(bs[i], bs[i + 1])] + bs[i + 2..], e)
  {
    TagsAt(t, bs, e, i);
    TagsAt(t, bs, e, i + 1);
    TilesTotal(t, 0, bs, e);
    OffsetWithin(bs, i + 1);
    var loc := Offset(bs, i);
    assert Offset(bs, i + 2) <= e;
    RightLocal(t, loc, bs[i].payload, bs[i + 1].payload, e, Offset(bs, i + 2));
    TilesSplice(t, RightTags(t, addr, e), bs, e, i, i + 2, [Merge(bs[i], bs[i + 1])],
                bs[..i] + [Merge(bs[i], bs[i + 1])] + bs[i + 2..]);
  }

  /** With no right neighbour, or a used one, no tag changes. */
  lemma RightTagsKeep(t: map<int, int>, bs: seq<Block>, e: int, i: nat, addr: int)
    requires Tiles(t, 0, bs, e) && i < |bs| && !bs[i].used
    requires i + 1 < |bs| ==> bs[i + 1].used
    requires addr == Offset(bs, i) + TagWidth
    ensures RightReads(t, addr, e)
    ensures RightTags(t, addr, e) == t
  {
    TagsAt(t, bs, e, i);
    TilesTotal(t, 0, bs, e);
    OffsetWithin(bs, i);
    if i + 1 < |bs| {
      TagsAt(t, bs, e, i + 1);
      OffsetWithin(bs, i + 1);
    } else {
      OffsetEnd(bs);
    }
  }

  /** Merging the free block at `loc` (payload `s`) with a free right
      neighbour (payload `n`) rewrites only tags inside the two blocks. */
  lemma RightLocal(t: map<int, int>, loc: int, s: nat, n: nat, e: int, hi: int)
    requires loc in t && t[loc] == s
    requires loc + s + Overhead in t && t[loc + s + Overhead] == n && loc + s + Overhead != e
    requires hi == loc + s + n + 2 * Overhead && 0 <= loc && hi <= e
    ensures RightReads(t, loc + TagWidth, e)
    ensures Tiles(RightTags(t, loc + TagWidth, e), loc, [Block(s + n + Overhead, false)], hi)
    ensures SameOutside(t, RightTags(t, loc + TagWidth, e), loc, hi)
  {
    var m := Block(s + n + Overhead, false);
    var u := RightTags(t, loc + TagWidth, e);
    assert u[loc] == m.payload;
    assert [m][1..] == [];
  }

  /** Every tag `LeftTags` reads is in the store and inside the pool
      `[0, end)`: the first-block test comes before the previous footer is
      read. */
  predicate LeftReads(t: map<int, int>, addr: int, end: int) {
    && addr - TagWidth in t && 0 <= addr - TagWidth < end
    && (addr - Overhead > 0 ==> addr - Overhead in t && addr - Overhead < end)
    && (addr - Overhead > 0 && addr - Overhead in t && t[addr - Overhead] >= 0
        ==> var prev := addr - t[addr - Overhead] - Overhead - TagWidth;
            prev in t && 0 <= prev < end)
  }

  /** Coalesce the free block at `addr` into its left neighbour when that
      neighbour exists and is free: the neighbour's header, found through its
      footer, grows by this block's (possibly merged) payload and 8, and this
      block's footer is rewritten to match. `end` bounds the reads only. */
  function LeftTags(t: map<int, int>, addr: int, end: int): map<int, int>
    requires LeftReads(t, addr, end)
  {
    if addr - Overhead > 0 && t[addr - Overhead] >= 0 then
      var prev := addr - t[addr - Overhead] - Overhead - TagWidth;
      var t1 := t[prev := t[prev] + (t[addr - TagWidth] + Overhead)];
      t1[addr + t1[addr - TagWidth] := t1[prev]]
    else t
  }

  lemma LeftTagsTiles(t: map<int, int>, bs: seq<Block>, e: int, i: nat, addr: int)
    requires Tiles(t, 0, bs, e) && i < |bs| && !bs[i].used
    requires addr == Offset(bs, i) + TagWidth
    ensures LeftReads(t, addr, e)
    ensures Tiles(LeftTags(t, addr, e), 0, MergeLeft(bs, i), e)
  {
    if 0 < i && !bs[i - 1].used {
      LeftTagsMerge(t, bs, e, i, addr);
    } else {
      LeftTagsKeep(t, bs, e, i, addr);
    }
  }

  /** With a free left neighbour, the two blocks become one. */
  lemma LeftTagsMerge(t: map<int, int>, bs: seq<Block>, e: int, i: nat, addr: int)
    requires Tiles(t, 0, bs, e) && 0 < i < |bs| && !bs[i - 1].used && !bs[i].used
    requires addr == Offset(bs, i) + TagWidth
    ensures LeftReads(t, addr, e)
    ensures Tiles(LeftTags(t, addr, e), 0, bs[..i - 1] + [Merge(bs[i - 1], bs[i])] + bs[i + 1..], e)
  {
    TagsAt(t, bs, e, i);
    TagsAt(t, bs, e, i - 1);
    TilesTotal(t, 0, bs, e);
    OffsetWithin(bs, i);
    LeftLocal(t, Offset(bs, i - 1), bs[i - 1].payload, addr, bs[i].payload, e, Offset(bs, i + 1));
    TilesSplice(t, LeftTags(t, addr, e), bs, e, i - 1, i + 1, [Merge(bs[i - 1], bs[i])],
                bs[..i - 1] + [Merge(bs[i - 1], bs[i])] + bs[i + 1..]);
  }

  /** With no left neighbour, or a used one, no tag changes. */
  lemma LeftTagsKeep(t: map<int, int>, bs: seq<Block>, e: int, i: nat, addr: int)
    requires Tiles(t, 0, bs, e) && i < |bs| && !bs[i].used
    requires 0 < i ==> bs[i - 1].used
    requires addr == Offset(bs, i) + TagWidth
    ensures LeftReads(t, addr, e)
    ensures LeftTags(t, addr, e) == t
  {
    TagsAt(t, bs, e, i);
    TilesTotal(t, 0, bs, e);
    OffsetWithin(bs, i);
    if 0 < i {
      TagsAt(t, bs, e, i - 1);
    } else {
      assert Offset(bs, i) == 0;
    }
  }

  /** Merging a free left neighbour at `ploc` (payload `p`) with the free
      block whose payload starts at `addr` (payload `s`) rewrites only tags inside the two blocks. */
  lemma LeftLocal(t: map<int, int>, ploc: nat, p: nat, addr: int, s: nat, e: int, hi: int)
    requires ploc in t && t[ploc] == p && addr == ploc + p + Overhead + TagWidth
    requires addr - Overhead in t && t[addr - Overhead] == p
    requires addr - TagWidth in t && t[addr - TagWidth] == s && hi == addr + s + TagWidth && hi <= e
    ensures LeftReads(t, addr, e)
    ensures Tiles(LeftTags(t, addr, e), ploc, [Block(p + s + Overhead, false)], hi)
    ensures SameOutside(t, LeftTags(t, addr, e), ploc, hi)
  {
    var m := Block(p + s + Overhead, false);
    var u := LeftTags(t, addr, e);
    assert u[ploc] == m.payload;
    assert [m][1..] == [];
  }

  /** The three tag rewrites of a release, in order, retile the pool with
      the released block list. */
  lemma ReleaseTagsTiles(t: map<int, int>, bs: seq<Block>, e: int, i: nat, addr: int)
    requires Tiles(t, 0, bs, e) && i < |bs| && addr == Offset(bs, i) + TagWidth
    ensures MarkReads(t, addr)
      && RightReads(MarkTags(t, addr), addr, e)
      && LeftReads(RightTags(MarkTags(t, addr), addr, e), addr, e)
      && Tiles(LeftTags(RightTags(MarkTags(t, addr), addr, e), addr, e), 0, Release(bs, i), e)
  {
    MarkTagsTiles(t, bs, e, i, addr);
    var t1 := MarkTags(t, addr);
    var bs1 := MarkFree(bs, i);
    assert bs1[..i] == bs[..i];
    assert Offset(bs1, i) + TagWidth == addr;
    RightTagsTiles(t1, bs1, e, i, addr);
    var t2 := RightTags(t1, addr, e);
    var bs2 := MergeRight(bs1, i);
    assert bs2[..i] == bs[..i] && !bs2[i].used;
    assert Offset(bs2, i) + TagWidth == addr;
    LeftTagsTiles(t2, bs2, e, i, addr);
  }
}
