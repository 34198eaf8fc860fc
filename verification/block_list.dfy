/** The allocator at the level of block lists: best-fit choice, splitting a
    free block on allocation, and coalescing on release. The concrete tag
    writes in `Steps` are proved to perform exactly these operations. */
module BlockList {

  import opened Options
  import opened Tags
  import opened Layout

  /** A block can serve a request of `size` bytes when it is free and large
      enough to hold the request plus the tags of the leftover block. */
  predicate Fits(b: Block, size: int) {
    !b.used && b.payload >= size + Overhead
  }

  /** Invariant I3: no two neighbouring blocks are both free. */
  predicate NoAdjacentFree(bs: seq<Block>) {
    forall j :: 0 <= j < |bs| - 1 ==> bs[j].used || bs[j + 1].used
  }

  /** Block `i` is the best fit: it fits, no fitting block is smaller, and
      every fitting block after it is strictly larger (ties go to the last
      one scanned). */
  ghost predicate IsBestFit(bs: seq<Block>, size: int, i: int) {
    0 <= i < |bs| && Fits(bs[i], size)
    && (forall j :: 0 <= j < |bs| && Fits(bs[j], size) ==> bs[i].payload <= bs[j].payload)
    && (forall j :: i < j < |bs| && Fits(bs[j], size) ==> bs[i].payload < bs[j].payload)
  }

  /** The block the best-fit scan settles on, or None when no block fits. */
  function BestFit(bs: seq<Block>, size: int): (r: Option<nat>)
    ensures r.Some? ==> IsBestFit(bs, size, r.value)
    ensures r.None? <==> forall j :: 0 <= j < |bs| ==> !Fits(bs[j], size)
    decreases |bs|
  {
    if |bs| == 0 then None
    else
      var pre := bs[..|bs| - 1];
      var last := bs[|bs| - 1];
      var r := BestFit(pre, size);
      if Fits(last, size) && (r.None? || last.payload <= pre[r.value].payload) then Some(|bs| - 1)
      else r
  }

  /** One more step of the scan: the best fit of the first `k + 1` blocks in
      terms of the best fit of the first `k`. */
  lemma BestFitStep(bs: seq<Block>, k: nat, size: int)
    requires k < |bs|
    ensures var r := BestFit(bs[..k], size);
      BestFit(bs[..k + 1], size) ==
        if Fits(bs[k], size) && (r.None? || bs[k].payload <= bs[r.value].payload) then Some(k) else r
  {
    assert bs[..k + 1][..k] == bs[..k];
    assert bs[..k + 1][k] == bs[k];
  }

  /** At most one block is the best fit. */
  lemma BestFitUnique(bs: seq<Block>, size: int, i: int, j: int)
    requires IsBestFit(bs, size, i) && IsBestFit(bs, size, j)
    ensures i == j
  {
  }

  /** Allocation from block `i`: a block of `size` bytes tagged `-size` at the
      same offset, then a free block with the rest of the payload. A request
      of 0 bytes writes tag 0, which reads back as a free block. */
  function Split(bs: seq<Block>, i: nat, size: nat): seq<Block>
    requires i < |bs| && Fits(bs[i], size)
  {
    bs[..i] + [Decode(-(size as int)), Block(bs[i].payload - size - Overhead, false)] + bs[i + 1..]
  }

  lemma SplitParts(bs: seq<Block>, i: nat, size: nat)
    requires i < |bs| && Fits(bs[i], size)
    ensures Split(bs, i, size)
         == bs[..i] + [Decode(-(size as int)), Block(bs[i].payload - size - Overhead, false)] + bs[i + 1..]
  {
  }

  /** The two blocks of a split occupy exactly the bytes of the old block. */
  lemma SplitPreservesTotal(bs: seq<Block>, i: nat, size: nat)
    requires i < |bs| && Fits(bs[i], size)
    ensures Total(Split(bs, i, size)) == Total(bs)
  {
    var mid := [Decode(-(size as int)), Block(bs[i].payload - size - Overhead, false)];
    SplitParts(bs, i, size);
    TotalSplice(bs[..i], mid, bs[i + 1..]);
    assert bs[..i] + [bs[i]] + bs[i + 1..] == bs;
    TotalSplice(bs[..i], [bs[i]], bs[i + 1..]);
    TotalPair(mid[0], mid[1]);
    TotalSingle(bs[i]);
  }

  /** Splicing `mid` into a list without free neighbours keeps it so, as long
      as the seams are not free on both sides. */
  lemma NoAdjacentFreeSplice(bs: seq<Block>, lo: nat, hi: nat, mid: seq<Block>)
    requires NoAdjacentFree(bs) && NoAdjacentFree(mid)
    requires lo <= hi <= |bs| && |mid| > 0
    requires lo == 0 || bs[lo - 1].used || mid[0].used
    requires hi == |bs| || bs[hi].used || mid[|mid| - 1].used
    ensures NoAdjacentFree(bs[..lo] + mid + bs[hi..])
  {
    var r := bs[..lo] + mid + bs[hi..];
    forall j | 0 <= j < |r| - 1
      ensures r[j].used || r[j + 1].used
    {
      if j + 1 < lo {
        assert r[j] == bs[j] && r[j + 1] == bs[j + 1];
      } else if j + 1 == lo {
        assert r[j] == bs[lo - 1] && r[j + 1] == mid[0];
      } else if j + 1 < lo + |mid| {
        assert r[j] == mid[j - lo] && r[j + 1] == mid[j - lo + 1];
      } else if j + 1 == lo + |mid| {
        assert r[j] == mid[|mid| - 1] && r[j + 1] == bs[hi];
      } else {
        var k := j - lo - |mid| + hi;
        assert r[j] == bs[k] && r[j + 1] == bs[k + 1];
      }
    }
  }

  /** Allocating a positive size keeps free blocks apart: the new used block
      separates the left neighbour from the leftover, and the right neighbour
      of the chosen block was already used. */
  lemma SplitKeepsNoAdjacentFree(bs: seq<Block>, i: nat, size: nat)
    requires NoAdjacentFree(bs) && i < |bs| && Fits(bs[i], size) && size > 0
    ensures NoAdjacentFree(Split(bs, i, size))
  {
    var mid := [Decode(-(size as int)), Block(bs[i].payload - size - Overhead, false)];
    assert i + 1 < |bs| ==> bs[i + 1].used;
    NoAdjacentFreeSplice(bs, i, i + 1, mid);
  }

  /** A request of 0 bytes leaves a zero-payload block whose tag 0 reads as
      free, right next to the free leftover, so I3 fails after any such split. */
  lemma ZeroSizeSplitBreaksNoAdjacentFree(bs: seq<Block>, i: nat)
    requires i < |bs| && Fits(bs[i], 0)
    ensures Split(bs, i, 0)[i] == Block(0, false)
    ensures !NoAdjacentFree(Split(bs, i, 0))
  {
    assert Split(bs, i, 0)[i] == Block(0, false);
    assert Split(bs, i, 0)[i + 1] == Block(bs[i].payload - Overhead, false);
  }

  /** One free block spanning two neighbours and the tags between them. */
  function Merge(x: Block, y: Block): Block {
    Block(x.payload + y.payload + Overhead, false)
  }

  /** Release, step 1: block `i` becomes free, with its size unchanged. */
  function MarkFree(bs: seq<Block>, i: nat): seq<Block>
    requires i < |bs|
  {
    bs[i := Block(bs[i].payload, false)]
  }

  /** Release, step 2: absorb the right neighbour when it exists and is free. */
  function MergeRight(bs: seq<Block>, i: nat): (r: seq<Block>)
    requires i < |bs|
    ensures i < |r|
  {
    if i + 1 < |bs| && !bs[i + 1].used then bs[..i] + [Merge(bs[i], bs[i + 1])] + bs[i + 2..]
    else bs
  }

  /** Release, step 3: let the left neighbour absorb block `i` when it exists
      and is free. */
  function MergeLeft(bs: seq<Block>, i: nat): seq<Block>
    requires i < |bs|
  {
    if 0 < i && !bs[i - 1].used then bs[..i - 1] + [Merge(bs[i - 1], bs[i])] + bs[i + 1..]
    else bs
  }

  /** Releasing block `i`: mark it free, then coalesce right, then left. */
  function Release(bs: seq<Block>, i: nat): seq<Block>
    requires i < |bs|
  {
    MergeLeft(MergeRight(MarkFree(bs, i), i), i)
  }

  /** First block of the span a release coalesces. */
  function SpanStart(bs: seq<Block>, i: nat): nat
    requires i < |bs|
  {
    if 0 < i && !bs[i - 1].used then i - 1 else i
  }

  /** One past the last block of the span a release coalesces. */
  function SpanEnd(bs: seq<Block>, i: nat): nat
    requires i < |bs|
  {
    if i + 1 < |bs| && !bs[i + 1].used then i + 2 else i + 1
  }

  /** The one free block occupying exactly the bytes of a run of blocks. */
  function Coalesced(span: seq<Block>): (c: Block)
    requires |span| > 0
    ensures Footprint(c) == Total(span)
  {
    Block(Total(span) - Overhead, false)
  }

  lemma TotalSingle(x: Block)
    ensures Total([x]) == Footprint(x)
  {
    assert [x][1..] == [];
  }

  lemma TotalPair(x: Block, y: Block)
    ensures Total([x, y]) == Footprint(x) + Footprint(y)
  {
    assert [x, y][1..] == [y];
    TotalSingle(y);
  }

  lemma TotalTriple(x: Block, y: Block, z: Block)
    ensures Total([x, y, z]) == Footprint(x) + Footprint(y) + Footprint(z)
  {
    assert [x, y, z][1..] == [y, z];
    TotalPair(y, z);
  }

  lemma TotalSplice(a: seq<Block>, b: seq<Block>, c: seq<Block>)
    ensures Total(a + b + c) == Total(a) + Total(b) + Total(c)
  {
    TotalAppend(a + b, c);
    TotalAppend(a, b);
  }

  lemma CoalescedSplice(a: seq<Block>, span: seq<Block>, c: seq<Block>)
    requires |span| > 0
    ensures Total(a + [Coalesced(span)] + c) == Total(a + span + c)
  {
    TotalSingle(Coalesced(span));
    TotalSplice(a, [Coalesced(span)], c);
    TotalSplice(a, span, c);
  }

  lemma CoalescedSpanTotal(bs: seq<Block>, i: nat, r: seq<Block>)
    requires i < |bs|
    requires r == bs[..SpanStart(bs, i)] + [Coalesced(bs[SpanStart(bs, i)..SpanEnd(bs, i)])] + bs[SpanEnd(bs, i)..]
    ensures Total(r) == Total(bs)
  {
    var lo, hi := SpanStart(bs, i), SpanEnd(bs, i);
    var a, span, c := bs[..lo], bs[lo..hi], bs[hi..];
    assert a + span + c == bs;
    CoalescedSplice(a, span, c);
  }

  /** A release replaces block `i` and its free neighbours by one free block
      with the same footprint; all other blocks keep their place. Freeing a
      block between two free neighbours thus yields a payload of the three
      payloads plus 16. */
  lemma ReleaseShape(bs: seq<Block>, i: nat)
    requires i < |bs|
    ensures SpanStart(bs, i) <= i < SpanEnd(bs, i) <= |bs|
    ensures Release(bs, i)
         == bs[..SpanStart(bs, i)] + [Coalesced(bs[SpanStart(bs, i)..SpanEnd(bs, i)])] + bs[SpanEnd(bs, i)..]
  {
    var lo, hi := SpanStart(bs, i), SpanEnd(bs, i);
    var f := Block(bs[i].payload, false);
    var m := MarkFree(bs, i);
    var rr := MergeRight(m, i);
    if hi == i + 2 {
      assert rr == bs[..i] + [Merge(f, bs[i + 1])] + bs[i + 2..];
      if lo == i - 1 {
        assert bs[lo..hi] == [bs[i - 1], bs[i], bs[i + 1]];
        TotalTriple(bs[i - 1], bs[i], bs[i + 1]);
        assert rr[..i - 1] == bs[..i - 1];
        assert rr[i + 1..] == bs[i + 2..];
      } else {
        assert bs[lo..hi] == [bs[i], bs[i + 1]];
        TotalPair(bs[i], bs[i + 1]);
      }
    } else {
      assert rr == bs[..i] + [f] + bs[i + 1..];
      if lo == i - 1 {
        assert bs[lo..hi] == [bs[i - 1], bs[i]];
        TotalPair(bs[i - 1], bs[i]);
        assert rr[..i - 1] == bs[..i - 1];
        assert rr[i + 1..] == bs[i + 1..];
      } else {
        assert bs[lo..hi] == [bs[i]];
        TotalSingle(bs[i]);
      }
    }
  }

  /** Release neither creates nor loses bytes. */
  lemma ReleasePreservesTotal(bs: seq<Block>, i: nat)
    requires i < |bs|
    ensures Total(Release(bs, i)) == Total(bs)
  {
    ReleaseShape(bs, i);
    CoalescedSpanTotal(bs, i, Release(bs, i));
  }

  /** Coalescing is eager: after a release no two neighbours are free. */
  lemma ReleaseKeepsNoAdjacentFree(bs: seq<Block>, i: nat)
    requires NoAdjacentFree(bs) && i < |bs|
    ensures NoAdjacentFree(Release(bs, i))
  {
    ReleaseShape(bs, i);
    var lo, hi := SpanStart(bs, i), SpanEnd(bs, i);
    if lo > 0 {
      assert bs[lo - 1].used;
    }
    if hi < |bs| {
      assert bs[hi].used;
    }
    NoAdjacentFreeSplice(bs, lo, hi, [Coalesced(bs[lo..hi])]);
  }

  /** Releasing a block right after allocating it gives back the block list
      from before the allocation: the free leftover is absorbed on the right,
      and the left neighbour of a free block is never free. */
  lemma ReleaseSplitRoundTrip(bs: seq<Block>, i: nat, size: nat)
    requires NoAdjacentFree(bs) && i < |bs| && Fits(bs[i], size)
    ensures Release(Split(bs, i, size), i) == bs
  {
    var s := Split(bs, i, size);
    assert s[i] == Decode(-(size as int));
    assert s[i + 1] == Block(bs[i].payload - size - Overhead, false);
    if i > 0 {
      assert s[i - 1] == bs[i - 1];
      assert bs[i - 1].used;
    }
    ReleaseShape(s, i);
    assert SpanStart(s, i) == i && SpanEnd(s, i) == i + 2;
    assert s[i..i + 2] == [s[i], s[i + 1]];
    TotalPair(s[i], s[i + 1]);
    assert Coalesced(s[i..i + 2]) == bs[i];
    assert s[..i] == bs[..i];
    assert s[i + 2..] == bs[i + 1..];
    assert bs[..i] + [bs[i]] + bs[i + 1..] == bs;
  }
}
