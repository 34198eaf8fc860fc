/** How blocks lie in the pool: back to back from the first byte, each one a
    header tag, a payload and a footer tag equal to the header. `Walk` is the
    abstraction function from a tag store to its block list: the header walk
    of `myalloc`'s scan plus a check of every footer, which the allocator
    itself never makes. `Tiles` relates a tag store to the block list it
    encodes. */
module Layout {

  import opened Options
  import opened Tags

  /** Bytes occupied by a run of blocks. */
  function Total(bs: seq<Block>): nat
  {
    if |bs| == 0 then 0 else Footprint(bs[0]) + Total(bs[1..])
  }

  lemma {:induction false} TotalAppend(a: seq<Block>, b: seq<Block>)
    ensures Total(a + b) == Total(a) + Total(b)
    decreases |a|
  {
    if |a| == 0 {
      assert a + b == b;
    } else {
      assert (a + b)[1..] == a[1..] + b;
      TotalAppend(a[1..], b);
    }
  }

  /** Pool offset of the header of block `i` (or of the end, for `i == |bs|`). */
  function Offset(bs: seq<Block>, i: nat): nat
    requires i <= |bs|
  {
    Total(bs[..i])
  }

  lemma OffsetNext(bs: seq<Block>, i: nat)
    requires i < |bs|
    ensures Offset(bs, i + 1) == Offset(bs, i) + Footprint(bs[i])
  {
    assert bs[..i + 1] == bs[..i] + [bs[i]];
    TotalAppend(bs[..i], [bs[i]]);
    assert Total([bs[i]]) == Footprint(bs[i]);
  }

  lemma OffsetEnd(bs: seq<Block>)
    ensures Offset(bs, |bs|) == Total(bs)
  {
    assert bs[..|bs|] == bs;
  }

  /** Every block ends inside the run: the scan cursor of a block that exists
      is below the end of the run. */
  lemma OffsetWithin(bs: seq<Block>, i: nat)
    requires i < |bs|
    ensures Offset(bs, i) + Footprint(bs[i]) <= Total(bs)
  {
    OffsetNext(bs, i);
    assert bs[..i + 1] + bs[i + 1..] == bs;
    TotalAppend(bs[..i + 1], bs[i + 1..]);
  }

  lemma OffsetTail(bs: seq<Block>, i: nat)
    requires 0 < i <= |bs|
    ensures Offset(bs, i) == Footprint(bs[0]) + Offset(bs[1..], i - 1)
  {
    assert bs[..i][1..] == bs[1..][..i - 1];
  }

  /** The index of the block whose header sits at offset `off`, if any. Headers
      sit at strictly increasing offsets, so the answer is unique. */
  function FindBlock(bs: seq<Block>, off: int): (r: Option<nat>)
    ensures r.Some? ==> r.value < |bs| && Offset(bs, r.value) == off
    ensures forall i :: 0 <= i < |bs| && Offset(bs, i) == off ==> r == Some(i)
    decreases |bs|
  {
    if |bs| == 0 then None
    else
      assert forall i :: 0 < i <= |bs| ==> Offset(bs, i) == Footprint(bs[0]) + Offset(bs[1..], i - 1) by {
        forall i | 0 < i <= |bs| {
          OffsetTail(bs, i);
        }
      }
      if off == 0 then Some(0)
      else match FindBlock(bs[1..], off - Footprint(bs[0]))
        case None => None
        case Some(j) => Some(j + 1)
  }

  /** `bs` is laid out in `t` from offset `p` up to exactly offset `e`: every
      block's header decodes to the block, its footer equals its header, and
      the next block starts right after the footer. */
  ghost predicate Tiles(t: map<int, int>, p: int, bs: seq<Block>, e: int)
    decreases |bs|
  {
    if |bs| == 0 then p == e
    else
      p in t && Decode(t[p]) == bs[0]
      && p + bs[0].payload + TagWidth in t
      && t[p + bs[0].payload + TagWidth] == t[p]
      && Tiles(t, p + Footprint(bs[0]), bs[1..], e)
  }

  /** The block list a tag store holds from `p` to `e`: read a header, jump
      `|header| + 8` bytes ahead as the allocator's scan does, and stop on
      reaching `e`; in addition, check that the footer equals the header (I2).
      It fails on a missing tag, a footer that disagrees with its header, or a
      jump past `e`. The allocator's own loop reads headers only and never
      fails; that loop is `Allocator.Scan`. */
  function Walk(t: map<int, int>, p: int, e: int): Option<seq<Block>>
    decreases if p <= e then e - p else 0
  {
    if p == e then Some([])
    else if e < p || p !in t then None
    else
      var footer := p + Abs(t[p]) + TagWidth;
      if footer !in t || t[footer] != t[p] then None
      else match Walk(t, footer + TagWidth, e)
        case None => None
        case Some(rest) => Some([Decode(t[p])] + rest)
  }

  /** Invariant I1: the blocks of a tiling cover the range exactly. */
  lemma {:induction false} TilesTotal(t: map<int, int>, p: int, bs: seq<Block>, e: int)
    requires Tiles(t, p, bs, e)
    ensures p + Total(bs) == e
    decreases |bs|
  {
    if |bs| > 0 {
      TilesTotal(t, p + Footprint(bs[0]), bs[1..], e);
    }
  }

  /** The scan succeeds with exactly the block list the store tiles. */
  lemma {:induction false} WalkTiles(t: map<int, int>, p: int, bs: seq<Block>, e: int)
    ensures Walk(t, p, e) == Some(bs) <==> Tiles(t, p, bs, e)
    decreases |bs|
  {
    if |bs| == 0 {
    } else {
      var next := p + Footprint(bs[0]);
      WalkTiles(t, next, bs[1..], e);
      if Tiles(t, p, bs, e) {
        TilesTotal(t, p, bs, e);
        assert [Decode(t[p])] + bs[1..] == bs;
      }
      if Walk(t, p, e) == Some(bs) {
        assert p != e;
        var footer := p + Abs(t[p]) + TagWidth;
        var rest := Walk(t, footer + TagWidth, e).value;
        assert bs == [Decode(t[p])] + rest;
        assert rest == bs[1..];
      }
    }
  }

  lemma {:induction false} TilesAppend(t: map<int, int>, p: int, a: seq<Block>, b: seq<Block>, e: int)
    ensures Tiles(t, p, a + b, e) <==> Tiles(t, p, a, p + Total(a)) && Tiles(t, p + Total(a), b, e)
    decreases |a|
  {
    if |a| == 0 {
      assert a + b == b;
    } else {
      assert (a + b)[0] == a[0];
      assert (a + b)[1..] == a[1..] + b;
      TilesAppend(t, p + Footprint(a[0]), a[1..], b, e);
    }
  }

  /** Writes outside `[p, e)` do not disturb a tiling of `[p, e)`. */
  lemma {:induction false} TilesFrame(t: map<int, int>, u: map<int, int>, p: int, bs: seq<Block>, e: int)
    requires Tiles(t, p, bs, e)
    requires forall o :: p <= o < e && o in t ==> o in u && u[o] == t[o]
    ensures Tiles(u, p, bs, e)
    decreases |bs|
  {
    if |bs| > 0 {
      TilesTotal(t, p + Footprint(bs[0]), bs[1..], e);
      TilesFrame(t, u, p + Footprint(bs[0]), bs[1..], e);
    }
  }

  /** Block `i` of a tiling: its header at `p + Offset(bs, i)` decodes to it
      and its footer repeats the header (invariant I2). */
  lemma TilesAt(t: map<int, int>, p: int, bs: seq<Block>, e: int, i: nat)
    requires Tiles(t, p, bs, e) && i < |bs|
    ensures Tiles(t, p + Offset(bs, i), bs[i..], e)
    ensures p + Offset(bs, i) in t && Decode(t[p + Offset(bs, i)]) == bs[i]
    ensures t[p + Offset(bs, i)] == Encode(bs[i])
    ensures p + Offset(bs, i) + bs[i].payload + TagWidth in t
    ensures t[p + Offset(bs, i) + bs[i].payload + TagWidth] == t[p + Offset(bs, i)]
  {
    assert bs[..i] + bs[i..] == bs;
    TilesAppend(t, p, bs[..i], bs[i..], e);
  }

  /** The header and footer of block `i` of a tiling from 0, and where the
      next block's header is. */
  lemma TagsAt(t: map<int, int>, bs: seq<Block>, e: int, i: nat)
    requires Tiles(t, 0, bs, e) && i < |bs|
    ensures Offset(bs, i) in t && t[Offset(bs, i)] == Encode(bs[i])
    ensures Decode(t[Offset(bs, i)]) == bs[i]
    ensures Offset(bs, i) + bs[i].payload + TagWidth in t
    ensures t[Offset(bs, i) + bs[i].payload + TagWidth] == Encode(bs[i])
    ensures Offset(bs, i + 1) == Offset(bs, i) + Footprint(bs[i])
  {
    TilesAt(t, 0, bs, e, i);
    OffsetNext(bs, i);
  }

  /** Outside `[lo, hi)` both stores hold the same offsets with the same tags. */
  ghost predicate SameOutside(t: map<int, int>, u: map<int, int>, lo: int, hi: int) {
    && (forall o :: o in t && (o < lo || hi <= o) ==> o in u && u[o] == t[o])
    && (forall o :: o in u && (o < lo || hi <= o) ==> o in t)
  }

  /** Cutting a tiling at block `lo` and at block `hi` leaves tilings of the
      blocks before `lo` and of the blocks from `hi` on. */
  lemma TilesCut(t: map<int, int>, bs: seq<Block>, e: int, lo: nat, hi: nat)
    requires Tiles(t, 0, bs, e) && lo <= hi <= |bs|
    ensures Tiles(t, 0, bs[..lo], Offset(bs, lo))
    ensures Tiles(t, Offset(bs, hi), bs[hi..], e)
    ensures Offset(bs, hi) + Total(bs[hi..]) == e
  {
    assert bs[..lo] + bs[lo..] == bs;
    TilesAppend(t, 0, bs[..lo], bs[lo..], e);
    assert bs[..hi] + bs[hi..] == bs;
    TilesAppend(t, 0, bs[..hi], bs[hi..], e);
    TilesTotal(t, Offset(bs, hi), bs[hi..], e);
  }

  /** Replacing the blocks `bs[lo..hi]` by `mid`, where the new tags for `mid`
      cover the same bytes and nothing outside them is written, yields a
      tiling of the spliced list. */
  lemma TilesSplice(t: map<int, int>, u: map<int, int>, bs: seq<Block>, e: int, lo: nat, hi: nat,
                    mid: seq<Block>, r: seq<Block>)
    requires Tiles(t, 0, bs, e)
    requires lo <= hi <= |bs|
    requires Tiles(u, Offset(bs, lo), mid, Offset(bs, hi))
    requires SameOutside(t, u, Offset(bs, lo), Offset(bs, hi))
    requires r == bs[..lo] + mid + bs[hi..]
    ensures Tiles(u, 0, r, e)
  {
    TilesCut(t, bs, e, lo, hi);
    TilesFrame(t, u, 0, bs[..lo], Offset(bs, lo));
    TilesFrame(t, u, Offset(bs, hi), bs[hi..], e);
    TilesJoin(u, bs[..lo], mid, bs[hi..], Offset(bs, lo), Offset(bs, hi), e);
  }

  /** Three adjacent tilings make one. */
  lemma TilesJoin(u: map<int, int>, a: seq<Block>, b: seq<Block>, c: seq<Block>, m1: int, m2: int, e: int)
    requires Tiles(u, 0, a, m1) && Tiles(u, m1, b, m2) && Tiles(u, m2, c, e)
    ensures Tiles(u, 0, a + b + c, e)
  {
    TilesTotal(u, 0, a, m1);
    TilesTotal(u, m1, b, m2);
    TilesAppend(u, m1, b, c, e);
    TilesAppend(u, 0, a, b + c, e);
    assert a + (b + c) == a + b + c;
  }
}
