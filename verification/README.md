# Boundary-tag best-fit allocator, modelled in Dafny

This project models `myalloc.c`. It is a heap allocator over one fixed pool of
`MEMORY_SIZE` bytes. Every block in the pool is a 4-byte header tag, a payload
and a 4-byte footer tag. Header and footer hold the same signed integer. Its
absolute value is the payload size; a negative tag means "used" and a
non-negative one means "free". The allocator has three operations:

- `init_myalloc` writes a single free block across the whole pool.
- `myalloc(size)` scans the blocks for the best fit. It then splits the chosen
  block into a used block of `size` bytes and a free leftover block, and
  returns the payload address.
- `myfree(ptr)` marks the block free. It then merges the block with a free
  right neighbour and with a free left neighbour, using their tags.

The model has two levels.

- **Tag store.** A pool is `Pool(size, tags)`. `tags` is a `map<int, int>`
  from byte offset to the 4-byte tag stored there. The operations write tags
  at the same offsets, in the same order, as the C code.
- **Block list.** A `seq<Block(payload, used)>`. `Layout.Walk` is the
  abstraction function that reads a block list out of the tags from offset 0.
  It follows headers as the loop at `myalloc.c:95-120` does, and also checks
  every footer against its header (I2). The allocator never makes that check,
  and its loop never fails: it stops once the offset reaches `MEMORY_SIZE`.
  That loop, as written, is `Allocator.Scan`. `Layout.Tiles` states that the
  tags hold a given block list.

The block-level operations (`BlockList.Split`, `BlockList.Release`) are proved
to be exactly what the tag writes do. The invariants are then proved on block
lists:

- I1: the blocks tile `[0, MEMORY_SIZE)`.
- I2: every header equals its footer.
- I3: no two neighbouring blocks are both free.

Modules, one per file:

- `Options`: the optional result.
- `Tags`: the tag encoding.
- `Layout`: offsets, the scan, tilings.
- `BlockList`: best fit, split, release, and their properties.
- `Steps`: the tag writes of `myalloc` and `myfree`, step by step.
- `Allocator`: `Init`, `Scan`, `Alloc`, `Free` on a pool.
- `Scenarios`: small concrete cases.

Behaviour as the code is written:

- **Ties in best fit go to the LAST block scanned.** The comment at
  `myalloc.c:106-107` says the candidate changes only for a smaller block,
  but `myalloc.c:112` replaces it when `header <= candidate`, so of two
  equally small qualifying blocks the later one is chosen. The model follows
  line 112. See `BlockList.IsBestFit` and `Scenarios.BestFitTieGoesToLast`.
- **A zero-byte request writes tag `-0 == 0`.** That tag reads back as a free
  block of payload 0, placed next to the free leftover. `myfree` treats it as
  free too. This is modelled as written, so I3 is proved for allocation only
  when `size > 0` (`BlockList.ZeroSizeSplitBreaksNoAdjacentFree`). Freeing
  such a block right after allocating it still restores the block list.
- **A tight fit leaves a free block of payload 0.** This happens when the
  chosen payload is exactly `size + 8`, and it is kept.

## Model

| member | source | states |
|---|---|---|
| `Tags.Decode` | myalloc.c:130-139 | Reading a tag gives a block whose payload is the tag's absolute value, and whose encoding is that tag again. |
| `Tags.DecodeEncode` | myalloc.c:133-139 | Decoding the tag written for a block gives that block back exactly when the block is not a used block of payload 0. |
| `Layout.FindBlock` | myalloc.c:160-164 | Finds the block whose header is at a given offset, or none. The answer is unique, because headers sit at strictly increasing offsets. |
| `Layout.TilesTotal` | myalloc.c:95-120 | I1: the footprints of the blocks the tags hold (payload + 8 each) add up to exactly the scanned range. |
| `Layout.WalkTiles` | myalloc.c:95-120 | The abstraction walk succeeds with a block list exactly when the tags tile the pool with that list. The walk follows headers by `abs(header)+8` as the loop does, plus a footer check the loop does not make. |
| `Layout.TilesAt` | myalloc.c:163-164 | I2: in a tiling, block `i`'s header is at its offset and decodes to the block, and its footer equals its header. |
| `Layout.TilesSplice` | myalloc.c:130-143 | New tags for a run of blocks that cover the same bytes, with nothing written elsewhere, tile the spliced block list. All other blocks are unchanged. |
| `BlockList.BestFit` | myalloc.c:99-117 | The chosen block fits, no fitting block is smaller, and every later fitting block is strictly larger. The result is None exactly when no block fits. |
| `BlockList.BestFitUnique` | myalloc.c:99-117 | At most one block satisfies the best-fit condition. |
| `BlockList.SplitPreservesTotal` | myalloc.c:130-143 | The used block and the leftover occupy exactly the bytes of the chosen block. |
| `BlockList.Split` | myalloc.c:130-143 | The block-level effect of the split: block `i` becomes a used block of `size` followed by a free leftover of `payload - size - 8`. `Steps.CarveTiles` states that the tag writes produce this list, and `BlockList.SplitPreservesTotal` that it covers the same bytes. |
| `BlockList.SplitKeepsNoAdjacentFree` | myalloc.c:130-143 | Allocating a positive size keeps I3. |
| `BlockList.ZeroSizeSplitBreaksNoAdjacentFree` | myalloc.c:130-143 | For every block list and every block that can serve a 0-byte request, the split puts a free block of payload 0 at that index, right before the free leftover, so I3 fails. |
| `BlockList.ReleaseShape` | myalloc.c:167-185 | Release replaces the block and its free neighbours by one free block with the same total footprint. With both neighbours free, its payload is the sum of the three payloads plus 16. |
| `BlockList.Release` | myalloc.c:162-186 | The block-level effect of `myfree`: mark free, then merge right, then merge left. `BlockList.ReleaseShape` states the result, and `Steps.ReleaseTagsTiles` that the tag writes produce it. |
| `BlockList.ReleasePreservesTotal` | myalloc.c:167-185 | Release neither creates nor loses bytes. |
| `BlockList.ReleaseKeepsNoAdjacentFree` | myalloc.c:167-185 | Release keeps I3. |
| `BlockList.ReleaseSplitRoundTrip` | myalloc.c:130-185 | With I3, releasing the block just split off gives back the block list from before the split. |
| `Steps.CarveTiles` | myalloc.c:130-143 | The split's tag writes tile the pool with the split block list. They write nothing outside the chosen block and leave `-size` in the used block's footer. |
| `Steps.Carve` | myalloc.c:130-143 | The split's four tag writes, in the order of lines 130, 133, 139 and 143. The last one is placed through the leftover header just written. `Steps.CarveTiles` states their effect. |
| `Steps.MarkTagsTiles` | myalloc.c:163-164 | Writing `abs(header)` to header and footer marks block `i` free and keeps its size. |
| `Steps.MarkTags` | myalloc.c:163-164 | The two writes that mark the block free: header := `abs(header)`, then the footer found through the new header := header. `Steps.MarkTagsTiles` states their effect. |
| `Steps.RightTagsTiles` | myalloc.c:167-177 | The right-merge writes absorb a free right neighbour, giving payload `h + hn + 8`. They change nothing when there is no right neighbour or it is used. Every tag they read is in the store at an offset in `[0, MEMORY_SIZE)`. |
| `Steps.RightTags` | myalloc.c:167-177 | The right-merge writes: end-of-pool and free tests on the next header, then header += next header, header += 8, footer := header. `Steps.RightTagsTiles` states their effect and the bounds of their reads. |
| `Steps.LeftTagsTiles` | myalloc.c:179-186 | The left-merge writes let a free left neighbour absorb the (possibly merged) block, giving payload `prev + cur + 8`. They change nothing for the first block or a used neighbour. Every tag they read is in the store at an offset in `[0, MEMORY_SIZE)`. |
| `Steps.LeftTags` | myalloc.c:179-186 | The left-merge writes: first-block and free tests on the previous footer, then the previous header += header + 8, and this block's footer := that header. `Steps.LeftTagsTiles` states their effect and the bounds of their reads. |
| `Steps.ReleaseTagsTiles` | myalloc.c:162-186 | The mark, right-merge and left-merge writes, in that order, are each defined on the store they meet, and together they tile the pool with `Release` of the block. |
| `Allocator.Init` | myalloc.c:55-61 | After init the pool holds exactly one free block. Its header at 0 and footer at `MEMORY_SIZE-4` are both `MEMORY_SIZE-8`, whatever the memory held before. I1-I3 hold. |
| `Allocator.Qualifies` | myalloc.c:101-110 | With a non-negative request, a header qualifies exactly when its block fits. So a used block never qualifies. |
| `Allocator.Scan` | myalloc.c:91-120 | The scan loop ends and returns the header offset of the best-fit block, or None when no block fits. |
| `Allocator.ScanStep` | myalloc.c:99-119 | One scan step read off the tags. The next header lies `abs(header) + 8` further on. The best fit so far moves to the current block exactly when its header qualifies and is no larger than the best one's, or when nothing has qualified yet. |
| `Allocator.CarveOutcome` | myalloc.c:130-143 | After the split's tag writes, the pool is valid and holds the split block list, with the used block at `loc + 4`. No tag outside the chosen block changes, and the used footer holds `-size`. |
| `Allocator.CarveBlock` | myalloc.c:130-149 | The split and the address computed back through the used footer. The address is the header offset + 4, and the block there decodes from `-size`. I3 holds afterwards when `size > 0`. With I3, freeing that address restores the block list. |
| `Allocator.Alloc` | myalloc.c:86-150 | On failure: None, with every tag unchanged. On success: the best-fit block is split, the result is its header offset + 4, and no tag outside it changes. I3 holds afterwards when `size > 0`. With I3, freeing the result restores the block list. |
| `Allocator.Free` | myalloc.c:160-188 | Freeing the block at `addr` leaves a valid pool whose block list is the block-level release of that block. |
| `Allocator.FreeKeepsInv` | myalloc.c:160-188 | Freeing any block of a pool that satisfies I1-I3 keeps them. |
| `Scenarios.BestFitPicksSmallest` | myalloc.c:99-117 | For free payloads 40, 20 and 25 and a request of 10, the 20-byte block is chosen. |
| `Scenarios.BestFitTieGoesToLast` | myalloc.c:112-115 | Of two equal qualifying blocks, the later one is chosen. |
| `Scenarios.SplitSixteenFromHundred` | myalloc.c:130-143 | 16 bytes taken from a payload of 100 leave a used 16 and a free 76. |
| `Scenarios.SecondFiftyExhausts` | myalloc.c:123-128 | In a pool with 100 payload bytes, a first request of 50 succeeds and leaves 42 free. A second request of 50 fails. |
| `Scenarios.ZeroFromHundred` | myalloc.c:130-143 | A 0-byte request on a free payload of 100 gives a free block of payload 0 followed by a free 92, so two free blocks are neighbours. |

## Left out

- Obtaining the pool with `malloc`, and `abort` when that fails (`myalloc.c:44-50`), are left out. `Init` takes the pool size (at least 8) and the previous memory contents as parameters.
- The diagnostics printed with `fprintf` on failure are left out. A failed `Alloc` returns None, which stands for the null pointer.
- The globals `MEMORY_SIZE` and `mem` and the scratch pointers `freeptr` and `locPtr` are not modelled as globals. The pool is a value passed to each operation, and the scratch pointers are locals.
- Tags are modelled as whole map entries, not as 4 raw bytes reinterpreted through `*(int *)`. Alignment is not modelled. Stale tags left inside merged payloads are kept as separate entries, even where a real write would partly overwrite them. Every tag the operations read belongs to a live block, and live tags never overlap, so this does not change any result.
- Payload bytes are not modelled, since the allocator never reads or writes them.
- `myfree` reads the next header before checking it against the end of the pool (`myalloc.c:167-169`), and reads `mem - 4` when freeing the first block (`myalloc.c:179`). Both are out-of-bounds reads. In the model the bound check comes first, and these reads are not reproduced.
- `Free` does not check that a pointer is valid or still allocated. Its precondition asks only that `addr` be the payload address of some block of the pool. That is weaker than "a live allocation", and the model is defined for it.
- Negative request sizes are excluded by `Alloc`'s precondition, since the code does not check for them.
- Integer overflow of `size + 8` and of the merged tag sums is not modelled: tags are unbounded integers.
- Allocator.Alloc: keeps I3 only for `size > 0`. A zero-byte request breaks I3 in the code as written.
