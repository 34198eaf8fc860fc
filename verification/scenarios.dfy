/** Concrete scenarios for the block-level operations, with tag width 4. */
module Scenarios {

  import opened Options
  import opened Tags
  import opened BlockList

  /** Free payloads 40, 20 and 25 separated by used blocks: a request of 10
      bytes needs a free payload of at least 18 and takes the 20-byte block,
      not the first one that fits. */
  lemma BestFitPicksSmallest()
    ensures BestFit([Block(40, false), Block(8, true), Block(20, false), Block(8, true), Block(25, false)], 10) == Some(2)
  {
  }

  /** Between two qualifying blocks of equal size the later one wins, as the
      scan replaces its candidate on `<=`. */
  lemma BestFitTieGoesToLast()
    ensures BestFit([Block(20, false), Block(8, true), Block(20, false)], 10) == Some(2)
  {
  }

  /** Allocating 16 bytes from a free payload of 100 leaves a used block of
      16 and a free block of 100 - 16 - 8 = 76. */
  lemma SplitSixteenFromHundred()
    ensures Split([Block(100, false)], 0, 16) == [Block(16, true), Block(76, false)]
  {
  }

  /** A pool with 100 payload bytes serves one request of 50, leaving 42
      free; a second request of 50 finds no block and fails. */
  lemma SecondFiftyExhausts()
    ensures BestFit([Block(100, false)], 50) == Some(0)
    ensures Split([Block(100, false)], 0, 50) == [Block(50, true), Block(42, false)]
    ensures BestFit([Block(50, true), Block(42, false)], 50).None?
  {
  }

  /** Allocating 0 bytes from a free payload of 100 writes tag 0, read back
      as a free block of payload 0 beside the free leftover of 92. */
  lemma ZeroFromHundred()
    ensures Split([Block(100, false)], 0, 0) == [Block(0, false), Block(92, false)]
    ensures !NoAdjacentFree(Split([Block(100, false)], 0, 0))
  {
    ZeroSizeSplitBreaksNoAdjacentFree([Block(100, false)], 0);
  }
}
