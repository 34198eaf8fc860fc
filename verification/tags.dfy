/** Boundary tags: the signed integers written before and after every block
    of the pool. The absolute value is the payload size in bytes; a negative
    tag marks the block as used, a non-negative one as free. */
module Tags {

  /** Width of one header or footer tag, in bytes (`sizeof(int)` in the allocator). */
  const TagWidth: nat := 4

  /** Bookkeeping bytes per block: one header plus one footer. */
  const Overhead: nat := 2 * TagWidth

  /** What a tag says about its block. */
  datatype Block = Block(payload: nat, used: bool)

  function Abs(x: int): nat {
    if x < 0 then -x else x
  }

  /** Bytes the block occupies in the pool, tags included. */
  function Footprint(b: Block): nat {
    b.payload + Overhead
  }

  /** The tag written for a block. */
  function Encode(b: Block): int {
    if b.used then -(b.payload as int) else b.payload
  }

  /** The block a tag describes. Every tag decodes to a block whose encoding
      is that tag again, so no information is lost by reading a tag. */
  function Decode(t: int): (b: Block)
    ensures Encode(b) == t
    ensures b.payload == Abs(t)
  {
    if t < 0 then Block(-t, true) else Block(t, false)
  }

  /** A used block of payload 0 has tag 0, which reads back as free: it is
      the only block the tag encoding cannot represent. */
  lemma DecodeEncode(b: Block)
    ensures Decode(Encode(b)) == b <==> !(b.used && b.payload == 0)
  {
  }
}
