/** The constants and rounding macros of src/p5k-base/heap.h. */
module HeapLayout {
  import opened Base

  /** `HEAP_MAGIC`: the tag of a live header. */
  const HEAP_MAGIC: nat := 0xc0c0c0c0c0c0c0c0
  /** `HEAP_DEAD`: the tag written into a header that coalescing absorbed. */
  const HEAP_DEAD: nat := 0xdeaddeaddeaddead
  /** `HEAP_ALIGN`: block alignment, and also the size of every header. */
  const HEAP_ALIGN: nat := 64
  const HEAP_PAGE_SIZE: nat := 4096
  /** `HEAP_MIN_REQU`: the smallest arena asked of the backing source. */
  const HEAP_MIN_REQU: nat := 4096 * 4
  /** The fill byte of `HEAP_MAGIC`, the byte heap_node_check compares with. */
  const MAGIC_BYTE: nat := 0xc0

  /** `HEAP_ALIGNED(x)`: `(x + 63) & ~63` on a 64-bit `usize`. The addition
      wraps; the mask clears the low six bits, which is rounding down to a
      multiple of 64 (see `MaskIsFloor`). Below the wrap-around point the
      result is the least multiple of 64 that is at least `x`; it is 0 for
      `x` = 0 and for the 63 largest words, where the addition wraps. */
  function Aligned(x: nat): (r: nat)
    requires x < U64_LIMIT
    ensures r < U64_LIMIT && r % HEAP_ALIGN == 0
    ensures x + HEAP_ALIGN - 1 < U64_LIMIT ==> x <= r < x + HEAP_ALIGN
    ensures r == 0 <==> x == 0 || x + HEAP_ALIGN - 1 >= U64_LIMIT
  {
    var y := (x + HEAP_ALIGN - 1) % U64_LIMIT;
    y - y % HEAP_ALIGN
  }

  /** `HEAP_PAGE_ALIGNED(x)`: `(x + 4095) & ~4095` on a 64-bit `usize`;
      below the wrap-around point, the least multiple of 4096 that is at
      least `x`. */
  function PageAligned(x: nat): (r: nat)
    requires x < U64_LIMIT
    ensures r < U64_LIMIT && r % HEAP_PAGE_SIZE == 0
    ensures x + HEAP_PAGE_SIZE - 1 < U64_LIMIT ==> x <= r < x + HEAP_PAGE_SIZE
  {
    var y := (x + HEAP_PAGE_SIZE - 1) % U64_LIMIT;
    y - y % HEAP_PAGE_SIZE
  }

  /** Clearing the low six (twelve) bits of a 64-bit word is subtracting its
      remainder modulo 64 (4096): the masks of HEAP_ALIGNED and
      HEAP_PAGE_ALIGNED are the rounding `Aligned` and `PageAligned` do. */
  lemma MaskIsFloor(y: bv64)
    ensures y & !(63 as bv64) == y - y % 64
    ensures y & !(4095 as bv64) == y - y % 4096
  {
  }

  /** Both macros are idempotent on every `usize`, including those where
      the addition wraps: `heap_realloc` aligns a size and then `heap_alloc`
      aligns it again, which changes nothing. */
  lemma RoundingIdempotent(x: nat)
    requires x < U64_LIMIT
    ensures Aligned(x) < U64_LIMIT && Aligned(Aligned(x)) == Aligned(x)
    ensures PageAligned(x) < U64_LIMIT && PageAligned(PageAligned(x)) == PageAligned(x)
  {
  }

  /** Byte `j` of a 64-bit tag as `m[j]` sees it in memory (little-endian). */
  function TagByte(w: nat, j: nat): nat {
    (w / Pow256(j)) % 256
  }

  /** Byte `j` of `HEAP_MAGIC` is 0xc0. */
  lemma MagicByte(j: nat)
    requires j < 8
    ensures TagByte(HEAP_MAGIC, j) == MAGIC_BYTE
  {
    if j == 0 {
    } else if j == 1 {
      assert Pow256(1) == 0x100;
    } else if j == 2 {
      assert Pow256(2) == 0x1_0000;
    } else if j == 3 {
      assert Pow256(3) == 0x100_0000;
    } else if j == 4 {
      assert Pow256(4) == 0x1_0000_0000;
    } else if j == 5 {
      assert Pow256(5) == 0x100_0000_0000;
    } else if j == 6 {
      assert Pow256(6) == 0x1_0000_0000_0000;
    } else {
      assert Pow256(7) == 0x100_0000_0000_0000;
    }
  }

  /** Every byte of `HEAP_MAGIC` is 0xc0, and the two tags differ. */
  lemma MagicBytes()
    ensures forall j :: 0 <= j < 8 ==> TagByte(HEAP_MAGIC, j) == MAGIC_BYTE
    ensures HEAP_MAGIC != HEAP_DEAD
    ensures HEAP_MAGIC < U64_LIMIT && HEAP_DEAD < U64_LIMIT
  {
    forall j | 0 <= j < 8
      ensures TagByte(HEAP_MAGIC, j) == MAGIC_BYTE
    {
      MagicByte(j);
    }
  }

  /** A minimum-size arena is already a whole number of pages, and the
      alignment divides the page size. */
  lemma MinimumIsPageMultiple()
    ensures HEAP_MIN_REQU % HEAP_PAGE_SIZE == 0
    ensures PageAligned(HEAP_MIN_REQU) == HEAP_MIN_REQU
    ensures HEAP_PAGE_SIZE % HEAP_ALIGN == 0
  {
  }
}
