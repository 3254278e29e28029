/**
 * The arithmetic of the driver: the 32-bit range checks and the split of a
 * write `[address, address + size)` into page-program transactions
 * (spiflash.c, SPIF_uncheck_write).
 */
module Paging {
  import opened Wire

  /** `uint32_t` addition. */
  function Add32(a: u32, b: u32): u32
  {
    (a + b) % U32
  }

  /** The two range tests every public entry point starts with:
      `address > limit`, then `address + size > limit` in 32-bit arithmetic.
      When the sum does not wrap, they accept exactly the ranges that end
      within `limit`. */
  function CheckRange(address: u32, size: u32, limit: nat): (r: SpifRet)
    ensures r == Ok || r == AddrOutOfRange || r == SizeOutOfRange
    ensures r == AddrOutOfRange <==> address > limit
    ensures r == Ok && address + size < U32 ==> address + size <= limit
    ensures address + size <= limit ==> r == Ok
  {
    if address > limit then AddrOutOfRange
    else if Add32(address, size) > limit then SizeOutOfRange
    else Ok
  }

  /** As written, a range whose end wraps past 2^32 passes the checks. */
  lemma CheckRangeAcceptsWrap()
    ensures CheckRange(1, 0xFFFF_FFFF, VIRT_SIZE) == Ok
    ensures 1 + 0xFFFF_FFFF > VIRT_SIZE
  {
  }

  /** The evidently intended check, with the end computed without wrap-around:
      it accepts exactly the ranges that end within `limit`. */
  function CheckRangeWide(address: u32, size: u32, limit: nat): (r: SpifRet)
    ensures r == Ok <==> address + size <= limit
    ensures r == AddrOutOfRange <==> address > limit
    ensures r == CheckRange(address, size, limit) || address + size >= U32
  {
    if address > limit then AddrOutOfRange
    else if address + size > limit then SizeOutOfRange
    else Ok
  }

  /** A non-empty write that passes the range checks although its end wraps:
      the first-segment loop of SPIF_uncheck_write, counting in 16 bits up to
      a `write_count` of at least 2^32 - 2^26, then never ends. */
  predicate Hangs(address: u32, size: u32, limit: nat)
  {
    0 < size && CheckRange(address, size, limit) == Ok && address + size >= U32
  }

  /** `write_count` of the leading segment as the code computes it, with
      the comparison and the subtraction in 32-bit arithmetic. */
  function FirstCount32(address: u32, size: u32): u32
  {
    if Add32(address, size) >= Add32(FirstPage(address), PAGE_SIZE)
    then (FirstPage(address) + PAGE_SIZE - address) % U32
    else size
  }

  /** As written, every range that `Hangs` makes the leading segment count
      the whole size, beyond what the 16-bit counter `j` can reach. */
  lemma FirstLoopNeverEnds(address: u32, size: u32)
    requires Hangs(address, size, VIRT_SIZE)
    ensures FirstCount32(address, size) == size && size > 0xFFFF
  {
    SmallMod(FirstPage(address) + PAGE_SIZE, U32);
    assert Add32(address, size) == address + size - U32;
  }

  /** With the check done without wrap-around, the leading segment counts
      at most one page, as the code intends. */
  lemma WideCheckFirstCount(address: u32, size: u32)
    requires 0 < size && CheckRangeWide(address, size, VIRT_SIZE) == Ok
    ensures !Hangs(address, size, VIRT_SIZE)
    ensures address + size < U32
    ensures FirstCount32(address, size) == FirstCount(address, size) <= PAGE_SIZE
  {
    SmallMod(address + size, U32);
    SmallMod(FirstPage(address) + PAGE_SIZE, U32);
    SmallMod(FirstPage(address) + PAGE_SIZE - address, U32);
  }

  /** One page-program transaction: `len` bytes of the caller's buffer, from
      `offset` on, programmed at flash address `flash`. */
  datatype Segment = Segment(flash: nat, offset: nat, len: nat)

  predicate Covers(s: Segment, x: int)
  {
    s.flash <= x < s.flash + s.len
  }

  predicate CoveredBy(plan: seq<Segment>, x: int)
  {
    exists k :: 0 <= k < |plan| && Covers(plan[k], x)
  }

  /** A segment of the write `[address, address + size)` that is non-empty,
      stays inside one page and inside the range, and programs at flash
      address `x` the byte `buff[x - address]`. */
  predicate WellPlaced(address: nat, size: nat, s: Segment)
  {
    && 1 <= s.len
    && s.flash == address + s.offset
    && s.offset + s.len <= size
    && s.flash % PAGE_SIZE + s.len <= PAGE_SIZE
  }

  /** `first_page`: the start of the page holding `address`. */
  function FirstPage(address: u32): nat
  {
    address - address % PAGE_SIZE
  }

  /** `last_page`: the start of the page holding the last byte of the range. */
  function LastPage(address: u32, size: u32): nat
    requires 0 < size && address + size < U32
  {
    ((address + size - 1) / PAGE_SIZE) * PAGE_SIZE
  }

  /** `pages_count`: `size / 256 - 1`.  C computes it in `uint32_t`, giving
      0xFFFFFFFF when the write is shorter than a page; the conversion to
      `int32_t` is implementation-defined, and the model takes the value -1
      that two's-complement compilers such as GCC produce. */
  function PagesCount(size: u32): int
  {
    size / PAGE_SIZE - 1
  }

  /** `write_count` of the leading segment. */
  function FirstCount(address: u32, size: u32): nat
    requires address + size < U32
  {
    if address + size >= FirstPage(address) + PAGE_SIZE
    then FirstPage(address) + PAGE_SIZE - address
    else size
  }

  function FirstSegment(address: u32, size: u32): Segment
    requires address + size < U32
  {
    Segment(address, 0, FirstCount(address, size))
  }

  /** Interior transaction `i`: the whole page `first_page + 256 * (i + 1)`. */
  function MiddleSegment(address: u32, size: u32, i: nat): Segment
    requires address + size < U32
  {
    Segment(FirstPage(address) + PAGE_SIZE + i * PAGE_SIZE, i * PAGE_SIZE + FirstCount(address, size), PAGE_SIZE)
  }

  /** The trailing transaction is sent when `last_page && first_page != last_page`. */
  predicate HasTail(address: u32, size: u32)
    requires 0 < size && address + size < U32
  {
    LastPage(address, size) != 0 && FirstPage(address) != LastPage(address, size)
  }

  /** The trailing transaction: from `last_page` to the end of the range. */
  function TailSegment(address: u32, size: u32): Segment
    requires 0 < size && address + size < U32 && HasTail(address, size)
  {
    LastPageShape(address, size);
    var last := LastPage(address, size);
    Segment(last, last - address, address + size - last)
  }

  function Middles(address: u32, size: u32, count: int): seq<Segment>
    requires address + size < U32
  {
    seq(if count < 0 then 0 else count, i requires 0 <= i => MiddleSegment(address, size, i))
  }

  /** The transactions SPIF_uncheck_write sends, in order: the leading
      segment, `pages_count` interior pages, and the trailing segment. */
  function WritePlan(address: u32, size: u32): (plan: seq<Segment>)
    requires 0 < size && address + size < U32
  {
    [FirstSegment(address, size)]
    + Middles(address, size, PagesCount(size))
    + (if HasTail(address, size) then [TailSegment(address, size)] else [])
  }

  /** The trailing transaction, when sent, is the last one of the plan. */
  lemma WritePlanTail(address: u32, size: u32)
    requires 0 < size && address + size < U32
    ensures var plan := WritePlan(address, size);
      && |plan| == 1 + |Middles(address, size, PagesCount(size))| + (if HasTail(address, size) then 1 else 0)
      && plan[0] == FirstSegment(address, size)
      && (forall i :: 0 <= i < PagesCount(size) ==> plan[1 + i] == MiddleSegment(address, size, i))
      && (HasTail(address, size) ==> plan[|plan| - 1] == TailSegment(address, size))
  {
    LastPageShape(address, size);
  }

  /** Where the last page lies, from `address % 256` and `size % 256`. */
  lemma LastPageShape(address: u32, size: u32)
    requires 0 < size && address + size < U32
    ensures var c, q, r := address % PAGE_SIZE, size / PAGE_SIZE, size % PAGE_SIZE;
      && size == PAGE_SIZE * q + r
      && LastPage(address, size) == FirstPage(address) + PAGE_SIZE * (q + Carry(c, r))
  {
    var c, q, r := address % PAGE_SIZE, size / PAGE_SIZE, size % PAGE_SIZE;
    var f := address / PAGE_SIZE;
    var k := f + q + Carry(c, r);
    var e := address + size - 1;
    assert e == PAGE_SIZE * k + (c + r - 1 - PAGE_SIZE * Carry(c, r));
    DivModUnique(e, PAGE_SIZE, k, c + r - 1 - PAGE_SIZE * Carry(c, r));
  }

  /** How many pages past `size / 256` the range reaches (-1, 0 or 1). */
  function Carry(c: nat, r: nat): int
  {
    if c + r == 0 then -1 else if c + r <= PAGE_SIZE then 0 else 1
  }

  /** The leading segment is well placed. */
  lemma FirstPlaced(address: u32, size: u32)
    requires 0 < size && address + size < U32
    ensures WellPlaced(address, size, FirstSegment(address, size))
  {
  }

  /** Interior page `i` is well placed when the page after it still starts
      within the range. */
  lemma MiddlePlaced(address: u32, size: u32, i: nat)
    requires 0 < size && address + size < U32
    requires FirstPage(address) + PAGE_SIZE * (i + 2) <= address + size
    ensures WellPlaced(address, size, MiddleSegment(address, size, i))
  {
    var f := address / PAGE_SIZE;
    DivModUnique(FirstPage(address) + PAGE_SIZE + i * PAGE_SIZE, PAGE_SIZE, f + 1 + i, 0);
  }

  /** The trailing segment is well placed. */
  lemma TailPlaced(address: u32, size: u32)
    requires 0 < size && address + size < U32 && HasTail(address, size)
    ensures WellPlaced(address, size, TailSegment(address, size))
  {
    LastPageShape(address, size);
    var q := size / PAGE_SIZE;
    var k := address / PAGE_SIZE + q + Carry(address % PAGE_SIZE, size % PAGE_SIZE);
    DivModUnique(LastPage(address, size), PAGE_SIZE, k, 0);
  }

  /** Every transaction of SPIF_uncheck_write is non-empty, stays in one
      page and in the range, and programs at flash address `x` the byte
      `buff[x - address]`. */
  lemma WritePlanPlacement(address: u32, size: u32)
    requires 0 < size && address + size < U32
    ensures forall k :: 0 <= k < |WritePlan(address, size)| ==> WellPlaced(address, size, WritePlan(address, size)[k])
  {
    forall k | 0 <= k < |WritePlan(address, size)|
      ensures WellPlaced(address, size, WritePlan(address, size)[k])
    {
      WritePlanPlacedAt(address, size, k);
    }
  }

  lemma WritePlanPlacedAt(address: u32, size: u32, k: nat)
    requires 0 < size && address + size < U32 && k < |WritePlan(address, size)|
    ensures WellPlaced(address, size, WritePlan(address, size)[k])
  {
    var plan := WritePlan(address, size);
    WritePlanTail(address, size);
    if k == 0 {
      FirstPlaced(address, size);
    } else if k <= PagesCount(size) {
      var i := k - 1;
      assert plan[1 + i] == MiddleSegment(address, size, i);
      MiddlePlaced(address, size, i);
    } else {
      TailPlaced(address, size);
    }
  }

  /** Every transaction of the plan takes its bytes from within the buffer. */
  lemma WritePlanBounded(address: u32, size: u32)
    requires 0 < size && address + size < U32
    ensures forall k :: 0 <= k < |WritePlan(address, size)| ==>
      WritePlan(address, size)[k].offset + WritePlan(address, size)[k].len <= size
  {
    WritePlanPlacement(address, size);
  }

  /** When `size < 256` or `address % 256 + size % 256 <= 256`, every byte of
      the range is programmed by some transaction. */
  lemma WritePlanCovers(address: u32, size: u32)
    requires 0 < size && address + size < U32
    requires size < PAGE_SIZE || address % PAGE_SIZE + size % PAGE_SIZE <= PAGE_SIZE
    ensures forall x :: address <= x < address + size ==> CoveredBy(WritePlan(address, size), x)
  {
    var plan := WritePlan(address, size);
    WritePlanTail(address, size);
    LastPageShape(address, size);
    var first, last := FirstPage(address), LastPage(address, size);
    forall x | address <= x < address + size
      ensures CoveredBy(plan, x)
    {
      if x < first + PAGE_SIZE {
        assert Covers(plan[0], x);
      } else if x >= last {
        assert Covers(plan[|plan| - 1], x);
      } else {
        var t := (x - first) / PAGE_SIZE;
        DivModUnique(x - first, PAGE_SIZE, t, (x - first) % PAGE_SIZE);
        assert 1 <= t < size / PAGE_SIZE;
        assert Covers(plan[t], x);
      }
    }
  }

  /** Otherwise the page just below the last one, which lies inside the
      range, is never programmed: `pages_count = size / 256 - 1` stops one
      interior page short. */
  lemma WritePlanSkipsPage(address: u32, size: u32)
    requires 0 < size && address + size < U32
    requires size >= PAGE_SIZE && address % PAGE_SIZE + size % PAGE_SIZE > PAGE_SIZE
    ensures address < LastPage(address, size) - PAGE_SIZE && LastPage(address, size) < address + size
    ensures forall x :: LastPage(address, size) - PAGE_SIZE <= x < LastPage(address, size) ==>
      !CoveredBy(WritePlan(address, size), x)
  {
    var plan := WritePlan(address, size);
    WritePlanTail(address, size);
    LastPageShape(address, size);
    var first, last := FirstPage(address), LastPage(address, size);
    forall x, k | last - PAGE_SIZE <= x < last && 0 <= k < |plan|
      ensures !Covers(plan[k], x)
    {
      if 1 <= k <= PagesCount(size) {
        assert plan[k] == MiddleSegment(address, size, k - 1);
      }
    }
  }

  /** SPIF_uncheck_write programs the whole range exactly when
      `size < 256` or `address % 256 + size % 256 <= 256`. */
  lemma WritePlanCoverage(address: u32, size: u32)
    requires 0 < size && address + size < U32
    ensures (forall x :: address <= x < address + size ==> CoveredBy(WritePlan(address, size), x))
      <==> (size < PAGE_SIZE || address % PAGE_SIZE + size % PAGE_SIZE <= PAGE_SIZE)
  {
    if size < PAGE_SIZE || address % PAGE_SIZE + size % PAGE_SIZE <= PAGE_SIZE {
      WritePlanCovers(address, size);
    } else {
      WritePlanSkipsPage(address, size);
      var x := LastPage(address, size) - PAGE_SIZE;
      assert address <= x < address + size && !CoveredBy(WritePlan(address, size), x);
    }
  }

  /** Writing 400 bytes at 200 leaves the page 256..511 unprogrammed. */
  lemma WritePlanSkipExample()
    ensures forall x :: 256 <= x < 512 ==> !CoveredBy(WritePlan(200, 400), x)
  {
    WritePlanSkipsPage(200, 400);
    assert LastPage(200, 400) == 512;
  }

  /** A page-aligned write of `k * 256` bytes with `k >= 2` sends its last
      page twice, as the last interior page and as the trailing segment. */
  lemma WritePlanRepeatsLastPage(address: u32, size: u32)
    requires 0 < size && address + size < U32
    requires address % PAGE_SIZE == 0 && size % PAGE_SIZE == 0 && size >= 2 * PAGE_SIZE
    ensures var plan := WritePlan(address, size);
      && |plan| == size / PAGE_SIZE + 1
      && plan[|plan| - 2] == plan[|plan| - 1]
      && plan[|plan| - 1] == Segment(address + size - PAGE_SIZE, size - PAGE_SIZE, PAGE_SIZE)
  {
    WritePlanTail(address, size);
    LastPageShape(address, size);
  }

  /** The interior page count evidently intended: the pages strictly
      between the first and the last page of the range. */
  function IntendedPagesCount(address: u32, size: u32): int
    requires 0 < size && address + size < U32
  {
    LastPageShape(address, size);
    (LastPage(address, size) - FirstPage(address)) / PAGE_SIZE - 1
  }

  /** The split with the intended interior page count. */
  function IntendedPlan(address: u32, size: u32): seq<Segment>
    requires 0 < size && address + size < U32
  {
    [FirstSegment(address, size)]
    + Middles(address, size, IntendedPagesCount(address, size))
    + (if HasTail(address, size) then [TailSegment(address, size)] else [])
  }

  /** The intended split programs every byte of the range exactly once:
      its transactions are well placed, cover the range, and follow each
      other in address order without overlapping. */
  lemma IntendedPlanExact(address: u32, size: u32)
    requires 0 < size && address + size < U32
    ensures var plan := IntendedPlan(address, size);
      && (forall k :: 0 <= k < |plan| ==> WellPlaced(address, size, plan[k]))
      && (forall x :: address <= x < address + size ==> CoveredBy(plan, x))
      && (forall k1, k2 :: 0 <= k1 < k2 < |plan| ==> plan[k1].flash + plan[k1].len <= plan[k2].flash)
  {
    IntendedPlanPlaced(address, size);
    IntendedPlanCovers(address, size);
    IntendedPlanOrdered(address, size);
  }

  /** The interior pages of the intended split, never negative. */
  function IntendedMiddles(address: u32, size: u32): nat
    requires 0 < size && address + size < U32
  {
    var m := IntendedPagesCount(address, size);
    if m < 0 then 0 else m
  }

  /** The intended split is the leading segment, one interior page for each
      page strictly between the first and the last, and the trailing
      segment; the last page lies that many pages past the first. */
  lemma IntendedPlanShape(address: u32, size: u32)
    requires 0 < size && address + size < U32
    ensures var plan, n := IntendedPlan(address, size), IntendedMiddles(address, size);
      && |plan| == 1 + n + (if HasTail(address, size) then 1 else 0)
      && plan[0] == FirstSegment(address, size)
      && (forall i :: 0 <= i < n ==> plan[1 + i] == MiddleSegment(address, size, i))
      && (HasTail(address, size) ==> plan[|plan| - 1] == TailSegment(address, size))
      && LastPage(address, size) == FirstPage(address) + PAGE_SIZE * (IntendedPagesCount(address, size) + 1)
  {
    LastPageShape(address, size);
    var first, last := FirstPage(address), LastPage(address, size);
    var pages := size / PAGE_SIZE + Carry(address % PAGE_SIZE, size % PAGE_SIZE);
    DivModUnique(last - first, PAGE_SIZE, pages, 0);
  }

  lemma IntendedPlanPlaced(address: u32, size: u32)
    requires 0 < size && address + size < U32
    ensures var plan := IntendedPlan(address, size);
      forall k :: 0 <= k < |plan| ==> WellPlaced(address, size, plan[k])
  {
    var plan, n := IntendedPlan(address, size), IntendedMiddles(address, size);
    IntendedPlanShape(address, size);
    forall k | 0 <= k < |plan|
      ensures WellPlaced(address, size, plan[k])
    {
      if k == 0 {
        FirstPlaced(address, size);
      } else if k <= n {
        MiddlePlaced(address, size, k - 1);
      } else {
        TailPlaced(address, size);
      }
    }
  }

  lemma IntendedPlanCovers(address: u32, size: u32)
    requires 0 < size && address + size < U32
    ensures var plan := IntendedPlan(address, size);
      forall x :: address <= x < address + size ==> CoveredBy(plan, x)
  {
    var plan := IntendedPlan(address, size);
    IntendedPlanShape(address, size);
    LastPageShape(address, size);
    var first, last := FirstPage(address), LastPage(address, size);
    forall x | address <= x < address + size
      ensures CoveredBy(plan, x)
    {
      if x < first + PAGE_SIZE {
        assert Covers(plan[0], x);
      } else if x >= last {
        assert Covers(plan[|plan| - 1], x);
      } else {
        var t := (x - first) / PAGE_SIZE;
        DivModUnique(x - first, PAGE_SIZE, t, (x - first) % PAGE_SIZE);
        assert Covers(plan[t], x);
      }
    }
  }

  lemma IntendedPlanOrdered(address: u32, size: u32)
    requires 0 < size && address + size < U32
    ensures var plan := IntendedPlan(address, size);
      forall k1, k2 :: 0 <= k1 < k2 < |plan| ==> plan[k1].flash + plan[k1].len <= plan[k2].flash
  {
    var plan := IntendedPlan(address, size);
    IntendedPlanShape(address, size);
    LastPageShape(address, size);
    forall k1, k2 | 0 <= k1 < k2 < |plan|
      ensures plan[k1].flash + plan[k1].len <= plan[k2].flash
    {
    }
  }
}
