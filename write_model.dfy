/**
 * What the driver's writes do to the cells of a region, as functions of
 * the region's memory: the effect of the page-program transactions of
 * SPIF_uncheck_write, of SPIF_fast_write, and of the page-by-page verified
 * write SPIF_write, with the evidently intended verified write beside it.
 */
module WriteModel {
  import opened Wire
  import opened Nor
  import opened Paging

  /** The buffer bytes one transaction sends. */
  function SegmentData(buff: seq<byte>, s: Segment): (data: seq<byte>)
    requires s.offset + s.len <= |buff|
    ensures |data| == s.len
  {
    buff[s.offset..s.offset + s.len]
  }

  /** A well-placed transaction sends for flash address `x` the buffer byte
      at `x - address`. */
  lemma SegmentDataAt(address: nat, buff: seq<byte>, s: Segment, x: int)
    requires WellPlaced(address, |buff|, s) && Covers(s, x)
    ensures SegmentData(buff, s)[x - s.flash] == buff[x - address]
  {
  }

  predicate FitsBuffer(plan: seq<Segment>, buff: seq<byte>)
  {
    forall k :: 0 <= k < |plan| ==> plan[k].offset + plan[k].len <= |buff|
  }

  /** Memory after the transactions of `plan`, in order; each reaches the
      chip with the low 24 bits of its address. */
  function ApplyPlan(m: Memory, plan: seq<Segment>, buff: seq<byte>): Memory
    requires FitsBuffer(plan, buff)
    decreases |plan|
  {
    if plan == [] then m
    else
      var s := plan[|plan| - 1];
      Program(ApplyPlan(m, plan[..|plan| - 1], buff), s.flash % SPACE, SegmentData(buff, s))
  }

  /** With well-placed transactions and no aliasing, a byte that some
      transaction covers is ANDed with its buffer byte, and every other byte
      keeps its value; a byte programmed twice with the same data is
      unaffected by the repetition. */
  lemma {:induction false} ApplyPlanAt(m: Memory, address: nat, plan: seq<Segment>, buff: seq<byte>, y: nat)
    requires address + |buff| <= SPACE && y < SPACE
    requires forall k :: 0 <= k < |plan| ==> WellPlaced(address, |buff|, plan[k])
    ensures FitsBuffer(plan, buff)
    ensures ApplyPlan(m, plan, buff)[y] ==
      if CoveredBy(plan, y) && address <= y < address + |buff| then m[y] & buff[y - address] else m[y]
    ensures CoveredBy(plan, y) ==> address <= y < address + |buff|
    decreases |plan|
  {
    if plan != [] {
      var p := plan[..|plan| - 1];
      assert forall k :: 0 <= k < |p| ==> p[k] == plan[k];
      ApplyPlanAt(m, address, p, buff, y);
      ApplyPlanStep(m, address, plan, buff, y);
    }
  }

  /** The induction step of `ApplyPlanAt`. */
  lemma ApplyPlanStep(m: Memory, address: nat, plan: seq<Segment>, buff: seq<byte>, y: nat)
    requires address + |buff| <= SPACE && y < SPACE && plan != []
    requires forall k :: 0 <= k < |plan| ==> WellPlaced(address, |buff|, plan[k])
    requires FitsBuffer(plan[..|plan| - 1], buff)
    requires ApplyPlan(m, plan[..|plan| - 1], buff)[y] ==
      if CoveredBy(plan[..|plan| - 1], y) && address <= y < address + |buff| then m[y] & buff[y - address] else m[y]
    ensures FitsBuffer(plan, buff)
    ensures ApplyPlan(m, plan, buff)[y] ==
      if CoveredBy(plan, y) && address <= y < address + |buff| then m[y] & buff[y - address] else m[y]
    ensures CoveredBy(plan, y) ==> address <= y < address + |buff|
  {
    PlacedInRange(address, plan, buff, y);
    ApplyPlanLast(m, address, plan, buff, y);
    CoveredBySplit(plan, y);
  }

  /** Well-placed segments read inside the buffer and program inside the
      range. */
  lemma PlacedInRange(address: nat, plan: seq<Segment>, buff: seq<byte>, y: int)
    requires forall k :: 0 <= k < |plan| ==> WellPlaced(address, |buff|, plan[k])
    ensures FitsBuffer(plan, buff)
    ensures plan != [] ==> WellPlaced(address, |buff|, plan[|plan| - 1])
    ensures CoveredBy(plan, y) ==> address <= y < address + |buff|
  {
    if CoveredBy(plan, y) {
      var k :| 0 <= k < |plan| && Covers(plan[k], y);
      assert WellPlaced(address, |buff|, plan[k]);
    }
  }

  /** The last transaction of a plan programs its own segment over what the
      others left. */
  lemma ApplyPlanLast(m: Memory, address: nat, plan: seq<Segment>, buff: seq<byte>, y: nat)
    requires address + |buff| <= SPACE && y < SPACE
    requires plan != [] && FitsBuffer(plan, buff) && WellPlaced(address, |buff|, plan[|plan| - 1])
    ensures var s := plan[|plan| - 1];
      var before := ApplyPlan(m, plan[..|plan| - 1], buff)[y];
      ApplyPlan(m, plan, buff)[y] == if Covers(s, y) then before & buff[y - address] else before
  {
    var p, s := plan[..|plan| - 1], plan[|plan| - 1];
    ApplyPlanUnfold(m, plan, buff);
    ProgramWithinPage(ApplyPlan(m, p, buff), s.flash, SegmentData(buff, s), y);
    if Covers(s, y) {
      SegmentDataAt(address, buff, s, y);
    }
  }

  /** A plan is its prefix followed by its last transaction, which reaches
      the chip with its address unchanged when that is below 2^24. */
  lemma ApplyPlanUnfold(m: Memory, plan: seq<Segment>, buff: seq<byte>)
    requires plan != [] && FitsBuffer(plan, buff) && plan[|plan| - 1].flash < SPACE
    ensures FitsBuffer(plan[..|plan| - 1], buff)
    ensures ApplyPlan(m, plan, buff) ==
      Program(ApplyPlan(m, plan[..|plan| - 1], buff), plan[|plan| - 1].flash, SegmentData(buff, plan[|plan| - 1]))
  {
    SmallMod(plan[|plan| - 1].flash, SPACE);
  }

  lemma CoveredBySplit(plan: seq<Segment>, y: int)
    requires plan != []
    ensures CoveredBy(plan, y) <==> CoveredBy(plan[..|plan| - 1], y) || Covers(plan[|plan| - 1], y)
  {
    var p := plan[..|plan| - 1];
    if CoveredBy(plan, y) && !Covers(plan[|plan| - 1], y) {
      var k :| 0 <= k < |plan| && Covers(plan[k], y);
      assert k < |p| && Covers(p[k], y);
    }
    if CoveredBy(p, y) {
      var k :| 0 <= k < |p| && Covers(p[k], y);
      assert Covers(plan[k], y);
    }
  }

  /** Memory after the transactions SPIF_uncheck_write sends. */
  function PlanEffect(m: Memory, address: u32, buff: seq<byte>): Memory
    requires 0 < |buff| && address + |buff| < U32
  {
    WritePlanBounded(address, |buff|);
    ApplyPlan(m, WritePlan(address, |buff|), buff)
  }

  /** When `size < 256` or `address % 256 + size % 256 <= 256` (and the range
      stays below 2^24), the write ANDs the buffer into exactly the range. */
  lemma PlanEffectCovered(m: Memory, address: u32, buff: seq<byte>)
    requires 0 < |buff| && address + |buff| <= SPACE
    requires |buff| < PAGE_SIZE || address % PAGE_SIZE + |buff| % PAGE_SIZE <= PAGE_SIZE
    ensures forall y :: 0 <= y < SPACE ==>
      PlanEffect(m, address, buff)[y] == if address <= y < address + |buff| then m[y] & buff[y - address] else m[y]
  {
    var plan := WritePlan(address, |buff|);
    WritePlanPlacement(address, |buff|);
    WritePlanCovers(address, |buff|);
    forall y | 0 <= y < SPACE
      ensures PlanEffect(m, address, buff)[y] == if address <= y < address + |buff| then m[y] & buff[y - address] else m[y]
    {
      ApplyPlanAt(m, address, plan, buff, y);
      if CoveredBy(plan, y) {
        var k :| 0 <= k < |plan| && Covers(plan[k], y);
        assert WellPlaced(address, |buff|, plan[k]);
      }
    }
  }

  /** Otherwise the page below the last one keeps its old contents although
      it lies inside the range. */
  lemma PlanEffectSkipsPage(m: Memory, address: u32, buff: seq<byte>)
    requires 0 < |buff| && address + |buff| <= SPACE
    requires |buff| >= PAGE_SIZE && address % PAGE_SIZE + |buff| % PAGE_SIZE > PAGE_SIZE
    ensures address < LastPage(address, |buff|) - PAGE_SIZE && LastPage(address, |buff|) < address + |buff|
    ensures forall y :: LastPage(address, |buff|) - PAGE_SIZE <= y < LastPage(address, |buff|) ==>
      PlanEffect(m, address, buff)[y] == m[y]
  {
    WritePlanPlacement(address, |buff|);
    WritePlanSkipsPage(address, |buff|);
    forall y | LastPage(address, |buff|) - PAGE_SIZE <= y < LastPage(address, |buff|)
      ensures PlanEffect(m, address, buff)[y] == m[y]
    {
      ApplyPlanAt(m, address, WritePlan(address, |buff|), buff, y);
    }
  }

  /** The bytes a read of `n` bytes at `a` returns: consecutive cells from
      the low 24 bits of `a` on. */
  function ReadSpec(m: Memory, a: nat, n: nat): (r: seq<byte>)
    ensures |r| == n
  {
    seq(n, k requires 0 <= k < n => m[(a + k) % SPACE])
  }

  /** A read one byte longer returns one more cell. */
  lemma ReadSpecStep(m: Memory, a: nat, n: nat)
    ensures ReadSpec(m, a, n + 1) == ReadSpec(m, a, n) + [m[(a + n) % SPACE]]
  {
    assert ReadSpec(m, a, n + 1)[..n] == ReadSpec(m, a, n);
  }

  /** Addresses 2^24 apart name the same bytes. */
  lemma {:induction false} ReadAliases(m: Memory, a: nat, n: nat)
    ensures ReadSpec(m, a + SPACE, n) == ReadSpec(m, a, n)
  {
    forall k | 0 <= k < n
      ensures ReadSpec(m, a + SPACE, n)[k] == ReadSpec(m, a, n)[k]
    {
      DivModUnique(a + SPACE + k, SPACE, (a + k) / SPACE + 1, (a + k) % SPACE);
    }
  }

  /** On cells that hold 0xFF, an unchecked write of a range that is
      programmed in full reads back as the buffer. */
  lemma PlanEffectReadBack(m: Memory, address: u32, buff: seq<byte>)
    requires 0 < |buff| && address + |buff| <= SPACE
    requires |buff| < PAGE_SIZE || address % PAGE_SIZE + |buff| % PAGE_SIZE <= PAGE_SIZE
    requires forall y :: address <= y < address + |buff| ==> m[y] == 0xFF
    ensures ReadSpec(PlanEffect(m, address, buff), address, |buff|) == buff
  {
    var r := PlanEffect(m, address, buff);
    PlanEffectCovered(m, address, buff);
    forall k | 0 <= k < |buff|
      ensures ReadSpec(r, address, |buff|)[k] == buff[k]
    {
      SmallMod(address + k, SPACE);
      assert r[address + k] == 0xFF & buff[k];
    }
  }

  /** The result of SPIF_uncheck_write. */
  function UncheckWriteResult(address: u32, size: u32): (r: SpifRet)
    ensures r in {Ok, InvalidAddr, AddrOutOfRange, SizeOutOfRange}
    ensures r == InvalidAddr <==> size == 0
    ensures 0 < size && address + size <= FLASH_SIZE ==> r == Ok
    ensures r == Ok && address + size < U32 ==> address + size <= FLASH_SIZE
  {
    if size == 0 then InvalidAddr else CheckRange(address, size, FLASH_SIZE)
  }

  /** The result of SPIF_fast_write. */
  function FastWriteResult(address: u32, size: u32): (r: SpifRet)
    ensures r == Ok <==> 0 < size && CheckRange(address, size, VIRT_SIZE) == Ok
  {
    if CheckRange(address, size, VIRT_SIZE) != Ok then CheckRange(address, size, VIRT_SIZE)
    else UncheckWriteResult(address, size)
  }

  /** Memory after SPIF_fast_write. */
  function FastWriteEffect(m: Memory, address: u32, data: seq<byte>): Memory
    requires |data| < U32 && !Hangs(address, |data|, VIRT_SIZE)
  {
    if FastWriteResult(address, |data|) == Ok then PlanEffect(m, address, data) else m
  }

  // ---------------------------------------------------------------------
  // SPIF_write: one compatibility check and one fast write per page.

  /** The pages SPIF_write handles: `size / 256` full pages, then the
      remainder when `size % 256 != 0`. */
  function ChunkCount(size: nat): nat
  {
    size / PAGE_SIZE + if size % PAGE_SIZE == 0 then 0 else 1
  }

  function ChunkLen(size: nat, k: nat): (n: nat)
    ensures n <= PAGE_SIZE
  {
    if k < size / PAGE_SIZE then PAGE_SIZE else size % PAGE_SIZE
  }

  /** `page_address = address + offset`, in 32-bit arithmetic. */
  function ChunkAddr(address: u32, k: nat): u32
  {
    (address + PAGE_SIZE * k) % U32
  }

  function Chunk(buff: seq<byte>, k: nat): (data: seq<byte>)
    requires k < ChunkCount(|buff|)
    ensures |data| == ChunkLen(|buff|, k) && 0 < |data|
  {
    buff[PAGE_SIZE * k..PAGE_SIZE * k + ChunkLen(|buff|, k)]
  }

  /** A write of at most one page never takes the hanging path: it is
      rejected outright or it ends below 2^32. */
  lemma PageNoHang(address: u32, n: nat)
    requires n <= PAGE_SIZE
    ensures !Hangs(address, n, VIRT_SIZE)
  {
  }

  /** Memory after the first `k` pages were fast-written (the results of the
      fast writes are ignored by SPIF_write). */
  function Programmed(m0: Memory, address: u32, buff: seq<byte>, k: nat): Memory
    requires |buff| < U32 && k <= ChunkCount(|buff|)
    decreases k, 0
  {
    if k == 0 then m0 else PageWritten(m0, address, buff, k - 1)
  }

  /** Memory once page `k` has been fast-written after the ones before it. */
  function PageWritten(m0: Memory, address: u32, buff: seq<byte>, k: nat): Memory
    requires |buff| < U32 && k < ChunkCount(|buff|)
    decreases k, 1
  {
    FastWriteEffect(Programmed(m0, address, buff, k), ChunkAddr(address, k), Chunk(buff, k))
  }

  /** Byte `j` after the address of a read transaction as SPIF_write sends
      it: with the read opcode of the region and no dummy byte, so that in
      the security area the first byte is the chip's idle 0xFF and the rest
      lag one cell behind. */
  function CheckReadByte(m: Memory, sec: bool, a: nat, j: nat): byte
  {
    if !sec then m[(a + j) % SPACE]
    else if j == 0 then 0xFF
    else m[(a + j - 1) % SPACE]
  }

  /** The check SPIF_write makes before page `k`: for a full page, 256
      bytes read from `address` (not from the page's own address); for the
      partial last page, its first byte only. */
  predicate AsWrittenCheck(m: Memory, sec: bool, address: u32, buff: seq<byte>, k: nat)
    requires k < ChunkCount(|buff|)
  {
    if k < |buff| / PAGE_SIZE then
      forall j :: 0 <= j < PAGE_SIZE ==> Compatible(buff[PAGE_SIZE * k + j], CheckReadByte(m, sec, address, j))
    else
      Compatible(buff[PAGE_SIZE * k], CheckReadByte(m, sec, ChunkAddr(address, k), 0))
  }

  /** Outcome of each page's check, each made on the memory as the earlier
      pages left it. */
  function AsWrittenChecks(m0: Memory, sec: bool, address: u32, buff: seq<byte>): (bs: seq<bool>)
    requires |buff| < U32
    ensures |bs| == ChunkCount(|buff|)
  {
    ChecksUpTo(m0, sec, address, buff, ChunkCount(|buff|))
  }

  /** The outcomes of the checks before pages `0 .. n - 1`, in order. */
  function ChecksUpTo(m0: Memory, sec: bool, address: u32, buff: seq<byte>, n: nat): (bs: seq<bool>)
    requires |buff| < U32 && n <= ChunkCount(|buff|)
    ensures |bs| == n
  {
    if n == 0 then []
    else ChecksUpTo(m0, sec, address, buff, n - 1) + [AsWrittenCheck(Programmed(m0, address, buff, n - 1), sec, address, buff, n - 1)]
  }

  lemma {:induction false} ChecksUpToAt(m0: Memory, sec: bool, address: u32, buff: seq<byte>, n: nat, k: nat)
    requires |buff| < U32 && k < n <= ChunkCount(|buff|)
    ensures ChecksUpTo(m0, sec, address, buff, n)[k] == AsWrittenCheck(Programmed(m0, address, buff, k), sec, address, buff, k)
  {
    if k < n - 1 {
      ChecksUpToAt(m0, sec, address, buff, n - 1, k);
    }
  }

  /** Check `k` of the run, and the memory after page `k` is written. */
  lemma ChecksAt(m0: Memory, sec: bool, address: u32, buff: seq<byte>, k: nat)
    requires |buff| < U32 && k < ChunkCount(|buff|)
    ensures AsWrittenChecks(m0, sec, address, buff)[k] ==
      AsWrittenCheck(Programmed(m0, address, buff, k), sec, address, buff, k)
    ensures Programmed(m0, address, buff, k + 1) ==
      FastWriteEffect(Programmed(m0, address, buff, k), ChunkAddr(address, k), Chunk(buff, k))
  {
    ChecksUpToAt(m0, sec, address, buff, ChunkCount(|buff|), k);
  }

  /** Index of the first failed check, or the number of checks if none failed. */
  function FirstFalse(bs: seq<bool>): (p: nat)
    ensures p <= |bs|
  {
    if bs == [] || !bs[0] then 0 else 1 + FirstFalse(bs[1..])
  }

  /** Every check before the first failure passed, and the one there failed. */
  lemma {:induction false} FirstFalseSpec(bs: seq<bool>)
    ensures forall k :: 0 <= k < FirstFalse(bs) ==> bs[k]
    ensures FirstFalse(bs) < |bs| ==> !bs[FirstFalse(bs)]
  {
    if bs != [] && bs[0] {
      FirstFalseSpec(bs[1..]);
    }
  }

  /** The first failed check is the only index before which all checks
      passed and at which one fails. */
  lemma {:induction false} FirstFalseAt(bs: seq<bool>, p: nat)
    requires p <= |bs| && (forall k :: 0 <= k < p ==> bs[k]) && (p < |bs| ==> !bs[p])
    ensures FirstFalse(bs) == p
  {
    if p > 0 {
      FirstFalseAt(bs[1..], p - 1);
    }
  }

  /** Scanning the checks in order: a passed check moves the first failure
      further on, a failed one is the first failure. */
  lemma FirstFalseStep(bs: seq<bool>, i: nat)
    requires i <= FirstFalse(bs) && i < |bs|
    ensures bs[i] ==> i < FirstFalse(bs)
    ensures !bs[i] ==> FirstFalse(bs) == i
  {
    FirstFalseSpec(bs);
  }

  datatype WriteRun = WriteRun(ret: SpifRet, mem: Memory)

  /** SPIF_write on a region holding `m0`: the range checks, then page by
      page a check and a fast write, stopping at the first failed check. */
  function VerifiedWrite(m0: Memory, sec: bool, address: u32, buff: seq<byte>): (r: WriteRun)
    requires |buff| < U32
    ensures r.ret in {Ok, IncompatibleWrite, AddrOutOfRange, SizeOutOfRange}
    ensures r.ret == AddrOutOfRange <==> address > VIRT_SIZE
    ensures address + |buff| <= VIRT_SIZE ==> r.ret == Ok || r.ret == IncompatibleWrite
    ensures r.ret == AddrOutOfRange || r.ret == SizeOutOfRange ==> r.mem == m0
  {
    var rc := CheckRange(address, |buff|, VIRT_SIZE);
    if rc != Ok then WriteRun(rc, m0)
    else
      var p := FirstFalse(AsWrittenChecks(m0, sec, address, buff));
      WriteRun(if p < ChunkCount(|buff|) then IncompatibleWrite else Ok, Programmed(m0, address, buff, p))
  }

  /** The run, once the first failed check is known. */
  lemma VerifiedWriteAt(m0: Memory, sec: bool, address: u32, buff: seq<byte>, p: nat)
    requires |buff| < U32 && CheckRange(address, |buff|, VIRT_SIZE) == Ok
    requires p == FirstFalse(AsWrittenChecks(m0, sec, address, buff))
    ensures VerifiedWrite(m0, sec, address, buff) ==
      WriteRun(if p < ChunkCount(|buff|) then IncompatibleWrite else Ok, Programmed(m0, address, buff, p))
  {
  }

  /** One step of the run: when check `k` passes, the run goes on past page
      `k` with the page written; when it fails, the run ends there. */
  lemma VerifiedWriteStep(m0: Memory, sec: bool, address: u32, buff: seq<byte>, k: nat, m: Memory, ok: bool)
    requires |buff| < U32 && CheckRange(address, |buff|, VIRT_SIZE) == Ok
    requires k < ChunkCount(|buff|) && k <= FirstFalse(AsWrittenChecks(m0, sec, address, buff))
    requires ok == AsWrittenCheck(Programmed(m0, address, buff, k), sec, address, buff, k)
    requires m == if ok then FastWriteEffect(Programmed(m0, address, buff, k), ChunkAddr(address, k), Chunk(buff, k))
      else Programmed(m0, address, buff, k)
    ensures ok ==> k + 1 <= FirstFalse(AsWrittenChecks(m0, sec, address, buff)) && m == Programmed(m0, address, buff, k + 1)
    ensures !ok ==> VerifiedWrite(m0, sec, address, buff) == WriteRun(IncompatibleWrite, m)
  {
    var checks := AsWrittenChecks(m0, sec, address, buff);
    ChecksAt(m0, sec, address, buff, k);
    FirstFalseStep(checks, k);
    if !ok {
      VerifiedWriteAt(m0, sec, address, buff, k);
    }
  }

  /** Without a partial last page, the run is complete once every full page
      passed. */
  lemma VerifiedWriteComplete(m0: Memory, sec: bool, address: u32, buff: seq<byte>)
    requires |buff| < U32 && CheckRange(address, |buff|, VIRT_SIZE) == Ok && |buff| % PAGE_SIZE == 0
    requires |buff| / PAGE_SIZE <= FirstFalse(AsWrittenChecks(m0, sec, address, buff))
    ensures VerifiedWrite(m0, sec, address, buff) == WriteRun(Ok, Programmed(m0, address, buff, |buff| / PAGE_SIZE))
  {
    VerifiedWriteAt(m0, sec, address, buff, ChunkCount(|buff|));
  }

  /** A partial last page is checked and written like the others and ends
      the run. */
  lemma VerifiedWriteTail(m0: Memory, sec: bool, address: u32, buff: seq<byte>, m: Memory, ok: bool)
    requires |buff| < U32 && CheckRange(address, |buff|, VIRT_SIZE) == Ok && |buff| % PAGE_SIZE != 0
    requires |buff| / PAGE_SIZE <= FirstFalse(AsWrittenChecks(m0, sec, address, buff))
    requires var k := |buff| / PAGE_SIZE;
      && ok == AsWrittenCheck(Programmed(m0, address, buff, k), sec, address, buff, k)
      && m == if ok then FastWriteEffect(Programmed(m0, address, buff, k), ChunkAddr(address, k), Chunk(buff, k))
        else Programmed(m0, address, buff, k)
    ensures VerifiedWrite(m0, sec, address, buff) == WriteRun(if ok then Ok else IncompatibleWrite, m)
  {
    var k := |buff| / PAGE_SIZE;
    VerifiedWriteStep(m0, sec, address, buff, k, m, ok);
    if ok {
      VerifiedWriteAt(m0, sec, address, buff, k + 1);
    }
  }

  /** An empty SPIF_write makes no check and programs nothing: it reports
      Ok unless the address is out of range, and the region is unchanged. */
  lemma VerifiedWriteEmpty(m0: Memory, sec: bool, address: u32)
    ensures VerifiedWrite(m0, sec, address, []) ==
      WriteRun(if address > VIRT_SIZE then AddrOutOfRange else Ok, m0)
  {
  }

  /** Bytes of the range that the first `k` pages cover. */
  function Done(size: nat, k: nat): nat
  {
    if PAGE_SIZE * k < size then PAGE_SIZE * k else size
  }

  /** Without aliasing, page `k` starts `256 * k` bytes into the range and
      its fast write passes the range checks. */
  lemma ChunkPlaced(address: u32, buff: seq<byte>, k: nat)
    requires address + |buff| <= SPACE && k < ChunkCount(|buff|)
    ensures ChunkAddr(address, k) == address + PAGE_SIZE * k
    ensures PAGE_SIZE * k + ChunkLen(|buff|, k) == Done(|buff|, k + 1) <= |buff|
    ensures FastWriteResult(ChunkAddr(address, k), ChunkLen(|buff|, k)) == Ok
  {
    SmallMod(address + PAGE_SIZE * k, U32);
  }

  /** Without aliasing, the fast write of page `k` ANDs its bytes of the
      buffer into its part of the range and leaves every other byte. */
  lemma ChunkEffect(m: Memory, address: u32, buff: seq<byte>, k: nat)
    requires address + |buff| <= SPACE && k < ChunkCount(|buff|)
    ensures forall y :: 0 <= y < SPACE ==>
      FastWriteEffect(m, ChunkAddr(address, k), Chunk(buff, k))[y] ==
        if address + PAGE_SIZE * k <= y < address + Done(|buff|, k + 1) then m[y] & buff[y - address] else m[y]
  {
    var a, data := ChunkAddr(address, k), Chunk(buff, k);
    ChunkPlaced(address, buff, k);
    PlanEffectCovered(m, a, data);
    assert forall i :: 0 <= i < |data| ==> data[i] == buff[PAGE_SIZE * k + i];
  }

  /** Without aliasing, after `k` pages the first `Done(k)` bytes of the
      range are ANDed with the buffer and every other byte is as before. */
  lemma {:induction false} ProgrammedAt(m0: Memory, address: u32, buff: seq<byte>, k: nat)
    requires address + |buff| <= SPACE && k <= ChunkCount(|buff|)
    ensures forall y :: 0 <= y < SPACE ==>
      Programmed(m0, address, buff, k)[y] ==
        if address <= y < address + Done(|buff|, k) then m0[y] & buff[y - address] else m0[y]
    decreases k
  {
    if k > 0 {
      ProgrammedAt(m0, address, buff, k - 1);
      ChunkEffect(Programmed(m0, address, buff, k - 1), address, buff, k - 1);
    }
  }

  /** SPIF_write stops at the first page whose check fails and reports
      IncompatibleWrite; the pages before it stay programmed and nothing from
      that page on is touched.  When every check passes it reports Ok with the
      whole range ANDed with the buffer. */
  lemma VerifiedWriteStops(m0: Memory, sec: bool, address: u32, buff: seq<byte>)
    requires address + |buff| <= SPACE
    ensures var run := VerifiedWrite(m0, sec, address, buff);
      var p := FirstFalse(AsWrittenChecks(m0, sec, address, buff));
      && (run.ret == Ok || run.ret == IncompatibleWrite)
      && (run.ret == IncompatibleWrite <==> p < ChunkCount(|buff|))
      && (forall y :: 0 <= y < SPACE ==>
            run.mem[y] == if address <= y < address + Done(|buff|, p) then m0[y] & buff[y - address] else m0[y])
  {
    var p := FirstFalse(AsWrittenChecks(m0, sec, address, buff));
    ProgrammedAt(m0, address, buff, p);
  }

  /** One cell of `ProgrammedAt`. */
  lemma ProgrammedCell(m0: Memory, address: u32, buff: seq<byte>, k: nat, y: nat)
    requires address + |buff| <= SPACE && k <= ChunkCount(|buff|) && y < SPACE
    ensures Programmed(m0, address, buff, k)[y] ==
      if address <= y < address + Done(|buff|, k) then m0[y] & buff[y - address] else m0[y]
  {
    ProgrammedAt(m0, address, buff, k);
  }

  /** Chunk `j / 256` holds byte `j` of the buffer. */
  lemma ChunkOf(size: nat, j: nat)
    requires j < size
    ensures j / PAGE_SIZE < ChunkCount(size)
    ensures PAGE_SIZE * (j / PAGE_SIZE) <= j < PAGE_SIZE * (j / PAGE_SIZE) + ChunkLen(size, j / PAGE_SIZE)
  {
  }

  /** All the pages together cover the whole buffer. */
  lemma DoneAll(size: nat)
    ensures Done(size, ChunkCount(size)) == size
  {
  }

  /** The check of the first page passes on erased cells. */
  lemma ErasedFirstCheck(m0: Memory, sec: bool, address: u32, buff: seq<byte>)
    requires address + |buff| <= SPACE && 0 < |buff| <= PAGE_SIZE
    requires forall y :: address <= y < address + |buff| ==> m0[y] == 0xFF
    ensures AsWrittenCheck(m0, sec, address, buff, 0)
  {
    if |buff| == PAGE_SIZE {
      forall j | 0 <= j < PAGE_SIZE
        ensures Compatible(buff[j], CheckReadByte(m0, sec, address, j))
      {
        assert CheckReadByte(m0, sec, address, j) == 0xFF;
      }
    } else {
      assert CheckReadByte(m0, sec, ChunkAddr(address, 0), 0) == 0xFF;
    }
  }

  /** A write of at most one page into erased cells passes its check and
      reads back, in either region. */
  lemma VerifiedWriteErasedPage(m0: Memory, sec: bool, address: u32, buff: seq<byte>)
    requires address + |buff| <= SPACE && |buff| <= PAGE_SIZE
    requires forall y :: address <= y < address + |buff| ==> m0[y] == 0xFF
    ensures VerifiedWrite(m0, sec, address, buff).ret == Ok
    ensures ReadSpec(VerifiedWrite(m0, sec, address, buff).mem, address, |buff|) == buff
  {
    var bs := AsWrittenChecks(m0, sec, address, buff);
    if |buff| > 0 {
      ErasedFirstCheck(m0, sec, address, buff);
      assert bs[0];
    }
    var n := ChunkCount(|buff|);
    assert FirstFalse(bs) == n;
    DoneAll(|buff|);
    var mem := VerifiedWrite(m0, sec, address, buff).mem;
    assert mem == Programmed(m0, address, buff, n);
    forall y | address <= y < address + |buff|
      ensures mem[y] == m0[y] & buff[y - address]
    {
      ProgrammedCell(m0, address, buff, n, y);
    }
    ReadBackCompatible(m0, mem, address, buff);
  }

  /** A range whose cells were ANDed with compatible bytes reads back as
      those bytes. */
  lemma ReadBackCompatible(m0: Memory, mem: Memory, address: nat, buff: seq<byte>)
    requires address + |buff| <= SPACE
    requires forall y :: address <= y < address + |buff| ==> mem[y] == m0[y] & buff[y - address]
    requires forall j :: 0 <= j < |buff| ==> Compatible(buff[j], m0[address + j])
    ensures ReadSpec(mem, address, |buff|) == buff
  {
    forall k | 0 <= k < |buff|
      ensures ReadSpec(mem, address, |buff|)[k] == buff[k]
    {
      assert mem[address + k] == m0[address + k] & buff[k];
    }
  }

  // ---------------------------------------------------------------------
  // The verified write as evidently intended: each page's check compares
  // every byte of the page with the cell it is written to.

  predicate IntendedCheck(m: Memory, address: u32, buff: seq<byte>, k: nat)
    requires k < ChunkCount(|buff|)
  {
    forall j :: PAGE_SIZE * k <= j < PAGE_SIZE * k + ChunkLen(|buff|, k) ==>
      Compatible(buff[j], m[(ChunkAddr(address, k) + (j - PAGE_SIZE * k)) % SPACE])
  }

  function IntendedChecks(m0: Memory, address: u32, buff: seq<byte>): (bs: seq<bool>)
    requires |buff| < U32
    ensures |bs| == ChunkCount(|buff|)
  {
    seq(ChunkCount(|buff|), k requires 0 <= k < ChunkCount(|buff|) =>
      IntendedCheck(Programmed(m0, address, buff, k), address, buff, k))
  }

  /** The corrected SPIF_write on a region holding `m0`. */
  function IntendedWrite(m0: Memory, address: u32, buff: seq<byte>): WriteRun
    requires |buff| < U32
  {
    var rc := CheckRange(address, |buff|, VIRT_SIZE);
    if rc != Ok then WriteRun(rc, m0)
    else
      var p := FirstFalse(IntendedChecks(m0, address, buff));
      WriteRun(if p < ChunkCount(|buff|) then IncompatibleWrite else Ok, Programmed(m0, address, buff, p))
  }

  lemma ChunkFits(size: nat, k: nat)
    requires k < ChunkCount(size)
    ensures PAGE_SIZE * k + ChunkLen(size, k) <= size
  {
  }

  /** An intended check depends only on the cells of its own page. */
  lemma IntendedCheckOn(m: Memory, m0: Memory, address: u32, buff: seq<byte>, k: nat)
    requires address + |buff| <= SPACE && k < ChunkCount(|buff|)
    requires forall y :: address + PAGE_SIZE * k <= y < address + PAGE_SIZE * k + ChunkLen(|buff|, k) ==> m[y] == m0[y]
    ensures IntendedCheck(m, address, buff, k) <==>
      forall j :: PAGE_SIZE * k <= j < PAGE_SIZE * k + ChunkLen(|buff|, k) ==>
        Compatible(buff[j], m0[address + j])
  {
    ChunkFits(|buff|, k);
    SmallMod(address + PAGE_SIZE * k, U32);
    forall j | PAGE_SIZE * k <= j < PAGE_SIZE * k + ChunkLen(|buff|, k)
      ensures Compatible(buff[j], m[(ChunkAddr(address, k) + (j - PAGE_SIZE * k)) % SPACE]) ==
        Compatible(buff[j], m0[address + j])
    {
      SmallMod(address + j, SPACE);
    }
  }

  /** Each intended check sees the cells of its page as they were before
      the write. */
  lemma IntendedCheckSeesOriginal(m0: Memory, address: u32, buff: seq<byte>, k: nat)
    requires address + |buff| <= SPACE && k < ChunkCount(|buff|)
    ensures IntendedChecks(m0, address, buff)[k] <==>
      forall j :: PAGE_SIZE * k <= j < PAGE_SIZE * k + ChunkLen(|buff|, k) ==>
        Compatible(buff[j], m0[address + j])
  {
    var m := Programmed(m0, address, buff, k);
    assert IntendedChecks(m0, address, buff)[k] == IntendedCheck(m, address, buff, k);
    forall y | address + PAGE_SIZE * k <= y < address + PAGE_SIZE * k + ChunkLen(|buff|, k)
      ensures m[y] == m0[y]
    {
      ChunkFits(|buff|, k);
      ProgrammedCell(m0, address, buff, k, y);
    }
    IntendedCheckOn(m, m0, address, buff, k);
  }

  /** The corrected write succeeds exactly when every byte of the buffer is
      compatible with the cell it goes to, and then the range reads back as
      the buffer; in every case nothing outside the range changes. */
  lemma IntendedWriteExact(m0: Memory, address: u32, buff: seq<byte>)
    requires address + |buff| <= SPACE
    ensures var run := IntendedWrite(m0, address, buff);
      && (run.ret == Ok || run.ret == IncompatibleWrite)
      && (run.ret == Ok <==> forall j :: 0 <= j < |buff| ==> Compatible(buff[j], m0[address + j]))
      && (run.ret == Ok ==> ReadSpec(run.mem, address, |buff|) == buff)
      && (forall y :: 0 <= y < SPACE && !(address <= y < address + |buff|) ==> run.mem[y] == m0[y])
  {
    var bs := IntendedChecks(m0, address, buff);
    var p := FirstFalse(bs);
    var run := IntendedWrite(m0, address, buff);
    FirstFalseSpec(bs);
    assert run.mem == Programmed(m0, address, buff, p);
    ProgrammedAt(m0, address, buff, p);
    if p < ChunkCount(|buff|) {
      IntendedCheckSeesOriginal(m0, address, buff, p);
    } else {
      IntendedChecksAll(m0, address, buff);
      DoneAll(|buff|);
      ReadBackCompatible(m0, run.mem, address, buff);
    }
  }

  /** When every intended check passes, every byte is compatible. */
  lemma IntendedChecksAll(m0: Memory, address: u32, buff: seq<byte>)
    requires address + |buff| <= SPACE
    requires forall k :: 0 <= k < ChunkCount(|buff|) ==> IntendedChecks(m0, address, buff)[k]
    ensures forall j :: 0 <= j < |buff| ==> Compatible(buff[j], m0[address + j])
  {
    forall j | 0 <= j < |buff|
      ensures Compatible(buff[j], m0[address + j])
    {
      ChunkOf(|buff|, j);
      IntendedCheckSeesOriginal(m0, address, buff, j / PAGE_SIZE);
    }
  }

  // ---------------------------------------------------------------------
  // Inputs on which the verified write as written and as intended differ.

  /** In the main array, a full-page check passes whenever the 256 cells
      from `address` read 0xFF, whatever page it is made for. */
  lemma FullCheckOverErased(m: Memory, address: u32, buff: seq<byte>, k: nat)
    requires k < |buff| / PAGE_SIZE
    requires forall j :: 0 <= j < PAGE_SIZE ==> CheckReadByte(m, false, address, j) == 0xFF
    ensures AsWrittenCheck(m, false, address, buff, k)
  {
    forall j | 0 <= j < PAGE_SIZE
      ensures Compatible(buff[PAGE_SIZE * k + j], CheckReadByte(m, false, address, j))
    {
      var x := buff[PAGE_SIZE * k + j];
      assert 0xFF & x == x;
    }
  }

  /** The full-page checks all read the first page of the range: a second
      page holding 0x00 is not noticed, the write reports Ok and the cells
      keep 0x00 instead of the 0xFF written. */
  lemma VerifiedWriteChecksFirstPageOnly()
    ensures var m0: Memory := seq(SPACE, y => if PAGE_SIZE <= y < 2 * PAGE_SIZE then 0x00 else 0xFF);
      var buff := seq(2 * PAGE_SIZE, _ => 0xFF);
      && VerifiedWrite(m0, false, 0, buff).ret == Ok
      && VerifiedWrite(m0, false, 0, buff).mem[PAGE_SIZE] != buff[PAGE_SIZE]
      && IntendedWrite(m0, 0, buff).ret == IncompatibleWrite
  {
    var m0: Memory := seq(SPACE, y => if PAGE_SIZE <= y < 2 * PAGE_SIZE then 0x00 else 0xFF);
    var buff: seq<byte> := seq(2 * PAGE_SIZE, _ => 0xFF);
    FirstPageOnlyPasses(m0, buff);
    VerifiedWriteAt(m0, false, 0, buff, 2);
    ProgrammedCell(m0, 0, buff, 2, PAGE_SIZE);
    IntendedWriteExact(m0, 0, buff);
    assert !Compatible(buff[PAGE_SIZE], m0[PAGE_SIZE]);
  }

  /** Both full-page checks of a two-page write of 0xFF at 0 read the
      first page, which holds 0xFF, and pass. */
  lemma FirstPageOnlyPasses(m0: Memory, buff: seq<byte>)
    requires |buff| == 2 * PAGE_SIZE && forall j :: 0 <= j < |buff| ==> buff[j] == 0xFF
    requires forall y :: 0 <= y < PAGE_SIZE ==> m0[y] == 0xFF
    ensures FirstFalse(AsWrittenChecks(m0, false, 0, buff)) == 2
  {
    var bs := AsWrittenChecks(m0, false, 0, buff);
    FullCheckOverErased(m0, 0, buff, 0);
    SecondCheckPasses(m0, buff);
    ChecksAt(m0, false, 0, buff, 0);
    ChecksAt(m0, false, 0, buff, 1);
    assert bs[0] && bs[1];
  }

  /** After the first page of 0xFF is written, the first page still holds
      0xFF, so the second check passes. */
  lemma SecondCheckPasses(m0: Memory, buff: seq<byte>)
    requires |buff| == 2 * PAGE_SIZE && forall j :: 0 <= j < |buff| ==> buff[j] == 0xFF
    requires forall y :: 0 <= y < PAGE_SIZE ==> m0[y] == 0xFF
    ensures AsWrittenCheck(Programmed(m0, 0, buff, 1), false, 0, buff, 1)
  {
    var m1 := Programmed(m0, 0, buff, 1);
    forall j | 0 <= j < PAGE_SIZE
      ensures CheckReadByte(m1, false, 0, j) == 0xFF
    {
      ProgrammedCell(m0, 0, buff, 1, j);
    }
    FullCheckOverErased(m1, 0, buff, 1);
  }

  /** The same defect rejects a good write: into erased cells, a page of
      0x00 followed by a page of 0xFF fails the second check (which reads
      the first page back), after the first page has been programmed. */
  lemma VerifiedWriteRejectsErased()
    ensures var buff := seq(2 * PAGE_SIZE, j => if j < PAGE_SIZE then 0x00 else 0xFF);
      && VerifiedWrite(Erased(), false, 0, buff).ret == IncompatibleWrite
      && IntendedWrite(Erased(), 0, buff).ret == Ok
  {
    var m0 := Erased();
    var buff: seq<byte> := seq(2 * PAGE_SIZE, j => if j < PAGE_SIZE then 0x00 else 0xFF);
    var bs := AsWrittenChecks(m0, false, 0, buff);
    FullCheckOverErased(m0, 0, buff, 0);
    var m1 := Programmed(m0, 0, buff, 1);
    ProgrammedCell(m0, 0, buff, 1, 0);
    assert !Compatible(buff[PAGE_SIZE], CheckReadByte(m1, false, 0, 0));
    ChecksAt(m0, false, 0, buff, 0);
    ChecksAt(m0, false, 0, buff, 1);
    assert bs[0] && !bs[1];
    VerifiedWriteAt(m0, false, 0, buff, 1);
    IntendedWriteExact(m0, 0, buff);
  }

  /** Of a partial last page only the first byte is checked: a second byte
      over 0x00 passes, and the write reports Ok. */
  lemma VerifiedWriteChecksOneTailByte()
    ensures var m0: Memory := seq(SPACE, y => if y == 1 then 0x00 else 0xFF);
      && VerifiedWrite(m0, false, 0, [0xFF, 0xFF]).ret == Ok
      && VerifiedWrite(m0, false, 0, [0xFF, 0xFF]).mem[1] != 0xFF
      && IntendedWrite(m0, 0, [0xFF, 0xFF]).ret == IncompatibleWrite
  {
    var m0: Memory := seq(SPACE, y => if y == 1 then 0x00 else 0xFF);
    var buff: seq<byte> := [0xFF, 0xFF];
    var bs := AsWrittenChecks(m0, false, 0, buff);
    assert Programmed(m0, 0, buff, 0) == m0;
    assert CheckReadByte(m0, false, ChunkAddr(0, 0), 0) == 0xFF;
    assert bs[0];
    assert FirstFalse(bs) == 1;
    ProgrammedCell(m0, 0, buff, 1, 1);
    IntendedWriteExact(m0, 0, buff);
    assert !Compatible(buff[1], m0[1]);
  }

  /** The security-area check reads without the dummy byte, so it compares
      the first byte with the idle 0xFF: the same write that is refused in
      the main array is accepted over a security cell holding 0x00. */
  lemma VerifiedWriteSecurityShift()
    ensures var m0: Memory := seq(SPACE, y => if y == 0 then 0x00 else 0xFF);
      && VerifiedWrite(m0, false, 0, [0xFF]).ret == IncompatibleWrite
      && VerifiedWrite(m0, true, 0, [0xFF]).ret == Ok
      && VerifiedWrite(m0, true, 0, [0xFF]).mem[0] != 0xFF
      && IntendedWrite(m0, 0, [0xFF]).ret == IncompatibleWrite
  {
    var m0: Memory := seq(SPACE, y => if y == 0 then 0x00 else 0xFF);
    var buff: seq<byte> := [0xFF];
    assert Programmed(m0, 0, buff, 0) == m0;
    var main := AsWrittenChecks(m0, false, 0, buff);
    assert !main[0];
    assert FirstFalse(main) == 0;
    var sec := AsWrittenChecks(m0, true, 0, buff);
    assert sec[0];
    assert FirstFalse(sec) == 1;
    ProgrammedCell(m0, 0, buff, 1, 0);
    IntendedWriteExact(m0, 0, buff);
    assert !Compatible(buff[0], m0[0]);
  }
}
