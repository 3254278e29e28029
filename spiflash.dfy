/**
 * The driver (spiflash.c): each entry point as a method on the chip and
 * bus of `NorChip`, proved against the functions of `WriteModel`.  The
 * chip of the model finishes every command at once, so each wait of the
 * driver (busy bit, write-enable latch) is one status read.
 */
module SpiFlash {
  import opened Wire
  import opened Nor
  import opened NorChip
  import opened Paging
  import opened WriteModel

  // ---------------------------------------------------------------------
  // Bus traces

  /** The events of sending the bytes `bs`. */
  function Outs(bs: seq<byte>): (es: seq<Event>)
    ensures |es| == |bs|
    ensures forall i :: 0 <= i < |bs| ==> es[i] == Out(bs[i])
  {
    seq(|bs|, i requires 0 <= i < |bs| => Out(bs[i]))
  }

  /** `n` read-response bytes, clocked to receive data. */
  function Clocks(n: nat): (bs: seq<byte>)
    ensures |bs| == n
  {
    seq(n, _ => READ_RESPONSE)
  }

  /** A status read: chip select cycled, the status opcode, one byte read. */
  const STATUS_POLL: seq<Event> := [CsHigh, CsLow, Out(READ_STATUS_1), Out(READ_RESPONSE), CsHigh]

  /** The write-enable command followed by the status read that finds the
      latch set. */
  const ENABLE_WRITE_TRACE: seq<Event> := [CsHigh, CsLow, Out(ENABLE_WRITE), CsHigh] + STATUS_POLL

  /** Start of a transaction: chip select cycled, an opcode and an address. */
  function Command(op: byte, a: nat): seq<Event>
  {
    [CsHigh, CsLow, Out(op)] + Outs(AddrBytes(a))
  }

  /** The dummy byte a read of the security area sends after the address. */
  function Dummy(sec: bool): seq<byte>
  {
    if sec then [READ_RESPONSE] else []
  }

  /** The events of SPIF_uncheck_read. */
  function ReadTrace(sec: bool, a: nat, n: nat): seq<Event>
  {
    STATUS_POLL + Command(ReadOp(sec), a) + Outs(Dummy(sec)) + Outs(Clocks(n)) + [CsHigh]
  }

  /** The events of one page-program transaction. */
  function SegmentTrace(sec: bool, s: Segment, buff: seq<byte>): seq<Event>
    requires s.offset + s.len <= |buff|
  {
    ENABLE_WRITE_TRACE + Command(ProgramOp(sec), s.flash) + Outs(SegmentData(buff, s)) + [CsHigh] + STATUS_POLL
  }

  /** The events of the transactions of `plan`, in order. */
  function PlanTrace(sec: bool, plan: seq<Segment>, buff: seq<byte>): seq<Event>
    requires FitsBuffer(plan, buff)
    decreases |plan|
  {
    if plan == [] then []
    else PlanTrace(sec, plan[..|plan| - 1], buff) + SegmentTrace(sec, plan[|plan| - 1], buff)
  }

  /** The cells after a program of region `sec` left it holding `m`. */
  function Written(c: Cells, sec: bool, m: Memory): Cells
  {
    if sec then Cells(c.main, m, false) else Cells(m, c.security, false)
  }

  /** A page-program trace, event group by event group in the order the
      driver produces them. */
  lemma SegmentTraceSplit(t: seq<Event>, sec: bool, s: Segment, buff: seq<byte>)
    requires s.offset + s.len <= |buff|
    ensures t + SegmentTrace(sec, s, buff) ==
      t + ENABLE_WRITE_TRACE + [CsHigh, CsLow, Out(ProgramOp(sec))] + Outs(AddrBytes(s.flash))
      + Outs(SegmentData(buff, s)) + [CsHigh] + STATUS_POLL
  {
  }

  /** A read trace, event group by event group in the order the driver
      produces them. */
  lemma ReadTraceSplit(t: seq<Event>, sec: bool, a: nat, n: nat)
    ensures t + ReadTrace(sec, a, n) ==
      t + STATUS_POLL + [CsHigh, CsLow, Out(ReadOp(sec))] + Outs(AddrBytes(a))
      + Outs(Dummy(sec)) + Outs(Clocks(n)) + [CsHigh]
  {
  }

  lemma ClocksAppend(n: nat)
    ensures Clocks(n + 1) == Clocks(n) + [READ_RESPONSE]
  {
  }

  /** One more data clock extends a read frame. */
  lemma FrameClock(head: seq<byte>, j: nat)
    ensures head + Clocks(j) + [READ_RESPONSE] == head + Clocks(j + 1)
    ensures |head| > 0 ==> (head + Clocks(j + 1))[0] == head[0]
  {
    ClocksAppend(j);
    assert head + Clocks(j) + [READ_RESPONSE] == head + (Clocks(j) + [READ_RESPONSE]);
  }

  lemma OutsAppend(bs: seq<byte>, b: byte)
    ensures Outs(bs + [b]) == Outs(bs) + [Out(b)]
  {
  }

  /** Reading on from a 24-bit start address lands where reading on from
      the full address does. */
  lemma ModSpaceShift(a: nat, j: nat)
    ensures (a % SPACE + j) % SPACE == (a + j) % SPACE
  {
    DivModUnique(a + j, SPACE, a / SPACE + (a % SPACE + j) / SPACE, (a % SPACE + j) % SPACE);
  }

  /** A program frame, committed with the latch set, programs the region
      at the low 24 bits of its address and clears the latch. */
  lemma CommitProgram(c: Cells, sec: bool, a: nat, data: seq<byte>)
    requires c.wel
    ensures Commit(c, [ProgramOp(sec)] + AddrBytes(a) + data) ==
      Written(c, sec, Program(if sec then c.security else c.main, a % SPACE, data))
  {
    var f := [ProgramOp(sec)] + AddrBytes(a) + data;
    AddrBytesDecode(a);
    assert f[1..4] == AddrBytes(a) && f[4..] == data;
  }

  /** During a read transaction, the byte after `j` data clocks is the cell
      `j` places past the address (after the dummy byte in the security
      area). */
  lemma ResponseRead(c: Cells, sec: bool, a: nat, j: nat)
    ensures Response(c, [ReadOp(sec)] + AddrBytes(a) + Dummy(sec) + Clocks(j)) ==
      (if sec then c.security else c.main)[(a + j) % SPACE]
  {
    var f := [ReadOp(sec)] + AddrBytes(a) + Dummy(sec) + Clocks(j);
    AddrBytesDecode(a);
    assert f[1..4] == AddrBytes(a);
    ModSpaceShift(a, j);
  }

  /** The same without the dummy byte, as the verified write reads: the
      chip then answers `CheckReadByte`. */
  lemma ResponseCheck(c: Cells, sec: bool, a: nat, j: nat)
    ensures Response(c, [ReadOp(sec)] + AddrBytes(a) + Clocks(j)) ==
      CheckReadByte(if sec then c.security else c.main, sec, a, j)
  {
    var f := [ReadOp(sec)] + AddrBytes(a) + Clocks(j);
    AddrBytesDecode(a);
    assert f[1..4] == AddrBytes(a);
    if sec && j >= 1 {
      ModSpaceShift(a, j - 1);
    } else if !sec {
      ModSpaceShift(a, j);
    }
  }

  // ---------------------------------------------------------------------
  // Auxiliary functions

  /** The three address bytes, `address >> 16`, `address >> 8`, `address`. */
  method SendAddress(c: Chip, a: nat)
    requires c.selected
    modifies c
    ensures c.State() == old(c.State()) && c.selected
    ensures c.frame == old(c.frame) + AddrBytes(a)
    ensures c.trace == old(c.trace) + Outs(AddrBytes(a))
  {
    var bs := AddrBytes(a);
    var _ := c.Exchange(bs[0]);
    var _ := c.Exchange(bs[1]);
    var _ := c.Exchange(bs[2]);
    assert old(c.frame) + bs == old(c.frame) + [bs[0]] + [bs[1]] + [bs[2]];
  }

  /** The start of every transaction: chip select cycled (a pending read
      is abandoned) and the opcode sent. */
  method Begin(c: Chip, op: byte)
    requires c.Quiescent()
    modifies c
    ensures c.State() == old(c.State()) && c.selected
    ensures c.frame == [op]
    ensures c.trace == old(c.trace) + [CsHigh, CsLow, Out(op)]
  {
    if c.selected {
      InertCommit(c.State(), c.frame);
    }
    c.Deselect();
    c.Select();
    var _ := c.Exchange(op);
  }

  /** SPIF_read_status: status register 1, which reports the latch and
      never reports busy. */
  method ReadStatus(c: Chip) returns (s: byte)
    requires c.Quiescent()
    modifies c
    ensures c.State() == old(c.State()) && !c.selected && c.frame == []
    ensures s & STAT_BUSY == 0
    ensures (s & STAT_WRITE_ENABLE != 0) == c.wel
    ensures c.trace == old(c.trace) + STATUS_POLL
  {
    Begin(c, READ_STATUS_1);
    s := c.Exchange(READ_RESPONSE);
    c.Deselect();
  }

  /** `while (SPIF_read_status() & SPIF_STAT_BUSY) {}`: the first read finds
      the chip ready. */
  method WaitReady(c: Chip)
    requires c.Quiescent()
    modifies c
    ensures c.State() == old(c.State()) && !c.selected && c.frame == []
    ensures c.trace == old(c.trace) + STATUS_POLL
  {
    var s := ReadStatus(c);
    assert s & STAT_BUSY == 0;
  }

  /** SPIF_enable_write: the write-enable command, then status reads until
      the latch is seen set (the first one sees it). */
  method EnableWrite(c: Chip)
    requires c.Quiescent()
    modifies c
    ensures c.State() == old(c.State()).(wel := true) && !c.selected && c.frame == []
    ensures c.trace == old(c.trace) + ENABLE_WRITE_TRACE
  {
    Begin(c, ENABLE_WRITE);
    c.Deselect();
    var s := ReadStatus(c);
    assert s & STAT_WRITE_ENABLE != 0;
  }

  /** The data phase of a read transaction: one clock byte for each of
      `buff[..size]`, which receives consecutive cells of the region. */
  method ReceiveData(c: Chip, sec: bool, a: nat, buff: array<byte>, size: nat)
    requires c.selected && c.frame == [ReadOp(sec)] + AddrBytes(a) + Dummy(sec) && size <= buff.Length
    modifies c, buff
    ensures c.State() == old(c.State()) && c.selected && Inert(c.frame)
    ensures c.trace == old(c.trace) + Outs(Clocks(size))
    ensures buff[..size] == ReadSpec(c.Region(sec), a, size)
    ensures buff[size..] == old(buff[size..])
  {
    ghost var s0 := c.State();
    ghost var m := c.Region(sec);
    ghost var head := [ReadOp(sec)] + AddrBytes(a) + Dummy(sec);
    var j := 0;
    while j < size
      invariant 0 <= j <= size
      invariant c.State() == s0 && c.selected
      invariant c.frame == head + Clocks(j)
      invariant c.trace == old(c.trace) + Outs(Clocks(j))
      invariant buff[..j] == ReadSpec(m, a, j)
      invariant buff[size..] == old(buff[size..])
    {
      ResponseRead(s0, sec, a, j);
      buff[j] := c.Exchange(READ_RESPONSE);
      FrameClock(head, j);
      ClocksAppend(j);
      OutsAppend(Clocks(j), READ_RESPONSE);
      ReadSpecStep(m, a, j);
      assert buff[..j + 1] == buff[..j] + [buff[j]];
      j := j + 1;
    }
  }

  /** SPIF_uncheck_read: the range checks against the whole flash, then one
      read transaction whose data bytes fill `buff[..size]`; the security
      area is read after one dummy byte. */
  method UncheckRead(c: Chip, sec: bool, address: u32, buff: array<byte>, size: u32) returns (r: SpifRet)
    requires c.Quiescent() && size <= buff.Length
    modifies c, buff
    ensures r == CheckRange(address, size, FLASH_SIZE)
    ensures r != Ok ==> unchanged(c) && unchanged(buff)
    ensures r == Ok ==>
      && buff[..size] == ReadSpec(c.Region(sec), address, size)
      && buff[size..] == old(buff[size..])
      && c.State() == old(c.State()) && !c.selected && c.frame == []
      && c.trace == old(c.trace) + ReadTrace(sec, address, size)
  {
    r := CheckRange(address, size, FLASH_SIZE);
    if r != Ok {
      return;
    }
    WaitReady(c);
    Begin(c, ReadOp(sec));
    SendAddress(c, address);
    ghost var ta := c.trace;
    if sec {
      var _ := c.Exchange(READ_RESPONSE);
    }
    assert c.frame == [ReadOp(sec)] + AddrBytes(address) + Dummy(sec);
    assert c.trace == ta + Outs(Dummy(sec));
    ReceiveData(c, sec, address, buff, size);
    InertCommit(c.State(), c.frame);
    c.Deselect();
    ReadTraceSplit(old(c.trace), sec, address, size);
  }

  /** The data phase of a program transaction: each byte of `data`
      shifted out in turn. */
  method SendData(c: Chip, data: seq<byte>)
    requires c.selected
    modifies c
    ensures c.State() == old(c.State()) && c.selected
    ensures c.frame == old(c.frame) + data
    ensures c.trace == old(c.trace) + Outs(data)
  {
    var j := 0;
    while j < |data|
      invariant 0 <= j <= |data|
      invariant c.State() == old(c.State()) && c.selected
      invariant c.frame == old(c.frame) + data[..j]
      invariant c.trace == old(c.trace) + Outs(data[..j])
    {
      var _ := c.Exchange(data[j]);
      assert data[..j + 1] == data[..j] + [data[j]];
      OutsAppend(data[..j], data[j]);
      j := j + 1;
    }
    assert data[..j] == data;
  }

  /** The end of a program transaction: chip select high commits the
      frame, which programs the region with the latch set. */
  method FinishProgram(c: Chip, sec: bool, a: nat, data: seq<byte>)
    requires c.selected && c.wel && c.frame == [ProgramOp(sec)] + AddrBytes(a) + data
    modifies c
    ensures c.State() == Written(old(c.State()), sec, Program(old(c.Region(sec)), a % SPACE, data))
    ensures !c.selected && c.frame == []
    ensures c.trace == old(c.trace) + [CsHigh]
  {
    CommitProgram(c.State(), sec, a, data);
    c.Deselect();
  }

  /** One page-program transaction of `s`: write enable, the program
      opcode of the region, the address, the data bytes, then a wait. */
  method ProgramSegment(c: Chip, sec: bool, s: Segment, buff: seq<byte>)
    requires c.Quiescent() && s.offset + s.len <= |buff|
    modifies c
    ensures c.State() == Written(old(c.State()), sec, Program(old(c.Region(sec)), s.flash % SPACE, SegmentData(buff, s)))
    ensures !c.selected && c.frame == []
    ensures c.trace == old(c.trace) + SegmentTrace(sec, s, buff)
  {
    EnableWrite(c);
    Begin(c, ProgramOp(sec));
    SendAddress(c, s.flash);
    var data := SegmentData(buff, s);
    SendData(c, data);
    FinishProgram(c, sec, s.flash, data);
    WaitReady(c);
    SegmentTraceSplit(old(c.trace), sec, s, buff);
  }

  /** One more transaction of a plan: its program follows the effect of
      the ones before, and its events follow theirs. */
  lemma PlanStep(t: seq<Event>, m: Memory, sec: bool, plan: seq<Segment>, buff: seq<byte>, k: nat)
    requires FitsBuffer(plan, buff) && k < |plan|
    ensures FitsBuffer(plan[..k], buff) && FitsBuffer(plan[..k + 1], buff)
    ensures ApplyPlan(m, plan[..k + 1], buff) ==
      Program(ApplyPlan(m, plan[..k], buff), plan[k].flash % SPACE, SegmentData(buff, plan[k]))
    ensures t + PlanTrace(sec, plan[..k + 1], buff) ==
      t + PlanTrace(sec, plan[..k], buff) + SegmentTrace(sec, plan[k], buff)
  {
    assert plan[..k + 1][..k] == plan[..k];
  }

  /** Transaction `k` of a plan, sent after the ones before it: the
      region and the bus then hold the effect and the events of
      `plan[..k + 1]`. */
  method ProgramNext(c: Chip, sec: bool, s: Segment, buff: seq<byte>,
                     ghost plan: seq<Segment>, ghost k: nat, ghost m0: Memory, ghost t0: seq<Event>)
    requires FitsBuffer(plan, buff) && k < |plan| && s == plan[k]
    requires c.Region(sec) == ApplyPlan(m0, plan[..k], buff)
    requires !c.selected && c.trace == t0 + PlanTrace(sec, plan[..k], buff)
    modifies c
    ensures c.Region(sec) == ApplyPlan(m0, plan[..k + 1], buff)
    ensures c.Region(!sec) == old(c.Region(!sec)) && !c.wel
    ensures !c.selected && c.frame == []
    ensures c.trace == t0 + PlanTrace(sec, plan[..k + 1], buff)
  {
    PlanStep(t0, m0, sec, plan, buff, k);
    ProgramSegment(c, sec, s, buff);
  }

  /** Every transaction of `WritePlan` takes its bytes from the buffer,
      and `PlanEffect` is the effect of sending them all. */
  lemma UncheckWritePlan(m: Memory, address: u32, buff: seq<byte>)
    requires 0 < |buff| && address + |buff| < U32
    ensures FitsBuffer(WritePlan(address, |buff|), buff)
    ensures PlanEffect(m, address, buff) == ApplyPlan(m, WritePlan(address, |buff|), buff)
  {
    WritePlanBounded(address, |buff|);
  }

  lemma WholePlan(plan: seq<Segment>)
    ensures plan[..|plan|] == plan
  {
  }

  /** Interior page `i` of the plan, in the terms SPIF_uncheck_write
      computes it. */
  lemma MiddleAt(address: u32, size: u32, i: nat)
    requires 0 < size && address + size < U32 && i < PagesCount(size)
    ensures i + 1 < |WritePlan(address, size)|
    ensures WritePlan(address, size)[i + 1] ==
      Segment(FirstPage(address) + PAGE_SIZE + i * PAGE_SIZE, i * PAGE_SIZE + FirstCount(address, size), PAGE_SIZE)
  {
    WritePlanTail(address, size);
  }

  /** The plan has room for the leading segment and `pages_count` interior pages. */
  lemma MiddlesFit(address: u32, size: u32)
    requires 0 < size && address + size < U32
    ensures 1 + (if PagesCount(size) < 0 then 0 else PagesCount(size)) <= |WritePlan(address, size)|
  {
    WritePlanTail(address, size);
  }

  /** The loop of SPIF_uncheck_write over the `pages_count` whole pages
      after the first, sent as transactions `1 .. pages_count` of the plan;
      `i` ends at the number of pages sent. */
  method SendMiddles(c: Chip, sec: bool, address: u32, buff: seq<byte>, size: u32,
                     ghost m0: Memory, ghost t0: seq<Event>) returns (i: nat)
    requires |buff| == size && 0 < size && address + size < U32
    requires FitsBuffer(WritePlan(address, size), buff)
    requires c.Region(sec) == ApplyPlan(m0, WritePlan(address, size)[..1], buff) && !c.wel
    requires !c.selected && c.frame == [] && c.trace == t0 + PlanTrace(sec, WritePlan(address, size)[..1], buff)
    modifies c
    ensures i == if PagesCount(size) < 0 then 0 else PagesCount(size)
    ensures i + 1 <= |WritePlan(address, size)|
    ensures c.Region(sec) == ApplyPlan(m0, WritePlan(address, size)[..i + 1], buff)
    ensures c.Region(!sec) == old(c.Region(!sec)) && !c.wel
    ensures !c.selected && c.frame == []
    ensures c.trace == t0 + PlanTrace(sec, WritePlan(address, size)[..i + 1], buff)
  {
    ghost var plan := WritePlan(address, size);
    var firstPage := FirstPage(address);
    var pagesCount := PagesCount(size);
    var writeCount := FirstCount(address, size);
    MiddlesFit(address, size);
    i := 0;
    while i < pagesCount
      invariant 0 <= i <= (if pagesCount < 0 then 0 else pagesCount)
      invariant c.Region(sec) == ApplyPlan(m0, plan[..i + 1], buff)
      invariant c.Region(!sec) == old(c.Region(!sec)) && !c.wel
      invariant !c.selected && c.frame == []
      invariant c.trace == t0 + PlanTrace(sec, plan[..i + 1], buff)
    {
      var offset := i * PAGE_SIZE + writeCount;
      var pageAddress := firstPage + PAGE_SIZE + i * PAGE_SIZE;
      MiddleAt(address, size, i);
      ProgramNext(c, sec, Segment(pageAddress, offset, PAGE_SIZE), buff, plan, i + 1, m0, t0);
      i := i + 1;
    }
  }

  /** SPIF_uncheck_write: size and range checks against the whole flash,
      then the transactions of `WritePlan`, which program the region as
      `PlanEffect` says. */
  method UncheckWrite(c: Chip, sec: bool, address: u32, buff: seq<byte>, size: u32) returns (r: SpifRet)
    requires c.Quiescent() && |buff| == size && !Hangs(address, size, FLASH_SIZE)
    modifies c
    ensures r == UncheckWriteResult(address, size)
    ensures r != Ok ==> unchanged(c)
    ensures r == Ok ==>
      && c.State() == Written(old(c.State()), sec, PlanEffect(old(c.Region(sec)), address, buff))
      && !c.selected && c.frame == []
      && c.trace == old(c.trace) + STATUS_POLL + PlanTrace(sec, WritePlan(address, size), buff)
  {
    if size == 0 {
      return InvalidAddr;
    }
    r := CheckRange(address, size, FLASH_SIZE);
    if r != Ok {
      return;
    }
    SendPlan(c, sec, address, buff, size);
  }

  /** The part of SPIF_uncheck_write after the checks: a wait, the leading
      segment up to the end of its page, `pages_count` whole pages, and the
      trailing segment when `last_page != 0 && first_page != last_page`. */
  method SendPlan(c: Chip, sec: bool, address: u32, buff: seq<byte>, size: u32)
    requires c.Quiescent() && |buff| == size && 0 < size && address + size < U32
    modifies c
    ensures c.State() == Written(old(c.State()), sec, PlanEffect(old(c.Region(sec)), address, buff))
    ensures !c.selected && c.frame == []
    ensures c.trace == old(c.trace) + STATUS_POLL + PlanTrace(sec, WritePlan(address, size), buff)
  {
    ghost var m0 := c.Region(sec);
    UncheckWritePlan(m0, address, buff);
    ghost var t0 := SendFirst(c, sec, address, buff, size);
    var i := SendMiddles(c, sec, address, buff, size, m0, t0);
    SendTail(c, sec, address, buff, size, i, m0, t0);
  }

  /** The first transaction of SPIF_uncheck_write, after a wait: the
      `write_count` bytes from `address` to the end of its page (or to the
      end of the range). */
  method SendFirst(c: Chip, sec: bool, address: u32, buff: seq<byte>, size: u32) returns (ghost t0: seq<Event>)
    requires c.Quiescent() && |buff| == size && 0 < size && address + size < U32
    requires FitsBuffer(WritePlan(address, size), buff)
    modifies c
    ensures t0 == old(c.trace) + STATUS_POLL
    ensures c.Region(sec) == ApplyPlan(old(c.Region(sec)), WritePlan(address, size)[..1], buff)
    ensures c.Region(!sec) == old(c.Region(!sec)) && !c.wel
    ensures !c.selected && c.frame == [] && c.trace == t0 + PlanTrace(sec, WritePlan(address, size)[..1], buff)
  {
    ghost var plan := WritePlan(address, size);
    var writeCount := FirstCount(address, size);
    WaitReady(c);
    t0 := c.trace;
    WritePlanTail(address, size);
    assert plan[..0] == [];
    ProgramNext(c, sec, Segment(address, 0, writeCount), buff, plan, 0, old(c.Region(sec)), t0);
  }

  /** The trailing transaction of SPIF_uncheck_write, from `last_page` to
      `address + size`, sent when `last_page != 0 && first_page != last_page`;
      with it, every transaction of the plan has been sent. */
  method SendTail(c: Chip, sec: bool, address: u32, buff: seq<byte>, size: u32, i: nat,
                  ghost m0: Memory, ghost t0: seq<Event>)
    requires |buff| == size && 0 < size && address + size < U32
    requires FitsBuffer(WritePlan(address, size), buff)
    requires i == if PagesCount(size) < 0 then 0 else PagesCount(size)
    requires c.Region(sec) == ApplyPlan(m0, WritePlan(address, size)[..i + 1], buff) && !c.wel
    requires !c.selected && c.frame == [] && c.trace == t0 + PlanTrace(sec, WritePlan(address, size)[..i + 1], buff)
    modifies c
    ensures c.Region(sec) == ApplyPlan(m0, WritePlan(address, size), buff)
    ensures c.Region(!sec) == old(c.Region(!sec)) && !c.wel
    ensures !c.selected && c.frame == [] && c.trace == t0 + PlanTrace(sec, WritePlan(address, size), buff)
  {
    ghost var plan := WritePlan(address, size);
    var firstPage := FirstPage(address);
    var lastPage := LastPage(address, size);
    WritePlanTail(address, size);
    if lastPage != 0 && firstPage != lastPage {
      var offset := lastPage - address;
      ProgramNext(c, sec, Segment(lastPage, offset, address + size - lastPage), buff, plan, i + 1, m0, t0);
    }
    WholePlan(plan);
  }

  // ---------------------------------------------------------------------
  // Exported functions

  /** SPIF_erase: a wait, write enable and the chip-erase command; the main
      array reads 0xFF everywhere afterwards, the security area is kept. */
  method Erase(c: Chip)
    requires c.Quiescent()
    modifies c
    ensures c.State() == Cells(Erased(), old(c.security), false)
    ensures !c.selected && c.frame == []
    ensures c.trace == old(c.trace) + STATUS_POLL + ENABLE_WRITE_TRACE + [CsHigh, CsLow, Out(CHIP_ERASE), CsHigh]
  {
    WaitReady(c);
    EnableWrite(c);
    Begin(c, CHIP_ERASE);
    c.Deselect();
  }

  /** The middle address byte SPIF_3B_erase_page sends selects block
      `page % 16` of the security area. */
  lemma ErasePageAddress(page: byte)
    ensures Addr3(0x00, (page << 4) & 0xF0, 0x00) == SECTOR_SIZE * (page as nat % 16)
  {
    var lo := page & 0x0F;
    assert (page << 4) & 0xF0 == lo << 4;
    assert (lo << 4) as nat == lo as nat * 16;
    assert lo as nat == page as nat % 16;
  }

  /** The security-erase frame, committed with the latch set, erases the
      block its address names and clears the latch. */
  lemma CommitErase(c: Cells, mid: byte)
    requires c.wel
    ensures Commit(c, [SEC_ERASE, 0x00, mid, 0x00]) ==
      Cells(c.main, EraseBlock(c.security, Addr3(0x00, mid, 0x00)), false)
  {
  }

  /** SPIF_3B_erase_page: a wait, write enable and the 0x44 erase with
      address `0x00, (page << 4) & 0xF0, 0x00`, which sets the 4096-byte
      security block `page % 16` to 0xFF and keeps everything else. */
  method ErasePage(c: Chip, page: byte)
    requires c.Quiescent()
    modifies c
    ensures c.State() == Cells(old(c.main), EraseBlock(old(c.security), SECTOR_SIZE * (page as nat % 16)), false)
    ensures !c.selected && c.frame == []
    ensures c.trace == old(c.trace) + STATUS_POLL + ENABLE_WRITE_TRACE
      + [CsHigh, CsLow, Out(SEC_ERASE), Out(0x00), Out((page << 4) & 0xF0), Out(0x00), CsHigh]
  {
    WaitReady(c);
    EnableWrite(c);
    Begin(c, SEC_ERASE);
    var _ := c.Exchange(0x00);
    var _ := c.Exchange((page << 4) & 0xF0);
    var _ := c.Exchange(0x00);
    assert c.frame == [SEC_ERASE, 0x00, (page << 4) & 0xF0, 0x00];
    CommitErase(c.State(), (page << 4) & 0xF0);
    ErasePageAddress(page);
    c.Deselect();
  }

  /** SPIF_get_page_size. */
  function PageSize(): (n: nat)
    ensures n < 0x1_0000 && n == PAGE_SIZE
  {
    PAGE_SIZE
  }

  /** SPIF_get_sector_size. */
  function SectorSize(): (n: nat)
    ensures n < 0x1_0000 && n == SECTOR_SIZE
  {
    SECTOR_SIZE
  }

  /** SPIF_get_size: the usable size, which leaves out the last sector. */
  function Size(): (n: nat)
    ensures n < U32 && n == VIRT_SIZE
  {
    VIRT_SIZE
  }

  /** The geometry the getters report is consistent: pages tile sectors,
      sectors tile the usable size, and the one sector held back is the last
      one of the flash. */
  lemma Geometry()
    ensures SectorSize() % PageSize() == 0 && SectorSize() / PageSize() == 16
    ensures Size() % SectorSize() == 0
    ensures Size() + SectorSize() == FLASH_SIZE
  {
  }

  /** SPIF_read: the range checks against the usable size, then
      SPIF_uncheck_read. */
  method Read(c: Chip, sec: bool, address: u32, buff: array<byte>, size: u32) returns (r: SpifRet)
    requires c.Quiescent() && size <= buff.Length
    modifies c, buff
    ensures r == CheckRange(address, size, VIRT_SIZE)
    ensures r != Ok ==> unchanged(c) && unchanged(buff)
    ensures r == Ok ==>
      && buff[..size] == ReadSpec(c.Region(sec), address, size)
      && buff[size..] == old(buff[size..])
      && c.State() == old(c.State()) && !c.selected && c.frame == []
      && c.trace == old(c.trace) + ReadTrace(sec, address, size)
  {
    r := CheckRange(address, size, VIRT_SIZE);
    if r != Ok {
      return;
    }
    r := UncheckRead(c, sec, address, buff, size);
  }

  /** SPIF_fast_write: the range checks against the usable size, then
      SPIF_uncheck_write. */
  method FastWrite(c: Chip, sec: bool, address: u32, buff: seq<byte>, size: u32) returns (r: SpifRet)
    requires c.Quiescent() && |buff| == size && !Hangs(address, size, VIRT_SIZE)
    modifies c
    ensures r == FastWriteResult(address, size)
    ensures c.Region(sec) == FastWriteEffect(old(c.Region(sec)), address, buff)
    ensures c.Region(!sec) == old(c.Region(!sec))
    ensures c.wel == (if r == Ok then false else old(c.wel))
    ensures r != Ok ==> unchanged(c)
    ensures r == Ok ==>
      && !c.selected && c.frame == []
      && c.trace == old(c.trace) + STATUS_POLL + PlanTrace(sec, WritePlan(address, size), buff)
  {
    r := CheckRange(address, size, VIRT_SIZE);
    if r != Ok {
      return;
    }
    r := UncheckWrite(c, sec, address, buff, size);
  }

  /** The data phase of the compatibility read: clocks in one byte per
      byte of `want` and compares them, stopping at the first that is not
      compatible. */
  method CompareData(c: Chip, sec: bool, a: nat, want: seq<byte>) returns (ok: bool)
    requires c.selected && c.frame == [ReadOp(sec)] + AddrBytes(a)
    modifies c
    ensures c.State() == old(c.State()) && c.selected && Inert(c.frame)
    ensures ok <==> forall j :: 0 <= j < |want| ==> Compatible(want[j], CheckReadByte(c.Region(sec), sec, a, j))
  {
    ghost var s0 := c.State();
    ghost var m := c.Region(sec);
    ghost var head := [ReadOp(sec)] + AddrBytes(a);
    var j := 0;
    while j < |want|
      invariant 0 <= j <= |want|
      invariant c.State() == s0 && c.selected
      invariant c.frame == head + Clocks(j)
      invariant forall t :: 0 <= t < j ==> Compatible(want[t], CheckReadByte(m, sec, a, t))
    {
      ResponseCheck(s0, sec, a, j);
      var readByte := c.Exchange(READ_RESPONSE);
      FrameClock(head, j);
      if !Compatible(want[j], readByte) {
        return false;
      }
      j := j + 1;
    }
    return true;
  }

  /** The compatibility read of SPIF_write: the read opcode of the region
      and the address `a`, no dummy byte, then one byte per byte of `want`,
      stopping at the first one that is not compatible, with chip select
      still low. */
  method CheckRead(c: Chip, sec: bool, a: u32, want: seq<byte>) returns (ok: bool)
    requires c.Quiescent()
    modifies c
    ensures c.State() == old(c.State())
    ensures ok <==> forall j :: 0 <= j < |want| ==> Compatible(want[j], CheckReadByte(c.Region(sec), sec, a, j))
    ensures ok ==> !c.selected && c.frame == []
    ensures !ok ==> c.selected && Inert(c.frame)
  {
    Begin(c, ReadOp(sec));
    SendAddress(c, a);
    ok := CompareData(c, sec, a, want);
    if ok {
      InertCommit(c.State(), c.frame);
      c.Deselect();
    }
  }

  /** SPIF_write: the range checks against the usable size; then, page by
      page, the compatibility read and a fast write of the page, returning
      IncompatibleWrite at the first byte that fails (the pages before it
      stay written).  The outcome and the region's new contents are those
      of `VerifiedWrite`; the other region is untouched. */
  method Write(c: Chip, sec: bool, address: u32, buff: seq<byte>, size: u32) returns (r: SpifRet)
    requires c.Quiescent() && |buff| == size
    modifies c
    ensures var run := VerifiedWrite(old(c.Region(sec)), sec, address, buff);
      && r == run.ret
      && c.Region(sec) == run.mem
    ensures c.Region(!sec) == old(c.Region(!sec))
    ensures c.Quiescent()
    ensures c.wel ==> old(c.wel)
    ensures r != Ok && r != IncompatibleWrite ==> unchanged(c)
  {
    r := CheckRange(address, size, VIRT_SIZE);
    if r != Ok {
      return;
    }
    ghost var m0 := c.Region(sec);
    WaitReady(c);
    var i, ok := WriteFullPages(c, sec, address, buff, m0);
    if ok {
      ok := WriteRemainder(c, sec, address, buff, i, m0);
    }
    r := if ok then Ok else IncompatibleWrite;
  }

  /** The loop of SPIF_write over the full pages: it stops at the first
      page whose check fails, and then the write is over. */
  method WriteFullPages(c: Chip, sec: bool, address: u32, buff: seq<byte>, ghost m0: Memory) returns (i: nat, ok: bool)
    requires !c.selected && c.frame == [] && |buff| < U32 && CheckRange(address, |buff|, VIRT_SIZE) == Ok
    requires c.Region(sec) == m0
    modifies c
    ensures !ok ==> VerifiedWrite(m0, sec, address, buff) == WriteRun(IncompatibleWrite, c.Region(sec))
    ensures ok ==>
      && i == |buff| / PAGE_SIZE && i <= FirstFalse(AsWrittenChecks(m0, sec, address, buff))
      && c.Region(sec) == Programmed(m0, address, buff, i)
      && !c.selected && c.frame == []
    ensures c.Region(!sec) == old(c.Region(!sec))
    ensures c.Quiescent()
    ensures c.wel ==> old(c.wel)
  {
    i := 0;
    while i < |buff| / PAGE_SIZE
      invariant 0 <= i <= |buff| / PAGE_SIZE
      invariant i <= FirstFalse(AsWrittenChecks(m0, sec, address, buff))
      invariant c.Region(sec) == Programmed(m0, address, buff, i)
      invariant c.Region(!sec) == old(c.Region(!sec))
      invariant !c.selected && c.frame == []
      invariant c.wel ==> old(c.wel)
    {
      ok := WritePageStep(c, sec, address, buff, i, m0);
      if !ok {
        return;
      }
      i := i + 1;
    }
    ok := true;
  }

  /** Full page `i` of SPIF_write, placed in the run: after it either the
      run goes on with page `i` written or it has ended. */
  method WritePageStep(c: Chip, sec: bool, address: u32, buff: seq<byte>, i: nat, ghost m0: Memory) returns (ok: bool)
    requires !c.selected && c.frame == [] && |buff| < U32 && CheckRange(address, |buff|, VIRT_SIZE) == Ok
    requires i < |buff| / PAGE_SIZE && i <= FirstFalse(AsWrittenChecks(m0, sec, address, buff))
    requires c.Region(sec) == Programmed(m0, address, buff, i)
    modifies c
    ensures !ok ==> VerifiedWrite(m0, sec, address, buff) == WriteRun(IncompatibleWrite, c.Region(sec))
    ensures ok ==>
      && i + 1 <= FirstFalse(AsWrittenChecks(m0, sec, address, buff))
      && c.Region(sec) == Programmed(m0, address, buff, i + 1)
      && !c.selected && c.frame == []
    ensures c.Region(!sec) == old(c.Region(!sec))
    ensures c.Quiescent()
    ensures c.wel ==> old(c.wel)
  {
    ok := WriteFullPage(c, sec, address, buff, i);
    VerifiedWriteStep(m0, sec, address, buff, i, c.Region(sec), ok);
  }

  /** The end of SPIF_write once every full page passed: the partial last
      page, if any. */
  method WriteRemainder(c: Chip, sec: bool, address: u32, buff: seq<byte>, i: nat, ghost m0: Memory) returns (ok: bool)
    requires !c.selected && c.frame == [] && |buff| < U32 && CheckRange(address, |buff|, VIRT_SIZE) == Ok
    requires i == |buff| / PAGE_SIZE && i <= FirstFalse(AsWrittenChecks(m0, sec, address, buff))
    requires c.Region(sec) == Programmed(m0, address, buff, i)
    modifies c
    ensures var run := VerifiedWrite(m0, sec, address, buff);
      && run.ret == (if ok then Ok else IncompatibleWrite)
      && c.Region(sec) == run.mem
    ensures c.Region(!sec) == old(c.Region(!sec))
    ensures c.Quiescent()
    ensures c.wel ==> old(c.wel)
  {
    if |buff| % PAGE_SIZE == 0 {
      VerifiedWriteComplete(m0, sec, address, buff);
      return true;
    }
    ok := WriteLastPage(c, sec, address, buff, i);
    VerifiedWriteTail(m0, sec, address, buff, c.Region(sec), ok);
  }

  /** Full page `k` of SPIF_write: the check read of 256 bytes at
      `address` (every page is checked there), then, when it passes, the
      fast write of the page at `address + 256 * k`. */
  method WriteFullPage(c: Chip, sec: bool, address: u32, buff: seq<byte>, k: nat) returns (ok: bool)
    requires c.Quiescent() && |buff| < U32 && k < |buff| / PAGE_SIZE
    modifies c
    ensures ok == AsWrittenCheck(old(c.Region(sec)), sec, address, buff, k)
    ensures c.Region(sec) ==
      if ok then FastWriteEffect(old(c.Region(sec)), ChunkAddr(address, k), Chunk(buff, k)) else old(c.Region(sec))
    ensures c.Region(!sec) == old(c.Region(!sec))
    ensures c.Quiescent() && (ok ==> !c.selected && c.frame == [])
    ensures c.wel ==> old(c.wel)
  {
    var want := Chunk(buff, k);
    ok := CheckRead(c, sec, address, want);
    assert forall j :: 0 <= j < PAGE_SIZE ==> want[j] == buff[PAGE_SIZE * k + j];
    if ok {
      PageNoHang(ChunkAddr(address, k), PAGE_SIZE);
      var _ := FastWrite(c, sec, ChunkAddr(address, k), want, PAGE_SIZE);
    }
  }

  /** The partial last page `k` of SPIF_write: the check read of its first
      byte only, at the page's own address, then, when it passes, the fast
      write of the `size % 256` remaining bytes. */
  method WriteLastPage(c: Chip, sec: bool, address: u32, buff: seq<byte>, k: nat) returns (ok: bool)
    requires c.Quiescent() && |buff| < U32 && k == |buff| / PAGE_SIZE && |buff| % PAGE_SIZE != 0
    modifies c
    ensures ok == AsWrittenCheck(old(c.Region(sec)), sec, address, buff, k)
    ensures c.Region(sec) ==
      if ok then FastWriteEffect(old(c.Region(sec)), ChunkAddr(address, k), Chunk(buff, k)) else old(c.Region(sec))
    ensures c.Region(!sec) == old(c.Region(!sec))
    ensures c.Quiescent() && (ok ==> !c.selected && c.frame == [])
    ensures c.wel ==> old(c.wel)
  {
    var want := Chunk(buff, k);
    ok := CheckRead(c, sec, ChunkAddr(address, k), want[..1]);
    if ok {
      PageNoHang(ChunkAddr(address, k), |want|);
      var _ := FastWrite(c, sec, ChunkAddr(address, k), want, |want| as u32);
    }
  }

  /** SPIF_force_write: SPIF_write, and only when that reports
      IncompatibleWrite, SPIF_slow_write, whose result is `slow`.  The body
      of SPIF_slow_write is not part of this model, so nothing is promised
      about the chip after it. */
  method ForceWrite(c: Chip, sec: bool, address: u32, buff: seq<byte>, size: u32, slow: SpifRet) returns (r: SpifRet)
    requires c.Quiescent() && |buff| == size
    modifies c
    ensures var run := VerifiedWrite(old(c.Region(sec)), sec, address, buff);
      && r == (if run.ret == IncompatibleWrite then slow else run.ret)
      && (run.ret != IncompatibleWrite ==>
            c.Region(sec) == run.mem && c.Region(!sec) == old(c.Region(!sec)) && c.Quiescent())
  {
    r := Write(c, sec, address, buff, size);
    if r == IncompatibleWrite {
      r := slow;
    }
  }
}
