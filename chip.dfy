/**
 * The serial bus and the flash chip behind it: the three transport
 * primitives the driver calls (`flash_select`, `flash_deselect` and
 * `spi_write_read`) acting on a chip that never reports busy.  The chip
 * collects the bytes clocked in since chip select went low (the frame),
 * answers reads and status reads from its cells, and carries out program,
 * erase and write-enable commands when chip select goes high again.
 */
module NorChip {
  import opened Wire
  import opened Nor

  /** One bus event, as seen on the master's side: chip select going low or
      high, or one byte shifted out. */
  datatype Event = CsLow | CsHigh | Out(b: byte)

  /** The persistent state of the chip. */
  datatype Cells = Cells(main: Memory, security: Memory, wel: bool)

  /** Address carried by bytes 1..3 of a command frame. */
  function FrameAddr(f: seq<byte>): nat
    requires |f| >= 4
  {
    Addr3(f[1], f[2], f[3])
  }

  /** Status register 1 as read back: the chip is never busy. */
  function StatusOf(wel: bool): (s: byte)
    ensures s & STAT_BUSY == 0
    ensures (s & STAT_WRITE_ENABLE != 0) == wel
  {
    if wel then STAT_WRITE_ENABLE else 0x00
  }

  /** What the chip does with the frame `f` when chip select goes high.
      Program and erase commands need the write-enable latch and clear it. */
  function Commit(c: Cells, f: seq<byte>): (r: Cells)
    ensures f == [ENABLE_WRITE] ==> r == c.(wel := true)
    ensures f != [ENABLE_WRITE] && !c.wel ==> r == c
    ensures r.main == c.main || r.security == c.security
    ensures r.wel ==> r == c || f == [ENABLE_WRITE]
  {
    if f == [ENABLE_WRITE] then c.(wel := true)
    else if !c.wel then c
    else if |f| >= 4 && f[0] == PROGRAM then
      Cells(Program(c.main, FrameAddr(f), f[4..]), c.security, false)
    else if |f| >= 4 && f[0] == SEC_PROGRAM then
      Cells(c.main, Program(c.security, FrameAddr(f), f[4..]), false)
    else if f == [CHIP_ERASE] then
      Cells(Erased(), c.security, false)
    else if |f| == 4 && f[0] == SEC_ERASE then
      Cells(c.main, EraseBlock(c.security, FrameAddr(f)), false)
    else c
  }

  /** The byte the chip drives while the byte following frame `f` is
      clocked: status, read data after the address (and, for the security
      area, after one dummy byte), and 0xFF when it drives nothing. */
  function Response(c: Cells, f: seq<byte>): (r: byte)
    ensures |f| >= 1 && f[0] == READ_STATUS_1 ==> r & STAT_BUSY == 0
    ensures (f == [] || f[0] != READ_STATUS_1) && |f| < 4 ==> r == 0xFF
  {
    if |f| >= 1 && f[0] == READ_STATUS_1 then StatusOf(c.wel)
    else if |f| >= 4 && f[0] == READ then c.main[(FrameAddr(f) + |f| - 4) % SPACE]
    else if |f| >= 5 && f[0] == SEC_READ then c.security[(FrameAddr(f) + |f| - 5) % SPACE]
    else 0xFF
  }

  /** A frame whose commit changes nothing: what a driver call may leave
      behind (the verified write returns in the middle of a read). */
  predicate Inert(f: seq<byte>)
  {
    f == [] || f[0] == READ || f[0] == SEC_READ
  }

  lemma InertCommit(c: Cells, f: seq<byte>)
    requires Inert(f)
    ensures Commit(c, f) == c
  {
  }

  class Chip {
    var main: Memory
    var security: Memory
    var wel: bool
    var selected: bool
    var frame: seq<byte>
    var trace: seq<Event>

    function State(): Cells
      reads this
    {
      Cells(main, security, wel)
    }

    /** The memory of a region: the security area when `sec`. */
    function Region(sec: bool): Memory
      reads this
    {
      if sec then security else main
    }

    /** No command is pending whose commit would change the cells. */
    predicate Quiescent()
      reads this
    {
      !selected || Inert(frame)
    }

    constructor (main: Memory, security: Memory)
      ensures State() == Cells(main, security, false)
      ensures !selected && frame == [] && trace == []
    {
      this.main, this.security, this.wel := main, security, false;
      selected, frame, trace := false, [], [];
    }

    /** `flash_select`: chip select low, a new frame starts. */
    method Select()
      modifies this
      ensures State() == old(State())
      ensures selected && frame == [] && trace == old(trace) + [CsLow]
    {
      selected, frame := true, [];
      trace := trace + [CsLow];
    }

    /** `flash_deselect`: chip select high, the pending frame is carried out. */
    method Deselect()
      modifies this
      ensures State() == if old(selected) then Commit(old(State()), old(frame)) else old(State())
      ensures !selected && frame == [] && trace == old(trace) + [CsHigh]
    {
      if selected {
        var c := Commit(State(), frame);
        main, security, wel := c.main, c.security, c.wel;
      }
      selected, frame := false, [];
      trace := trace + [CsHigh];
    }

    /** `spi_write_read`: one full-duplex byte exchange. */
    method Exchange(b: byte) returns (r: byte)
      modifies this
      ensures State() == old(State()) && selected == old(selected)
      ensures frame == if selected then old(frame) + [b] else old(frame)
      ensures r == if selected then Response(State(), old(frame)) else 0xFF
      ensures trace == old(trace) + [Out(b)]
    {
      r := if selected then Response(State(), frame) else 0xFF;
      if selected {
        frame := frame + [b];
      }
      trace := trace + [Out(b)];
    }
  }
}
