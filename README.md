# SPI NOR-flash driver (W25Q512JV instruction set) — Dafny model

This project models the serial NOR-flash driver `CH32V003_APP/User/spiflash.c`
of the CH32V003 application: the bus helpers (`SPIF_read_status`,
`SPIF_enable_write`), the unchecked read and write (`SPIF_uncheck_read`,
`SPIF_uncheck_write`), the exported entry points (`SPIF_erase`,
`SPIF_3B_erase_page`, the three size getters, `SPIF_read`, `SPIF_write`,
`SPIF_fast_write`, `SPIF_force_write`) and the arithmetic that splits a write
into page-program transactions.

Files, one module each:

- `wire.dfy` (`Wire`): opcodes, status bits, capacities, result codes
  (`SPIF_RET_t`), the 3-byte big-endian address encoding.
- `nor.dfy` (`Nor`): NOR-cell semantics. A page program ANDs the latched
  byte into each cell of one 256-byte page and wraps within the page. An
  erase sets bytes to 0xFF. One `Memory` is the 2^24 bytes a 3-byte address
  reaches.
- `chip.dfy` (`NorChip`): the chip and the bus as a class `Chip`. Its fields
  are the main array, the security area, the write-enable latch, chip
  select, the frame of bytes clocked in since chip select went low, and a
  trace of bus events. `Select`, `Deselect` and `Exchange` are the three
  transport primitives `flash_select`, `flash_deselect` and
  `spi_write_read`. A command frame takes effect when chip select goes high.
- `paging.dfy` (`Paging`): the 32-bit range checks and the split of
  `[address, address + size)` into a leading segment, `pages_count`
  interior pages and a trailing segment, as pure functions with lemmas.
- `write_model.dfy` (`WriteModel`): what the writes do to a region, as
  functions of its memory. `PlanEffect` is the unchecked write.
  `FastWriteEffect` is the fast write. `VerifiedWrite` is the page-by-page
  verified write. Beside them sit the evidently intended versions.
- `spiflash.dfy` (`SpiFlash`): every driver function that uses the bus is
  a method on a `Chip`, proved against the functions above; the three size
  getters are functions. The bus helpers, the
  unchecked read and write, `SPIF_fast_write`, `SPIF_erase` and
  `SPIF_3B_erase_page` also state the bus trace they produce.
  `SPIF_write`, `SPIF_force_write` and the helpers of the verified write
  state the outcome and the memory, not the trace.
- `aliasing.dfy` (`Aliasing`): a write whose range starts 2^24 higher has
  the same outcome and effect. This carries what `WriteModel` proves for
  ranges inside the first 2^24 bytes to every range that does not cross a
  multiple of 2^24.

The chip model never reports busy and sets the write-enable latch at once.
So each busy or write-enable polling loop of the driver is one status read
whose result ends the loop. Because only three address bytes are sent,
addresses at or above 2^24 alias (`ReadAliases`, `AddrBytesDecode`).

Where the code and the driver's documented intent differ, the model follows
the code:

- Every full-page compatibility check of `SPIF_write` reads at `address`,
  not at the page's own address.
- The tail check reads one byte.
- The interior page count is `size / 256 - 1`.
- `SPIF_3B_erase_page` sends opcode 0x44. In the W25Q512JV instruction set
  that is the security-register erase, not the sector erase 0x20, so the
  model erases a 4096-byte block of the security area.

The evidently intended behaviour is modelled beside the code and listed
under Findings.

## Model

| member | source | states |
|---|---|---|
| Wire.AddrBytesDecode | CH32V003_APP/User/spiflash.c:101-103 | the three bytes `address >> 16`, `address >> 8`, `address`, each truncated to 8 bits, decode at the chip to `address mod 2^24` |
| Wire.AddrBytes | CH32V003_APP/User/spiflash.c:101-103 | definition: the three address bytes `a >> 16`, `a >> 8`, `a`, each truncated to 8 bits, as sent after every addressed opcode (also lines 143-145, 178-180, 348-350) |
| Wire.Low8 | CH32V003_APP/User/spiflash.c:101-103 | passing a C integer to the byte-wide `spi_write_read` keeps its value mod 256 |
| Nor.Compatible | CH32V003_APP/User/spiflash.c:329-330 | the test that `~want` ORed with `stored` is 0xFF holds exactly when `stored & want == want`, i.e. when programming `want` over `stored` leaves `want` |
| Nor.Program | CH32V003_APP/User/spiflash.c:389-391 | a page program changes only the page of its address and only clears bits |
| Nor.ProgramWithinPage | CH32V003_APP/User/spiflash.c:389-391 | within one page, byte `k` of the data is ANDed into cell `a + k` and every other cell is kept |
| Nor.Erased | CH32V003_APP/User/spiflash.c:225 | after a chip erase every byte reads 0xFF |
| Nor.EraseBlock | CH32V003_APP/User/spiflash.c:242 | an erase sets the 4096-byte block of its address to 0xFF and keeps every other byte |
| NorChip.Commit | CH32V003_APP/User/spiflash.c:69-81 | write enable sets the latch; without the latch no other frame changes anything; a frame changes at most one region; the latch stays set only after write enable or when nothing changed |
| NorChip.Response | CH32V003_APP/User/spiflash.c:51-61 | a status read never shows busy; before a read command's address is complete the chip drives 0xFF |
| NorChip.StatusOf | CH32V003_APP/User/spiflash.c:31-32 | the status byte never has the busy bit 0x01, and has bit 0x02 exactly when the write-enable latch is set |
| NorChip.InertCommit | CH32V003_APP/User/spiflash.c:330 | abandoning a read transaction (as the verified write does on failure) changes no cell |
| NorChip.Chip.Select | CH32V003_APP/User/spi.h:15 | chip select low starts an empty frame and changes no cell |
| NorChip.Chip.Deselect | CH32V003_APP/User/spi.h:16 | chip select high carries out the pending frame (program, erase, write enable) |
| NorChip.Chip.Exchange | CH32V003_APP/User/spi.h:17 | one full-duplex byte: the byte joins the frame and the trace; the reply is the chip's response to the frame so far |
| Paging.Hangs | CH32V003_APP/User/spiflash.c:129-131 | definition: a non-empty range that passes the 32-bit range checks although its end reaches 2^32 |
| Paging.FirstLoopNeverEnds | CH32V003_APP/User/spiflash.c:148-160 | for every such range the 32-bit `write_count` is the whole `size`, above 0xFFFF, so the 16-bit `j` never reaches it |
| Paging.WideCheckFirstCount | CH32V003_APP/User/spiflash.c:148-155 | with the range check done without wrap-around no range hangs, and `write_count` is at most one page |
| Paging.CheckRange | CH32V003_APP/User/spiflash.c:306-307 | AddrOutOfRange exactly when `address > limit`; Ok for every range ending within `limit`; without 32-bit wrap, Ok only for such ranges |
| Paging.CheckRangeAcceptsWrap | CH32V003_APP/User/spiflash.c:307 | `address = 1, size = 0xFFFFFFFF` passes the checks although the range ends past the usable size |
| Paging.CheckRangeWide | CH32V003_APP/User/spiflash.c:306-307 | corrected check: Ok exactly when `address + size <= limit`; agrees with the C check unless the sum reaches 2^32 |
| Paging.LastPageShape | CH32V003_APP/User/spiflash.c:124-126 | `last_page` lies `size / 256` pages past `first_page`, one less or one more depending on `address % 256 + size % 256` |
| Paging.FirstPage | CH32V003_APP/User/spiflash.c:124 | definition: `first_page = address - address % 256` |
| Paging.LastPage | CH32V003_APP/User/spiflash.c:125 | definition: `last_page = ((address + size - 1) / 256) * 256` |
| Paging.PagesCount | CH32V003_APP/User/spiflash.c:126 | definition: `pages_count = size / 256 - 1`, taken as -1 for a write shorter than a page |
| Paging.FirstCount | CH32V003_APP/User/spiflash.c:148-155 | definition: `write_count` of the leading segment, up to the end of its page or of the range |
| Paging.MiddleSegment | CH32V003_APP/User/spiflash.c:170-171 | definition: interior transaction `i` at `page_address = first_page + 256 + 256 i`, fed from `offset = 256 i + write_count` |
| Paging.HasTail | CH32V003_APP/User/spiflash.c:195 | definition: the trailing transaction is sent when `last_page != 0 && first_page != last_page` |
| Paging.TailSegment | CH32V003_APP/User/spiflash.c:197-198 | definition: the trailing transaction at `last_page`, fed from `offset = last_page - address`, `address + size - last_page` bytes |
| Paging.WritePlan | CH32V003_APP/User/spiflash.c:124-216 | definition: the transactions `SPIF_uncheck_write` sends, the leading segment, `pages_count` interior pages, then the trailing segment when `last_page != 0 && first_page != last_page` |
| Paging.WritePlanTail | CH32V003_APP/User/spiflash.c:135-216 | the transactions in order: leading segment first, interior page `i` at position `1 + i`, trailing segment last when sent |
| Paging.FirstPlaced | CH32V003_APP/User/spiflash.c:148-155 | the leading segment has `write_count = min(size, first_page + 256 - address)` bytes and stays in its page |
| Paging.MiddlePlaced | CH32V003_APP/User/spiflash.c:168-171 | interior page `i` is the whole page `first_page + 256 * (i + 1)`, fed from `buff[256 * i + write_count]` |
| Paging.TailPlaced | CH32V003_APP/User/spiflash.c:195-198 | the trailing segment starts at `last_page` with 1 to 256 bytes and ends at `address + size` |
| Paging.WritePlanPlacement | CH32V003_APP/User/spiflash.c:120-219 | every transaction is non-empty, stays in one page and in the range, and programs at flash address `x` the byte `buff[x - address]` |
| Paging.WritePlanBounded | CH32V003_APP/User/spiflash.c:183-185 | every buffer index the transactions read is below `size` |
| Paging.WritePlanCovers | CH32V003_APP/User/spiflash.c:166-216 | when `size < 256` or `address % 256 + size % 256 <= 256`, every byte of the range is programmed by some transaction |
| Paging.WritePlanSkipsPage | CH32V003_APP/User/spiflash.c:126 | otherwise the page just below `last_page` lies in the range and no transaction programs it |
| Paging.WritePlanCoverage | CH32V003_APP/User/spiflash.c:126-216 | the whole range is programmed if and only if `size < 256` or `address % 256 + size % 256 <= 256` |
| Paging.WritePlanSkipExample | CH32V003_APP/User/spiflash.c:126 | writing 400 bytes at 200 never programs bytes 256..511 |
| Paging.WritePlanRepeatsLastPage | CH32V003_APP/User/spiflash.c:195-216 | an aligned write of `k * 256` bytes, `k >= 2`, programs its last page twice, as the last interior page and as the trailing segment |
| Paging.IntendedPlan | CH32V003_APP/User/spiflash.c:126 | definition: the corrected split, with one interior page for each page strictly between `first_page` and `last_page` |
| Paging.IntendedPlanShape | CH32V003_APP/User/spiflash.c:126 | the corrected split has one interior page for each page strictly between the first and the last |
| Paging.IntendedPlanPlaced | CH32V003_APP/User/spiflash.c:166-192 | every transaction of the corrected split is well placed |
| Paging.IntendedPlanCovers | CH32V003_APP/User/spiflash.c:166-216 | the corrected split programs every byte of the range |
| Paging.IntendedPlanOrdered | CH32V003_APP/User/spiflash.c:166-216 | the corrected split's transactions follow each other in address order and never overlap |
| Paging.IntendedPlanExact | CH32V003_APP/User/spiflash.c:126 | the corrected split programs every byte of the range exactly once, in order |
| WriteModel.SegmentDataAt | CH32V003_APP/User/spiflash.c:183-185 | a well-placed transaction sends, for flash address `x`, the byte `buff[x - address]` |
| WriteModel.ApplyPlanAt | CH32V003_APP/User/spiflash.c:135-216 | after well-placed transactions, a covered byte of the range is ANDed with its buffer byte and every other byte is kept |
| WriteModel.ApplyPlanLast | CH32V003_APP/User/spiflash.c:200-214 | each transaction programs its own segment over what the earlier ones left |
| WriteModel.PlanEffect | CH32V003_APP/User/spiflash.c:120-219 | definition: the memory after every transaction of `WritePlan`, each programmed at the low 24 bits of its address |
| WriteModel.PlanEffectCovered | CH32V003_APP/User/spiflash.c:120-219 | under the coverage condition, the unchecked write ANDs the buffer into exactly the range; stated for a range within the first 2^24 bytes, and by `Aliasing.PlanEffectModSpace` for every range that does not cross a multiple of 2^24 |
| WriteModel.PlanEffectSkipsPage | CH32V003_APP/User/spiflash.c:126 | otherwise the page below `last_page` keeps its old contents |
| WriteModel.PlanEffectReadBack | CH32V003_APP/User/spiflash.c:368-371 | on cells holding 0xFF, an unchecked write under the coverage condition reads back as the buffer; stated for a range within the first 2^24 bytes, and by `Aliasing.PlanEffectModSpace` for every range that does not cross a multiple of 2^24 |
| WriteModel.ReadSpec | CH32V003_APP/User/spiflash.c:88-114 | definition: the bytes a read of `n` bytes at `a` returns, consecutive cells from the low 24 bits of `a` |
| WriteModel.ReadAliases | CH32V003_APP/User/spiflash.c:101-103 | addresses 2^24 apart read the same bytes |
| WriteModel.UncheckWriteResult | CH32V003_APP/User/spiflash.c:129-131 | zero size is InvalidAddr; a non-empty range ending within the whole flash is Ok; without 32-bit wrap, only such ranges are Ok |
| WriteModel.FastWriteEffect | CH32V003_APP/User/spiflash.c:373-379 | definition: the unchecked write's effect when the fast write's checks pass, and no change otherwise |
| WriteModel.FastWriteResult | CH32V003_APP/User/spiflash.c:373-379 | the fast write reports Ok exactly when `size > 0` and the range checks against the usable size pass |
| WriteModel.PageNoHang | CH32V003_APP/User/spiflash.c:336 | a write of at most one page is never one whose first-segment loop fails to end |
| WriteModel.ChunkPlaced | CH32V003_APP/User/spiflash.c:313-314 | without aliasing, page `k` of the verified write starts `256 * k` bytes into the range and passes the fast write's range checks |
| WriteModel.ChunkEffect | CH32V003_APP/User/spiflash.c:336 | the fast write of page `k` ANDs its buffer bytes into its part of the range and keeps every other byte |
| WriteModel.ChunkAddr | CH32V003_APP/User/spiflash.c:313-314 | definition: `page_address = address + offset` with `offset = 256 k`, in 32-bit arithmetic (also lines 341-342 for the partial page) |
| WriteModel.Programmed | CH32V003_APP/User/spiflash.c:311-337 | definition: the memory after the first `k` pages were fast-written, each result ignored |
| WriteModel.CheckReadByte | CH32V003_APP/User/spiflash.c:320-328 | definition: byte `j` of a check read at `a`: cell `a + j` in the main array; in the security area, with no dummy byte, 0xFF for `j = 0` and cell `a + j - 1` after it |
| WriteModel.AsWrittenCheck | CH32V003_APP/User/spiflash.c:316-355 | definition: the check before page `k`, 256 bytes read at `address` for a full page, one byte at the page's own address for the partial page |
| WriteModel.VerifiedWrite | CH32V003_APP/User/spiflash.c:297-366 | the result is Ok, IncompatibleWrite or a range error; AddrOutOfRange exactly when `address` is past the usable size; a range ending within it reaches the page loop; a rejected range leaves the memory unchanged |
| WriteModel.ChecksUpToAt | CH32V003_APP/User/spiflash.c:311-337 | the check before page `k` is made on the memory the earlier pages left |
| WriteModel.ChecksAt | CH32V003_APP/User/spiflash.c:311-337 | check `k` of the run reads the memory after `k` pages, and page `k` is then fast-written |
| WriteModel.VerifiedWriteAt | CH32V003_APP/User/spiflash.c:297-366 | once the first failed check is known, the outcome and the memory of the run follow |
| WriteModel.VerifiedWriteStep | CH32V003_APP/User/spiflash.c:326-336 | a passed check lets the run go on past the page with the page written; a failed one ends it with IncompatibleWrite |
| WriteModel.VerifiedWriteComplete | CH32V003_APP/User/spiflash.c:339 | without a partial page, the run reports Ok once every full page passed |
| WriteModel.VerifiedWriteTail | CH32V003_APP/User/spiflash.c:339-363 | the partial last page is checked and written like the others and ends the run |
| WriteModel.VerifiedWriteEmpty | CH32V003_APP/User/spiflash.c:311-339 | a zero-size write makes no check and programs nothing |
| WriteModel.ProgrammedAt | CH32V003_APP/User/spiflash.c:311-363 | after `k` pages the first `min(256 k, size)` bytes of the range are ANDed with the buffer and every other byte is as before; stated for a range within the first 2^24 bytes, and by `Aliasing.ProgrammedModSpace` for every range that does not cross a multiple of 2^24 |
| WriteModel.VerifiedWriteStops | CH32V003_APP/User/spiflash.c:292-295 | the write reports IncompatibleWrite exactly when some check fails; pages before it stay programmed and nothing from that page on is touched; stated for a range within the first 2^24 bytes, and by `Aliasing.VerifiedWriteModSpace` for every range that does not cross a multiple of 2^24 |
| WriteModel.ErasedFirstCheck | CH32V003_APP/User/spiflash.c:326-331 | the check of a single page over erased cells passes |
| WriteModel.VerifiedWriteErasedPage | CH32V003_APP/User/spiflash.c:297-366 | a write of at most one page into erased cells reports Ok and reads back, in either region; stated for a range within the first 2^24 bytes, and by `Aliasing.VerifiedWriteModSpace` for every range that does not cross a multiple of 2^24 |
| WriteModel.ReadBackCompatible | CH32V003_APP/User/spiflash.c:329 | cells ANDed with compatible bytes read back as those bytes |
| WriteModel.IntendedWrite | CH32V003_APP/User/spiflash.c:297-366 | definition: the corrected SPIF_write, each page checked byte by byte at its own address, stopping at the first failed check |
| WriteModel.IntendedCheckOn | CH32V003_APP/User/spiflash.c:320-331 | a corrected check compares each byte of its page with the cell it is written to |
| WriteModel.IntendedCheckSeesOriginal | CH32V003_APP/User/spiflash.c:320-331 | each corrected check sees its page as it was before the write |
| WriteModel.IntendedChecksAll | CH32V003_APP/User/spiflash.c:292-295 | when every corrected check passes, every byte of the buffer is compatible |
| WriteModel.IntendedWriteExact | CH32V003_APP/User/spiflash.c:292-295 | the corrected write succeeds exactly when every byte is compatible with its cell; it then reads back as the buffer; nothing outside the range changes; stated for a range within the first 2^24 bytes, and by `Aliasing.IntendedWriteModSpace` for every range that does not cross a multiple of 2^24 |
| WriteModel.FullCheckOverErased | CH32V003_APP/User/spiflash.c:322-331 | in the main array a full-page check passes whenever the 256 cells from `address` hold 0xFF, whichever page it is for |
| WriteModel.FirstPageOnlyPasses | CH32V003_APP/User/spiflash.c:322-324 | both checks of a two-page write of 0xFF read the first page and pass |
| WriteModel.SecondCheckPasses | CH32V003_APP/User/spiflash.c:322-324 | the second check reads the first page again after it was written |
| WriteModel.VerifiedWriteChecksFirstPageOnly | CH32V003_APP/User/spiflash.c:322-324 | a second page holding 0x00 goes unnoticed: Ok is reported and the cells keep 0x00; the corrected write refuses |
| WriteModel.VerifiedWriteRejectsErased | CH32V003_APP/User/spiflash.c:322-324 | into erased cells, a page of 0x00 then a page of 0xFF fails the second check; the corrected write succeeds |
| WriteModel.VerifiedWriteChecksOneTailByte | CH32V003_APP/User/spiflash.c:352 | of a partial last page only the first byte is checked: a later byte over 0x00 goes unnoticed |
| WriteModel.VerifiedWriteSecurityShift | CH32V003_APP/User/spiflash.c:347-350 | the security-area check has no dummy byte, so it compares the first byte with the idle 0xFF and accepts a write the main array refuses |
| Aliasing.PlanEffectShift | CH32V003_APP/User/spiflash.c:142-145 | an unchecked write 2^24 higher has the same effect, since only three address bytes are sent |
| Aliasing.PlanEffectModSpace | CH32V003_APP/User/spiflash.c:142-145 | an unchecked write has the effect of the same write at its address modulo 2^24 |
| Aliasing.ProgrammedModSpace | CH32V003_APP/User/spiflash.c:311-337 | the first `k` pages of a verified write leave what they leave at the address modulo 2^24 |
| Aliasing.VerifiedWriteShift | CH32V003_APP/User/spiflash.c:297-366 | a verified write 2^24 higher has the same outcome and effect |
| Aliasing.VerifiedWriteModSpace | CH32V003_APP/User/spiflash.c:297-366 | a verified write that passes the range checks has the outcome and effect of the same write at its address modulo 2^24 |
| Aliasing.IntendedWriteModSpace | CH32V003_APP/User/spiflash.c:292-295 | the same for the corrected write |
| SpiFlash.CommitProgram | CH32V003_APP/User/spiflash.c:142-162 | a program frame committed with the latch set programs the region at the low 24 bits of its address and clears the latch |
| SpiFlash.ResponseRead | CH32V003_APP/User/spiflash.c:99-109 | during a read, the byte after `j` data clocks is cell `address + j` (after the dummy byte in the security area) |
| SpiFlash.ResponseCheck | CH32V003_APP/User/spiflash.c:320-328 | the compatibility read, with no dummy byte, receives `CheckReadByte` |
| SpiFlash.SendAddress | CH32V003_APP/User/spiflash.c:101-103 | the three address bytes join the frame and the trace, most significant first |
| SpiFlash.Begin | CH32V003_APP/User/spiflash.c:96-99 | chip select is cycled and the opcode sent; a pending read is abandoned without effect |
| SpiFlash.ReadStatus | CH32V003_APP/User/spiflash.c:51-61 | status register 1 is read: never busy, bit 0x02 is the latch; nothing else changes |
| SpiFlash.WaitReady | CH32V003_APP/User/spiflash.c:94 | the busy wait is one status read and changes nothing |
| SpiFlash.EnableWrite | CH32V003_APP/User/spiflash.c:69-81 | the write-enable command sets the latch, seen set by the following status read |
| SpiFlash.ReceiveData | CH32V003_APP/User/spiflash.c:106-109 | `buff[0..size)` receives consecutive cells from the address; the rest of `buff` is kept |
| SpiFlash.UncheckRead | CH32V003_APP/User/spiflash.c:88-114 | range errors against the whole flash return with no bus activity; otherwise `buff[0..size)` holds the region's bytes from the address, with its opcode, address bytes and dummy byte on the bus |
| SpiFlash.SendData | CH32V003_APP/User/spiflash.c:157-160 | each data byte joins the frame and the trace in order |
| SpiFlash.FinishProgram | CH32V003_APP/User/spiflash.c:162 | chip select high commits the program frame |
| SpiFlash.ProgramSegment | CH32V003_APP/User/spiflash.c:172-190 | one page-program transaction programs its segment, clears the latch, and leaves its events on the bus |
| SpiFlash.ProgramNext | CH32V003_APP/User/spiflash.c:168-192 | one more transaction of the plan extends both the region's effect and the bus trace |
| SpiFlash.UncheckWritePlan | CH32V003_APP/User/spiflash.c:120-219 | the transactions read only within the buffer, and `PlanEffect` is the effect of sending them all |
| SpiFlash.MiddleAt | CH32V003_APP/User/spiflash.c:170-171 | the loop's `offset` and `page_address` are those of interior transaction `i` |
| SpiFlash.MiddlesFit | CH32V003_APP/User/spiflash.c:168 | the plan holds the leading segment and `pages_count` interior pages |
| SpiFlash.SendFirst | CH32V003_APP/User/spiflash.c:133-164 | after a wait, the leading segment is programmed and on the bus |
| SpiFlash.SendMiddles | CH32V003_APP/User/spiflash.c:166-192 | the `pages_count` interior pages are programmed in order |
| SpiFlash.SendTail | CH32V003_APP/User/spiflash.c:195-216 | the trailing segment is sent exactly when `last_page != 0 && first_page != last_page`; then every transaction has been sent |
| SpiFlash.SendPlan | CH32V003_APP/User/spiflash.c:133-216 | the region ends as `PlanEffect`, the other region is kept, the latch is clear |
| SpiFlash.UncheckWrite | CH32V003_APP/User/spiflash.c:120-219 | zero size is InvalidAddr and range errors return with no bus activity; otherwise the region ends as `PlanEffect`, with the transactions of `WritePlan` on the bus |
| SpiFlash.Erase | CH32V003_APP/User/spiflash.c:226-240 | a wait, write enable and 0xC7: the main array reads 0xFF, the security area is kept |
| SpiFlash.ErasePageAddress | CH32V003_APP/User/spiflash.c:254-256 | the address bytes `0x00, (page << 4) & 0xF0, 0x00` name block `page % 16` |
| SpiFlash.CommitErase | CH32V003_APP/User/spiflash.c:252-259 | the 0x44 frame, committed with the latch set, erases the block it names and clears the latch |
| SpiFlash.ErasePage | CH32V003_APP/User/spiflash.c:243-262 | block `page % 16` of the security area reads 0xFF, everything else is kept; the exact bytes are on the bus |
| SpiFlash.PageSize | CH32V003_APP/User/spiflash.c:265-268 | 256, which fits the `uint16_t` result |
| SpiFlash.SectorSize | CH32V003_APP/User/spiflash.c:271-274 | 4096, which fits the `uint16_t` result |
| SpiFlash.Size | CH32V003_APP/User/spiflash.c:277-280 | the usable size 67104768, which fits the `uint32_t` result |
| SpiFlash.Geometry | CH32V003_APP/User/spiflash.c:34-41 | pages tile sectors (16 per sector), sectors tile the usable size, and the usable size leaves out exactly the last sector |
| SpiFlash.Read | CH32V003_APP/User/spiflash.c:283-290 | the range checks against the usable size, then the unchecked read |
| SpiFlash.FastWrite | CH32V003_APP/User/spiflash.c:373-379 | the range checks against the usable size, then the unchecked write: the region ends as `FastWriteEffect`, the other region is kept |
| SpiFlash.CompareData | CH32V003_APP/User/spiflash.c:326-331 | the data phase of the check passes exactly when every byte is compatible with the byte read for it |
| SpiFlash.CheckRead | CH32V003_APP/User/spiflash.c:317-333 | the check read passes exactly when every byte is compatible; on failure chip select stays low, inside a read |
| SpiFlash.WriteFullPage | CH32V003_APP/User/spiflash.c:313-336 | full page `k`: the check at `address`, then, when it passes, the fast write at `address + 256 k` |
| SpiFlash.WriteLastPage | CH32V003_APP/User/spiflash.c:339-361 | the partial page: a one-byte check at its own address, then, when it passes, the fast write of `size % 256` bytes |
| SpiFlash.WritePageStep | CH32V003_APP/User/spiflash.c:311-337 | one iteration of the full-page loop, placed in the run: it goes on with the page written, or the run is over |
| SpiFlash.WriteFullPages | CH32V003_APP/User/spiflash.c:311-337 | the full-page loop stops at the first failed check, with the run's outcome; else all full pages are written |
| SpiFlash.WriteRemainder | CH32V003_APP/User/spiflash.c:339-365 | the partial page, if any, completes the run |
| SpiFlash.Write | CH32V003_APP/User/spiflash.c:297-366 | the outcome and the region's new contents are those of `VerifiedWrite`; the other region is untouched; range errors leave the chip unchanged |
| SpiFlash.ForceWrite | CH32V003_APP/User/spiflash.c:386-400 | the verified write's result is returned unchanged unless it is IncompatibleWrite, which is replaced by the fallback's result; when the fallback is not called, the chip is left as the verified write leaves it |

## Left out

- Busy and write-enable polling (`spiflash.c` lines 78, 94, 133, 164, 190, 215, 228, 245, 309): the chip model never reports busy and sets the latch at once, so each loop is one status read. Timing and a slow or faulty chip are not modelled.
- The register-level transport in `spi.c` is not part of this model. `flash_select`, `flash_deselect` and `spi_write_read` are the methods `Select`, `Deselect` and `Exchange` of `NorChip.Chip`. The chip drives 0xFF when it has nothing to send.
- SpiFlash.ForceWrite: the body of `SPIF_slow_write` is not part of this model. Its result is the parameter `slow`. Nothing is promised about the chip after it is called; the chip's state is stated only when the verified write does not report IncompatibleWrite.
- SpiFlash.Write: the bus trace is not stated. The contract states the outcome, both regions, that the chip is left quiescent, and that the latch is never newly set.
- SpiFlash.UncheckWrite: ranges whose end wraps past 2^32 but pass the range checks are excluded by `!Hangs`. For them the 16-bit counter of the first-segment loop (line 157) never reaches `write_count`, so the call does not return.
- SpiFlash.FastWrite: the same `!Hangs` exclusion, for the same reason.
- WriteModel.PlanEffectCovered: stated for ranges within the first 2^24 bytes; `Aliasing.PlanEffectModSpace` extends it to every range that does not cross a multiple of 2^24. A range that crosses one wraps to address 0 at the chip, and its effect is not characterised.
- WriteModel.PlanEffectReadBack: the same restriction, for the same reason.
- WriteModel.ProgrammedAt: the same restriction, extended by `Aliasing.ProgrammedModSpace`.
- WriteModel.VerifiedWriteStops: the same restriction, extended by `Aliasing.VerifiedWriteModSpace`.
- WriteModel.VerifiedWriteErasedPage: the same restriction, extended by `Aliasing.VerifiedWriteModSpace`.
- WriteModel.IntendedWriteExact: the same restriction, extended by `Aliasing.IntendedWriteModSpace`.
- The security area is given the same 2^24-byte space as the main array, and 0x44 erases a 4096-byte block of it. The chip's real security-register geometry (three 256-byte registers) is not modelled.
- Status register 1 is modelled only through its busy and write-enable bits.
- `flash_info_t` (`spiflash.h` lines 30-37): application data with no driver logic.
- The opcodes the driver defines but never sends (status 2 and 3 reads, status writes, 0x20 sector erase, 32K block erase) and `F_CPU`.
- The application and boot-loader `main.c` files: board set-up with no driver logic.
- `SPIF_read` and the unchecked read fill a caller array. The write entry points read the buffer as a sequence, since they never change it.

## Findings

| source | as written | input that shows it | evidently intended | confidence | as-written member | corrected member |
|---|---|---|---|---|---|---|
| CH32V003_APP/User/spiflash.c:126 | `pages_count = size / 256 - 1` interior pages | `address = 200, size = 400`: bytes 256..511 are never programmed; `address = 0, size = 512`: page 256 is programmed twice | one interior page per page strictly between `first_page` and `last_page` | not executed | Paging.WritePlanSkipExample | Paging.IntendedPlanExact |
| CH32V003_APP/User/spiflash.c:322-324 | every full-page check reads at `address` | main array, page 0 holding 0xFF and page 1 holding 0x00, write of 512 bytes of 0xFF at 0: Ok is reported and page 1 keeps 0x00 | each page checked at its own address | not executed | WriteModel.VerifiedWriteChecksFirstPageOnly | WriteModel.IntendedWriteExact |
| CH32V003_APP/User/spiflash.c:352 | only the first byte of a partial last page is checked | main array, cell 1 holding 0x00, write of `[0xFF, 0xFF]` at 0: Ok is reported and cell 1 keeps 0x00 | every byte of the partial page checked | not executed | WriteModel.VerifiedWriteChecksOneTailByte | WriteModel.IntendedWriteExact |
| CH32V003_APP/User/spiflash.c:347-350 | the security-area check sends no dummy byte | security area, cell 0 holding 0x00, write of `[0xFF]` at 0: Ok is reported and cell 0 keeps 0x00 | the dummy byte sent as in `SPIF_uncheck_read`, so the check sees the cell | not executed | WriteModel.VerifiedWriteSecurityShift | WriteModel.IntendedWriteExact |
| CH32V003_APP/User/spiflash.c:157 | `uint16_t j` counts up to a 32-bit `write_count` | `address = 1, size = 0xFFFFFFFF` passes the checks at lines 129-131 with `write_count = size`, so `j < write_count` always holds and the loop never ends | the range check done without wrap-around, so `write_count` is at most 256 | not executed | Paging.FirstLoopNeverEnds | Paging.WideCheckFirstCount |
| CH32V003_APP/User/spiflash.c:307 | `address + size` computed in 32 bits | `address = 1, size = 0xFFFFFFFF` passes the range checks | the end of the range compared without wrap-around | not executed | Paging.CheckRangeAcceptsWrap | Paging.CheckRangeWide |
