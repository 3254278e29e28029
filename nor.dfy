/**
 * What NOR-flash cells do: a page program can only clear bits (each cell is
 * ANDed with the byte latched for it), an erase sets bytes to 0xFF.  One
 * `Memory` is the 2^24-byte space one region offers to 3-byte addresses.
 */
module Nor {
  import opened Wire

  type Memory = m: seq<byte> | |m| == SPACE witness seq(SPACE, _ => 0xFF)

  /** Start of the 256-byte page holding address `a`. */
  function PageOf(a: nat): (p: nat)
    ensures p <= a < p + PAGE_SIZE && p % PAGE_SIZE == 0
  {
    a - a % PAGE_SIZE
  }

  /** Start of the 4096-byte sector holding address `a`. */
  function SectorOf(a: nat): (s: nat)
    ensures s <= a < s + SECTOR_SIZE && s % SECTOR_SIZE == 0
  {
    a - a % SECTOR_SIZE
  }

  /** The write-compatibility test of the verified write, `(~want | stored) == 0xFF`.
      It holds exactly when programming `want` over `stored` leaves `want`. */
  function Compatible(want: byte, stored: byte): (ok: bool)
    ensures ok <==> stored & want == want
  {
    (!want | stored) == 0xFF
  }

  /** The byte a page program latches for cell `y` of the page of `a`, or
      0xFF (no change) when none.  Data bytes past the end of the page wrap to
      its start, and of more than 256 bytes only the last 256 are kept. */
  function Latched(a: nat, data: seq<byte>, y: int): byte
  {
    var keep := if |data| < PAGE_SIZE then |data| else PAGE_SIZE;
    var skip := |data| - keep;
    var start := (a % PAGE_SIZE + skip) % PAGE_SIZE;
    var k := (y - PageOf(a) - start) % PAGE_SIZE;
    if k < keep then data[skip + k] else 0xFF
  }

  /** Page program of `data` at address `a`. */
  function Program(m: Memory, a: nat, data: seq<byte>): (r: Memory)
    requires a < SPACE
    ensures forall y :: 0 <= y < SPACE && !(PageOf(a) <= y < PageOf(a) + PAGE_SIZE) ==> r[y] == m[y]
    ensures forall y :: 0 <= y < SPACE ==> r[y] & m[y] == r[y]
  {
    seq(SPACE, y requires 0 <= y < SPACE =>
      if PageOf(a) <= y < PageOf(a) + PAGE_SIZE then m[y] & Latched(a, data, y) else m[y])
  }

  /** Within one page, byte `k` of `data` is programmed at `a + k`. */
  lemma ProgramWithinPage(m: Memory, a: nat, data: seq<byte>, y: nat)
    requires a < SPACE && a % PAGE_SIZE + |data| <= PAGE_SIZE && y < SPACE
    ensures Program(m, a, data)[y] == if a <= y < a + |data| then m[y] & data[y - a] else m[y]
  {
    if PageOf(a) <= y < PageOf(a) + PAGE_SIZE {
      LatchedWithinPage(a, data, y);
    }
  }

  /** Within one page the byte latched for cell `y` is byte `y - a` of the
      data, and 0xFF outside the data. */
  lemma LatchedWithinPage(a: nat, data: seq<byte>, y: nat)
    requires a % PAGE_SIZE + |data| <= PAGE_SIZE && PageOf(a) <= y < PageOf(a) + PAGE_SIZE
    ensures Latched(a, data, y) == if a <= y < a + |data| then data[y - a] else 0xFF
  {
    SmallMod(a % PAGE_SIZE, PAGE_SIZE);
    var d := y - PageOf(a) - a % PAGE_SIZE;
    if y < a {
      DivModUnique(d, PAGE_SIZE, -1, d + PAGE_SIZE);
    } else {
      DivModUnique(d, PAGE_SIZE, 0, d);
    }
  }

  /** The main array after a chip erase. */
  function Erased(): (r: Memory)
    ensures forall y :: 0 <= y < SPACE ==> r[y] == 0xFF
  {
    seq(SPACE, _ => 0xFF)
  }

  /** Erase of the 4096-byte block holding address `a`. */
  function EraseBlock(m: Memory, a: nat): (r: Memory)
    ensures forall y :: 0 <= y < SPACE ==>
      r[y] == if SectorOf(a) <= y < SectorOf(a) + SECTOR_SIZE then 0xFF else m[y]
  {
    seq(SPACE, y requires 0 <= y < SPACE =>
      if SectorOf(a) <= y < SectorOf(a) + SECTOR_SIZE then 0xFF else m[y])
  }
}
