/**
 * Constants of the W25Q512JV serial NOR-flash instruction set as the driver
 * uses them, the driver's capacity constants and result codes, and the
 * 3-byte big-endian address encoding sent on the bus.
 */
module Wire {

  type byte = bv8

  const U32: int := 0x1_0000_0000
  /** An unsigned 32-bit C integer (`uint32_t`). */
  type u32 = x: int | 0 <= x < U32

  // Instruction set
  const READ_RESPONSE: byte := 0xAA
  const READ_STATUS_1: byte := 0x05
  const ENABLE_WRITE: byte := 0x06
  const PROGRAM: byte := 0x02
  const READ: byte := 0x03
  const SEC_PROGRAM: byte := 0x42
  const SEC_READ: byte := 0x48
  const SEC_ERASE: byte := 0x44
  const CHIP_ERASE: byte := 0xC7

  // Status register bits
  const STAT_BUSY: byte := 0x01
  const STAT_WRITE_ENABLE: byte := 0x02

  // Capacities
  const PAGE_SIZE: nat := 256
  const SECTOR_SIZE: nat := 4096
  const FLASH_SIZE: nat := 67108864
  const VIRT_SIZE: nat := 67104768

  /** Size of the space a 3-byte address can reach. */
  const SPACE: nat := 0x100_0000

  /** The driver's result codes. */
  datatype SpifRet = Ok | AddrOutOfRange | SizeOutOfRange | InvalidAddr | IncompatibleWrite

  /** Read or program opcode of a region: the security area when `sec`. */
  function ReadOp(sec: bool): byte { if sec then SEC_READ else READ }
  function ProgramOp(sec: bool): byte { if sec then SEC_PROGRAM else PROGRAM }

  /** The three address bytes sent after an opcode, most significant first:
      each is the C value shifted right and truncated to 8 bits. */
  function AddrBytes(a: nat): (bs: seq<byte>)
    ensures |bs| == 3
  {
    [Low8(a / 0x1_0000), Low8(a / 0x100), Low8(a)]
  }

  /** Truncation of a C integer to `uint8_t`. */
  function Low8(x: nat): (b: byte)
    ensures b as int == x % 256
  {
    ByteOf(x % 256)
  }

  /** The byte holding a value below 256, built from its two hexadecimal
      digits: a conversion of each digit alone keeps the solver's work on
      `as byte` small, where one conversion of the whole value is costly. */
  function ByteOf(v: int): (b: byte)
    requires 0 <= v < 256
    ensures b as int == v
  {
    Digit(v / 16) * 16 + Digit(v % 16)
  }

  function Digit(d: int): (b: byte)
    requires 0 <= d < 16
    ensures b as int == d
  {
    d as byte
  }

  /** The address a chip decodes from three address bytes. */
  function Addr3(b2: byte, b1: byte, b0: byte): (a: nat)
    ensures a < SPACE
  {
    b2 as nat * 0x1_0000 + b1 as nat * 0x100 + b0 as nat
  }

  /** Only the low 24 bits of an address reach the chip. */
  lemma AddrBytesDecode(a: nat)
    ensures Addr3(AddrBytes(a)[0], AddrBytes(a)[1], AddrBytes(a)[2]) == a % SPACE
  {
    var q := a / 256;
    var h := q / 256;
    var t := h / 256;
    var a0, a1, a2 := a % 256, q % 256, h % 256;
    assert a / 0x100 == q;
    DivModUnique(a, 0x1_0000, h, 256 * a1 + a0);
    DivModUnique(a, SPACE, t, 0x1_0000 * a2 + 256 * a1 + a0);
  }

  /** A value below the modulus is its own remainder. */
  lemma SmallMod(x: int, d: int)
    requires 0 <= x < d
    ensures x % d == x
  {
    DivModUnique(x, d, 0, x);
  }

  /** Quotient and remainder are determined by any decomposition. */
  lemma DivModUnique(x: int, d: int, k: int, r: int)
    requires 0 < d && x == d * k + r && 0 <= r < d
    ensures x / d == k && x % d == r
  {
    var k', r' := x / d, x % d;
    assert x == d * k' + r';
    if k' < k {
      assert d * (k - k') == r' - r;
      MulAtLeast(d, k - k');
    } else if k' > k {
      assert d * (k' - k) == r - r';
      MulAtLeast(d, k' - k);
    }
  }

  lemma {:induction false} MulAtLeast(d: int, m: int)
    requires 0 < d && 1 <= m
    ensures d * m >= d
  {
    if m > 1 {
      MulAtLeast(d, m - 1);
      assert d * m == d * (m - 1) + d;
    }
  }
}
