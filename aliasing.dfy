/**
 * Only the low 24 bits of an address reach the chip, so a write whose
 * range starts 2^24 higher has exactly the same effect.  These reductions
 * carry the properties `WriteModel` proves for ranges inside the first
 * 2^24 bytes to every range that does not cross a multiple of 2^24.
 */
module Aliasing {
  import opened Wire
  import opened Nor
  import opened Paging
  import opened WriteModel

  /** Adding 2^24 changes neither the remainder mod 2^24 nor the offset in
      a page, and moves the page number by 2^16. */
  lemma ModShift(x: nat)
    ensures (x + SPACE) % SPACE == x % SPACE
    ensures (x + SPACE) % PAGE_SIZE == x % PAGE_SIZE
    ensures (x + SPACE) / PAGE_SIZE == x / PAGE_SIZE + SPACE / PAGE_SIZE
  {
    DivModUnique(x + SPACE, SPACE, x / SPACE + 1, x % SPACE);
    DivModUnique(x + SPACE, PAGE_SIZE, x / PAGE_SIZE + SPACE / PAGE_SIZE, x % PAGE_SIZE);
  }

  /** A range 2^24 higher starts and ends in the pages 2^24 higher, with
      the same leading count and the same need for a trailing transaction. */
  lemma PlanShapeShift(address: u32, size: u32)
    requires 0 < size && SPACE <= address && address + size < U32
    ensures FirstPage(address) == FirstPage(address - SPACE) + SPACE
    ensures LastPage(address, size) == LastPage(address - SPACE, size) + SPACE
    ensures FirstCount(address, size) == FirstCount(address - SPACE, size)
    ensures HasTail(address, size) == HasTail(address - SPACE, size)
  {
    var b := address - SPACE;
    ModShift(b);
    ModShift(b + size - 1);
    LastPageShape(b, size);
  }

  /** Transaction `k` of the split of a range 2^24 higher is the same
      transaction, 2^24 higher. */
  lemma WritePlanShiftAt(address: u32, size: u32, k: nat)
    requires 0 < size && SPACE <= address && address + size < U32
    requires k < |WritePlan(address - SPACE, size)|
    ensures |WritePlan(address, size)| == |WritePlan(address - SPACE, size)|
    ensures var s := WritePlan(address - SPACE, size)[k];
      WritePlan(address, size)[k] == s.(flash := s.flash + SPACE)
  {
    var b := address - SPACE;
    PlanShapeShift(address, size);
    WritePlanTail(address, size);
    WritePlanTail(b, size);
    var p, q := WritePlan(address, size), WritePlan(b, size);
    if 1 <= k <= PagesCount(size) {
      assert p[1 + (k - 1)] == MiddleSegment(address, size, k - 1);
      assert q[1 + (k - 1)] == MiddleSegment(b, size, k - 1);
    }
  }

  /** Two plans that send the same buffer bytes to the same pages modulo
      2^24. */
  predicate SameModSpace(p: seq<Segment>, q: seq<Segment>)
  {
    |p| == |q| &&
    forall k :: 0 <= k < |p| ==>
      p[k].offset == q[k].offset && p[k].len == q[k].len && p[k].flash % SPACE == q[k].flash % SPACE
  }

  lemma SameModSpacePrefix(p: seq<Segment>, q: seq<Segment>, buff: seq<byte>, n: nat)
    requires FitsBuffer(p, buff) && SameModSpace(p, q) && n <= |p|
    ensures FitsBuffer(p[..n], buff) && FitsBuffer(q[..n], buff) && SameModSpace(p[..n], q[..n])
  {
    forall k | 0 <= k < n
      ensures p[..n][k] == p[k] && q[..n][k] == q[k]
    {
    }
  }

  /** Such plans program the region identically. */
  lemma {:induction false} ApplyPlanModSpace(m: Memory, p: seq<Segment>, q: seq<Segment>, buff: seq<byte>)
    requires FitsBuffer(p, buff) && SameModSpace(p, q)
    ensures FitsBuffer(q, buff) && ApplyPlan(m, p, buff) == ApplyPlan(m, q, buff)
    decreases |p|
  {
    SameModSpacePrefix(p, q, buff, |p|);
    assert p[..|p|] == p && q[..|q|] == q;
    if p != [] {
      var n := |p| - 1;
      SameModSpacePrefix(p, q, buff, n);
      ApplyPlanModSpace(m, p[..n], q[..n], buff);
      var s, t := p[n], q[n];
      assert SegmentData(buff, s) == SegmentData(buff, t);
      assert ApplyPlan(m, p, buff) == Program(ApplyPlan(m, p[..n], buff), s.flash % SPACE, SegmentData(buff, s));
      assert ApplyPlan(m, q, buff) == Program(ApplyPlan(m, q[..n], buff), t.flash % SPACE, SegmentData(buff, t));
    }
  }

  /** An unchecked write 2^24 higher has the same effect. */
  lemma PlanEffectShift(m: Memory, address: u32, buff: seq<byte>)
    requires 0 < |buff| && SPACE <= address && address + |buff| < U32
    ensures PlanEffect(m, address, buff) == PlanEffect(m, address - SPACE, buff)
  {
    var p, q := WritePlan(address, |buff|), WritePlan(address - SPACE, |buff|);
    WritePlanShiftAt(address, |buff|, 0);
    forall k | 0 <= k < |p|
      ensures p[k].offset == q[k].offset && p[k].len == q[k].len && p[k].flash % SPACE == q[k].flash % SPACE
    {
      WritePlanShiftAt(address, |buff|, k);
      ModShift(q[k].flash);
    }
    WritePlanBounded(address, |buff|);
    ApplyPlanModSpace(m, p, q, buff);
  }

  /** An unchecked write has the effect of the same write at its address
      modulo 2^24. */
  lemma {:induction false} PlanEffectModSpace(m: Memory, address: u32, buff: seq<byte>)
    requires 0 < |buff| && address + |buff| < U32
    ensures PlanEffect(m, address, buff) == PlanEffect(m, address % SPACE, buff)
    decreases address
  {
    if address < SPACE {
      SmallMod(address, SPACE);
    } else {
      PlanEffectShift(m, address, buff);
      PlanEffectModSpace(m, address - SPACE, buff);
      ModShift(address - SPACE);
    }
  }

  /** Page `k` of a verified write that passed the range checks starts
      `256 * k` bytes into the range and its fast write passes them too. */
  lemma ChunkInRange(address: u32, buff: seq<byte>, k: nat)
    requires address + |buff| <= VIRT_SIZE && k < ChunkCount(|buff|)
    ensures ChunkAddr(address, k) == address + PAGE_SIZE * k
    ensures address + PAGE_SIZE * k + ChunkLen(|buff|, k) <= address + |buff|
    ensures FastWriteResult(ChunkAddr(address, k), ChunkLen(|buff|, k)) == Ok
  {
    ChunkFits(|buff|, k);
    SmallMod(address + PAGE_SIZE * k, U32);
  }

  /** The fast write of page `k`, 2^24 higher, has the same effect. */
  lemma ChunkWriteShift(m: Memory, address: u32, buff: seq<byte>, k: nat)
    requires SPACE <= address && address + |buff| <= VIRT_SIZE && k < ChunkCount(|buff|)
    ensures FastWriteEffect(m, ChunkAddr(address, k), Chunk(buff, k))
         == FastWriteEffect(m, ChunkAddr(address - SPACE, k), Chunk(buff, k))
  {
    var a, b, data := ChunkAddr(address, k), ChunkAddr(address - SPACE, k), Chunk(buff, k);
    ChunkInRange(address, buff, k);
    ChunkInRange(address - SPACE, buff, k);
    PageNoHang(a, |data|);
    PageNoHang(b, |data|);
    assert FastWriteEffect(m, a, data) == PlanEffect(m, a, data);
    assert FastWriteEffect(m, b, data) == PlanEffect(m, b, data);
    PlanEffectShift(m, a, data);
  }

  /** The first `k` pages of a verified write 2^24 higher leave the same
      memory. */
  lemma {:induction false} ProgrammedShift(m0: Memory, address: u32, buff: seq<byte>, k: nat)
    requires SPACE <= address && address + |buff| <= VIRT_SIZE && k <= ChunkCount(|buff|)
    ensures Programmed(m0, address, buff, k) == Programmed(m0, address - SPACE, buff, k)
    decreases k
  {
    if k > 0 {
      var j := k - 1;
      var m := Programmed(m0, address, buff, j);
      ProgrammedShift(m0, address, buff, j);
      assert Programmed(m0, address - SPACE, buff, j) == m;
      ChunkWriteShift(m, address, buff, j);
      assert Programmed(m0, address, buff, k) == PageWritten(m0, address, buff, j);
      assert Programmed(m0, address - SPACE, buff, k) == PageWritten(m0, address - SPACE, buff, j);
    }
  }

  /** The first `k` pages of a verified write leave the memory the same
      pages leave at the address modulo 2^24. */
  lemma {:induction false} ProgrammedModSpace(m0: Memory, address: u32, buff: seq<byte>, k: nat)
    requires address + |buff| <= VIRT_SIZE && k <= ChunkCount(|buff|)
    ensures Programmed(m0, address, buff, k) == Programmed(m0, address % SPACE, buff, k)
    decreases address
  {
    if address < SPACE {
      SmallMod(address, SPACE);
    } else {
      ProgrammedShift(m0, address, buff, k);
      ProgrammedModSpace(m0, address - SPACE, buff, k);
      ModShift(address - SPACE);
    }
  }

  /** A check read 2^24 higher receives the same bytes. */
  lemma CheckReadByteShift(m: Memory, sec: bool, a: nat, j: nat)
    requires SPACE <= a
    ensures CheckReadByte(m, sec, a, j) == CheckReadByte(m, sec, a - SPACE, j)
  {
    ModShift(a - SPACE + j);
    if j > 0 {
      ModShift(a - SPACE + j - 1);
    }
  }

  lemma AsWrittenCheckShift(m: Memory, sec: bool, address: u32, buff: seq<byte>, k: nat)
    requires SPACE <= address && address + |buff| <= VIRT_SIZE && k < ChunkCount(|buff|)
    ensures AsWrittenCheck(m, sec, address, buff, k) == AsWrittenCheck(m, sec, address - SPACE, buff, k)
  {
    var b := address - SPACE;
    if k < |buff| / PAGE_SIZE {
      forall j | 0 <= j < PAGE_SIZE
        ensures CheckReadByte(m, sec, address, j) == CheckReadByte(m, sec, b, j)
      {
        CheckReadByteShift(m, sec, address, j);
      }
    } else {
      ChunkInRange(address, buff, k);
      ChunkInRange(address - SPACE, buff, k);
      CheckReadByteShift(m, sec, ChunkAddr(address, k), 0);
    }
  }

  /** Check `k` of a verified write 2^24 higher has the same outcome. */
  lemma CheckShiftAt(m0: Memory, sec: bool, address: u32, buff: seq<byte>, n: nat, k: nat)
    requires SPACE <= address && address + |buff| <= VIRT_SIZE && k < n <= ChunkCount(|buff|)
    ensures ChecksUpTo(m0, sec, address, buff, n)[k] == ChecksUpTo(m0, sec, address - SPACE, buff, n)[k]
  {
    var b := address - SPACE;
    var m := Programmed(m0, address, buff, k);
    ProgrammedShift(m0, address, buff, k);
    AsWrittenCheckShift(m, sec, address, buff, k);
    var ok := AsWrittenCheck(m, sec, address, buff, k);
    ChecksUpToAt(m0, sec, address, buff, n, k);
    ChecksUpToAt(m0, sec, b, buff, n, k);
    assert ChecksUpTo(m0, sec, b, buff, n)[k] == AsWrittenCheck(m, sec, b, buff, k) == ok;
  }

  /** The checks of a verified write 2^24 higher have the same outcomes. */
  lemma ChecksShift(m0: Memory, sec: bool, address: u32, buff: seq<byte>, n: nat)
    requires SPACE <= address && address + |buff| <= VIRT_SIZE && n <= ChunkCount(|buff|)
    ensures ChecksUpTo(m0, sec, address, buff, n) == ChecksUpTo(m0, sec, address - SPACE, buff, n)
  {
    forall k | 0 <= k < n
      ensures ChecksUpTo(m0, sec, address, buff, n)[k] == ChecksUpTo(m0, sec, address - SPACE, buff, n)[k]
    {
      CheckShiftAt(m0, sec, address, buff, n, k);
    }
  }

  /** SPIF_write 2^24 higher has the same outcome and effect. */
  lemma VerifiedWriteShift(m0: Memory, sec: bool, address: u32, buff: seq<byte>)
    requires SPACE <= address && address + |buff| <= VIRT_SIZE
    ensures VerifiedWrite(m0, sec, address, buff) == VerifiedWrite(m0, sec, address - SPACE, buff)
  {
    ChecksShift(m0, sec, address, buff, ChunkCount(|buff|));
    ProgrammedShift(m0, address, buff, FirstFalse(AsWrittenChecks(m0, sec, address, buff)));
  }

  /** SPIF_write on a range that passes the range checks has the outcome
      and effect of the same write at its address modulo 2^24. */
  lemma {:induction false} VerifiedWriteModSpace(m0: Memory, sec: bool, address: u32, buff: seq<byte>)
    requires address + |buff| <= VIRT_SIZE
    ensures VerifiedWrite(m0, sec, address, buff) == VerifiedWrite(m0, sec, address % SPACE, buff)
    decreases address
  {
    if address < SPACE {
      SmallMod(address, SPACE);
    } else {
      VerifiedWriteShift(m0, sec, address, buff);
      VerifiedWriteModSpace(m0, sec, address - SPACE, buff);
      ModShift(address - SPACE);
    }
  }

  lemma IntendedCheckShift(m: Memory, address: u32, buff: seq<byte>, k: nat)
    requires SPACE <= address && address + |buff| <= VIRT_SIZE && k < ChunkCount(|buff|)
    ensures IntendedCheck(m, address, buff, k) == IntendedCheck(m, address - SPACE, buff, k)
  {
    ChunkInRange(address, buff, k);
    ChunkInRange(address - SPACE, buff, k);
    var c := ChunkAddr(address - SPACE, k);
    forall j | PAGE_SIZE * k <= j < PAGE_SIZE * k + ChunkLen(|buff|, k)
      ensures Compatible(buff[j], m[(ChunkAddr(address, k) + (j - PAGE_SIZE * k)) % SPACE])
          == Compatible(buff[j], m[(c + (j - PAGE_SIZE * k)) % SPACE])
    {
      ModShift(c + (j - PAGE_SIZE * k));
    }
  }

  /** The corrected SPIF_write 2^24 higher has the same outcome and effect. */
  lemma IntendedWriteShift(m0: Memory, address: u32, buff: seq<byte>)
    requires SPACE <= address && address + |buff| <= VIRT_SIZE
    ensures IntendedWrite(m0, address, buff) == IntendedWrite(m0, address - SPACE, buff)
  {
    var bs, cs := IntendedChecks(m0, address, buff), IntendedChecks(m0, address - SPACE, buff);
    forall k | 0 <= k < ChunkCount(|buff|)
      ensures bs[k] == cs[k]
    {
      ProgrammedShift(m0, address, buff, k);
      IntendedCheckShift(Programmed(m0, address, buff, k), address, buff, k);
    }
    assert bs == cs;
    ProgrammedShift(m0, address, buff, FirstFalse(bs));
  }

  /** The corrected SPIF_write has the outcome and effect of the same write
      at its address modulo 2^24. */
  lemma {:induction false} IntendedWriteModSpace(m0: Memory, address: u32, buff: seq<byte>)
    requires address + |buff| <= VIRT_SIZE
    ensures IntendedWrite(m0, address, buff) == IntendedWrite(m0, address % SPACE, buff)
    decreases address
  {
    if address < SPACE {
      SmallMod(address, SPACE);
    } else {
      IntendedWriteShift(m0, address, buff);
      IntendedWriteModSpace(m0, address - SPACE, buff);
      ModShift(address - SPACE);
    }
  }
}
