/** The IOAM trace-type bitmask (RFC 9197, section 4.4.1) as the agent sees it:
    the 32-bit netlink attribute shifted right by 8, so trace-type bit n sits at
    position 23 - n. */
module TraceType {

  /** A single-bit mask `1 << n` of the shifted trace type: trace-type bit k
      of RFC 9197 sits at position 23 - k. */
  const TRACE_TYPE_BIT0_MASK: nat := 0x80_0000   // 1 << 23: Hop_Lim + Node Id (short)
  const TRACE_TYPE_BIT1_MASK: nat := 0x40_0000   // 1 << 22: Ingress/Egress Ids (short)
  const TRACE_TYPE_BIT2_MASK: nat := 0x20_0000   // 1 << 21: Timestamp seconds
  const TRACE_TYPE_BIT3_MASK: nat := 0x10_0000   // 1 << 20: Timestamp fraction
  const TRACE_TYPE_BIT4_MASK: nat := 0x08_0000   // 1 << 19: Transit Delay
  const TRACE_TYPE_BIT5_MASK: nat := 0x04_0000   // 1 << 18: Namespace Data (short)
  const TRACE_TYPE_BIT6_MASK: nat := 0x02_0000   // 1 << 17: Queue depth
  const TRACE_TYPE_BIT7_MASK: nat := 0x01_0000   // 1 << 16: Checksum Complement
  const TRACE_TYPE_BIT8_MASK: nat := 0x00_8000   // 1 << 15: Hop_Lim + Node Id (wide)
  const TRACE_TYPE_BIT9_MASK: nat := 0x00_4000   // 1 << 14: Ingress/Egress Ids (wide)
  const TRACE_TYPE_BIT10_MASK: nat := 0x00_2000  // 1 << 13: Namespace Data (wide)
  const TRACE_TYPE_BIT11_MASK: nat := 0x00_1000  // 1 << 12: Buffer Occupancy
  const TRACE_TYPE_BIT22_MASK: nat := 0x00_0002  // 1 << 1: Opaque State Snapshot

  /** `t & mask != 0` for a single-bit mask: the bit the mask selects is one. */
  predicate Masked(t: nat, mask: nat)
    requires mask > 0
  {
    (t / mask) % 2 == 1
  }

  /** The twelve node data fields, in the order they are laid out and read. */
  const FIELD_COUNT: nat := 12

  type FieldIndex = k: nat | k < FIELD_COUNT

  /** `1 << n`. */
  function Pow2(n: nat): (r: nat)
    ensures r > 0
  {
    if n == 0 then 1 else 2 * Pow2(n - 1)
  }

  /** The powers the masks are written with. */
  lemma Pow2Masks()
    ensures Pow2(12) == 0x1000 && Pow2(13) == 0x2000 && Pow2(14) == 0x4000 && Pow2(15) == 0x8000
    ensures Pow2(16) == 0x1_0000 && Pow2(17) == 0x2_0000 && Pow2(18) == 0x4_0000 && Pow2(19) == 0x8_0000
    ensures Pow2(20) == 0x10_0000 && Pow2(21) == 0x20_0000 && Pow2(22) == 0x40_0000 && Pow2(23) == 0x80_0000
  {
    assert Pow2(4) == 16;
    assert Pow2(8) == 256;
    assert Pow2(12) == 0x1000;
  }

  /** Field `k` is trace-type bit `k`, at position 23 - k of the shifted trace type. */
  function Mask(k: FieldIndex): (m: nat)
    ensures m == Pow2(23 - k)
  {
    Pow2Masks();
    match k
    case 0 => TRACE_TYPE_BIT0_MASK
    case 1 => TRACE_TYPE_BIT1_MASK
    case 2 => TRACE_TYPE_BIT2_MASK
    case 3 => TRACE_TYPE_BIT3_MASK
    case 4 => TRACE_TYPE_BIT4_MASK
    case 5 => TRACE_TYPE_BIT5_MASK
    case 6 => TRACE_TYPE_BIT6_MASK
    case 7 => TRACE_TYPE_BIT7_MASK
    case 8 => TRACE_TYPE_BIT8_MASK
    case 9 => TRACE_TYPE_BIT9_MASK
    case 10 => TRACE_TYPE_BIT10_MASK
    case _ => TRACE_TYPE_BIT11_MASK
  }

  /** `ttype & TRACE_TYPE_BITk_MASK` is non-zero. */
  predicate Present(t: nat, k: FieldIndex)
  {
    Masked(t, Mask(k))
  }

  /** Bytes a field occupies: the wide fields (bits 8 to 10) take 8, the rest 4. */
  function Width(k: FieldIndex): nat
  {
    if 8 <= k <= 10 then 8 else 4
  }

  /** Bytes field `k` adds to a node under `t`. */
  function Contribution(t: nat, k: FieldIndex): nat
  {
    if Present(t, k) then Width(k) else 0
  }

  /** Where field `k` starts: the bytes of the present fields before it. */
  function Offset(t: nat, k: nat): nat
    requires k <= FIELD_COUNT
  {
    if k == 0 then 0 else Offset(t, k - 1) + Contribution(t, k - 1)
  }

  /** One step of the cursor: field `k` moves it by its width exactly when present. */
  lemma OffsetStep(t: nat, k: FieldIndex)
    ensures Offset(t, k + 1) == Offset(t, k) + (if Present(t, k) then Width(k) else 0)
  {}

  /** Bytes of node data that `t` asks for. */
  function NodeSize(t: nat): nat
  {
    Offset(t, FIELD_COUNT)
  }

  lemma {:induction false} OffsetMonotone(t: nat, j: nat, k: nat)
    requires j <= k <= FIELD_COUNT
    ensures Offset(t, j) <= Offset(t, k)
  {
    if j < k { OffsetMonotone(t, j, k - 1); }
  }

  /** A present field lies inside the node data. */
  lemma OffsetFits(t: nat, k: FieldIndex)
    requires Present(t, k)
    ensures Offset(t, k) + Width(k) <= NodeSize(t)
  {
    OffsetMonotone(t, k + 1, FIELD_COUNT);
  }

  /** Present narrow fields (bits 0..7 and 11) among the first `k`. */
  function NarrowCount(t: nat, k: nat): nat
    requires k <= FIELD_COUNT
  {
    if k == 0 then 0
    else NarrowCount(t, k - 1) + (if Present(t, k - 1) && Width(k - 1) == 4 then 1 else 0)
  }

  /** Present wide fields (bits 8..10) among the first `k`. */
  function WideCount(t: nat, k: nat): nat
    requires k <= FIELD_COUNT
  {
    if k == 0 then 0
    else WideCount(t, k - 1) + (if Present(t, k - 1) && Width(k - 1) == 8 then 1 else 0)
  }

  /** Node size is 4 bytes per set narrow bit and 8 per set wide bit. */
  lemma {:induction false} NodeSizeByCounts(t: nat)
    ensures NodeSize(t) == 4 * NarrowCount(t, FIELD_COUNT) + 8 * WideCount(t, FIELD_COUNT)
  {
    OffsetByCounts(t, FIELD_COUNT);
  }

  lemma {:induction false} OffsetByCounts(t: nat, k: nat)
    requires k <= FIELD_COUNT
    ensures Offset(t, k) == 4 * NarrowCount(t, k) + 8 * WideCount(t, k)
  {
    if k > 0 { OffsetByCounts(t, k - 1); }
  }
}
