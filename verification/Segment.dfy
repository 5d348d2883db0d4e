/** Segment descriptors, as the kernel lays them out and the processor loads them. */
module Segment {
  import opened Powers
  import opened Bytes
  import opened Idt

  const NR_SEGMENTS := 3
  const SEG_KERNEL_CODE := 1
  const SEG_KERNEL_DATA := 2
  const SEG_EXECUTABLE := 0x8
  const SEG_READABLE := 0x2
  const SEG_WRITABLE := 0x2

  /** Section 5.1.3 of the 80386 Programmer's Reference Manual. */
  datatype SegDesc = SegDesc(
    limit_15_0: uint16, base_15_0: uint16, base_23_16: byte, kind: uint4, segment_type: bit, privilege_level: uint2,
        present: bit, limit_19_16: uint4, soft_use: bit, operation_size: bit, pad0: bit, granularity: bit,
        base_31_24: byte)

  /** The two double words of a descriptor in memory. */
  function SegLow(d: SegDesc): (v: uint32) {
    d.limit_15_0 + 0x1_0000 * d.base_15_0
  }

  function SegHigh(d: SegDesc): (v: uint32) {
    d.base_23_16 + 0x100 * d.kind + 0x1000 * d.segment_type + 0x2000 * d.privilege_level + 0x8000 * d.present
    + 0x1_0000 * d.limit_19_16 + 0x10_0000 * d.soft_use + 0x20_0000 * d.operation_size + 0x40_0000 * d.pad0
    + 0x80_0000 * d.granularity + 0x100_0000 * d.base_31_24
  }

  /** The bit fields of two double words. */
  function DecodeSeg(low: uint32, high: uint32): SegDesc {
    SegDesc(low % 0x1_0000, low / 0x1_0000, high % 0x100, high / 0x100 % 0x10, high / 0x1000 % 2, high / 0x2000 % 4,
            high / 0x8000 % 2, high / 0x1_0000 % 0x10, high / 0x10_0000 % 2, high / 0x20_0000 % 2,
            high / 0x40_0000 % 2, high / 0x80_0000 % 2, high / 0x100_0000)
  }

  /** One field of a sum of fields: `low` below it, `rest` above. */
  lemma Field(high: nat, unit: nat, width: nat, low: nat, f: nat, rest: nat)
    requires unit > 0 && width > 0 && low < unit && f < width && high == (rest * width + f) * unit + low
    ensures high / unit % width == f && high / unit == rest * width + f
  {
    DivUnique(high, unit, rest * width + f, low);
    DivUnique(rest * width + f, width, rest, f);
  }

  /** The processor reads back the fields that the kernel wrote. */
  lemma DecodeSegEncoded(d: SegDesc)
    ensures DecodeSeg(SegLow(d), SegHigh(d)) == d
  {
    DivUnique(SegLow(d), 0x1_0000, d.base_15_0, d.limit_15_0);
    var h := SegHigh(d);
    var r10 := d.base_31_24;
    var r9 := r10 * 2 + d.granularity;
    var r8 := r9 * 2 + d.pad0;
    var r7 := r8 * 2 + d.operation_size;
    var r6 := r7 * 2 + d.soft_use;
    var r5 := r6 * 0x10 + d.limit_19_16;
    var r4 := r5 * 2 + d.present;
    var r3 := r4 * 4 + d.privilege_level;
    var r2 := r3 * 2 + d.segment_type;
    var r1 := r2 * 0x10 + d.kind;
    assert h == r1 * 0x100 + d.base_23_16;
    DivUnique(h, 0x100, r1, d.base_23_16);
    Field(h, 0x100, 0x10, d.base_23_16, d.kind, r2);
    Field(h, 0x1000, 2, h - r2 * 0x1000, d.segment_type, r3);
    Field(h, 0x2000, 4, h - r3 * 0x2000, d.privilege_level, r4);
    Field(h, 0x8000, 2, h - r4 * 0x8000, d.present, r5);
    Field(h, 0x1_0000, 0x10, h - r5 * 0x1_0000, d.limit_19_16, r6);
    Field(h, 0x10_0000, 2, h - r6 * 0x10_0000, d.soft_use, r7);
    Field(h, 0x20_0000, 2, h - r7 * 0x20_0000, d.operation_size, r8);
    Field(h, 0x40_0000, 2, h - r8 * 0x40_0000, d.pad0, r9);
    Field(h, 0x80_0000, 2, h - r9 * 0x80_0000, d.granularity, r10);
    DivUnique(h, 0x100_0000, r10, h - r10 * 0x100_0000);
  }

  /** The part of a segment register that programs do not see. */
  datatype Hidden = Hidden(base: uint32, limit: uint32, kind: uint4, privilege_level: uint2, soft_use: bit)

  function Base(d: SegDesc): uint32 {
    d.base_31_24 * 0x100_0000 + d.base_23_16 * 0x1_0000 + d.base_15_0
  }

  function Limit(d: SegDesc): (l: nat)
    ensures l <= 0xf_ffff
  {
    d.limit_19_16 * 0x1_0000 + d.limit_15_0
  }

  function Loaded(d: SegDesc): Hidden {
    Hidden(Base(d), Limit(d) * 0x1000 + 0xfff, d.kind, d.privilege_level, d.soft_use)
  }

  /** What `load_sreg` asserts of the descriptor that a selector names. */
  predicate Acceptable(d: SegDesc, selector: uint16) {
    && selector % 4 <= d.privilege_level && d.present == 1 && d.granularity == 1 && Limit(d) == 0xf_ffff
  }

  /** What loading makes of two double words, field by field as section 5.1.3 draws them. */
  lemma LoadedFromWords(low: uint32, high: uint32, selector: uint16)
    ensures var d := DecodeSeg(low, high);
      && (Acceptable(d, selector) <==>
        selector % 4 <= high / 0x2000 % 4 && high / 0x8000 % 2 == 1 && high / 0x80_0000 % 2 == 1
        && low % 0x1_0000 == 0xffff && high / 0x1_0000 % 0x10 == 0xf)
      && Loaded(d) == Hidden(
        low / 0x1_0000 + high % 0x100 * 0x1_0000 + high / 0x100_0000 * 0x100_0000,
        (high / 0x1_0000 % 0x10 * 0x1_0000 + low % 0x1_0000) * 0x1000 + 0xfff,
        high / 0x100 % 0x10, high / 0x2000 % 4, high / 0x10_0000 % 2)
  {
  }

  /** Base 0, limit 2^32 - 1, executable and readable, privilege 0. */
  predicate IsKernelCode(s: Hidden) { s == Hidden(0, 0xffff_ffff, 0xA, 0, 0) }

  /** `segment_translate` passes every address through this segment unchanged. */
  predicate Flat(s: Hidden) { s.base == 0 && s.limit == 0xffff_ffff }

  // ---------- the kernel's table ----------

  const NO_SEGMENT := SegDesc(0, 0, 0, 0, 0, 0, 0, 0, 0, 0, 0, 0, 0)

  function SegmentFor(dpl: uint2, kind: uint4): SegDesc {
    SegDesc(0xffff, 0, 0, kind, 1, dpl, 1, 0xf, 0, 0, 1, 1, 0)
  }

  function KernelSegments(): (s: seq<SegDesc>)
    ensures |s| == NR_SEGMENTS
  {
    [NO_SEGMENT, SegmentFor(DPL_KERNEL, SEG_EXECUTABLE + SEG_READABLE), SegmentFor(DPL_KERNEL, SEG_WRITABLE)]
  }

  method SetSegment(gdt: array<SegDesc>, n: nat, dpl: uint2, kind: uint4)
    requires n < gdt.Length
    modifies gdt
    ensures gdt[..] == old(gdt[..])[n := SegmentFor(dpl, kind)]
  {
    gdt[n] := gdt[n].(limit_15_0 := 0xffff, base_15_0 := 0, base_23_16 := 0, kind := kind, segment_type := 1);
    gdt[n] := gdt[n].(privilege_level := dpl, present := 1, limit_19_16 := 0xf, soft_use := 0, operation_size := 0);
    gdt[n] := gdt[n].(pad0 := 1, granularity := 1, base_31_24 := 0);
  }

  lemma KernelSegmentWords(kind: uint4)
    ensures var d := SegmentFor(DPL_KERNEL, kind);
      SegLow(d) == 0xffff && SegHigh(d) == 0x00cf_9000 + 0x100 * kind
    ensures SegLow(NO_SEGMENT) == SegHigh(NO_SEGMENT) == 0
  {
  }

  /** The segments of privilege 0 can be loaded by selectors of privilege 0. */
  lemma KernelSegmentLoads(kind: uint4, selector: uint16)
    requires selector % 4 == 0
    ensures var d := SegmentFor(DPL_KERNEL, kind);
      Acceptable(d, selector) && Loaded(d) == Hidden(0, 0xffff_ffff, kind, 0, 0)
  {
  }

  /** `init_segment`: the null descriptor, then code and data, which span the whole address space. */
  method InitSegment(gdt: array<SegDesc>)
    requires gdt.Length == NR_SEGMENTS
    modifies gdt
    ensures gdt[..] == KernelSegments()
    ensures forall n | 0 < n < NR_SEGMENTS :: Acceptable(gdt[n], 8 * n) && Flat(Loaded(gdt[n]))
    ensures SegLow(gdt[0]) == SegHigh(gdt[0]) == 0 && SegLow(gdt[1]) == SegLow(gdt[2]) == 0xffff
    ensures SegHigh(gdt[1]) == 0x00cf_9a00 && SegHigh(gdt[2]) == 0x00cf_9200
  {
    hide SegLow, SegHigh, SegmentFor, Acceptable, Loaded;
    KernelSegmentWords(SEG_EXECUTABLE + SEG_READABLE);
    KernelSegmentWords(SEG_WRITABLE);
    KernelSegmentLoads(SEG_EXECUTABLE + SEG_READABLE, 8);
    KernelSegmentLoads(SEG_WRITABLE, 16);
    var i := 0;
    while i < NR_SEGMENTS
      invariant i <= NR_SEGMENTS && forall j | 0 <= j < i :: gdt[j] == NO_SEGMENT
    {
      gdt[i] := NO_SEGMENT;
      i := i + 1;
    }
    SetSegment(gdt, SEG_KERNEL_CODE, DPL_KERNEL, SEG_EXECUTABLE + SEG_READABLE);
    SetSegment(gdt, SEG_KERNEL_DATA, DPL_KERNEL, SEG_WRITABLE);
  }
}
